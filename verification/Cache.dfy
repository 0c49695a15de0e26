// cache/mod.rs: the operations of a Cache on its shared list of entries.
module Cache {
  import opened Wrappers
  import opened Helpers
  import opened CacheEntries

  // A URL string is parsed into a request, which may fail.
  datatype RequestInfo = UrlString(parsed: Option<Request>) | RequestObject(request: Request)

  datatype CacheError =
    | Put(error: PutError)
    | InvalidUrl
    | MatchingRequests
    | FetchFailed
    | NotOk

  datatype Fetched = NoResponse | Fetched(response: Response)

  // RequestInfo to Request
  function ToRequest(info: RequestInfo): Option<Request> {
    if info.UrlString? then info.parsed else Some(info.request)
  }

  function Responses(entries: seq<Entry>): (r: seq<Response>)
    ensures |r| == |entries|
    ensures forall i :: 0 <= i < |entries| ==> r[i] == entries[i].response
  {
    if entries == [] then [] else Responses(entries[..|entries| - 1]) + [entries[|entries| - 1].response]
  }

  function Take<T>(s: seq<T>, max: nat): seq<T> {
    if |s| <= max then s else s[..max]
  }

  lemma TakePrefix<T>(prefix: seq<T>, s: seq<T>)
    requires prefix <= s
    ensures Take(s, |prefix|) == prefix
  {
  }

  predicate IsOk(response: Response) {
    200 <= response.status <= 299
  }

  // The list that caches opened under one name share.
  class EntryList {
    var entries: seq<Entry>
    // Puts that have passed their checks and are reading the response's body.
    var pending: seq<Entry>

    constructor ()
      ensures entries == [] && pending == []
    {
      entries, pending := [], [];
    }

    function Abstract(): Store
      reads this
    {
      Store(entries, pending)
    }

    // match_all_impl. Zero asks for nothing, and does not even look at the key.
    method MatchAllImpl(key: Option<RequestInfo>, maxEntries: nat, options: QueryOptions)
      returns (r: Result<seq<Response>, CacheError>)
      ensures r == if maxEntries > 0 && key.Some? && ToRequest(key.value).None? then Err(InvalidUrl)
                   else Ok(Take(Found(entries, if key.None? then None else ToRequest(key.value), options), maxEntries))
      ensures r.Ok? ==>
                |r.value| <= maxEntries
                && r.value <= Found(entries, if key.None? then None else ToRequest(key.value), options)
    {
      if maxEntries == 0 {
        return Ok([]);
      }
      var request: Option<Request> := None;
      if key.Some? {
        request := ToRequest(key.value);
        if request.None? {
          return Err(InvalidUrl);
        }
      }
      var responses := CollectResponses(request, maxEntries, options);
      r := Ok(responses);
    }

    // The loop of match_all_impl, which stops at the maximum.
    method CollectResponses(request: Option<Request>, maxEntries: nat, options: QueryOptions)
      returns (responses: seq<Response>)
      requires maxEntries > 0
      ensures responses == Take(Found(entries, request, options), maxEntries)
    {
      responses := [];
      var n := 0;
      while n < |entries| && |responses| < maxEntries
        invariant n <= |entries| && responses == Found(entries[..n], request, options)
        invariant |responses| <= maxEntries
      {
        FoundNext(entries, n, request, options);
        if Answers(request, entries[n], options) {
          responses := responses + [entries[n].response];
        }
        n := n + 1;
      }
      FoundPrefix(entries, n, request, options, maxEntries);
    }

    // delete_impl, from the last entry to the first.
    method DeleteImpl(request: Request, options: QueryOptions) returns (result: bool)
      modifies this`entries
      ensures CacheEntries.Next(old(Abstract()), Event.Delete(request, options), Abstract())
      ensures result <==> MatchFrom(old(entries), 0, request, options)
    {
      result := false;
      ghost var was := entries;
      var i := |entries|;
      assert PartlyDeleted(was, i, request, options) == was;
      while i > 0
        invariant 0 <= i <= |was| && entries == PartlyDeleted(was, i, request, options)
        invariant result <==> MatchFrom(was, i, request, options)
      {
        i := i - 1;
        DeleteNext(was, i, request, options);
        if Matches(request, entries[i], options) {
          entries := entries[..i] + entries[i + 1..];
          result := true;
        }
      }
      assert was[0..] == was;
    }

    // put_impl until it waits for the body.
    method StartPut(e: Entry, bodyFree: bool) returns (r: Result<nat, PutError>)
      modifies this`pending
      ensures r.Ok? <==> Storable(e) && bodyFree
      ensures r.Ok? ==> CacheEntries.Next(old(Abstract()), Event.StartPut(e), Abstract())
                        && pending == old(pending) + [e] && r.value == |old(pending)|
      ensures r.Err? ==> pending == old(pending)
      ensures r.Err? ==> r.error == if PutCheck(e).Some? then PutCheck(e).value else BodyUsed
    {
      if e.request.url.scheme != "http" && e.request.url.scheme != "https" {
        return Err(NotHttp);
      }
      if !e.request.isGet {
        return Err(NotGet);
      }
      if e.response.status == 206 {
        return Err(PartialContent);
      }
      if !e.response.opaqueType && !e.response.vary.NoVary? {
        if e.response.vary.Unreadable? {
          return Err(InvalidVary);
        }
        if "*" in e.response.vary.names {
          return Err(VaryStar);
        }
      }
      if !bodyFree {
        return Err(BodyUsed);
      }
      pending := pending + [e];
      r := Ok(|pending| - 1);
    }

    // The rest of put_impl, once the body has been read.
    method CommitPut(i: nat)
      requires i < |pending|
      modifies this
      ensures CacheEntries.Next(old(Abstract()), Event.CommitPut(i), Abstract())
    {
      var e := pending[i];
      pending := Without(pending, i);
      var _ := DeleteImpl(e.request, DEFAULT);
      entries := entries + [e];
    }

    // The same, when reading the body has failed.
    method FailPut(i: nat)
      requires i < |pending|
      modifies this`pending
      ensures CacheEntries.Next(old(Abstract()), Event.FailPut(i), Abstract())
    {
      pending := Without(pending, i);
    }

    // put_impl with nothing in between.
    method PutImpl(e: Entry, body: Body) returns (r: Result<(), PutError>)
      modifies this
      ensures r.Ok? <==> Storable(e) && body == Readable
      ensures r.Err? ==> r.error == if PutCheck(e).Some? then PutCheck(e).value
                                    else if body == Taken then BodyUsed else BodyFailed
      ensures entries == if r.Ok? then CacheEntries.Put(old(entries), e) else old(entries)
      ensures pending == old(pending)
    {
      var started := StartPut(e, body != Taken);
      if started.Err? {
        return Err(started.error);
      }
      assert Without(pending, started.value) == old(pending);
      if body == Broken {
        FailPut(started.value);
        return Err(BodyFailed);
      }
      CommitPut(started.value);
      r := Ok(());
    }

    // keys, for a request or for none.
    method Keys(key: Option<RequestInfo>, options: QueryOptions) returns (r: Result<seq<Request>, CacheError>)
      ensures r == if key.Some? && ToRequest(key.value).None? then Err(InvalidUrl)
                   else Ok(Requests(Matching(entries, if key.None? then None else ToRequest(key.value), options)))
    {
      var request: Option<Request> := None;
      if key.Some? {
        request := ToRequest(key.value);
        if request.None? {
          return Err(InvalidUrl);
        }
      }
      var result := [];
      var n := 0;
      while n < |entries|
        invariant n <= |entries| && result == Requests(Matching(entries[..n], request, options))
      {
        RequestsNext(entries, n, request, options);
        if Answers(request, entries[n], options) {
          result := result + [entries[n].request];
        }
        n := n + 1;
      }
      assert entries[..n] == entries;
      r := Ok(result);
    }

    // add_all while no one else writes: fetches in order, then commits in order.
    method AddAll(requests: seq<RequestInfo>, fetched: seq<Fetched>, bodies: seq<Body>)
      returns (r: Result<(), CacheError>, committed: nat)
      requires |fetched| == |bodies| == |requests|
      modifies this
      ensures r.Ok? <==> Acceptable(requests, fetched, bodies)
      ensures committed == StoredCount(requests, fetched, bodies)
      ensures Committed(old(entries), entries, requests, fetched, committed)
    {
      committed := 0;
      EmptyBatch(requests, fetched);
      var error := CheckObjects(requests);
      if error.Some? {
        return Err(error.value), 0;
      }
      var gathered := Gather(requests, fetched);
      if gathered.Err? {
        return Err(gathered.error), 0;
      }
      r, committed := CommitAll(requests, fetched, bodies, gathered.value);
    }

    method CommitAll(requests: seq<RequestInfo>, fetched: seq<Fetched>, bodies: seq<Body>, toCommit: seq<Entry>)
      returns (r: Result<(), CacheError>, committed: nat)
      requires |fetched| == |bodies| == |requests|
      requires Gathers(requests, fetched) && toCommit == Batch(requests, fetched)
      requires ObjectsFit(requests)
      modifies this
      ensures r.Ok? <==> Acceptable(requests, fetched, bodies)
      ensures committed == StoredCount(requests, fetched, bodies)
      ensures Committed(old(entries), entries, requests, fetched, committed)
    {
      committed := 0;
      EmptyBatch(requests, fetched);
      while committed < |toCommit|
        invariant Committed(old(entries), entries, requests, fetched, committed)
        invariant forall j :: 0 <= j < committed ==> Committable(requests[j], bodies[j])
      {
        var result := CommitOne(old(entries), requests, fetched, bodies, toCommit, committed);
        if result.Err? {
          StopsAt(requests, bodies, committed);
          SuccessIsAll(requests, fetched, bodies);
          return Err(CacheError.Put(result.error)), committed;
        }
        committed := committed + 1;
      }
      StopsAt(requests, bodies, committed);
      SuccessIsAll(requests, fetched, bodies);
      r := Ok(());
    }

    method CommitOne(ghost was: seq<Entry>, ghost requests: seq<RequestInfo>, ghost fetched: seq<Fetched>,
                     bodies: seq<Body>, toCommit: seq<Entry>, n: nat)
      returns (r: Result<(), PutError>)
      requires |fetched| == |bodies| == |requests| && n < |requests|
      requires Gathers(requests, fetched) && toCommit == Batch(requests, fetched)
      requires Committed(was, entries, requests, fetched, n)
      modifies this
      ensures r.Ok? <==> Committable(requests[n], bodies[n])
      ensures r.Ok? ==> Committed(was, entries, requests, fetched, n + 1)
      ensures r.Err? ==> entries == old(entries)
    {
      CommitNext(was, entries, requests, fetched, n);
      r := PutImpl(toCommit[n], bodies[n]);
    }
  }

  // The first n of the batch have been put.
  ghost predicate Committed(was: seq<Entry>, now: seq<Entry>, requests: seq<RequestInfo>, fetched: seq<Fetched>, n: nat) {
    && n <= |requests| == |fetched| && Gathers(requests[..n], fetched[..n])
    && now == PutAll(was, Batch(requests[..n], fetched[..n]))
  }

  predicate Committable(info: RequestInfo, body: Body) {
    && body == Readable
    && ToRequest(info).Some? && IsHttp(ToRequest(info).value.url) && ToRequest(info).value.isGet
  }

  lemma CommitNext(was: seq<Entry>, now: seq<Entry>, requests: seq<RequestInfo>, fetched: seq<Fetched>, n: nat)
    requires Committed(was, now, requests, fetched, n) && Gathers(requests, fetched) && n < |requests|
    ensures Committed(was, CacheEntries.Put(now, EntryOf(requests[n], fetched[n])), requests, fetched, n + 1)
    ensures forall body :: Storable(EntryOf(requests[n], fetched[n])) && body == Readable <==> Committable(requests[n], body)
  {
    BatchNext(was, requests, fetched, n);
  }

  // How many of a batch are put one after the other before one fails.
  function Committables(requests: seq<RequestInfo>, bodies: seq<Body>): (n: nat)
    requires |bodies| == |requests|
    ensures n <= |requests|
    ensures forall j :: 0 <= j < n ==> Committable(requests[j], bodies[j])
    ensures n < |requests| ==> !Committable(requests[n], bodies[n])
  {
    if requests == [] || !Committable(requests[0], bodies[0]) then 0
    else 1 + Committables(requests[1..], bodies[1..])
  }

  // How many of a batch are stored, whether or not addAll succeeds.
  function StoredCount(requests: seq<RequestInfo>, fetched: seq<Fetched>, bodies: seq<Body>): (n: nat)
    requires |fetched| == |bodies| == |requests|
    ensures n <= |requests|
  {
    if ObjectsFit(requests) && Gathers(requests, fetched) then Committables(requests, bodies) else 0
  }

  lemma {:induction false} StopsAt(requests: seq<RequestInfo>, bodies: seq<Body>, n: nat)
    requires |bodies| == |requests| && n <= |requests|
    requires forall j :: 0 <= j < n ==> Committable(requests[j], bodies[j])
    requires n < |requests| ==> !Committable(requests[n], bodies[n])
    ensures Committables(requests, bodies) == n
  {
    if n > 0 { StopsAt(requests[1..], bodies[1..], n - 1); }
  }

  // addAll succeeds if and only if all of the batch is stored.
  lemma SuccessIsAll(requests: seq<RequestInfo>, fetched: seq<Fetched>, bodies: seq<Body>)
    requires |fetched| == |bodies| == |requests|
    ensures Acceptable(requests, fetched, bodies) <==> StoredCount(requests, fetched, bodies) == |requests|
  {
    if Acceptable(requests, fetched, bodies) {
      forall j | 0 <= j < |requests|
        ensures Committable(requests[j], bodies[j])
      {
        assert HasEntry(requests[j], fetched[j]);
      }
      StopsAt(requests, bodies, |requests|);
    }
  }

  // Part of a batch is stored, and addAll fails, exactly when the batch reaches the
  // commits, the first of them succeeds and another does not.
  lemma PartlyStored(requests: seq<RequestInfo>, fetched: seq<Fetched>, bodies: seq<Body>)
    requires |fetched| == |bodies| == |requests|
    ensures !Acceptable(requests, fetched, bodies) && StoredCount(requests, fetched, bodies) > 0 <==>
              && ObjectsFit(requests) && Gathers(requests, fetched)
              && requests != [] && Committable(requests[0], bodies[0])
              && exists j :: 0 < j < |requests| && !Committable(requests[j], bodies[j])
  {
    SuccessIsAll(requests, fetched, bodies);
  }

  // A request object, and then a URL string whose scheme is only looked at by put.
  lemma SecondSchemeFails(first: Request, second: Request, response: Response)
    requires first.isGet && IsHttp(first.url) && second.isGet && second.url.scheme == "ftp"
    requires response == Response(0, 200, false, NoVary)
    ensures var requests := [RequestObject(first), UrlString(Some(second))];
            var fetched := [Fetched(response), Fetched(response)];
            StoredCount(requests, fetched, [Readable, Readable]) == 1
  {
    var requests := [RequestObject(first), UrlString(Some(second))];
    assert !IsHttp(second.url);
    assert first.url.scheme != second.url.scheme;
    assert !Matches(second, Entry(first, response), DEFAULT);
    assert !Committable(requests[1], Readable);
    StopsAt(requests, [Readable, Readable], 1);
  }

  // Whether a response's body can be taken, and then whether it can be read.
  datatype Body = Taken | Broken | Readable

  function Requests(entries: seq<Entry>): (r: seq<Request>)
    ensures |r| == |entries|
  {
    if entries == [] then [] else Requests(entries[..|entries| - 1]) + [entries[|entries| - 1].request]
  }

  lemma RequestsNext(entries: seq<Entry>, n: nat, key: Option<Request>, options: QueryOptions)
    requires n < |entries|
    ensures Requests(Matching(entries[..n + 1], key, options))
            == Requests(Matching(entries[..n], key, options))
               + if Answers(key, entries[n], options) then [entries[n].request] else []
  {
    assert entries[..n + 1][..n] == entries[..n];
    var before := Matching(entries[..n], key, options);
    assert (before + [entries[n]])[..|before|] == before && before + [] == before;
  }

  // --- addAll ---

  predicate AllReadable(bodies: seq<Body>) {
    forall i :: 0 <= i < |bodies| ==> bodies[i] == Readable
  }

  // The checks made before anything is fetched, which skip URL strings.
  predicate ObjectsFit(requests: seq<RequestInfo>) {
    forall i :: 0 <= i < |requests| && requests[i].RequestObject? ==>
      IsHttp(requests[i].request.url) && requests[i].request.isGet
  }

  predicate ResponseFits(f: Fetched) {
    f.Fetched? && IsOk(f.response) && f.response.status != 206 && VaryError(f.response.vary).None?
  }

  // What may be gathered, part by part. An opaque response is not excused here.
  lemma ResponseFitsExactly(f: Fetched)
    ensures ResponseFits(f) <==>
              && f.Fetched? && 200 <= f.response.status <= 299 && f.response.status != 206
              && (f.response.vary.NoVary? ||
                  (f.response.vary.Names? && forall name :: name in f.response.vary.names ==> name != "*"))
  {
  }

  predicate HasEntry(info: RequestInfo, f: Fetched) {
    ToRequest(info).Some? && f.Fetched?
  }

  function EntryOf(info: RequestInfo, f: Fetched): Entry
    requires HasEntry(info, f)
  {
    Entry(ToRequest(info).value, f.response)
  }

  // All requests parse, all responses fit, and no request matches an earlier pair.
  predicate Gathers(requests: seq<RequestInfo>, fetched: seq<Fetched>) {
    && |requests| == |fetched|
    && (forall i :: 0 <= i < |requests| ==> HasEntry(requests[i], fetched[i]) && ResponseFits(fetched[i]))
    && forall i, j :: 0 <= i < j < |requests| ==>
         !Matches(ToRequest(requests[j]).value, EntryOf(requests[i], fetched[i]), DEFAULT)
  }

  function Batch(requests: seq<RequestInfo>, fetched: seq<Fetched>): (batch: seq<Entry>)
    requires |requests| == |fetched|
    requires forall i :: 0 <= i < |requests| ==> HasEntry(requests[i], fetched[i])
    ensures |batch| == |requests|
    ensures forall i :: 0 <= i < |batch| ==> batch[i] == EntryOf(requests[i], fetched[i])
  {
    if requests == [] then []
    else
      var n := |requests| - 1;
      Batch(requests[..n], fetched[..n]) + [EntryOf(requests[n], fetched[n])]
  }

  // When addAll succeeds.
  predicate Acceptable(requests: seq<RequestInfo>, fetched: seq<Fetched>, bodies: seq<Body>) {
    && Gathers(requests, fetched) && AllReadable(bodies)
    && forall i :: 0 <= i < |requests| ==>
         IsHttp(ToRequest(requests[i]).value.url) && ToRequest(requests[i]).value.isGet
  }

  // A batch that addAll accepts is kept whole and in order, and match on each of its
  // requests finds the response fetched for it.
  lemma AddAllKeepsBatch(entries: seq<Entry>, requests: seq<RequestInfo>, fetched: seq<Fetched>, bodies: seq<Body>)
    requires |fetched| == |bodies| == |requests| && Acceptable(requests, fetched, bodies)
    ensures var batch := Batch(requests, fetched);
            && PutAll(entries, batch) == Survivors(entries, batch) + batch
            && forall j :: 0 <= j < |batch| ==>
                 First(PutAll(entries, batch), Some(batch[j].request), DEFAULT) == Some(batch[j])
  {
    var batch := Batch(requests, fetched);
    assert forall e :: e in batch ==> Storable(e);
    BatchIsKept(entries, batch);
    forall j | 0 <= j < |batch|
      ensures First(PutAll(entries, batch), Some(batch[j].request), DEFAULT) == Some(batch[j])
    {
      BatchIsFound(entries, batch, j);
    }
  }

  lemma EmptyBatch(requests: seq<RequestInfo>, fetched: seq<Fetched>)
    ensures requests[..0] == [] && fetched[..0] == [] && Gathers(requests[..0], fetched[..0])
    ensures Batch(requests[..0], fetched[..0]) == []
  {
  }

  lemma BatchNext(entries: seq<Entry>, requests: seq<RequestInfo>, fetched: seq<Fetched>, n: nat)
    requires Gathers(requests, fetched) && n < |requests|
    ensures Gathers(requests[..n], fetched[..n]) && Gathers(requests[..n + 1], fetched[..n + 1])
    ensures var e := EntryOf(requests[n], fetched[n]);
            PutAll(entries, Batch(requests[..n + 1], fetched[..n + 1]))
            == CacheEntries.Put(PutAll(entries, Batch(requests[..n], fetched[..n])), e)
    ensures PutCheck(EntryOf(requests[n], fetched[n])).None? <==>
              IsHttp(ToRequest(requests[n]).value.url) && ToRequest(requests[n]).value.isGet
  {
    var e := EntryOf(requests[n], fetched[n]);
    var before := Batch(requests[..n], fetched[..n]);
    assert Batch(requests[..n + 1], fetched[..n + 1]) == before + [e];
    assert (before + [e])[..n] == before;
  }

  // What is wrong with a request object, the scheme first.
  function ObjectError(info: RequestInfo): Option<CacheError> {
    if info.UrlString? then None
    else if !IsHttp(info.request.url) then Some(Put(NotHttp))
    else if !info.request.isGet then Some(Put(NotGet))
    else None
  }

  // What is wrong with the i-th request and its response, those before it being fine.
  function PairError(requests: seq<RequestInfo>, fetched: seq<Fetched>, i: nat): Option<CacheError>
    requires i < |requests| == |fetched| && Gathers(requests[..i], fetched[..i])
  {
    var request := ToRequest(requests[i]);
    if request.None? then Some(InvalidUrl)
    else if exists k :: 0 <= k < i && HasEntry(requests[k], fetched[k])
                        && Matches(request.value, EntryOf(requests[k], fetched[k]), DEFAULT) then Some(MatchingRequests)
    else if fetched[i].NoResponse? then Some(FetchFailed)
    else if !IsOk(fetched[i].response) then Some(NotOk)
    else if fetched[i].response.status == 206 then Some(Put(PartialContent))
    else if VaryError(fetched[i].response.vary).Some? then Some(Put(VaryError(fetched[i].response.vary).value))
    else None
  }

  method CheckObjects(requests: seq<RequestInfo>) returns (error: Option<CacheError>)
    ensures error.None? <==> ObjectsFit(requests)
    ensures error.Some? ==> exists i :: 0 <= i < |requests| && ObjectsFit(requests[..i]) && ObjectError(requests[i]) == error
  {
    for i := 0 to |requests|
      invariant ObjectsFit(requests[..i])
    {
      if requests[i].RequestObject? {
        var req := requests[i].request;
        if req.url.scheme != "http" && req.url.scheme != "https" {
          return Some(Put(NotHttp));
        }
        if !req.isGet {
          return Some(Put(NotGet));
        }
      }
    }
    assert requests[..|requests|] == requests;
    error := None;
  }

  // The fetching loop.
  method Gather(requests: seq<RequestInfo>, fetched: seq<Fetched>) returns (r: Result<seq<Entry>, CacheError>)
    requires |fetched| == |requests|
    ensures r.Ok? <==> Gathers(requests, fetched)
    ensures r.Ok? ==> r.value == Batch(requests, fetched)
    ensures r.Err? ==> exists i :: 0 <= i < |requests| && Gathers(requests[..i], fetched[..i])
                                   && PairError(requests, fetched, i) == Some(r.error)
  {
    var toCommit: seq<Entry> := [];
    for i := 0 to |requests|
      invariant Gathers(requests[..i], fetched[..i]) && toCommit == Batch(requests[..i], fetched[..i])
    {
      var request := ToRequest(requests[i]);
      if request.None? {
        return Err(InvalidUrl);
      }
      var clash := FindClash(request.value, toCommit);
      if clash.Some? {
        return Err(MatchingRequests);
      }
      var error := CheckFetched(fetched[i]);
      if error.Some? {
        return Err(error.value);
      }
      toCommit := toCommit + [Entry(request.value, fetched[i].response)];
    }
    assert requests[..|requests|] == requests && fetched[..|requests|] == fetched;
    r := Ok(toCommit);
  }

  method FindClash(request: Request, toCommit: seq<Entry>) returns (clash: Option<nat>)
    ensures clash.Some? ==> clash.value < |toCommit| && Matches(request, toCommit[clash.value], DEFAULT)
    ensures clash.None? ==> forall i :: 0 <= i < |toCommit| ==> !Matches(request, toCommit[i], DEFAULT)
  {
    for i := 0 to |toCommit|
      invariant forall k :: 0 <= k < i ==> !Matches(request, toCommit[k], DEFAULT)
    {
      if Matches(request, toCommit[i], DEFAULT) {
        return Some(i);
      }
    }
    clash := None;
  }

  method CheckFetched(f: Fetched) returns (error: Option<CacheError>)
    ensures error.None? <==> ResponseFits(f)
    ensures error.Some? ==>
              error.value == if f.NoResponse? then FetchFailed
                             else if !IsOk(f.response) then NotOk
                             else if f.response.status == 206 then Put(PartialContent)
                             else Put(VaryError(f.response.vary).value)
    ensures error.Some? && f.Fetched? && IsOk(f.response) && f.response.status != 206 ==>
              VaryError(f.response.vary).Some?
  {
    if f.NoResponse? {
      return Some(FetchFailed);
    }
    if !IsOk(f.response) {
      return Some(NotOk);
    }
    if f.response.status == 206 {
      return Some(Put(PartialContent));
    }
    match f.response.vary
    case NoVary => error := None;
    case Unreadable => error := Some(Put(InvalidVary));
    case Names(names) => error := if "*" in names then Some(Put(VaryStar)) else None;
  }

  // The responses of the entries a key matches, in order.
  function Found(entries: seq<Entry>, key: Option<Request>, options: QueryOptions): seq<Response> {
    Responses(Matching(entries, key, options))
  }

  lemma FoundNext(entries: seq<Entry>, n: nat, key: Option<Request>, options: QueryOptions)
    requires n < |entries|
    ensures Found(entries[..n + 1], key, options)
            == Found(entries[..n], key, options)
               + if Answers(key, entries[n], options) then [entries[n].response] else []
  {
    assert entries[..n + 1][..n] == entries[..n];
    var before := Matching(entries[..n], key, options);
    assert (before + [entries[n]])[..|before|] == before && before + [] == before;
  }

  // A search that stops at the end, or with as many responses as asked for.
  lemma FoundPrefix(entries: seq<Entry>, n: nat, key: Option<Request>, options: QueryOptions, max: nat)
    requires n <= |entries| && |Found(entries[..n], key, options)| <= max
    requires n < |entries| ==> |Found(entries[..n], key, options)| == max
    ensures Found(entries[..n], key, options) == Take(Found(entries, key, options), max)
  {
    MatchingAppend(entries[..n], entries[n..], key, options);
    assert entries[..n] + entries[n..] == entries;
    if n == |entries| {
      assert entries[..n] == entries;
    } else {
      TakePrefix(Found(entries[..n], key, options), Found(entries, key, options));
    }
  }

  // The entries below i untouched, and of the others those that do not match.
  function PartlyDeleted(was: seq<Entry>, i: nat, request: Request, options: QueryOptions): seq<Entry>
    requires i <= |was|
  {
    was[..i] + Unmatched(was[i..], request, options)
  }

  predicate MatchFrom(was: seq<Entry>, i: nat, request: Request, options: QueryOptions) {
    exists j :: i <= j < |was| && Matches(request, was[j], options)
  }

  lemma DeleteNext(was: seq<Entry>, i: nat, request: Request, options: QueryOptions)
    requires i < |was|
    ensures var s := PartlyDeleted(was, i + 1, request, options);
            && s[i] == was[i]
            && PartlyDeleted(was, i, request, options)
               == if Matches(request, was[i], options) then s[..i] + s[i + 1..] else s
    ensures MatchFrom(was, i, request, options)
            <==> Matches(request, was[i], options) || MatchFrom(was, i + 1, request, options)
  {
    UnmatchedCons(was, i, request, options);
  }

  lemma UnmatchedCons(entries: seq<Entry>, i: nat, request: Request, options: QueryOptions)
    requires i < |entries|
    ensures Unmatched(entries[i..], request, options)
            == (if Matches(request, entries[i], options) then [] else [entries[i]])
               + Unmatched(entries[i + 1..], request, options)
  {
    assert entries[i..] == [entries[i]] + entries[i + 1..];
    UnmatchedAppend([entries[i]], entries[i + 1..], request, options);
    assert [entries[i]][..0] == [];
  }
}
