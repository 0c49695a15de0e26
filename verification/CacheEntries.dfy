// What a Cache stores, and which stored entries a request matches.
module CacheEntries {
  import opened Wrappers
  import opened Helpers

  type Name = string

  datatype Url = Url(scheme: string, location: string, query: Option<string>, fragment: Option<string>)
  datatype Request = Request(isGet: bool, url: Url, headers: map<Name, string>)

  // The Vary header: none, one that is not readable text, or a list of names.
  datatype Vary = NoVary | Unreadable | Names(names: seq<Name>)
  datatype Response = Response(content: nat, status: nat, opaqueType: bool, vary: Vary)

  datatype Entry = Entry(request: Request, response: Response)

  datatype QueryOptions = QueryOptions(ignoreSearch: bool, ignoreMethod: bool, ignoreVary: bool)
  const DEFAULT := QueryOptions(false, false, false)

  function Header(headers: map<Name, string>, name: Name): Option<string> {
    if name in headers then Some(headers[name]) else None
  }

  function Stripped(url: Url, ignoreSearch: bool): Url {
    url.(fragment := None, query := if ignoreSearch then None else url.query)
  }

  predicate SameHeaders(a: Request, b: Request, names: seq<Name>) {
    forall i :: 0 <= i < |names| ==> Header(a.headers, names[i]) == Header(b.headers, names[i])
  }

  // Whether an entry answers a request. The names that have to agree are those the
  // stored response varies by, so this is not symmetric.
  predicate Matches(request: Request, e: Entry, options: QueryOptions) {
    && (request.isGet || options.ignoreMethod)
    && Stripped(request.url, options.ignoreSearch) == Stripped(e.request.url, options.ignoreSearch)
    && (options.ignoreVary || e.response.opaqueType ||
        match e.response.vary
        case NoVary => true
        case Unreadable => false
        case Names(names) => SameHeaders(request, e.request, names))
  }

  // The same header on both sides, or on neither.
  predicate AgreeOn(a: Request, b: Request, name: Name) {
    && (name in a.headers <==> name in b.headers)
    && (name in a.headers && name in b.headers ==> a.headers[name] == b.headers[name])
  }

  // Matching, part by part: a GET unless the method is ignored; the same scheme and
  // location; the same query unless that is ignored; and, unless Vary is ignored or
  // the response opaque, a Vary that is absent, or readable and naming no header the
  // two requests differ in. Fragments never count.
  lemma MatchesExactly(request: Request, e: Entry, options: QueryOptions)
    ensures Matches(request, e, options) <==>
              && (request.isGet || options.ignoreMethod)
              && request.url.scheme == e.request.url.scheme && request.url.location == e.request.url.location
              && (request.url.query == e.request.url.query || options.ignoreSearch)
              && (options.ignoreVary || e.response.opaqueType || e.response.vary.NoVary? ||
                  (e.response.vary.Names? &&
                   forall i :: 0 <= i < |e.response.vary.names| ==>
                     AgreeOn(request, e.request, e.response.vary.names[i])))
  {
    if e.response.vary.Names? {
      var names := e.response.vary.names;
      assert forall i :: 0 <= i < |names| ==>
        (Header(request.headers, names[i]) == Header(e.request.headers, names[i])
         <==> AgreeOn(request, e.request, names[i]));
    }
  }

  predicate Answers(key: Option<Request>, e: Entry, options: QueryOptions) {
    key.None? || Matches(key.value, e, options)
  }

  // The entries a key does, and does not, match, in order.
  function Matching(entries: seq<Entry>, key: Option<Request>, options: QueryOptions): seq<Entry> {
    if entries == [] then []
    else
      var e := entries[|entries| - 1];
      Matching(entries[..|entries| - 1], key, options) + if Answers(key, e, options) then [e] else []
  }

  function Unmatched(entries: seq<Entry>, request: Request, options: QueryOptions): seq<Entry> {
    if entries == [] then []
    else
      var e := entries[|entries| - 1];
      Unmatched(entries[..|entries| - 1], request, options) + if Matches(request, e, options) then [] else [e]
  }

  // Which entries a key matches, by their place.
  function Places(entries: seq<Entry>, key: Option<Request>, options: QueryOptions): seq<nat> {
    if entries == [] then []
    else
      var n := |entries| - 1;
      Places(entries[..n], key, options) + if Answers(key, entries[n], options) then [n] else []
  }

  // They are in order, and all.
  lemma {:induction false} PlacesInOrder(entries: seq<Entry>, key: Option<Request>, options: QueryOptions)
    ensures var places := Places(entries, key, options);
            && (forall i, j :: 0 <= i < j < |places| ==> places[i] < places[j])
            && (forall n :: n in places <==> 0 <= n < |entries| && Answers(key, entries[n], options))
    decreases |entries|
  {
    if entries != [] {
      var before := Places(entries[..|entries| - 1], key, options);
      PlacesInOrder(entries[..|entries| - 1], key, options);
      assert forall i :: 0 <= i < |before| ==> before[i] in before;
    }
  }

  // The matching entries are those at the matching places.
  lemma {:induction false} MatchingAtPlaces(entries: seq<Entry>, key: Option<Request>, options: QueryOptions)
    ensures var places := Places(entries, key, options);
            && |Matching(entries, key, options)| == |places|
            && forall i :: 0 <= i < |places| ==>
                 places[i] < |entries| && Matching(entries, key, options)[i] == entries[places[i]]
    decreases |entries|
  {
    if entries != [] {
      MatchingAtPlaces(entries[..|entries| - 1], key, options);
    }
  }

  // --- What put accepts ---

  datatype PutError = NotHttp | NotGet | PartialContent | InvalidVary | VaryStar | BodyUsed | BodyFailed

  predicate IsHttp(url: Url) {
    url.scheme == "http" || url.scheme == "https"
  }

  // The Vary check, which names the first thing wrong.
  function VaryError(vary: Vary): Option<PutError> {
    match vary
    case NoVary => None
    case Unreadable => Some(InvalidVary)
    case Names(names) => if "*" in names then Some(VaryStar) else None
  }

  // The checks put makes, in its order.
  function PutCheck(e: Entry): Option<PutError> {
    if !IsHttp(e.request.url) then Some(NotHttp)
    else if !e.request.isGet then Some(NotGet)
    else if e.response.status == 206 then Some(PartialContent)
    else if e.response.opaqueType then None
    else VaryError(e.response.vary)
  }

  predicate Storable(e: Entry) {
    PutCheck(e).None?
  }

  // What may be stored, part by part.
  lemma StorableExactly(e: Entry)
    ensures Storable(e) <==>
              && (e.request.url.scheme == "http" || e.request.url.scheme == "https")
              && e.request.isGet && e.response.status != 206
              && (e.response.opaqueType || e.response.vary.NoVary? ||
                  (e.response.vary.Names? && forall name :: name in e.response.vary.names ==> name != "*"))
  {
  }

  // And the first thing wrong with what may not.
  lemma PutErrorExactly(e: Entry)
    requires !Storable(e)
    ensures var error := PutCheck(e).value;
            && (error == NotHttp <==> e.request.url.scheme != "http" && e.request.url.scheme != "https")
            && (error == NotGet <==> error != NotHttp && !e.request.isGet)
            && (error == PartialContent <==> error != NotHttp && error != NotGet && e.response.status == 206)
            && (error == InvalidVary <==> error != NotHttp && error != NotGet && error != PartialContent
                                          && e.response.vary.Unreadable?)
            && (error == VaryStar <==> error != NotHttp && error != NotGet && error != PartialContent
                                       && e.response.vary.Names?)
  {
  }

  // Storing an entry in place of those its request matches.
  function Put(entries: seq<Entry>, e: Entry): seq<Entry> {
    Unmatched(entries, e.request, DEFAULT) + [e]
  }

  function PutAll(entries: seq<Entry>, batch: seq<Entry>): seq<Entry> {
    if batch == [] then entries else Put(PutAll(entries, batch[..|batch| - 1]), batch[|batch| - 1])
  }

  // No entry's request matches an entry before it.
  predicate Separate(entries: seq<Entry>) {
    forall i, j :: 0 <= i < j < |entries| ==> !Matches(entries[j].request, entries[i], DEFAULT)
  }

  predicate AllStorable(entries: seq<Entry>) {
    forall e :: e in entries ==> Storable(e)
  }

  predicate GoodEntries(entries: seq<Entry>) {
    Separate(entries) && AllStorable(entries)
  }

  // A stored entry is an answer to its own request.
  lemma MatchesItself(e: Entry)
    requires Storable(e)
    ensures Matches(e.request, e, DEFAULT)
  {
  }

  // Matching looks from the query's side only: some request matches an entry whose
  // own request would not match it back.
  lemma MatchingIsNotSymmetric()
    ensures exists a, b :: Storable(a) && Storable(b) &&
              Matches(a.request, b, DEFAULT) && !Matches(b.request, a, DEFAULT)
  {
    var url := Url("https", "a", None, None);
    var plain := Response(0, 200, false, NoVary);
    var a := Entry(Request(true, url, map["accept" := "x"]), plain.(vary := Names(["accept"])));
    var b := Entry(Request(true, url, map[]), plain);
    assert Header(a.request.headers, "accept") == Some("x") && Header(b.request.headers, "accept") == None;
    assert a.response.vary.names[0] == "accept";
    assert !SameHeaders(b.request, a.request, a.response.vary.names);
  }

  // --- Removing entries ---

  lemma {:induction false} UnmatchedMembers(entries: seq<Entry>, request: Request, options: QueryOptions)
    ensures forall e :: e in Unmatched(entries, request, options) <==> e in entries && !Matches(request, e, options)
    decreases |entries|
  {
    if entries != [] {
      var n := |entries| - 1;
      UnmatchedMembers(entries[..n], request, options);
      assert entries == entries[..n] + [entries[n]];
    }
  }

  lemma {:induction false} UnmatchedSeparate(entries: seq<Entry>, request: Request, options: QueryOptions)
    requires Separate(entries)
    ensures Separate(Unmatched(entries, request, options))
    decreases |entries|
  {
    if entries != [] {
      var n := |entries| - 1;
      UnmatchedSeparate(entries[..n], request, options);
      UnmatchedMembers(entries[..n], request, options);
      SeparateAppend(Unmatched(entries[..n], request, options), entries[n]);
    }
  }

  lemma SeparateAppend(entries: seq<Entry>, e: Entry)
    requires Separate(entries)
    requires forall x :: x in entries ==> !Matches(e.request, x, DEFAULT)
    ensures Separate(entries + [e])
  {
  }

  // Deleting, whatever its options, and storing keep the list good.
  lemma DeleteGood(entries: seq<Entry>, request: Request, options: QueryOptions)
    requires GoodEntries(entries)
    ensures GoodEntries(Unmatched(entries, request, options))
  {
    UnmatchedSeparate(entries, request, options);
    UnmatchedMembers(entries, request, options);
  }

  lemma PutGood(entries: seq<Entry>, e: Entry)
    requires GoodEntries(entries) && Storable(e)
    ensures GoodEntries(Put(entries, e))
  {
    DeleteGood(entries, e.request, DEFAULT);
    UnmatchedMembers(entries, e.request, DEFAULT);
    SeparateAppend(Unmatched(entries, e.request, DEFAULT), e);
  }

  lemma {:induction false} NothingMatching(entries: seq<Entry>, request: Request, options: QueryOptions)
    requires forall e :: e in entries ==> !Matches(request, e, options)
    ensures Matching(entries, Some(request), options) == []
    decreases |entries|
  {
    if entries != [] {
      NothingMatching(entries[..|entries| - 1], request, options);
    }
  }

  // Right after a put, matchAll on its request is the new entry alone.
  lemma PutIsFound(entries: seq<Entry>, e: Entry)
    requires Storable(e)
    ensures Matching(Put(entries, e), Some(e.request), DEFAULT) == [e]
  {
    var rest := Unmatched(entries, e.request, DEFAULT);
    UnmatchedMembers(entries, e.request, DEFAULT);
    NothingMatching(rest, e.request, DEFAULT);
    MatchesItself(e);
    assert Put(entries, e)[..|rest|] == rest;
  }

  // --- Batches ---

  // Entries that none of the batch's requests match.
  function Survivors(entries: seq<Entry>, batch: seq<Entry>): seq<Entry> {
    if batch == [] then entries
    else Unmatched(Survivors(entries, batch[..|batch| - 1]), batch[|batch| - 1].request, DEFAULT)
  }

  lemma {:induction false} UnmatchedAppend(a: seq<Entry>, b: seq<Entry>, request: Request, options: QueryOptions)
    ensures Unmatched(a + b, request, options) == Unmatched(a, request, options) + Unmatched(b, request, options)
    decreases |b|
  {
    if b == [] {
      assert a + b == a;
    } else {
      var n := |b| - 1;
      assert (a + b)[..|a| + n] == a + b[..n];
      UnmatchedAppend(a, b[..n], request, options);
    }
  }

  lemma {:induction false} UnmatchedAll(entries: seq<Entry>, request: Request, options: QueryOptions)
    requires forall e :: e in entries ==> !Matches(request, e, options)
    ensures Unmatched(entries, request, options) == entries
    decreases |entries|
  {
    if entries != [] {
      var n := |entries| - 1;
      UnmatchedAll(entries[..n], request, options);
      assert entries == entries[..n] + [entries[n]];
    }
  }

  // Putting a batch whose requests match no earlier member evicts no member: the
  // batch ends up last, whole and in order, after what it did not replace.
  lemma {:induction false} BatchIsKept(entries: seq<Entry>, batch: seq<Entry>)
    requires Separate(batch)
    ensures PutAll(entries, batch) == Survivors(entries, batch) + batch
    decreases |batch|
  {
    if batch != [] {
      var n := |batch| - 1;
      var e, before := batch[n], batch[..n];
      BatchIsKept(entries, before);
      assert batch == before + [e];
      PutAfter(Survivors(entries, before), before, e);
    }
  }

  lemma PutAfter(survivors: seq<Entry>, before: seq<Entry>, e: Entry)
    requires forall x :: x in before ==> !Matches(e.request, x, DEFAULT)
    ensures Put(survivors + before, e) == Unmatched(survivors, e.request, DEFAULT) + (before + [e])
  {
    UnmatchedAppend(survivors, before, e.request, DEFAULT);
    UnmatchedAll(before, e.request, DEFAULT);
  }

  lemma {:induction false} SurvivorsUnmatched(entries: seq<Entry>, batch: seq<Entry>, j: nat)
    requires j < |batch|
    ensures forall e :: e in Survivors(entries, batch) ==> e in entries && !Matches(batch[j].request, e, DEFAULT)
    decreases |batch|
  {
    var n := |batch| - 1;
    UnmatchedMembers(Survivors(entries, batch[..n]), batch[n].request, DEFAULT);
    if j < n {
      SurvivorsUnmatched(entries, batch[..n], j);
    } else if n > 0 {
      SurvivorsUnmatched(entries, batch[..n], 0);
    }
  }

  // The first entry a request matches.
  function First(entries: seq<Entry>, key: Option<Request>, options: QueryOptions): Option<Entry> {
    var found := Matching(entries, key, options);
    if found == [] then None else Some(found[0])
  }

  lemma {:induction false} MatchingAppend(a: seq<Entry>, b: seq<Entry>, key: Option<Request>, options: QueryOptions)
    ensures Matching(a + b, key, options) == Matching(a, key, options) + Matching(b, key, options)
    decreases |b|
  {
    if b == [] {
      assert a + b == a;
    } else {
      var n := |b| - 1;
      assert (a + b)[..|a| + n] == a + b[..n];
      MatchingAppend(a, b[..n], key, options);
    }
  }

  lemma FirstAt(a: seq<Entry>, e: Entry, b: seq<Entry>, request: Request)
    requires forall x :: x in a ==> !Matches(request, x, DEFAULT)
    requires Matches(request, e, DEFAULT)
    ensures First(a + [e] + b, Some(request), DEFAULT) == Some(e)
  {
    NothingMatching(a, request, DEFAULT);
    MatchingAppend(a + [e], b, Some(request), DEFAULT);
    MatchingAppend(a, [e], Some(request), DEFAULT);
    assert [e][..0] == [];
  }

  // After a batch, match on each of its requests finds that request's own entry,
  // whatever was in the cache before.
  lemma BatchIsFound(entries: seq<Entry>, batch: seq<Entry>, j: nat)
    requires Separate(batch) && AllStorable(batch) && j < |batch|
    ensures First(PutAll(entries, batch), Some(batch[j].request), DEFAULT) == Some(batch[j])
  {
    var e := batch[j];
    var a := Survivors(entries, batch) + batch[..j];
    BatchIsKept(entries, batch);
    SurvivorsUnmatched(entries, batch, j);
    MatchesItself(e);
    FirstAt(a, e, batch[j + 1..], e.request);
    assert Survivors(entries, batch) + batch == a + [e] + batch[j + 1..];
  }

  // --- Interleaved puts and deletes ---

  // The list, and the puts whose checks have passed and whose bodies are being read.
  datatype Store = Store(entries: seq<Entry>, pending: seq<Entry>)

  datatype Event =
    | StartPut(e: Entry)
    | CommitPut(i: nat)
    | FailPut(i: nat)
    | Delete(request: Request, options: QueryOptions)

  predicate Next(s: Store, event: Event, s': Store) {
    match event
    case StartPut(e) => s' == if Storable(e) then s.(pending := s.pending + [e]) else s
    case CommitPut(i) => i < |s.pending| && s' == Store(Put(s.entries, s.pending[i]), Without(s.pending, i))
    case FailPut(i) => i < |s.pending| && s' == s.(pending := Without(s.pending, i))
    case Delete(request, options) => s' == s.(entries := Unmatched(s.entries, request, options))
  }

  predicate StoreInvariant(s: Store) {
    GoodEntries(s.entries) && AllStorable(s.pending)
  }

  lemma NextInvariant(s: Store, event: Event, s': Store)
    requires StoreInvariant(s) && Next(s, event, s')
    ensures StoreInvariant(s')
  {
    match event
    case CommitPut(i) => PutGood(s.entries, s.pending[i]);
    case Delete(request, options) => DeleteGood(s.entries, request, options);
    case _ =>
  }

  predicate NextAt(trace: seq<Store>, events: seq<Event>, k: nat) {
    k + 1 < |trace| && k < |events| && Next(trace[k], events[k], trace[k + 1])
  }

  predicate Run(trace: seq<Store>, events: seq<Event>) {
    && |trace| == |events| + 1 && trace[0] == Store([], [])
    && forall k :: 0 <= k < |events| ==> NextAt(trace, events, k)
  }

  // However puts and deletes interleave, no entry's request matches an earlier entry
  // and every stored request is a GET over http or https; and what a put commits is
  // just then the only answer to its request.
  lemma {:induction false} RunInvariant(trace: seq<Store>, events: seq<Event>, n: nat)
    requires Run(trace, events) && n <= |events|
    ensures StoreInvariant(trace[n])
  {
    if n > 0 {
      RunInvariant(trace, events, n - 1);
      assert NextAt(trace, events, n - 1);
      NextInvariant(trace[n - 1], events[n - 1], trace[n]);
    }
  }

  lemma RunSafety(trace: seq<Store>, events: seq<Event>, n: nat)
    requires Run(trace, events) && n <= |events|
    ensures Separate(trace[n].entries)
    ensures forall e :: e in trace[n].entries ==> e.request.isGet && IsHttp(e.request.url) && e.response.status != 206
    ensures n < |events| && events[n].CommitPut? ==>
              && events[n].i < |trace[n].pending|
              && var e := trace[n].pending[events[n].i];
                 Matching(trace[n + 1].entries, Some(e.request), DEFAULT) == [e]
  {
    RunInvariant(trace, events, n);
    if n < |events| && events[n].CommitPut? {
      assert NextAt(trace, events, n);
      PutIsFound(trace[n].entries, trace[n].pending[events[n].i]);
    }
  }
}
