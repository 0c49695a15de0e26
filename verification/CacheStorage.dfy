// cache_storage.rs: named lists of entries, in the order they were made.
module CacheStorage {
  import opened Wrappers
  import opened CacheEntries
  import opened Cache

  const DEFAULT_CACHE_KEY: Name := "_____WINTERJS_DEFAULT_CACHE_____"

  datatype StorageError = CannotDeleteDefault | KeyError(error: CacheError)

  // A cache that open has returned, and whether its name has kept its list since.
  datatype Handle = Handle(name: Name, entries: EntryList, live: bool)

  // The name is deleted: its handles keep their list, which is no longer named.
  function Closed(handles: seq<Handle>, name: Name): (r: seq<Handle>)
    ensures |r| == |handles|
    ensures forall i :: 0 <= i < |handles| ==>
              r[i] == if handles[i].name == name then handles[i].(live := false) else handles[i]
  {
    if handles == [] then []
    else
      var n := |handles| - 1;
      var h := handles[n];
      Closed(handles[..n], name) + [if h.name == name then h.(live := false) else h]
  }

  datatype NamedCache = NamedCache(name: Name, entries: EntryList)

  predicate InOrder(caches: seq<NamedCache>) {
    && caches != [] && caches[0].name == DEFAULT_CACHE_KEY
    && (forall i, j :: 0 <= i < j < |caches| ==> caches[i].name != caches[j].name)
    && (forall i, j :: 0 <= i < j < |caches| ==> caches[i].entries != caches[j].entries)
  }

  // A live handle has the list of its name; another has a list no name has.
  predicate HandleFits(h: Handle, caches: seq<NamedCache>) {
    if h.live then NamedCache(h.name, h.entries) in caches
    else forall c :: c in caches ==> c.entries != h.entries
  }

  predicate HandlesFit(handles: seq<Handle>, caches: seq<NamedCache>) {
    forall h :: h in handles ==> HandleFits(h, caches)
  }

  predicate Selected(c: NamedCache, cacheName: Option<Name>) {
    cacheName.None? || c.name == cacheName.value
  }

  // A cache that is not asked, or has no answer.
  ghost predicate Silent(c: NamedCache, request: Option<Request>, cacheName: Option<Name>, options: QueryOptions)
    reads c.entries
  {
    Selected(c, cacheName) ==> First(c.entries.entries, request, options) == None
  }

  // The i-th cache is the first with an answer, and this is its first.
  ghost predicate IsAnswer(caches: seq<NamedCache>, i: nat, request: Option<Request>, cacheName: Option<Name>,
                           options: QueryOptions, response: Response)
    reads set c | c in caches :: c.entries
  {
    && i < |caches| && Selected(caches[i], cacheName)
    && (forall k :: 0 <= k < i ==> Silent(caches[k], request, cacheName, options))
    && var first := First(caches[i].entries.entries, request, options);
       first.Some? && first.value.response == response
  }

  class CacheStorage {
    var caches: seq<NamedCache>
    // Every handle given out so far.
    ghost var handles: seq<Handle>

    ghost predicate Valid()
      reads this
    {
      InOrder(caches) && HandlesFit(handles, caches)
    }

    // define
    constructor ()
      ensures Valid() && handles == [] && |caches| == 1
      ensures fresh(caches[0].entries) && caches[0].entries.entries == []
    {
      var entries := new EntryList();
      caches, handles := [NamedCache(DEFAULT_CACHE_KEY, entries)], [];
    }

    // The index of a name, or the number of caches if there is none.
    method Find(key: Name) returns (index: nat)
      requires Valid()
      ensures index <= |caches|
      ensures index < |caches| ==> caches[index].name == key
      ensures index == |caches| ==> forall c :: c in caches ==> c.name != key
    {
      index := 0;
      while index < |caches|
        invariant index <= |caches| && forall i :: 0 <= i < index ==> caches[i].name != key
      {
        if caches[index].name == key {
          return;
        }
        index := index + 1;
      }
    }

    method Has(key: Name) returns (r: bool)
      requires Valid()
      ensures r <==> exists c :: c in caches && c.name == key
    {
      var index := Find(key);
      r := index < |caches|;
      assert r ==> caches[index] in caches;
    }

    method Keys() returns (keys: seq<Name>)
      requires Valid()
      ensures |keys| == |caches| && forall i :: 0 <= i < |keys| ==> keys[i] == caches[i].name
      ensures keys[0] == DEFAULT_CACHE_KEY && forall i, j :: 0 <= i < j < |keys| ==> keys[i] != keys[j]
    {
      keys := [];
      while |keys| < |caches|
        invariant |keys| <= |caches| && forall i :: 0 <= i < |keys| ==> keys[i] == caches[i].name
      {
        keys := keys + [caches[|keys|].name];
      }
    }

    // open: the list the name has, or a new one at the end.
    method Open(key: Name) returns (entries: EntryList)
      requires Valid()
      modifies this
      ensures Valid() && handles == old(handles) + [Handle(key, entries, true)]
      ensures NamedCache(key, entries) in caches
      ensures (exists c :: c in old(caches) && c.name == key) ==> caches == old(caches)
      ensures (forall c :: c in old(caches) ==> c.name != key) ==>
                && fresh(entries) && entries.entries == []
                && caches == old(caches) + [NamedCache(key, entries)]
    {
      var index := Find(key);
      if index == |caches| {
        var list := new EntryList();
        caches := caches + [NamedCache(key, list)];
        AddCache(handles, old(caches), NamedCache(key, list));
      }
      entries := caches[index].entries;
      assert caches[index] == NamedCache(key, entries);
      handles := handles + [Handle(key, entries, true)];
    }

    // delete: the name goes, the list stays with whoever holds it.
    method Delete(key: Name) returns (r: Result<bool, StorageError>)
      requires Valid()
      modifies this
      ensures Valid()
      ensures r == if key == DEFAULT_CACHE_KEY then Err(CannotDeleteDefault)
                   else Ok(exists c :: c in old(caches) && c.name == key)
      ensures r != Ok(true) ==> caches == old(caches) && handles == old(handles)
      ensures r == Ok(true) ==>
                && handles == Closed(old(handles), key)
                && exists i :: 0 <= i < |old(caches)| && old(caches)[i].name == key
                               && caches == old(caches)[..i] + old(caches)[i + 1..]
    {
      if key == DEFAULT_CACHE_KEY {
        return Err(CannotDeleteDefault);
      }
      var index := Find(key);
      if index < |caches| {
        assert caches[index] in caches;
        RemoveCache(handles, caches, index);
        caches := caches[..index] + caches[index + 1..];
        handles := Closed(handles, key);
        r := Ok(true);
      } else {
        r := Ok(false);
      }
    }

    // match: the caches in order, or the one with the given name, until one answers.
    method Match(key: RequestInfo, cacheName: Option<Name>, options: QueryOptions)
      returns (r: Result<Option<Response>, CacheError>)
      requires Valid()
      ensures ToRequest(key).None? && (exists c :: c in caches && Selected(c, cacheName)) ==> r == Err(InvalidUrl)
      ensures ToRequest(key).None? && (forall c :: c in caches ==> !Selected(c, cacheName)) ==> r == Ok(None)
      ensures ToRequest(key).Some? && r == Ok(None) ==>
                forall c :: c in caches && Selected(c, cacheName) ==>
                  First(c.entries.entries, ToRequest(key), options) == None
      ensures ToRequest(key).Some? && r != Ok(None) ==>
                r.Ok? && exists i :: 0 <= i < |caches| && IsAnswer(caches, i, ToRequest(key), cacheName, options, r.value.value)
    {
      var n := 0;
      while n < |caches|
        invariant n <= |caches|
        invariant ToRequest(key).None? ==> forall i :: 0 <= i < n ==> !Selected(caches[i], cacheName)
        invariant ToRequest(key).Some? ==>
                    forall i :: 0 <= i < n ==> Silent(caches[i], ToRequest(key), cacheName, options)
      {
        var c := caches[n];
        if Selected(c, cacheName) {
          assert c in caches;
          var responses := c.entries.MatchAllImpl(Some(key), 1, options);
          if responses.Err? {
            return Err(responses.error);
          }
          if responses.value != [] {
            assert IsAnswer(caches, n, ToRequest(key), cacheName, options, responses.value[0]);
            return Ok(Some(responses.value[0]));
          }
        }
        n := n + 1;
      }
      r := Ok(None);
    }

    // get_default, whose assertion never fails.
    method GetDefault() returns (entries: EntryList)
      requires Valid()
      ensures caches[0] == NamedCache(DEFAULT_CACHE_KEY, entries)
    {
      assert |caches| != 0 && caches[0].name == DEFAULT_CACHE_KEY;
      entries := caches[0].entries;
    }
  }

  lemma AddCache(handles: seq<Handle>, caches: seq<NamedCache>, c: NamedCache)
    requires InOrder(caches) && HandlesFit(handles, caches)
    requires forall x :: x in caches ==> x.name != c.name && x.entries != c.entries
    requires forall h :: h in handles ==> h.entries != c.entries
    ensures InOrder(caches + [c]) && HandlesFit(handles, caches + [c])
  {
  }

  lemma RemoveCache(handles: seq<Handle>, caches: seq<NamedCache>, i: nat)
    requires InOrder(caches) && HandlesFit(handles, caches) && 0 < i < |caches|
    ensures var rest := caches[..i] + caches[i + 1..];
            InOrder(rest) && HandlesFit(Closed(handles, caches[i].name), rest)
  {
    var rest := caches[..i] + caches[i + 1..];
    var closed := Closed(handles, caches[i].name);
    forall k | 0 <= k < |closed|
      ensures HandleFits(closed[k], rest)
    {
      assert handles[k] in handles;
      CloseHandle(handles[k], caches, i);
    }
  }

  lemma CloseHandle(h: Handle, caches: seq<NamedCache>, i: nat)
    requires InOrder(caches) && HandleFits(h, caches) && i < |caches|
    ensures HandleFits(if h.name == caches[i].name then h.(live := false) else h, caches[..i] + caches[i + 1..])
  {
    var rest := caches[..i] + caches[i + 1..];
    assert forall c :: c in rest ==> c in caches && c != caches[i];
    if h.live && h.name != caches[i].name {
      var j :| 0 <= j < |caches| && caches[j] == NamedCache(h.name, h.entries);
      assert rest[if j < i then j else j - 1] == caches[j];
    }
  }

  // Two handles of one name share their list while the name is not deleted; and no
  // handle of a list that has lost its name shares it with a handle of a named one.
  lemma Sharing(handles: seq<Handle>, caches: seq<NamedCache>, a: Handle, b: Handle)
    requires InOrder(caches) && HandlesFit(handles, caches) && a in handles && b in handles
    ensures a.live && b.live ==> (a.entries == b.entries <==> a.name == b.name)
    ensures a.live && !b.live ==> a.entries != b.entries
  {
    if a.live && b.live {
      var i :| 0 <= i < |caches| && caches[i] == NamedCache(a.name, a.entries);
      var j :| 0 <= j < |caches| && caches[j] == NamedCache(b.name, b.entries);
    }
  }
}
