// async_hooks.ts: a stack of frames, each a copied association list, behind the
// AsyncLocalStorage and AsyncResource interfaces.
module AsyncHooks {
  import opened Wrappers
  import opened Helpers
  import opened AsyncContext
  import AsyncLaws

  // A key and a value, as an entry holds them.
  datatype Pair = Pair(key: Key, value: Value)

  // storage.find(entry => entry.key === key)?.value
  function Lookup(storage: seq<Pair>, key: Key): Value {
    if storage == [] then Undefined
    else if storage[0].key == key then storage[0].value
    else Lookup(storage[1..], key)
  }

  // storage.filter(entry => !entry.key.isDead())
  function Live(storage: seq<Pair>, dead: set<Key>): seq<Pair> {
    if storage == [] then []
    else if storage[0].key in dead then Live(storage[1..], dead)
    else [storage[0]] + Live(storage[1..], dead)
  }

  // The list answers for every live key as the environment does.
  ghost predicate Models(storage: seq<Pair>, env: Env, dead: set<Key>) {
    forall key {:trigger Lookup(storage, key)} :: key !in dead ==> Lookup(storage, key) == Get(env, key)
  }

  // Filtering is invisible to live keys.
  lemma {:induction false} LiveLookup(storage: seq<Pair>, dead: set<Key>, key: Key)
    requires key !in dead
    ensures Lookup(Live(storage, dead), key) == Lookup(storage, key)
  {
    if storage != [] {
      LiveLookup(storage[1..], dead, key);
      var rest := Live(storage[1..], dead);
      assert ([storage[0]] + rest)[1..] == rest;
    }
  }

  lemma LiveModels(storage: seq<Pair>, env: Env, dead: set<Key>)
    requires Models(storage, env, dead)
    ensures Models(Live(storage, dead), env, dead)
  {
    forall key | key !in dead
      ensures Lookup(Live(storage, dead), key) == Get(env, key)
    {
      LiveLookup(storage, dead, key);
    }
  }

  // An entry overwritten in the first place its key occurs, or added at the end,
  // changes the answer for its key only.
  lemma {:induction false} LookupOverwrite(storage: seq<Pair>, i: nat, entry: Pair, k: Key)
    requires i < |storage| && storage[i].key == entry.key
    requires forall j :: 0 <= j < i ==> storage[j].key != entry.key
    ensures Lookup(storage[i := entry], k) == if k == entry.key then entry.value else Lookup(storage, k)
    decreases i
  {
    if i > 0 {
      assert storage[i := entry][1..] == storage[1..][i - 1 := entry];
      LookupOverwrite(storage[1..], i - 1, entry, k);
    } else {
      assert storage[i := entry][1..] == storage[1..];
    }
  }

  lemma {:induction false} LookupAppend(storage: seq<Pair>, entry: Pair, k: Key)
    requires forall j :: 0 <= j < |storage| ==> storage[j].key != entry.key
    ensures Lookup(storage + [entry], k) == if k == entry.key then entry.value else Lookup(storage, k)
  {
    if storage != [] {
      assert (storage + [entry])[1..] == storage[1..] + [entry];
      LookupAppend(storage[1..], entry, k);
    } else {
      assert [entry][1..] == [];
    }
  }

  lemma OverwriteModels(storage: seq<Pair>, i: nat, entry: Pair, env: Env, dead: set<Key>)
    requires i < |storage| && storage[i].key == entry.key
    requires forall j :: 0 <= j < i ==> storage[j].key != entry.key
    requires Models(storage, env, dead)
    ensures Models(storage[i := entry], env[entry.key := entry.value], dead)
  {
    forall k | k !in dead
      ensures Lookup(storage[i := entry], k) == Get(env[entry.key := entry.value], k)
    {
      LookupOverwrite(storage, i, entry, k);
    }
  }

  lemma AppendModels(storage: seq<Pair>, entry: Pair, env: Env, dead: set<Key>)
    requires forall j :: 0 <= j < |storage| ==> storage[j].key != entry.key
    requires Models(storage, env, dead)
    ensures Models(storage + [entry], env[entry.key := entry.value], dead)
  {
    forall k | k !in dead
      ensures Lookup(storage + [entry], k) == Get(env[entry.key := entry.value], k)
    {
      LookupAppend(storage, entry, k);
    }
  }

  class StorageEntry {
    const key: Key
    var value: Value

    constructor (key: Key, value: Value)
      ensures this.key == key && this.value == value
    {
      this.key, this.value := key, value;
    }

    method Clone() returns (copy: StorageEntry)
      ensures fresh(copy) && copy.key == key && copy.value == value
    {
      copy := new StorageEntry(key, value);
    }
  }

  // What a list of entries holds.
  function Contents(storage: seq<StorageEntry>): (pairs: seq<Pair>)
    reads storage
    ensures |pairs| == |storage|
    ensures forall i :: 0 <= i < |storage| ==> pairs[i] == Pair(storage[i].key, storage[i].value)
  {
    if storage == [] then []
    else [Pair(storage[0].key, storage[0].value)] + Contents(storage[1..])
  }

  function LiveEntries(storage: seq<StorageEntry>, dead: set<Key>): (live: seq<StorageEntry>)
    ensures forall e :: e in live ==> e in storage
  {
    if storage == [] then []
    else if storage[0].key in dead then LiveEntries(storage[1..], dead)
    else [storage[0]] + LiveEntries(storage[1..], dead)
  }

  lemma {:induction false} LiveContents(storage: seq<StorageEntry>, dead: set<Key>)
    ensures Contents(LiveEntries(storage, dead)) == Live(Contents(storage), dead)
  {
    if storage != [] {
      LiveContents(storage[1..], dead);
      var rest := LiveEntries(storage[1..], dead);
      assert ([storage[0]] + rest)[1..] == rest;
      assert Contents(storage)[1..] == Contents(storage[1..]);
    }
  }

  class AsyncContextFrame {
    var storage: seq<StorageEntry>

    // The root frame copies nothing.
    constructor Root()
      ensures storage == []
    {
      storage := [];
    }

    // A frame derived from parent: its live entries are cloned, and the given entry
    // overwrites the clone with its key or is added. No entry of another frame changes.
    constructor (parent: AsyncContextFrame, entry: StorageEntry, dead: set<Key>, ghost env: Env)
      requires Models(Contents(parent.storage), env, dead)
      modifies parent
      ensures Models(Contents(parent.storage), env, dead)
      ensures Models(Contents(storage), env[entry.key := entry.value], dead)
    {
      LiveModels(Contents(parent.storage), env, dead);
      LiveContents(parent.storage, dead);
      storage := [];
      new;
      parent.storage := LiveEntries(parent.storage, dead);
      storage := Propagate(parent.storage, entry, dead, env);
    }

    // frame.get(key); a dead key fails its assertion.
    method Get(key: Key, dead: set<Key>, ghost env: Env) returns (value: Value)
      requires key !in dead && Models(Contents(storage), env, dead)
      modifies this
      ensures Models(Contents(storage), env, dead)
      ensures value == AsyncContext.Get(env, key)
    {
      LiveModels(Contents(storage), env, dead);
      LiveContents(storage, dead);
      storage := LiveEntries(storage, dead);
      var i := Find(storage, key);
      LookupFound(Contents(storage), i, key);
      value := if i < |storage| then storage[i].value else Undefined;
    }
  }

  method Clones(entries: seq<StorageEntry>) returns (copies: seq<StorageEntry>)
    ensures forall e :: e in copies ==> fresh(e)
    ensures forall i, j :: 0 <= i < j < |copies| ==> copies[i] != copies[j]
    ensures Contents(copies) == Contents(entries)
  {
    copies := [];
    while |copies| < |entries|
      invariant |copies| <= |entries| && forall e :: e in copies ==> fresh(e)
      invariant forall i, j :: 0 <= i < j < |copies| ==> copies[i] != copies[j]
      invariant forall i :: 0 <= i < |copies| ==>
                  copies[i].key == entries[i].key && copies[i].value == entries[i].value
    {
      var copy := entries[|copies|].Clone();
      copies := copies + [copy];
    }
  }

  // storage.find: the first entry with the key.
  method Find(storage: seq<StorageEntry>, key: Key) returns (i: nat)
    ensures i <= |storage| && (i < |storage| ==> storage[i].key == key)
    ensures forall j :: 0 <= j < i ==> storage[j].key != key
  {
    i := 0;
    while i < |storage| && storage[i].key != key
      invariant i <= |storage| && forall j :: 0 <= j < i ==> storage[j].key != key
    {
      i := i + 1;
    }
  }

  lemma {:induction false} LookupFound(pairs: seq<Pair>, i: nat, key: Key)
    requires i <= |pairs| && (i < |pairs| ==> pairs[i].key == key)
    requires forall j :: 0 <= j < i ==> pairs[j].key != key
    ensures Lookup(pairs, key) == if i < |pairs| then pairs[i].value else Undefined
  {
    if i > 0 { LookupFound(pairs[1..], i - 1, key); }
  }

  // The end of propagate: the entries are cloned, and the new one takes its place.
  method Propagate(entries: seq<StorageEntry>, entry: StorageEntry, dead: set<Key>, ghost env: Env)
    returns (storage: seq<StorageEntry>)
    requires Models(Contents(entries), env, dead)
    ensures Models(Contents(storage), env[entry.key := entry.value], dead)
  {
    var copies := Clones(entries);
    var i := Find(copies, entry.key);
    ghost var pairs := Contents(copies);
    ghost var pair := Pair(entry.key, entry.value);
    if i < |copies| {
      OverwriteModels(pairs, i, pair, env, dead);
      assert copies[i] in copies;
      SetValue(copies, i, entry.value);
      storage := copies;
    } else {
      AppendModels(pairs, pair, env, dead);
      storage := copies + [entry];
      assert Contents(storage) == pairs + [pair];
    }
  }

  // existingEntry.value = value
  method SetValue(storage: seq<StorageEntry>, i: nat, value: Value)
    requires i < |storage| && forall j, k :: 0 <= j < k < |storage| ==> storage[j] != storage[k]
    modifies storage[i]
    ensures Contents(storage) == old(Contents(storage))[i := Pair(storage[i].key, value)]
  {
    storage[i].value := value;
  }

  datatype BoundFunction = BoundFunction(frame: AsyncContextFrame, body: Option<Prog>)
  datatype DeferredCall = DeferredCall(frame: AsyncContextFrame, body: Prog, repeating: bool)

  // The script's variables that hold objects of this module, the host's queue of
  // callbacks, and what getStore has answered.
  datatype State = State(
    resources: map<nat, AsyncContextFrame>,
    callables: map<nat, BoundFunction>,
    tasks: seq<DeferredCall>,
    log: seq<(Key, Value)>
  )

  // A frame stands for an environment.
  type Meaning = map<AsyncContextFrame, Env>

  ghost predicate Stands(frame: AsyncContextFrame, env: Env, envs: Meaning) {
    frame in envs && envs[frame] == env
  }

  // The state is that world, with frames in place of the environments they stand for.
  ghost predicate Represents(state: State, w: World, envs: Meaning) {
    && state.log == w.log
    && state.resources.Keys == w.resources.Keys
    && (forall slot :: slot in state.resources ==> Stands(state.resources[slot], w.resources[slot], envs))
    && state.callables.Keys == w.callables.Keys
    && (forall slot :: slot in state.callables ==>
          && state.callables[slot].body == w.callables[slot].body
          && Stands(state.callables[slot].frame, w.callables[slot].env, envs))
    && |state.tasks| == |w.tasks|
    && (forall i :: 0 <= i < |state.tasks| ==>
          && state.tasks[i].body == w.tasks[i].body && state.tasks[i].repeating == w.tasks[i].repeating
          && Stands(state.tasks[i].frame, w.tasks[i].env, envs))
  }

  ghost predicate Extends(envs: Meaning, envs': Meaning) {
    forall f :: f in envs ==> f in envs' && envs'[f] == envs[f]
  }

  // New frames change the meaning of nothing that was there.
  lemma RepresentsExtends(state: State, w: World, envs: Meaning, envs': Meaning)
    requires Represents(state, w, envs) && Extends(envs, envs')
    ensures Represents(state, w, envs')
  {
  }

  function SetResource(state: State, slot: nat, frame: AsyncContextFrame): State {
    state.(resources := state.resources[slot := frame])
  }

  function SetCallable(state: State, target: nat, frame: AsyncContextFrame, body: Option<Prog>): State {
    state.(callables := state.callables[target := BoundFunction(frame, body)])
  }

  function AddTask(state: State, frame: AsyncContextFrame, body: Prog, repeating: bool): State {
    state.(tasks := state.tasks + [DeferredCall(frame, body, repeating)])
  }

  lemma RepresentsResource(state: State, slot: nat, frame: AsyncContextFrame, w: World, envs: Meaning)
    requires Represents(state, w, envs) && frame in envs
    ensures Represents(SetResource(state, slot, frame),
                       Perform(Action.NewResource(slot), envs[frame], w).1, envs)
  {
  }

  lemma RepresentsCallable(state: State, target: nat, frame: AsyncContextFrame, body: Option<Prog>, w: World, envs: Meaning)
    requires Represents(state, w, envs) && frame in envs
    ensures Represents(SetCallable(state, target, frame, body),
                       Perform(Action.Bind(target, body), envs[frame], w).1, envs)
  {
  }

  lemma RepresentsTask(state: State, frame: AsyncContextFrame, body: Prog, repeating: bool, w: World, envs: Meaning)
    requires Represents(state, w, envs) && frame in envs
    ensures Represents(AddTask(state, frame, body, repeating),
                       Perform(Action.Defer(body, repeating), envs[frame], w).1, envs)
  {
  }

  lemma RepresentsRemove(state: State, i: nat, w: World, envs: Meaning)
    requires Represents(state, w, envs) && i < |state.tasks|
    ensures Represents(state.(tasks := Without(state.tasks, i)), w.(tasks := Without(w.tasks, i)), envs)
  {
  }

  // The module-level state of async_hooks.ts, with the script and host around it.
  class Runtime {
    var asyncContextStack: seq<AsyncContextFrame>
    var rootAsyncFrame: AsyncContextFrame?
    var dead: set<Key>
    var state: State

    // Every frame made so far with the environment it stands for, and the state
    // with environments in place of frames.
    ghost var envs: Meaning
    ghost var world: World

    constructor ()
      ensures Valid() && asyncContextStack == [] && world == START
      ensures envs == map[]
    {
      asyncContextStack, rootAsyncFrame := [], null;
      dead, state := {}, State(map[], map[], [], []);
      envs, world := map[], START;
    }

    // The entries of all frames.
    ghost function Entries(): (r: set<StorageEntry>)
      reads this`envs, envs.Keys
      ensures forall f, e :: f in envs && e in f.storage ==> e in r
    {
      set f, e | f in envs && e in f.storage :: e
    }

    ghost predicate Holds(f: AsyncContextFrame)
      reads this`dead, this`envs, f, f.storage
    {
      f in envs && Models(Contents(f.storage), envs[f], dead)
    }

    // Every frame stands for its environment, and those in use are known.
    ghost predicate FramesHold()
      reads this`dead, this`envs, envs.Keys, Entries()
    {
      forall f {:trigger Holds(f)} :: f in envs ==> Holds(f)
    }

    ghost predicate FramesKnown()
      reads this`asyncContextStack, this`rootAsyncFrame, this`envs
    {
      && (forall f :: f in asyncContextStack ==> f in envs)
      && (rootAsyncFrame != null ==> Stands(rootAsyncFrame, map[], envs))
    }

    ghost predicate Valid()
      reads this, envs.Keys, Entries()
    {
      FramesHold() && FramesKnown() && world.dead == dead && Represents(state, world, envs)
    }

    // The environment of the frame on top of the stack.
    ghost function CurrentEnv(): Env
      reads this`asyncContextStack, this`envs
      requires forall f :: f in asyncContextStack ==> f in envs
    {
      if asyncContextStack == [] then map[] else envs[asyncContextStack[|asyncContextStack| - 1]]
    }

    // Frames keep the environment they stand for; others are new.
    twostate predicate Grown()
      reads this`envs
    {
      && Extends(old(envs), envs)
      && (forall f :: f in envs && f !in old(envs) ==> fresh(f))
    }

    // AsyncContextFrame.current()
    method Current() returns (frame: AsyncContextFrame)
      requires Valid()
      modifies this`rootAsyncFrame, this`envs
      ensures Valid() && Grown() && Stands(frame, old(CurrentEnv()), envs)
    {
      if asyncContextStack == [] {
        frame := Root();
      } else {
        frame := asyncContextStack[|asyncContextStack| - 1];
      }
    }

    // AsyncContextFrame.getRootAsyncContext()
    method Root() returns (frame: AsyncContextFrame)
      requires Valid()
      modifies this`rootAsyncFrame, this`envs
      ensures Valid() && Grown() && Stands(frame, map[], envs)
    {
      if rootAsyncFrame == null {
        var root := new AsyncContextFrame.Root();
        rootAsyncFrame := root;
        envs := envs[root := map[]];
        RepresentsExtends(state, world, old(envs), envs);
        forall f | f in envs
          ensures Holds(f)
        {
          assert f != root ==> old(Holds(f));
        }
      }
      frame := rootAsyncFrame;
    }

    // AsyncContextFrame.create(null, new StorageEntry(key, value))
    method Create(key: Key, value: Value) returns (frame: AsyncContextFrame)
      requires Valid()
      modifies this`rootAsyncFrame, this`envs, envs.Keys
      ensures Valid() && Grown() && Stands(frame, old(CurrentEnv())[key := value], envs)
    {
      var parent := Current();
      var entry := new StorageEntry(key, value);
      frame := Derive(parent, entry);
    }

    method Derive(parent: AsyncContextFrame, entry: StorageEntry) returns (frame: AsyncContextFrame)
      requires Valid() && parent in envs
      modifies this`envs, parent
      ensures Valid() && Grown() && fresh(frame)
      ensures Stands(frame, old(envs[parent])[entry.key := entry.value], envs)
    {
      ghost var env := envs[parent];
      assert Holds(parent);
      frame := new AsyncContextFrame(parent, entry, dead, env);
      ghost var envs' := envs[frame := env[entry.key := entry.value]];
      RepresentsExtends(state, world, envs, envs');
      envs := envs';
      forall f | f in envs
        ensures Holds(f)
      {
        assert f != frame ==> old(Holds(f));
      }
    }

    // A fragment has run: the stack is back as it was, frames stand for what they
    // stood for, and the outcome and effects are these.
    twostate predicate Ran(o: Outcome, result: (Outcome, World))
      reads this, envs.Keys, Entries()
    {
      Valid() && Grown() && asyncContextStack == old(asyncContextStack) && (o, world) == result
    }

    // Nothing more happens.
    method Stop(o: Outcome)
      requires Valid()
      ensures Ran(o, (o, old(world)))
    {
    }

    // storage.getStore()
    method GetStore(key: Key) returns (o: Outcome)
      requires Valid()
      modifies this`rootAsyncFrame, this`envs, this`state, this`world, envs.Keys
      ensures Ran(o, Perform(Action.GetStore(key), old(CurrentEnv()), old(world)))
    {
      var frame := Current();
      o := Threw;
      if key !in dead {
        Answer(frame, key);
        o := Returned;
      }
    }

    // currentFrame.get(key), heard by the script.
    method Answer(frame: AsyncContextFrame, key: Key)
      requires Valid() && frame in envs && key !in dead
      modifies this`state, this`world, frame
      ensures Valid()
      ensures world == old(world).(log := old(world).log + [(key, AsyncContext.Get(envs[frame], key))])
    {
      assert Holds(frame);
      var value := frame.Get(key, dead, envs[frame]);
      state := state.(log := state.log + [(key, value)]);
      world := world.(log := world.log + [(key, value)]);
      forall f | f in envs
        ensures Holds(f)
      {
        assert old(Holds(f));
      }
    }

    // new AsyncResource(...), kept in a variable
    method NewResource(slot: nat)
      requires Valid()
      modifies this`rootAsyncFrame, this`envs, this`state, this`world
      ensures Ran(Returned, Perform(Action.NewResource(slot), old(CurrentEnv()), old(world)))
    {
      var frame := Current();
      RepresentsResource(state, slot, frame, world, envs);
      state := SetResource(state, slot, frame);
      world := Perform(Action.NewResource(slot), envs[frame], world).1;
    }

    // AsyncResource.bind, resource.bind and snapshot: the frame captured is the
    // current one, not that of any resource.
    method Bind(target: nat, body: Option<Prog>)
      requires Valid()
      modifies this`rootAsyncFrame, this`envs, this`state, this`world
      ensures Ran(Returned, Perform(Action.Bind(target, body), old(CurrentEnv()), old(world)))
    {
      var frame := Current();
      RepresentsCallable(state, target, frame, body, world, envs);
      state := SetCallable(state, target, frame, body);
      world := Perform(Action.Bind(target, body), envs[frame], world).1;
    }

    // setTimeout, setInterval and queueMicrotask
    method Defer(body: Prog, repeating: bool)
      requires Valid()
      modifies this`rootAsyncFrame, this`envs, this`state, this`world
      ensures Ran(Returned, Perform(Action.Defer(body, repeating), old(CurrentEnv()), old(world)))
    {
      var currentFrame := Current();
      RepresentsTask(state, currentFrame, body, repeating, world, envs);
      state := AddTask(state, currentFrame, body, repeating);
      world := Perform(Action.Defer(body, repeating), envs[currentFrame], world).1;
    }

    // The finalizer of a storage marks its key dead.
    method Collect(key: Key)
      requires Valid()
      modifies this`dead, this`world
      ensures Ran(Returned, Perform(Action.Collect(key), old(CurrentEnv()), old(world)))
    {
      dead := dead + {key};
      world := world.(dead := dead);
      forall f | f in envs
        ensures Holds(f)
      {
        assert old(Holds(f));
      }
    }

    method Act(a: Action) returns (o: Outcome)
      requires Valid()
      modifies this`rootAsyncFrame, this`envs, this`state, this`dead, this`world, envs.Keys
      ensures Ran(o, Perform(a, old(CurrentEnv()), old(world)))
    {
      o := Returned;
      match a
      case Throw => o := Threw;
      case GetStore(key) => o := GetStore(key);
      case NewResource(slot) => NewResource(slot);
      case BindResource(slot, target, body) =>
        if slot in state.resources {
          Bind(target, Some(body));
        } else {
          o := Threw;
        }
      case Bind(target, body) => Bind(target, body);
      case Defer(body, repeating) => Defer(body, repeating);
      case Collect(key) => Collect(key);
    }

    // Scope.enter(frame), the callback, and Scope.exit() whether or not it throws.
    method Scoped(frame: AsyncContextFrame, body: Prog, fuel: nat) returns (o: Outcome)
      requires Valid() && frame in envs
      modifies this, envs.Keys
      ensures Ran(o, Eval(body, old(envs[frame]), old(world), fuel))
      decreases fuel, body, 2
    {
      asyncContextStack := asyncContextStack + [frame];
      o := Exec(body, fuel);
      if |asyncContextStack| > 0 {
        asyncContextStack := asyncContextStack[..|asyncContextStack| - 1];
      }
    }

    // A program gives the answers and has the effects of its environment-passing
    // meaning in the environment of the current frame.
    method Exec(p: Prog, fuel: nat) returns (o: Outcome)
      requires Valid()
      modifies this, envs.Keys
      ensures Ran(o, Eval(p, old(CurrentEnv()), old(world), fuel))
      decreases fuel, p, 1
    {
      match p
      case Do(action) => o := Act(action);
      case Seq(first, second) => o := ExecSeq(first, second, fuel);
      case Try(body, handler) => o := ExecTry(body, handler, fuel);
      case Run(key, value, body) => o := ExecRun(key, value, body, fuel);
      case RunInAsyncScope(slot, body) => o := ExecInScope(slot, body, fuel);
      case Call(target, argument) => o := ExecCall(p, fuel);
    }

    method ExecSeq(first: Prog, second: Prog, fuel: nat) returns (o: Outcome)
      requires Valid()
      modifies this, envs.Keys
      ensures Ran(o, Eval(Seq(first, second), old(CurrentEnv()), old(world), fuel))
      decreases fuel, Seq(first, second), 0
    {
      o := Exec(first, fuel);
      o := Continue(o, o.Returned?, second, fuel);
    }

    method ExecTry(body: Prog, handler: Prog, fuel: nat) returns (o: Outcome)
      requires Valid()
      modifies this, envs.Keys
      ensures Ran(o, Eval(Try(body, handler), old(CurrentEnv()), old(world), fuel))
      decreases fuel, Try(body, handler), 0
    {
      o := Exec(body, fuel);
      o := Continue(o, o.Threw?, handler, fuel);
    }

    // After an outcome, the next part if control reaches it.
    method Continue(outcome: Outcome, reached: bool, next: Prog, fuel: nat) returns (o: Outcome)
      requires Valid()
      modifies this, envs.Keys
      ensures Ran(o, if reached then Eval(next, old(CurrentEnv()), old(world), fuel) else (outcome, old(world)))
      decreases fuel, next, 2
    {
      o := outcome;
      if reached {
        o := Exec(next, fuel);
      } else {
        Stop(o);
      }
    }

    // resource.runInAsyncScope(callback)
    method ExecInScope(slot: nat, body: Prog, fuel: nat) returns (o: Outcome)
      requires Valid()
      modifies this, envs.Keys
      ensures Ran(o, Eval(RunInAsyncScope(slot, body), old(CurrentEnv()), old(world), fuel))
      decreases fuel, body, 3
    {
      if slot in state.resources {
        o := Scoped(state.resources[slot], body, fuel);
      } else {
        o := Threw;
        Stop(o);
      }
    }

    // storage.run(value, callback)
    method ExecRun(key: Key, value: Value, body: Prog, fuel: nat) returns (o: Outcome)
      requires Valid()
      modifies this, envs.Keys
      ensures Ran(o, Eval(body, old(CurrentEnv())[key := value], old(world), fuel))
      decreases fuel, body, 3
    {
      var frame := Create(key, value);
      o := Scoped(frame, body, fuel);
    }

    // A function made by AsyncContextFrame.wrap.
    method ExecCall(p: Prog, fuel: nat) returns (o: Outcome)
      requires Valid() && p.Call?
      modifies this, envs.Keys
      ensures Ran(o, Eval(p, old(CurrentEnv()), old(world), fuel))
      decreases fuel, p, 0
    {
      if p.target !in state.callables {
        o := Threw;
        Stop(o);
      } else if fuel == 0 {
        o := OutOfFuel;
        Stop(o);
      } else {
        o := ExecBound(p.target, p.argument, fuel - 1);
      }
    }

    method ExecBound(target: nat, argument: Prog, fuel: nat) returns (o: Outcome)
      requires Valid() && target in state.callables
      modifies this, envs.Keys
      ensures var c := old(world).callables[target];
              Ran(o, Eval(BodyOf(c.body, argument), c.env, old(world), fuel))
      decreases fuel, BodyOf(state.callables[target].body, argument), 3
    {
      var bound := state.callables[target];
      o := Scoped(bound.frame, BodyOf(bound.body, argument), fuel);
    }

    // A one-shot callback leaves the host's queue before it runs.
    method Dequeue(i: nat)
      requires Valid() && i < |state.tasks|
      modifies this`state, this`world
      ensures Valid()
      ensures world == old(world).(tasks := Without(old(world).tasks, i))
    {
      RepresentsRemove(state, i, world, envs);
      state := state.(tasks := Without(state.tasks, i));
      world := world.(tasks := Without(world.tasks, i));
    }

    // The host runs the callback at index i, wrapped in the frame it was registered in.
    method RunTask(i: nat, fuel: nat) returns (o: Outcome)
      requires Valid()
      modifies this, envs.Keys
      ensures Ran(o, AsyncContext.RunTask(old(world), i, fuel))
    {
      if i >= |state.tasks| {
        o := Returned;
        Stop(o);
      } else {
        o := RunQueued(i, fuel);
      }
    }

    method RunQueued(i: nat, fuel: nat) returns (o: Outcome)
      requires Valid() && i < |state.tasks|
      modifies this, envs.Keys
      ensures Ran(o, AsyncContext.RunTask(old(world), i, fuel))
    {
      var task := state.tasks[i];
      if !task.repeating {
        Dequeue(i);
      }
      o := Scoped(task.frame, task.body, fuel);
    }

    // A whole run: a script at the top level and then its callbacks, in any order.
    // Every getStore answers as in the environment-passing semantics.
    method RunScript(main: Prog, schedule: seq<nat>, fuel: nat) returns (o: Outcome)
      requires Valid() && asyncContextStack == [] && world == START
      modifies this, envs.Keys
      ensures Valid() && asyncContextStack == []
      ensures (o, world) == AsyncContext.RunScript(main, schedule, fuel)
      ensures state.log == AsyncContext.RunScript(main, schedule, fuel).1.log
      ensures forall b :: AsyncLaws.IsLexical(main, b, false) ==> AsyncLaws.AnswersFit(state.log, b)
    {
      forall b | AsyncLaws.IsLexical(main, b, false)
        ensures AsyncLaws.AnswersFit(AsyncContext.RunScript(main, schedule, fuel).1.log, b)
      {
        AsyncLaws.LexicalAnswers(main, schedule, fuel, b);
      }
      o := Exec(main, fuel);
      ghost var all := AsyncContext.RunScript(main, schedule, fuel);
      if o.OutOfFuel? {
        return;
      }
      o := Returned;
      var n := 0;
      while n < |schedule|
        invariant n <= |schedule| && o == Returned
        invariant Valid() && asyncContextStack == []
        invariant forall f :: f in envs && f !in old(envs) ==> fresh(f)
        invariant RunTasks(world, schedule[n..], fuel) == all
      {
        assert schedule[n..][0] == schedule[n] && schedule[n..][1..] == schedule[n + 1..];
        o := RunTask(schedule[n], fuel);
        if o.OutOfFuel? {
          return;
        }
        o := Returned;
        n := n + 1;
      }
    }

    // A callback registered earlier still has the environment captured then,
    // whatever has run since.
    twostate lemma CapturedKept(p: Prog, fuel: nat, o: Outcome)
      requires old(Valid()) && Ran(o, Eval(p, old(CurrentEnv()), old(world), fuel))
      ensures |old(state.tasks)| <= |state.tasks|
      ensures forall i :: 0 <= i < |old(state.tasks)| ==>
                && old(state.tasks)[i].frame in old(envs) && state.tasks[i].frame in envs
                && envs[state.tasks[i].frame] == old(envs)[old(state.tasks)[i].frame]
                && state.tasks[i].body == old(state.tasks)[i].body
    {
      EvalKeeps(p, old(CurrentEnv()), old(world), fuel);
      assert Represents(state, world, envs) && Represents(old(state), old(world), old(envs));
    }
  }
}
