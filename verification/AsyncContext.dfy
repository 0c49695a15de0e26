// What async context propagation is meant to be: programs evaluated by passing an
// environment, where a deferred callback carries the environment of the place
// that registered it. No stack and no frames.
module AsyncContext {
  import opened Wrappers
  import opened Helpers

  // The identity of an AsyncLocalStorage, and what it may hold.
  datatype Key = Key(id: nat)
  datatype Value = Undefined | Stored(id: nat)
  type Env = map<Key, Value>

  function Get(env: Env, key: Key): Value {
    if key in env then env[key] else Undefined
  }

  // The calls that do not run a callback at once.
  datatype Action =
    | Throw
    | GetStore(key: Key)                                   // storage.getStore()
    | NewResource(slot: nat)                               // slot = new AsyncResource(...)
    | BindResource(slot: nat, target: nat, body: Prog)     // target = slot.bind(body)
    | Bind(target: nat, bound: Option<Prog>)               // target = AsyncResource.bind(body), or a snapshot
    | Defer(body: Prog, repeating: bool)                   // setTimeout, setInterval, queueMicrotask
    | Collect(key: Key)                                    // the finalizer of a storage runs

  // A script, reduced to what involves the async context. Slots are its variables.
  datatype Prog =
    | Do(action: Action)
    | Seq(first: Prog, second: Prog)
    | Try(body: Prog, handler: Prog)
    | Run(key: Key, value: Value, body: Prog)              // storage.run(value, body); exit is run with Undefined
    | RunInAsyncScope(slot: nat, body: Prog)               // slot.runInAsyncScope(body)
    | Call(target: nat, argument: Prog)                    // target(argument)

  datatype Outcome = Returned | Threw | OutOfFuel

  // A bound function runs its own body; a snapshot runs its argument.
  datatype Callable = Callable(env: Env, body: Option<Prog>)
  datatype Task = Task(env: Env, body: Prog, repeating: bool)

  datatype World = World(
    resources: map<nat, Env>,
    callables: map<nat, Callable>,
    tasks: seq<Task>,
    dead: set<Key>,
    log: seq<(Key, Value)>   // the answers of getStore, in order
  )

  const START := World(map[], map[], [], {}, [])

  function Perform(a: Action, env: Env, w: World): (Outcome, World) {
    match a
    case Throw => (Threw, w)
    case GetStore(key) =>
      if key in w.dead then (Threw, w) else (Returned, w.(log := w.log + [(key, Get(env, key))]))
    case NewResource(slot) => (Returned, w.(resources := w.resources[slot := env]))
    case BindResource(slot, target, body) =>
      if slot in w.resources then (Returned, Register(w, target, env, Some(body))) else (Threw, w)
    case Bind(target, body) => (Returned, Register(w, target, env, body))
    case Defer(body, repeating) => (Returned, w.(tasks := w.tasks + [Task(env, body, repeating)]))
    case Collect(key) => (Returned, w.(dead := w.dead + {key}))
  }

  // Bound functions may call each other through slots, so calls consume fuel.
  function Eval(p: Prog, env: Env, w: World, fuel: nat): (r: (Outcome, World))
    decreases fuel, p
  {
    match p
    case Do(action) => Perform(action, env, w)
    case Seq(first, second) =>
      var (o, w1) := Eval(first, env, w, fuel);
      if o.Returned? then Eval(second, env, w1, fuel) else (o, w1)
    case Try(body, handler) =>
      var (o, w1) := Eval(body, env, w, fuel);
      if o.Threw? then Eval(handler, env, w1, fuel) else (o, w1)
    case Run(key, value, body) => Eval(body, env[key := value], w, fuel)
    case RunInAsyncScope(slot, body) =>
      if slot in w.resources then Eval(body, w.resources[slot], w, fuel) else (Threw, w)
    case Call(target, argument) =>
      if target !in w.callables then (Threw, w)
      else if fuel == 0 then (OutOfFuel, w)
      else Eval(BodyOf(w.callables[target].body, argument), w.callables[target].env, w, fuel - 1)
  }

  function BodyOf(body: Option<Prog>, argument: Prog): Prog {
    if body.Some? then body.value else argument
  }

  function Register(w: World, target: nat, env: Env, body: Option<Prog>): World {
    w.(callables := w.callables[target := Callable(env, body)])
  }

  // The event loop runs the callback at index i; one-shot callbacks leave the queue
  // first. A choice past the end runs nothing.
  function RunTask(w: World, i: nat, fuel: nat): (Outcome, World) {
    if i >= |w.tasks| then (Returned, w)
    else
      var task := w.tasks[i];
      Eval(task.body, task.env, if task.repeating then w else w.(tasks := Without(w.tasks, i)), fuel)
  }

  // A callback that throws does not stop the others. Running out of fuel ends the
  // run, and is told.
  function RunTasks(w: World, schedule: seq<nat>, fuel: nat): (Outcome, World)
    decreases |schedule|
  {
    if schedule == [] then (Returned, w)
    else
      var (o, w1) := RunTask(w, schedule[0], fuel);
      if o.OutOfFuel? then (o, w1) else RunTasks(w1, schedule[1..], fuel)
  }

  // A script at the top level, and then its callbacks in any order.
  function RunScript(main: Prog, schedule: seq<nat>, fuel: nat): (Outcome, World) {
    var (o, w) := Eval(main, map[], START, fuel);
    if o.OutOfFuel? then (o, w) else RunTasks(w, schedule, fuel)
  }

  // Fuel only bounds how long to look: what has not run out of it does the same
  // with more.
  lemma {:induction false} MoreFuel(p: Prog, env: Env, w: World, fuel: nat, more: nat)
    requires fuel <= more && !Eval(p, env, w, fuel).0.OutOfFuel?
    ensures Eval(p, env, w, more) == Eval(p, env, w, fuel)
    decreases fuel, p
  {
    match p
    case Seq(first, second) =>
      MoreFuel(first, env, w, fuel, more);
      var (o, w1) := Eval(first, env, w, fuel);
      if o.Returned? { MoreFuel(second, env, w1, fuel, more); }
    case Try(body, handler) =>
      MoreFuel(body, env, w, fuel, more);
      var (o, w1) := Eval(body, env, w, fuel);
      if o.Threw? { MoreFuel(handler, env, w1, fuel, more); }
    case Run(key, value, body) => MoreFuel(body, env[key := value], w, fuel, more);
    case RunInAsyncScope(slot, body) =>
      if slot in w.resources { MoreFuel(body, w.resources[slot], w, fuel, more); }
    case Call(target, argument) =>
      if target in w.callables {
        var c := w.callables[target];
        MoreFuel(BodyOf(c.body, argument), c.env, w, fuel - 1, more - 1);
      }
    case Do(_) =>
  }

  lemma {:induction false} MoreFuelTasks(w: World, schedule: seq<nat>, fuel: nat, more: nat)
    requires fuel <= more && !RunTasks(w, schedule, fuel).0.OutOfFuel?
    ensures RunTasks(w, schedule, more) == RunTasks(w, schedule, fuel)
    decreases |schedule|
  {
    if schedule != [] {
      var i := schedule[0];
      if i < |w.tasks| {
        var task := w.tasks[i];
        MoreFuel(task.body, task.env, if task.repeating then w else w.(tasks := Without(w.tasks, i)), fuel, more);
      }
      MoreFuelTasks(RunTask(w, i, fuel).1, schedule[1..], fuel, more);
    }
  }

  // So a run that is not cut short is the run, whatever the bound on calls.
  lemma MoreFuelScript(main: Prog, schedule: seq<nat>, fuel: nat, more: nat)
    requires fuel <= more && !RunScript(main, schedule, fuel).0.OutOfFuel?
    ensures RunScript(main, schedule, more) == RunScript(main, schedule, fuel)
  {
    MoreFuel(main, map[], START, fuel, more);
    MoreFuelTasks(Eval(main, map[], START, fuel).1, schedule, fuel, more);
  }

  // Whatever runs in between, a registered callback keeps the environment it was
  // registered with, and answers already given stand.
  lemma {:induction false} EvalKeeps(p: Prog, env: Env, w: World, fuel: nat)
    ensures var w' := Eval(p, env, w, fuel).1;
            w.tasks <= w'.tasks && w.log <= w'.log && w.dead <= w'.dead
    decreases fuel, p
  {
    match p
    case Seq(first, second) =>
      EvalKeeps(first, env, w, fuel);
      EvalKeeps(second, env, Eval(first, env, w, fuel).1, fuel);
    case Try(body, handler) =>
      EvalKeeps(body, env, w, fuel);
      EvalKeeps(handler, env, Eval(body, env, w, fuel).1, fuel);
    case Run(key, value, body) => EvalKeeps(body, env[key := value], w, fuel);
    case RunInAsyncScope(slot, body) =>
      if slot in w.resources { EvalKeeps(body, w.resources[slot], w, fuel); }
    case Call(target, argument) =>
      if target in w.callables && fuel > 0 {
        EvalKeeps(BodyOf(w.callables[target].body, argument), w.callables[target].env, w, fuel - 1);
      }
    case _ =>
  }
}
