// What the evaluation of AsyncContext comes to, said of programs and answers alone.
module AsyncLaws {
  import opened Wrappers
  import opened Helpers
  import opened AsyncContext

  // --- Lexical scope ---

  // A key, the value some places bind it to, and the slots that are filled at such
  // places only: resources in slots, bound functions and snapshots in targets.
  datatype Binding = Binding(key: Key, value: Value, slots: set<nat>, targets: set<nat>)

  // Every getStore of the key stands inside a run that binds it to the value, with
  // no other run of the key between. A callback counts as standing where it is
  // registered. The body of a scope, and the argument of a call, stand where the
  // resource, or the function, was made.
  predicate IsLexical(p: Prog, b: Binding, inside: bool) {
    match p
    case Do(GetStore(key)) => key == b.key ==> inside
    case Do(NewResource(slot)) => slot in b.slots ==> inside
    case Do(BindResource(_, target, body)) => (target in b.targets ==> inside) && IsLexical(body, b, inside)
    case Do(Bind(target, Some(body))) => (target in b.targets ==> inside) && IsLexical(body, b, inside)
    case Do(Bind(target, None)) => target in b.targets ==> inside
    case Do(Defer(body, _)) => IsLexical(body, b, inside)
    case Do(_) => true
    case Seq(first, second) => IsLexical(first, b, inside) && IsLexical(second, b, inside)
    case Try(body, handler) => IsLexical(body, b, inside) && IsLexical(handler, b, inside)
    case Run(key, value, body) => IsLexical(body, b, if key == b.key then value == b.value else inside)
    case RunInAsyncScope(slot, body) => IsLexical(body, b, slot in b.slots)
    case Call(target, argument) => IsLexical(argument, b, target in b.targets)
  }

  predicate Binds(env: Env, b: Binding) {
    b.key in env && env[b.key] == b.value
  }

  // What waits in the world stands in scope too, and all answers so far are right.
  predicate CallableFits(c: Callable, b: Binding) {
    c.body.Some? ==> IsLexical(c.body.value, b, Binds(c.env, b))
  }

  predicate TaskFits(t: Task, b: Binding) {
    IsLexical(t.body, b, Binds(t.env, b))
  }

  predicate AnswersFit(log: seq<(Key, Value)>, b: Binding) {
    forall i :: 0 <= i < |log| && log[i].0 == b.key ==> log[i].1 == b.value
  }

  predicate WorldFits(w: World, b: Binding) {
    && (forall slot :: slot in w.resources && slot in b.slots ==> Binds(w.resources[slot], b))
    && (forall t :: t in w.callables ==>
          CallableFits(w.callables[t], b) && (t in b.targets ==> Binds(w.callables[t].env, b)))
    && (forall i :: 0 <= i < |w.tasks| ==> TaskFits(w.tasks[i], b))
    && AnswersFit(w.log, b)
  }

  // Less is asked of a program outside.
  lemma {:induction false} OutsideIsStronger(p: Prog, b: Binding, inside: bool)
    requires IsLexical(p, b, false)
    ensures IsLexical(p, b, inside)
  {
    match p
    case Do(BindResource(_, _, body)) => OutsideIsStronger(body, b, inside);
    case Do(Bind(_, Some(body))) => OutsideIsStronger(body, b, inside);
    case Do(Defer(body, _)) => OutsideIsStronger(body, b, inside);
    case Do(_) =>
    case Seq(first, second) =>
      OutsideIsStronger(first, b, inside);
      OutsideIsStronger(second, b, inside);
    case Try(body, handler) =>
      OutsideIsStronger(body, b, inside);
      OutsideIsStronger(handler, b, inside);
    case Run(key, _, body) => if key != b.key { OutsideIsStronger(body, b, inside); }
    case RunInAsyncScope(_, _) =>
    case Call(_, _) =>
  }

  lemma PerformFits(a: Action, env: Env, w: World, b: Binding)
    requires WorldFits(w, b) && IsLexical(Do(a), b, Binds(env, b))
    ensures WorldFits(Perform(a, env, w).1, b)
  {
  }

  lemma {:induction false} EvalFits(p: Prog, env: Env, w: World, fuel: nat, b: Binding)
    requires WorldFits(w, b) && IsLexical(p, b, Binds(env, b))
    ensures WorldFits(Eval(p, env, w, fuel).1, b)
    decreases fuel, p
  {
    match p
    case Do(action) => PerformFits(action, env, w, b);
    case Seq(first, second) =>
      EvalFits(first, env, w, fuel, b);
      EvalFits(second, env, Eval(first, env, w, fuel).1, fuel, b);
    case Try(body, handler) =>
      EvalFits(body, env, w, fuel, b);
      EvalFits(handler, env, Eval(body, env, w, fuel).1, fuel, b);
    case Run(key, value, body) => EvalFits(body, env[key := value], w, fuel, b);
    case RunInAsyncScope(slot, body) =>
      if slot in w.resources {
        if slot !in b.slots { OutsideIsStronger(body, b, Binds(w.resources[slot], b)); }
        EvalFits(body, w.resources[slot], w, fuel, b);
      }
    case Call(target, argument) =>
      if target in w.callables && fuel > 0 {
        var c := w.callables[target];
        if target !in b.targets { OutsideIsStronger(argument, b, Binds(c.env, b)); }
        EvalFits(BodyOf(c.body, argument), c.env, w, fuel - 1, b);
      }
  }

  lemma {:induction false} TasksFit(w: World, schedule: seq<nat>, fuel: nat, b: Binding)
    requires WorldFits(w, b)
    ensures WorldFits(RunTasks(w, schedule, fuel).1, b)
    decreases |schedule|
  {
    if schedule != [] {
      if schedule[0] < |w.tasks| {
        var task := w.tasks[schedule[0]];
        var w' := if task.repeating then w else w.(tasks := Without(w.tasks, schedule[0]));
        EvalFits(task.body, task.env, w', fuel, b);
      }
      TasksFit(RunTask(w, schedule[0], fuel).1, schedule[1..], fuel, b);
    }
  }

  // Whatever a script does, throws and order of callbacks included: where every
  // getStore of a key stands in the scope of one value, every answer is that value.
  lemma LexicalAnswers(main: Prog, schedule: seq<nat>, fuel: nat, b: Binding)
    requires IsLexical(main, b, false)
    ensures AnswersFit(RunScript(main, schedule, fuel).1.log, b)
  {
    if Binds(map[], b) {
      OutsideIsStronger(main, b, true);
    }
    EvalFits(main, map[], START, fuel, b);
    TasksFit(Eval(main, map[], START, fuel).1, schedule, fuel, b);
  }

  // --- That answers are given ---

  // Programs that run to their end and call nothing.
  predicate IsQuiet(p: Prog) {
    match p
    case Do(action) => action.GetStore? || action.NewResource? || action.Bind? || action.Defer?
    case Seq(first, second) => IsQuiet(first) && IsQuiet(second)
    case Try(body, _) => IsQuiet(body)
    case Run(_, _, body) => IsQuiet(body)
    case _ => false
  }

  // The keys they ask for, in order, and how many callbacks they register.
  function Asked(p: Prog): seq<Key> {
    match p
    case Do(GetStore(key)) => [key]
    case Seq(first, second) => Asked(first) + Asked(second)
    case Try(body, _) => Asked(body)
    case Run(_, _, body) => Asked(body)
    case _ => []
  }

  function Deferred(p: Prog): nat {
    match p
    case Do(Defer(_, _)) => 1
    case Seq(first, second) => Deferred(first) + Deferred(second)
    case Try(body, _) => Deferred(body)
    case Run(_, _, body) => Deferred(body)
    case _ => 0
  }

  predicate AreLive(keys: seq<Key>, dead: set<Key>) {
    forall i :: 0 <= i < |keys| ==> keys[i] !in dead
  }

  // Exactly the keys asked for have been answered since.
  predicate Answered(was: seq<(Key, Value)>, now: seq<(Key, Value)>, keys: seq<Key>) {
    && was <= now && |now| == |was| + |keys|
    && forall i :: 0 <= i < |keys| ==> now[|was| + i].0 == keys[i]
  }

  // And these answers are the value in scope.
  predicate AnswersFitFrom(log: seq<(Key, Value)>, n: nat, b: Binding) {
    forall i :: n <= i < |log| && log[i].0 == b.key ==> log[i].1 == b.value
  }

  lemma AnsweredAppend(l0: seq<(Key, Value)>, l1: seq<(Key, Value)>, l2: seq<(Key, Value)>,
                       first: seq<Key>, second: seq<Key>)
    requires Answered(l0, l1, first) && Answered(l1, l2, second)
    ensures Answered(l0, l2, first + second)
  {
    forall i | 0 <= i < |first + second|
      ensures l2[|l0| + i].0 == (first + second)[i]
    {
      if i < |first| {
        assert l2[|l0| + i] == l1[|l0| + i];
      } else {
        assert l2[|l0| + i] == l2[|l1| + (i - |first|)];
      }
    }
  }

  lemma LiveParts(a: seq<Key>, b: seq<Key>, dead: set<Key>)
    requires AreLive(a + b, dead)
    ensures AreLive(a, dead) && AreLive(b, dead)
  {
    assert forall i :: 0 <= i < |a| ==> (a + b)[i] == a[i];
    assert forall i :: 0 <= i < |b| ==> (a + b)[|a| + i] == b[i];
  }

  lemma {:induction false} QuietAnswers(p: Prog, env: Env, w: World, fuel: nat)
    requires IsQuiet(p) && AreLive(Asked(p), w.dead)
    ensures var (o, w') := Eval(p, env, w, fuel);
            && o == Returned && Answered(w.log, w'.log, Asked(p))
            && w'.dead == w.dead && |w'.tasks| == |w.tasks| + Deferred(p)
    decreases p
  {
    match p
    case Do(action) =>
      if action.GetStore? {
        assert Asked(p)[0] == action.key;
      }
    case Seq(first, second) =>
      LiveParts(Asked(first), Asked(second), w.dead);
      QuietAnswers(first, env, w, fuel);
      var w1 := Eval(first, env, w, fuel).1;
      QuietAnswers(second, env, w1, fuel);
      AnsweredAppend(w.log, w1.log, Eval(second, env, w1, fuel).1.log, Asked(first), Asked(second));
    case Try(body, _) => QuietAnswers(body, env, w, fuel);
    case Run(key, value, body) => QuietAnswers(body, env[key := value], w, fuel);
  }

  lemma {:induction false} QuietValues(p: Prog, env: Env, w: World, fuel: nat, n: nat, b: Binding)
    requires IsQuiet(p) && AreLive(Asked(p), w.dead) && IsLexical(p, b, Binds(env, b))
    requires AnswersFitFrom(w.log, n, b)
    ensures AnswersFitFrom(Eval(p, env, w, fuel).1.log, n, b)
    decreases p
  {
    match p
    case Do(_) =>
    case Seq(first, second) =>
      LiveParts(Asked(first), Asked(second), w.dead);
      QuietAnswers(first, env, w, fuel);
      QuietValues(first, env, w, fuel, n, b);
      QuietValues(second, env, Eval(first, env, w, fuel).1, fuel, n, b);
    case Try(body, _) =>
      QuietAnswers(body, env, w, fuel);
      QuietValues(body, env, w, fuel, n, b);
    case Run(key, value, body) => QuietValues(body, env[key := value], w, fuel, n, b);
  }

  // A program's keys, answered with the value of the one binding.
  predicate AnsweredWith(was: seq<(Key, Value)>, now: seq<(Key, Value)>, p: Prog, key: Key, value: Value) {
    Answered(was, now, Asked(p)) && AnswersFitFrom(now, |was|, Only(key, value))
  }

  // It asks for the key in the scope it starts in.
  predicate IsPlain(p: Prog, key: Key, value: Value) {
    IsQuiet(p) && IsLexical(p, Only(key, value), true)
  }

  lemma PlainAnswers(p: Prog, env: Env, w: World, fuel: nat, key: Key, value: Value)
    requires IsPlain(p, key, value) && AreLive(Asked(p), w.dead) && Binds(env, Only(key, value))
    ensures AnsweredWith(w.log, Eval(p, env, w, fuel).1.log, p, key, value)
  {
    QuietAnswers(p, env, w, fuel);
    QuietValues(p, env, w, fuel, |w.log|, Only(key, value));
  }

  function Only(key: Key, value: Value): Binding {
    Binding(key, value, {}, {})
  }

  // A callback registered under run, and then any other program: when the callback
  // runs it answers each getStore, with the value run bound.
  lemma DeferredAnswers(key: Key, value: Value, body: Prog, repeating: bool, rest: Prog, fuel: nat)
    requires IsPlain(body, key, value)
    requires var (o, w) := Eval(Seq(Run(key, value, Do(Defer(body, repeating))), rest), map[], START, fuel);
             !o.OutOfFuel? && AreLive(Asked(body), w.dead)
    ensures var main := Seq(Run(key, value, Do(Defer(body, repeating))), rest);
            AnsweredWith(Eval(main, map[], START, fuel).1.log, RunScript(main, [0], fuel).1.log, body, key, value)
  {
    var main := Seq(Run(key, value, Do(Defer(body, repeating))), rest);
    RunDo(key, value, Defer(body, repeating), map[], START, fuel);
    var w1 := Eval(Run(key, value, Do(Defer(body, repeating))), map[], START, fuel).1;
    var task := Task(map[][key := value], body, repeating);
    assert w1.tasks == [task];
    EvalKeeps(rest, map[], w1, fuel);
    var w := Eval(main, map[], START, fuel).1;
    assert w.tasks[0] == task;
    var w' := if repeating then w else w.(tasks := Without(w.tasks, 0));
    PlainAnswers(body, task.env, w', fuel, key, value);
    OneTask(w, 0, fuel);
  }

  lemma RunDo(key: Key, value: Value, a: Action, env: Env, w: World, fuel: nat)
    ensures Eval(Run(key, value, Do(a)), env, w, fuel) == Perform(a, env[key := value], w)
  {
    assert Eval(Do(a), env[key := value], w, fuel) == Perform(a, env[key := value], w);
  }

  lemma OneTask(w: World, i: nat, fuel: nat)
    ensures RunTasks(w, [i], fuel).1 == RunTask(w, i, fuel).1
  {
    assert [i][1..] == [];
  }

  // A function bound under run answers with the value bound there, wherever it is
  // called; a snapshot's argument does too.
  lemma BoundAnswers(key: Key, value: Value, target: nat, bound: Option<Prog>, argument: Prog,
                     env: Env, w: World, elsewhere: Env, fuel: nat)
    requires fuel > 0 && IsPlain(BodyOf(bound, argument), key, value)
    requires AreLive(Asked(BodyOf(bound, argument)), w.dead)
    ensures var w1 := Eval(Run(key, value, Do(Bind(target, bound))), env, w, fuel).1;
            AnsweredWith(w1.log, Eval(Call(target, argument), elsewhere, w1, fuel).1.log,
                         BodyOf(bound, argument), key, value)
  {
    RunDo(key, value, Bind(target, bound), env, w, fuel);
    var w1 := Eval(Run(key, value, Do(Bind(target, bound))), env, w, fuel).1;
    PlainAnswers(BodyOf(bound, argument), env[key := value], w1, fuel - 1, key, value);
  }

  // bind of a resource captures where it is called, not where the resource was made.
  lemma ResourceBoundAnswers(key: Key, value: Value, slot: nat, target: nat, body: Prog, argument: Prog,
                             env: Env, w: World, elsewhere: Env, fuel: nat)
    requires fuel > 0 && slot in w.resources && IsPlain(body, key, value) && AreLive(Asked(body), w.dead)
    ensures var w1 := Eval(Run(key, value, Do(BindResource(slot, target, body))), env, w, fuel).1;
            AnsweredWith(w1.log, Eval(Call(target, argument), elsewhere, w1, fuel).1.log, body, key, value)
  {
    RunDo(key, value, BindResource(slot, target, body), env, w, fuel);
    var w1 := Eval(Run(key, value, Do(BindResource(slot, target, body))), env, w, fuel).1;
    PlainAnswers(body, env[key := value], w1, fuel - 1, key, value);
  }

  // runInAsyncScope answers with what was bound where the resource was made.
  lemma ScopeAnswers(key: Key, value: Value, slot: nat, body: Prog, env: Env, w: World, elsewhere: Env, fuel: nat)
    requires IsPlain(body, key, value) && AreLive(Asked(body), w.dead)
    ensures var w1 := Eval(Run(key, value, Do(NewResource(slot))), env, w, fuel).1;
            AnsweredWith(w1.log, Eval(RunInAsyncScope(slot, body), elsewhere, w1, fuel).1.log, body, key, value)
  {
    RunDo(key, value, NewResource(slot), env, w, fuel);
    var w1 := Eval(Run(key, value, Do(NewResource(slot))), env, w, fuel).1;
    PlainAnswers(body, env[key := value], w1, fuel, key, value);
  }

  // --- Throws, and programs that are the same ---

  // Nothing after a throw runs.
  lemma ThrowStops(before: Prog, after: Prog, env: Env, w: World, fuel: nat)
    ensures Eval(Seq(Do(Throw), after), env, w, fuel) == (Threw, w)
    ensures Eval(Seq(Seq(before, Do(Throw)), after), env, w, fuel) == Eval(Seq(before, Do(Throw)), env, w, fuel)
  {
  }

  // A handler runs after a throw, with the effects before it in place, and only then.
  lemma HandlerRuns(body: Prog, handler: Prog, env: Env, w: World, fuel: nat)
    ensures Eval(Try(Do(Throw), handler), env, w, fuel) == Eval(handler, env, w, fuel)
    ensures IsQuiet(body) && AreLive(Asked(body), w.dead) ==>
              && Eval(Try(Seq(body, Do(Throw)), handler), env, w, fuel) == Eval(Seq(body, handler), env, w, fuel)
              && Eval(Try(body, handler), env, w, fuel) == Eval(body, env, w, fuel)
  {
    if IsQuiet(body) && AreLive(Asked(body), w.dead) {
      QuietAnswers(body, env, w, fuel);
      var w1 := Eval(body, env, w, fuel).1;
      assert Eval(Do(Throw), env, w1, fuel) == (Threw, w1);
      assert Eval(Seq(body, Do(Throw)), env, w, fuel) == (Threw, w1);
    }
  }

  // A key whose storage is gone makes getStore throw.
  lemma DeadKeyThrows(key: Key, p: Prog, env: Env, w: World, fuel: nat)
    ensures Eval(Seq(Do(Collect(key)), Seq(Do(GetStore(key)), p)), env, w, fuel)
            == Eval(Seq(Do(Collect(key)), Do(Throw)), env, w, fuel)
  {
    var w1 := Perform(Collect(key), env, w).1;
    assert Eval(Do(GetStore(key)), env, w1, fuel) == (Threw, w1);
    assert Eval(Seq(Do(GetStore(key)), p), env, w1, fuel) == (Threw, w1);
  }

  // Using a variable that holds nothing throws, with no other effect.
  lemma MissingThrows(slot: nat, target: nat, p: Prog, env: Env, w: World, fuel: nat)
    ensures slot !in w.resources ==>
              && Eval(RunInAsyncScope(slot, p), env, w, fuel) == (Threw, w)
              && Eval(Do(BindResource(slot, target, p)), env, w, fuel) == (Threw, w)
    ensures target !in w.callables ==> Eval(Call(target, p), env, w, fuel) == (Threw, w)
  {
  }

  // run scopes over its parts, throws pass through it, and an inner run wins.
  lemma RunDistributes(key: Key, value: Value, inner: Value, p: Prog, q: Prog, env: Env, w: World, fuel: nat)
    ensures Eval(Run(key, value, Seq(p, q)), env, w, fuel)
            == Eval(Seq(Run(key, value, p), Run(key, value, q)), env, w, fuel)
    ensures Eval(Run(key, value, Try(p, q)), env, w, fuel)
            == Eval(Try(Run(key, value, p), Run(key, value, q)), env, w, fuel)
    ensures Eval(Run(key, value, Run(key, inner, p)), env, w, fuel) == Eval(Run(key, inner, p), env, w, fuel)
  {
    assert env[key := value][key := inner] == env[key := inner];
  }

  // Different keys do not interfere.
  lemma RunsCommute(j: Key, x: Value, k: Key, y: Value, p: Prog, env: Env, w: World, fuel: nat)
    requires j != k
    ensures Eval(Run(j, x, Run(k, y, p)), env, w, fuel) == Eval(Run(k, y, Run(j, x, p)), env, w, fuel)
  {
    assert env[j := x][k := y] == env[k := y][j := x];
  }

  // A call, and a scope, do not see where they stand.
  lemma CallsAreDetached(key: Key, value: Value, target: nat, slot: nat, p: Prog, env: Env, w: World, fuel: nat)
    ensures Eval(Run(key, value, Call(target, p)), env, w, fuel) == Eval(Call(target, p), env, w, fuel)
    ensures Eval(Run(key, value, RunInAsyncScope(slot, p)), env, w, fuel)
            == Eval(RunInAsyncScope(slot, p), env, w, fuel)
  {
  }

  // A one-shot callback runs once; a repeating one stays where it is.
  lemma {:induction false} TaskStays(w: World, i: nat, fuel: nat)
    requires i < |w.tasks|
    ensures var kept := if w.tasks[i].repeating then w.tasks else Without(w.tasks, i);
            kept <= RunTask(w, i, fuel).1.tasks
  {
    var task := w.tasks[i];
    EvalKeeps(task.body, task.env, if task.repeating then w else w.(tasks := Without(w.tasks, i)), fuel);
  }
}
