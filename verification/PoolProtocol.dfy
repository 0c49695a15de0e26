// The dispatcher and its worker threads together, one step at a time. SingleRunner
// implements the dispatcher's part; WorkerProtocol is the threads' part.
module PoolProtocol {
  import opened Wrappers
  import opened Helpers
  import opened RequestQueue
  import opened WorkerProtocol

  datatype Thread = Thread(
    channel: seq<ControlMessage>,
    inFlight: int,
    worker: Worker,
    put: multiset<Id>       // requests ever put on the channel
  )

  datatype Pool = Pool(
    threads: seq<Thread>,
    guards: multiset<int>,  // the thread of each live IncrementGuard
    shutDown: bool,
    terminated: bool,       // whether Terminate was ever sent
    peak: nat               // the most guards ever alive at once
  )

  function Loads(threads: seq<Thread>): seq<int> {
    seq(|threads|, i requires 0 <= i < |threads| => threads[i].inFlight)
  }

  // Which thread find_or_spawn_thread picks: the first idle one; failing that a new
  // one while there may be more; failing that the first of the least busy.
  predicate Picks(loads: seq<int>, maxThreads: nat, k: nat) {
    if exists i :: 0 <= i < |loads| && loads[i] <= 0 then
      k < |loads| && loads[k] <= 0 && forall i :: 0 <= i < k ==> loads[i] > 0
    else if |loads| < maxThreads then k == |loads|
    else
      && k < |loads| && (forall i :: 0 <= i < |loads| ==> loads[k] <= loads[i])
      && forall i :: 0 <= i < k ==> loads[k] < loads[i]
  }

  // A thread as it is spawned. Its script has run, or has failed.
  predicate Fresh(t: Thread) {
    && t.channel == [] && t.inFlight == 0 && t.put == multiset{}
    && Start(t.worker)
    && (t.worker.phase.ScriptFailed? ==> t.worker.phase.error.Some? && t.worker.phase.error.value.Thrown?)
  }

  datatype Event =
    | Handle(respTx: Id, chosen: nat, spawned: Thread)
    | Release(thread: nat)
    | RequestShutdown
    | SendTerminate
    | Work(thread: nat, action: Label, worker: Worker)

  // The chosen thread gets the request and its guard.
  function Assigned(t: Thread, respTx: Id): Thread {
    t.(channel := t.channel + [HandleRequest(respTx)], inFlight := t.inFlight + 1,
       put := t.put + multiset{respTx})
  }

  // A message to every thread that has not finished.
  predicate Told(before: seq<Thread>, message: ControlMessage, after: seq<Thread>) {
    && |after| == |before|
    && forall i :: 0 <= i < |before| ==>
         after[i] == if before[i].worker.phase.Ended? then before[i]
                     else before[i].(channel := before[i].channel + [message])
  }

  // A thread takes messages in order. Its channel stays open: the pool keeps the sender.
  predicate Works(t: Thread, l: Label, t': Thread) {
    && Step(t.worker, l, t'.worker) && t'.inFlight == t.inFlight && t'.put == t.put
    && if l.Take? then t.channel != [] && l.message == Some(t.channel[0]) && t'.channel == t.channel[1..]
       else t'.channel == t.channel
  }

  predicate Handles(p: Pool, maxThreads: nat, respTx: Id, k: nat, spawned: Thread, p': Pool) {
    if p.shutDown then p' == p
    else
      && Picks(Loads(p.threads), maxThreads, k) && k <= |p.threads| && Fresh(spawned)
      && var threads := if k < |p.threads| then p.threads else p.threads + [spawned];
      && p' == p.(threads := threads[k := Assigned(threads[k], respTx)],
                  guards := p.guards + multiset{k},
                  peak := Max(p.peak, |p.guards| + 1))
  }

  predicate Releases(p: Pool, k: nat, p': Pool) {
    && k in p.guards && k < |p.threads|
    && p' == p.(guards := p.guards - multiset{k},
                threads := p.threads[k := p.threads[k].(inFlight := p.threads[k].inFlight - 1)])
  }

  predicate Next(p: Pool, maxThreads: nat, e: Event, p': Pool) {
    match e
    case Handle(respTx, chosen, spawned) => Handles(p, maxThreads, respTx, chosen, spawned, p')
    case Release(k) => Releases(p, k, p')
    case RequestShutdown => Told(p.threads, Shutdown, p'.threads) && p' == p.(shutDown := true, threads := p'.threads)
    case SendTerminate =>
      p.shutDown && Told(p.threads, Terminate, p'.threads) && p' == p.(terminated := true, threads := p'.threads)
    case Work(k, l, worker) =>
      && k < |p.threads| && |p'.threads| == |p.threads|
      && Works(p.threads[k], l, p'.threads[k]) && p'.threads[k].worker == worker
      && p' == p.(threads := p.threads[k := p'.threads[k]])
  }

  const EMPTY := Pool([], multiset{}, false, false, 0)

  // --- Messages ---

  function InChannel(channel: seq<ControlMessage>): multiset<Id> {
    if channel == [] then multiset{}
    else Request(Some(channel[0])) + InChannel(channel[1..])
  }

  // Only requests before shutdown, and no request after a control message.
  predicate OnlyRequests(channel: seq<ControlMessage>) {
    forall i :: 0 <= i < |channel| ==> channel[i].HandleRequest?
  }

  predicate NoRequests(channel: seq<ControlMessage>) {
    forall i :: 0 <= i < |channel| ==> !channel[i].HandleRequest?
  }

  predicate NoRequestAfterControl(channel: seq<ControlMessage>) {
    forall i, j :: 0 <= i < j < |channel| && !channel[i].HandleRequest? ==> !channel[j].HandleRequest?
  }

  // What is true of each thread, whatever the others do.
  predicate ThreadInvariant(t: Thread, shutDown: bool, terminated: bool) {
    && Conserved(t.worker)
    && t.put == t.worker.taken + InChannel(t.channel)
    && NoRequestAfterControl(t.channel)
    && (!shutDown ==> OnlyRequests(t.channel) && !t.worker.shutdownRequested && !t.worker.phase.Ended?)
    && (t.worker.shutdownRequested || t.worker.phase.Ended? ==> NoRequests(t.channel))
    && (!terminated ==> Terminate !in t.channel)
  }

  // The replies it may have sent so far.
  predicate RepliesInvariant(t: Thread, terminated: bool) {
    && (t.worker.phase.ScriptFailed? ==> t.worker.phase.error != Some(NewRequestAfterShutdown))
    && (forall r :: r in t.worker.sent ==> Harmless(r.data, terminated))
  }

  predicate Harmless(data: ResponseData, terminated: bool) {
    && data != ScriptError(Some(NewRequestAfterShutdown))
    && (!terminated ==> data != Done(ServerIsShuttingDown))
  }

  lemma {:induction false} InChannelAppend(a: seq<ControlMessage>, m: ControlMessage)
    ensures InChannel(a + [m]) == InChannel(a) + Request(Some(m))
  {
    if a == [] {
      assert [m][1..] == [];
    } else {
      assert (a + [m])[1..] == a[1..] + [m];
      InChannelAppend(a[1..], m);
    }
  }

  lemma {:induction false} InChannelEmpty(channel: seq<ControlMessage>)
    requires NoRequests(channel)
    ensures InChannel(channel) == multiset{}
  {
    if channel != [] {
      assert forall i :: 0 <= i < |channel[1..]| ==> channel[1..][i] == channel[i + 1];
      InChannelEmpty(channel[1..]);
    }
  }

  lemma AssignedInvariant(t: Thread, respTx: Id, terminated: bool)
    requires ThreadInvariant(t, false, terminated) && RepliesInvariant(t, terminated)
    ensures ThreadInvariant(Assigned(t, respTx), false, terminated)
    ensures RepliesInvariant(Assigned(t, respTx), terminated)
  {
    InChannelAppend(t.channel, HandleRequest(respTx));
  }

  lemma FreshInvariant(t: Thread, terminated: bool)
    requires Fresh(t)
    ensures ThreadInvariant(t, false, terminated) && RepliesInvariant(t, terminated)
  {
  }

  lemma ToldInvariant(t: Thread, m: ControlMessage, shutDown: bool, terminated: bool)
    requires ThreadInvariant(t, shutDown, terminated) && !m.HandleRequest?
    requires m == Terminate ==> terminated
    ensures ThreadInvariant(t.(channel := t.channel + [m]), true, terminated)
  {
    InChannelAppend(t.channel, m);
  }

  lemma WorkMessages(t: Thread, l: Label, t': Thread, shutDown: bool, terminated: bool)
    requires ThreadInvariant(t, shutDown, terminated) && Works(t, l, t')
    ensures NoRequestAfterControl(t'.channel)
    ensures !shutDown ==> OnlyRequests(t'.channel) && !t'.worker.shutdownRequested && !t'.worker.phase.Ended?
    ensures t'.worker.shutdownRequested || t'.worker.phase.Ended? ==> NoRequests(t'.channel)
    ensures !terminated ==> Terminate !in t'.channel
  {
    if l.Take? {
      assert forall i :: 0 <= i < |t'.channel| ==> t'.channel[i] == t.channel[i + 1];
    }
  }

  lemma WorkTakes(t: Thread, l: Label, t': Thread)
    requires t.put == t.worker.taken + InChannel(t.channel) && Works(t, l, t')
    ensures t'.put == t'.worker.taken + InChannel(t'.channel)
  {
    if l.Take? {
      TakenFirst(t.channel, t'.channel);
    }
  }

  lemma TakenFirst(channel: seq<ControlMessage>, rest: seq<ControlMessage>)
    requires channel != [] && rest == channel[1..]
    ensures InChannel(channel) == Request(Some(channel[0])) + InChannel(rest)
  {
  }

  // What a worker may say in one step.
  lemma StepReplies(w: Worker, l: Label, replies: seq<Reply>, w': Worker)
    requires Step(w, l, w') && w'.sent == w.sent + replies
    ensures forall r :: r in replies ==>
              || IsOwn(r.data) || r.data == Done(CouldNotComplete)
              || (w.shutdownRequested && l.Take? && Request(l.message) != multiset{})
              || (w.phase.ScriptFailed? && r.data == ScriptError(w.phase.error))
              || (l.Take? && l.message == Some(Terminate) && r.data == Done(ServerIsShuttingDown))
  {
    assert replies == w'.sent[|w.sent|..];
    if !l.Leave? {
      assert w'.sent[|w.sent|..] == l.replies || replies == [];
    }
  }

  lemma StepSends(w: Worker, l: Label, w': Worker)
    requires Step(w, l, w')
    ensures w.sent <= w'.sent
    ensures w'.phase.ScriptFailed? ==> w.phase.ScriptFailed? && (w'.phase == w.phase || w'.phase.error == None)
  {
  }

  lemma WorkReplies(t: Thread, l: Label, t': Thread, shutDown: bool, terminated: bool)
    requires ThreadInvariant(t, shutDown, terminated) && RepliesInvariant(t, terminated) && Works(t, l, t')
    ensures RepliesInvariant(t', terminated)
  {
    StepSends(t.worker, l, t'.worker);
    var replies := t'.worker.sent[|t.worker.sent|..];
    assert t'.worker.sent == t.worker.sent + replies;
    forall r | r in replies
      ensures Harmless(r.data, terminated)
    {
      WorkReply(t, l, t', shutDown, terminated, replies, r);
    }
  }

  lemma WorkReply(t: Thread, l: Label, t': Thread, shutDown: bool, terminated: bool, replies: seq<Reply>, r: Reply)
    requires ThreadInvariant(t, shutDown, terminated) && RepliesInvariant(t, terminated) && Works(t, l, t')
    requires t'.worker.sent == t.worker.sent + replies && r in replies
    ensures Harmless(r.data, terminated)
  {
    StepReplies(t.worker, l, replies, t'.worker);
  }

  lemma WorkInvariant(t: Thread, l: Label, t': Thread, shutDown: bool, terminated: bool)
    requires ThreadInvariant(t, shutDown, terminated) && RepliesInvariant(t, terminated) && Works(t, l, t')
    ensures ThreadInvariant(t', shutDown, terminated) && RepliesInvariant(t', terminated)
  {
    StepConserves(t.worker, l, t'.worker);
    WorkMessages(t, l, t', shutDown, terminated);
    WorkTakes(t, l, t');
    WorkReplies(t, l, t', shutDown, terminated);
  }

  // --- Loads ---

  function Sum(loads: seq<int>): int {
    if loads == [] then 0 else Sum(loads[..|loads| - 1]) + loads[|loads| - 1]
  }

  lemma {:induction false} SumUpdate(loads: seq<int>, k: nat, v: int)
    requires k < |loads|
    ensures Sum(loads[k := v]) == Sum(loads) + v - loads[k]
    decreases |loads|
  {
    var n := |loads| - 1;
    if k < n {
      assert loads[k := v][..n] == loads[..n][k := v];
      SumUpdate(loads[..n], k, v);
    } else {
      assert loads[k := v][..n] == loads[..n];
    }
  }

  lemma {:induction false} SumAtLeast(loads: seq<int>, least: int)
    requires forall i :: 0 <= i < |loads| ==> least <= loads[i]
    ensures least * |loads| <= Sum(loads)
    decreases |loads|
  {
    if loads != [] {
      SumAtLeast(loads[..|loads| - 1], least);
    }
  }

  lemma SumPush(loads: seq<int>, v: int)
    ensures Sum(loads + [v]) == Sum(loads) + v
  {
    assert (loads + [v])[..|loads|] == loads;
  }

  // Every counter is the number of its live guards, and the pool has grown neither
  // past its maximum nor past the most requests there have been at once.
  predicate CountersMatch(p: Pool) {
    && (forall k :: k in p.guards ==> 0 <= k < |p.threads|)
    && (forall k :: 0 <= k < |p.threads| ==> p.threads[k].inFlight == p.guards[k])
  }

  predicate LoadInvariant(p: Pool, maxThreads: nat) {
    && CountersMatch(p)
    && Sum(Loads(p.threads)) == |p.guards|
    && |p.threads| <= maxThreads && |p.threads| <= p.peak && |p.guards| <= p.peak
  }

  // The load of the chosen thread, before it gets the request.
  function LoadOf(p: Pool, k: nat): int {
    if k < |p.threads| then p.threads[k].inFlight else 0
  }

  // A request goes where the load is at most the average over a full pool. So its
  // thread has no other live guard unless there are as many guards as threads allowed.
  lemma PickIsFair(p: Pool, maxThreads: nat, k: nat)
    requires LoadInvariant(p, maxThreads) && Picks(Loads(p.threads), maxThreads, k)
    ensures k <= |p.threads|
    ensures LoadOf(p, k) * maxThreads <= |p.guards|
    ensures |p.guards| < maxThreads ==> LoadOf(p, k) == 0
  {
    var loads := Loads(p.threads);
    if exists i :: 0 <= i < |loads| && loads[i] <= 0 {
    } else if |loads| == maxThreads {
      SumAtLeast(loads, loads[k]);
      Below(LoadOf(p, k), maxThreads, |p.guards|);
    }
  }

  lemma Below(load: int, maxThreads: nat, total: nat)
    requires load * maxThreads <= total
    ensures total < maxThreads ==> load <= 0
  {
    if load >= 1 {
      assert load * maxThreads >= maxThreads;
    }
  }

  // An idle thread is preferred to any other, the first of them; among busy ones the
  // first of the least busy, once there may be no more threads.
  lemma PickIsLeast(loads: seq<int>, maxThreads: nat, k: nat, i: nat)
    requires Picks(loads, maxThreads, k) && i < |loads|
    ensures loads[i] <= 0 ==> k <= i && loads[k] <= 0
    ensures k < |loads| && loads[k] > 0 ==> maxThreads <= |loads| && loads[k] <= loads[i] && (loads[i] == loads[k] ==> k <= i)
    ensures k >= |loads| ==> k == |loads| < maxThreads && loads[i] > 0
  {
  }

  // A thread is spawned only while every other one is busy.
  lemma PickSpawns(p: Pool, maxThreads: nat)
    requires LoadInvariant(p, maxThreads) && Picks(Loads(p.threads), maxThreads, |p.threads|)
    ensures |p.threads| < maxThreads && |p.threads| <= |p.guards|
  {
    SumAtLeast(Loads(p.threads), 1);
  }

  lemma AssignLoads(threads: seq<Thread>, k: nat, respTx: Id)
    requires k < |threads|
    ensures Sum(Loads(threads[k := Assigned(threads[k], respTx)])) == Sum(Loads(threads)) + 1
  {
    var t := Assigned(threads[k], respTx);
    assert Loads(threads[k := t]) == Loads(threads)[k := t.inFlight];
    SumUpdate(Loads(threads), k, t.inFlight);
  }

  lemma SpawnLoads(threads: seq<Thread>, t: Thread)
    requires t.inFlight == 0
    ensures Sum(Loads(threads + [t])) == Sum(Loads(threads))
  {
    assert Loads(threads + [t]) == Loads(threads) + [0];
    SumPush(Loads(threads), 0);
  }

  lemma HandleLoads(p: Pool, maxThreads: nat, respTx: Id, k: nat, spawned: Thread, p': Pool)
    requires LoadInvariant(p, maxThreads) && Handles(p, maxThreads, respTx, k, spawned, p')
    ensures LoadInvariant(p', maxThreads)
  {
    if !p.shutDown {
      if k == |p.threads| {
        PickSpawns(p, maxThreads);
        SpawnLoads(p.threads, spawned);
      }
      AssignLoads(if k < |p.threads| then p.threads else p.threads + [spawned], k, respTx);
      HandleCounters(p, maxThreads, respTx, k, spawned, p');
    }
  }

  lemma HandleCounters(p: Pool, maxThreads: nat, respTx: Id, k: nat, spawned: Thread, p': Pool)
    requires CountersMatch(p) && !p.shutDown && Handles(p, maxThreads, respTx, k, spawned, p')
    ensures CountersMatch(p')
  {
  }

  lemma ReleaseLoads(p: Pool, maxThreads: nat, k: nat, p': Pool)
    requires LoadInvariant(p, maxThreads) && Releases(p, k, p')
    ensures LoadInvariant(p', maxThreads)
  {
    assert Loads(p'.threads) == Loads(p.threads)[k := p.threads[k].inFlight - 1];
    SumUpdate(Loads(p.threads), k, p.threads[k].inFlight - 1);
  }

  lemma SameLoads(p: Pool, maxThreads: nat, p': Pool)
    requires LoadInvariant(p, maxThreads) && p'.guards == p.guards && p'.peak == p.peak
    requires |p'.threads| == |p.threads|
    requires forall i :: 0 <= i < |p.threads| ==> p'.threads[i].inFlight == p.threads[i].inFlight
    ensures LoadInvariant(p', maxThreads)
  {
    assert Loads(p'.threads) == Loads(p.threads);
  }

  // --- Whole runs ---

  predicate ThreadsInvariant(p: Pool) {
    forall i :: 0 <= i < |p.threads| ==>
      ThreadInvariant(p.threads[i], p.shutDown, p.terminated) && RepliesInvariant(p.threads[i], p.terminated)
  }

  predicate Invariant(p: Pool, maxThreads: nat) {
    LoadInvariant(p, maxThreads) && ThreadsInvariant(p)
  }

  lemma HandleThreads(p: Pool, maxThreads: nat, respTx: Id, k: nat, spawned: Thread, p': Pool)
    requires ThreadsInvariant(p) && !p.shutDown && Handles(p, maxThreads, respTx, k, spawned, p')
    ensures ThreadsInvariant(p')
  {
    FreshInvariant(spawned, p.terminated);
    AssignedInvariant(if k < |p.threads| then p.threads[k] else spawned, respTx, p.terminated);
  }

  lemma ToldThreads(p: Pool, m: ControlMessage, p': Pool)
    requires ThreadsInvariant(p) && Told(p.threads, m, p'.threads) && !m.HandleRequest?
    requires p'.shutDown && (m == Terminate ==> p'.terminated) && (p.terminated ==> p'.terminated)
    requires m != Terminate ==> p'.terminated == p.terminated
    ensures ThreadsInvariant(p')
  {
    forall i | 0 <= i < |p.threads|
      ensures ThreadInvariant(p'.threads[i], true, p'.terminated) && RepliesInvariant(p'.threads[i], p'.terminated)
    {
      Weaken(p.threads[i], p.shutDown, p.terminated, p'.terminated);
      ToldInvariant(p.threads[i], m, p.shutDown, p'.terminated);
    }
  }

  lemma Weaken(t: Thread, shutDown: bool, terminated: bool, terminated': bool)
    requires ThreadInvariant(t, shutDown, terminated) && RepliesInvariant(t, terminated)
    requires terminated ==> terminated'
    ensures ThreadInvariant(t, shutDown, terminated') && RepliesInvariant(t, terminated')
    ensures ThreadInvariant(t, true, terminated')
  {
  }

  lemma WorkThreads(p: Pool, k: nat, l: Label, p': Pool)
    requires ThreadsInvariant(p) && k < |p.threads| && |p'.threads| == |p.threads|
    requires Works(p.threads[k], l, p'.threads[k]) && p'.threads == p.threads[k := p'.threads[k]]
    requires p'.shutDown == p.shutDown && p'.terminated == p.terminated
    ensures ThreadsInvariant(p')
  {
    forall i | 0 <= i < |p.threads|
      ensures ThreadInvariant(p'.threads[i], p'.shutDown, p'.terminated)
      ensures RepliesInvariant(p'.threads[i], p'.terminated)
    {
      WorkOne(p, k, l, p', i);
    }
  }

  lemma WorkOne(p: Pool, k: nat, l: Label, p': Pool, i: nat)
    requires ThreadsInvariant(p) && k < |p.threads| && i < |p.threads| == |p'.threads|
    requires Works(p.threads[k], l, p'.threads[k]) && (i != k ==> p'.threads[i] == p.threads[i])
    ensures ThreadInvariant(p'.threads[i], p.shutDown, p.terminated)
    ensures RepliesInvariant(p'.threads[i], p.terminated)
  {
    if i == k {
      WorkInvariant(p.threads[k], l, p'.threads[k], p.shutDown, p.terminated);
    }
  }

  lemma NextLoads(p: Pool, maxThreads: nat, e: Event, p': Pool)
    requires LoadInvariant(p, maxThreads) && Next(p, maxThreads, e, p')
    ensures LoadInvariant(p', maxThreads)
  {
    match e
    case Handle(respTx, k, spawned) => HandleLoads(p, maxThreads, respTx, k, spawned, p');
    case Release(k) => ReleaseLoads(p, maxThreads, k, p');
    case _ => SameLoads(p, maxThreads, p');
  }

  lemma NextThreads(p: Pool, maxThreads: nat, e: Event, p': Pool)
    requires ThreadsInvariant(p) && Next(p, maxThreads, e, p')
    ensures ThreadsInvariant(p')
  {
    match e
    case Handle(respTx, k, spawned) =>
      if !p.shutDown { HandleThreads(p, maxThreads, respTx, k, spawned, p'); }
    case Release(k) => ReleaseThreads(p, k, p');
    case RequestShutdown => ToldThreads(p, Shutdown, p');
    case SendTerminate => ToldThreads(p, Terminate, p');
    case Work(k, l, _) => WorkThreads(p, k, l, p');
  }

  lemma ReleaseThreads(p: Pool, k: nat, p': Pool)
    requires ThreadsInvariant(p) && Releases(p, k, p')
    ensures ThreadsInvariant(p')
  {
  }

  lemma NextInvariant(p: Pool, maxThreads: nat, e: Event, p': Pool)
    requires Invariant(p, maxThreads) && Next(p, maxThreads, e, p')
    ensures Invariant(p', maxThreads)
  {
    NextLoads(p, maxThreads, e, p');
    NextThreads(p, maxThreads, e, p');
  }

  // A run of the pool from its creation.
  predicate PoolRun(trace: seq<Pool>, maxThreads: nat, events: seq<Event>) {
    && |trace| == |events| + 1 && trace[0] == EMPTY
    && forall k :: 0 <= k < |events| ==> NextAt(trace, maxThreads, events, k)
  }

  predicate NextAt(trace: seq<Pool>, maxThreads: nat, events: seq<Event>, k: nat) {
    k + 1 < |trace| && k < |events| && Next(trace[k], maxThreads, events[k], trace[k + 1])
  }

  lemma EmptyInvariant(p: Pool, maxThreads: nat)
    requires p == EMPTY
    ensures Invariant(p, maxThreads)
  {
  }

  lemma RunStep(trace: seq<Pool>, maxThreads: nat, events: seq<Event>, n: nat)
    requires PoolRun(trace, maxThreads, events) && 0 < n <= |events| && Invariant(trace[n - 1], maxThreads)
    ensures Invariant(trace[n], maxThreads)
  {
    assert NextAt(trace, maxThreads, events, n - 1);
    NextInvariant(trace[n - 1], maxThreads, events[n - 1], trace[n]);
  }

  lemma {:induction false} RunInvariant(trace: seq<Pool>, maxThreads: nat, events: seq<Event>, n: nat)
    requires PoolRun(trace, maxThreads, events) && n <= |events|
    ensures Invariant(trace[n], maxThreads)
  {
    if n == 0 {
      EmptyInvariant(trace[n], maxThreads);
    } else {
      RunInvariant(trace, maxThreads, events, n - 1);
      RunStep(trace, maxThreads, events, n);
    }
  }

  lemma NextPeak(p: Pool, maxThreads: nat, e: Event, p': Pool)
    requires Next(p, maxThreads, e, p') && |p.guards| <= p.peak
    ensures p'.peak == Max(p.peak, |p'.guards|)
  {
  }

  // The peak is the most guards there have been at once.
  lemma {:induction false} PeakIsReached(trace: seq<Pool>, maxThreads: nat, events: seq<Event>, n: nat)
    requires PoolRun(trace, maxThreads, events) && n <= |events|
    ensures forall k :: 0 <= k <= n ==> |trace[k].guards| <= trace[n].peak
    ensures exists k :: 0 <= k <= n && |trace[k].guards| == trace[n].peak
  {
    if n == 0 {
      assert |trace[0].guards| == trace[0].peak;
    } else {
      PeakIsReached(trace, maxThreads, events, n - 1);
      assert NextAt(trace, maxThreads, events, n - 1);
      NextPeak(trace[n - 1], maxThreads, events[n - 1], trace[n]);
      var k :| 0 <= k <= n - 1 && |trace[k].guards| == trace[n - 1].peak;
      assert |trace[n].guards| == trace[n].peak || |trace[k].guards| == trace[n].peak;
    }
  }

  // Clean shutdown loses nothing. In every run, no request follows a control message
  // in any channel, no thread answers that a request came after shutdown, and a
  // thread whose loop has ended has answered each request ever put on its channel
  // once. Only if Terminate was sent may such an answer be that the server is
  // shutting down.
  lemma NothingLost(trace: seq<Pool>, maxThreads: nat, events: seq<Event>, n: nat, i: nat, id: Id)
    requires PoolRun(trace, maxThreads, events) && n <= |events| && i < |trace[n].threads|
    ensures var t := trace[n].threads[i];
            && NoRequestAfterControl(t.channel)
            && Reply(id, ScriptError(Some(NewRequestAfterShutdown))) !in t.worker.sent
            && Uses(t.worker.sent, id) <= t.put[id]
            && (t.worker.phase.Ended? ==> Uses(t.worker.sent, id) == t.put[id])
            && (!trace[n].terminated ==> Reply(id, Done(ServerIsShuttingDown)) !in t.worker.sent)
  {
    RunInvariant(trace, maxThreads, events, n);
    var t := trace[n].threads[i];
    assert ThreadInvariant(t, trace[n].shutDown, trace[n].terminated);
    UsesAnswered(t.worker.sent, id);
    if t.worker.phase.Ended? {
      InChannelEmpty(t.channel);
    }
  }

  // The branch for a request after shutdown is unreachable: no thread that has
  // taken Shutdown takes a request.
  lemma NoRequestAfterShutdown(trace: seq<Pool>, maxThreads: nat, events: seq<Event>, n: nat, id: Id)
    requires PoolRun(trace, maxThreads, events) && n < |events|
    requires events[n].Work? && events[n].thread < |trace[n].threads| && events[n].action.Take? && events[n].action.message == Some(HandleRequest(id))
    ensures !trace[n].threads[events[n].thread].worker.shutdownRequested
  {
    RunInvariant(trace, maxThreads, events, n);
    var t := trace[n].threads[events[n].thread];
    assert NextAt(trace, maxThreads, events, n);
    assert ThreadInvariant(t, trace[n].shutDown, trace[n].terminated);
  }

  // A request is only ever sent to a thread that will receive it.
  lemma SendSucceeds(trace: seq<Pool>, maxThreads: nat, events: seq<Event>, n: nat)
    requires PoolRun(trace, maxThreads, events) && n <= |events| && !trace[n].shutDown
    ensures forall i :: 0 <= i < |trace[n].threads| ==> !trace[n].threads[i].worker.phase.Ended?
  {
    RunInvariant(trace, maxThreads, events, n);
    assert ThreadsInvariant(trace[n]);
  }

  // In every run, what PickIsFair says of every dispatch.
  lemma DispatchIsFair(trace: seq<Pool>, maxThreads: nat, events: seq<Event>, n: nat)
    requires PoolRun(trace, maxThreads, events) && n < |events| && events[n].Handle? && !trace[n].shutDown
    ensures var load := LoadOf(trace[n], events[n].chosen);
            load * maxThreads <= |trace[n].guards| && (|trace[n].guards| < maxThreads ==> load == 0)
    ensures |trace[n + 1].threads| <= maxThreads && |trace[n + 1].threads| <= trace[n + 1].peak
  {
    RunInvariant(trace, maxThreads, events, n);
    RunInvariant(trace, maxThreads, events, n + 1);
    assert NextAt(trace, maxThreads, events, n);
    PickIsFair(trace[n], maxThreads, events[n].chosen);
  }

  // --- Every thread is told, every request put ---

  // After shutdown a thread has ended, or knows, or will be told.
  predicate WillEnd(t: Thread) {
    t.worker.phase.Ended? || t.worker.shutdownRequested || Shutdown in t.channel
  }

  lemma WorkWillEnd(t: Thread, l: Label, t': Thread)
    requires Works(t, l, t') && WillEnd(t)
    ensures WillEnd(t')
  {
    if Shutdown in t.channel && l.Take? {
      assert t.channel == [t.channel[0]] + t'.channel;
    }
  }

  predicate AllWillEnd(p: Pool) {
    p.shutDown ==> forall i :: 0 <= i < |p.threads| ==> WillEnd(p.threads[i])
  }

  lemma NextWillEnd(p: Pool, maxThreads: nat, e: Event, p': Pool)
    requires Next(p, maxThreads, e, p') && AllWillEnd(p)
    ensures AllWillEnd(p')
  {
    match e
    case Work(k, l, _) =>
      if p.shutDown { WorkWillEnd(p.threads[k], l, p'.threads[k]); }
    case _ =>
  }

  // In every run, once shutdown has been requested it reaches every thread.
  lemma {:induction false} ShutdownReachesAll(trace: seq<Pool>, maxThreads: nat, events: seq<Event>, n: nat)
    requires PoolRun(trace, maxThreads, events) && n <= |events|
    ensures AllWillEnd(trace[n])
  {
    if n > 0 {
      ShutdownReachesAll(trace, maxThreads, events, n - 1);
      assert NextAt(trace, maxThreads, events, n - 1);
      NextWillEnd(trace[n - 1], maxThreads, events[n - 1], trace[n]);
    }
  }

  // After the timeout a thread has ended, or will take Terminate.
  predicate WillStop(t: Thread) {
    t.worker.phase.Ended? || Terminate in t.channel
  }

  lemma WorkWillStop(t: Thread, l: Label, t': Thread)
    requires Works(t, l, t') && WillStop(t)
    ensures WillStop(t')
  {
    if Terminate in t.channel && l.Take? {
      assert t.channel == [t.channel[0]] + t'.channel;
    }
  }

  predicate AllWillStop(p: Pool) {
    p.terminated ==> p.shutDown && forall i :: 0 <= i < |p.threads| ==> WillStop(p.threads[i])
  }

  lemma NextWillStop(p: Pool, maxThreads: nat, e: Event, p': Pool)
    requires Next(p, maxThreads, e, p') && AllWillStop(p)
    ensures AllWillStop(p')
  {
    match e
    case Work(k, l, _) =>
      if p.terminated { WorkWillStop(p.threads[k], l, p'.threads[k]); }
    case _ =>
  }

  // And once the timeout has passed every thread will stop.
  lemma {:induction false} TerminateReachesAll(trace: seq<Pool>, maxThreads: nat, events: seq<Event>, n: nat)
    requires PoolRun(trace, maxThreads, events) && n <= |events|
    ensures AllWillStop(trace[n])
  {
    if n > 0 {
      TerminateReachesAll(trace, maxThreads, events, n - 1);
      assert NextAt(trace, maxThreads, events, n - 1);
      NextWillStop(trace[n - 1], maxThreads, events[n - 1], trace[n]);
    }
  }

  // Requests put on a channel stay counted there.
  predicate PutGrows(before: seq<Thread>, after: seq<Thread>) {
    |before| <= |after| && forall i :: 0 <= i < |before| ==> before[i].put <= after[i].put
  }

  lemma NextPutGrows(p: Pool, maxThreads: nat, e: Event, p': Pool)
    requires Next(p, maxThreads, e, p')
    ensures PutGrows(p.threads, p'.threads)
  {
    match e
    case _ =>
  }

  // A request handled before shutdown is put on the channel of the thread chosen.
  lemma {:induction false} HandledIsPut(trace: seq<Pool>, maxThreads: nat, events: seq<Event>, k: nat, n: nat)
    requires PoolRun(trace, maxThreads, events) && k < n <= |events|
    requires events[k].Handle? && !trace[k].shutDown
    ensures events[k].chosen < |trace[n].threads|
    ensures events[k].respTx in trace[n].threads[events[k].chosen].put
    decreases n
  {
    assert NextAt(trace, maxThreads, events, n - 1);
    if n - 1 > k {
      HandledIsPut(trace, maxThreads, events, k, n - 1);
      NextPutGrows(trace[n - 1], maxThreads, events[n - 1], trace[n]);
    }
  }

  // So it has been answered once that thread's loop has ended.
  lemma HandledIsAnswered(trace: seq<Pool>, maxThreads: nat, events: seq<Event>, k: nat, n: nat)
    requires PoolRun(trace, maxThreads, events) && k < n <= |events|
    requires events[k].Handle? && !trace[k].shutDown
    ensures var i := events[k].chosen;
            && i < |trace[n].threads|
            && (trace[n].threads[i].worker.phase.Ended? ==>
                  Uses(trace[n].threads[i].worker.sent, events[k].respTx) > 0)
  {
    HandledIsPut(trace, maxThreads, events, k, n);
    NothingLost(trace, maxThreads, events, n, events[k].chosen, events[k].respTx);
  }
}
