// request_loop.rs: one worker thread's loop over messages, pending promises and
// the event loop.
module RequestLoop {
  import opened Wrappers
  import opened Helpers
  import opened RequestQueue
  import opened WorkerProtocol
  import opened FairDrain

  // What start_handling_request says about a request.
  datatype Started =
    | Refused(error: nat)
    | Deferred(promise: Promise)
    | Immediate(content: nat, bodyFuture: Option<Continuation>)

  // Which branch select! takes, with what that branch finds.
  datatype Branch =
    | Message(message: Option<ControlMessage>, started: Started)
    | QueueNext(scene: Scene)
    | EventLoopDone(scenes: nat -> Scene)
    | EventLoopError

  datatype Event = Event(eventLoopEmpty: bool, branch: Branch)

  // The loop's own state, between two turns.
  datatype Loop = Loop(queue: Queue, shutdownRequested: bool, ended: bool)

  // What becomes of a new request.
  predicate Starts(q: Queue, respTx: Id, started: Started, q': Queue) {
    match started
    case Refused(error) => q' == q.(replies := q.replies + [Reply(respTx, RequestError(error))])
    case Deferred(promise) => q' == q.(requests := q.requests + [RequestFuture(promise, Some(respTx))])
    case Immediate(content, bodyFuture) =>
      q' == q.(replies := q.replies + [Reply(respTx, Done(Page(content)))],
               continuations := q.continuations + if bodyFuture.Some? then [bodyFuture.value] else [])
  }

  predicate Receives(s: Loop, message: Option<ControlMessage>, started: Started, s': Loop) {
    match message
    case Some(HandleRequest(respTx)) =>
      if s.shutdownRequested then
        s' == s.(queue := s.queue.(
                   replies := s.queue.replies + [Reply(respTx, ScriptError(Some(NewRequestAfterShutdown)))]))
      else s' == s.(queue := s'.queue) && Starts(s.queue, respTx, started, s'.queue)
    case Some(Terminate) =>
      s' == s.(ended := true,
               queue := s.queue.(requests := [],
                                 replies := s.queue.replies + Cancelled(s.queue.requests, ServerShuttingDown)))
    case _ => s' == s.(shutdownRequested := true)
  }

  // What a branch of select! does.
  ghost predicate TakesBranch(s: Loop, b: Branch, s': Loop) {
    match b
    case Message(message, started) => Receives(s, message, started, s')
    case QueueNext(scene) => s' == s.(queue := s'.queue) && exists p :: Polled(s.queue, scene, p, s'.queue)
    case EventLoopDone(scenes) =>
      s' == s.(queue := s'.queue) && exists last :: FairlyDrained(s.queue, scenes, s'.queue, last)
    case EventLoopError => s' == s
  }

  // Nothing is left to do.
  predicate IsDone(s: Loop, eventLoopEmpty: bool) {
    s.shutdownRequested && eventLoopEmpty && s.queue.requests == [] && s.queue.continuations == []
  }

  // A run of the loop through these events.
  ghost predicate LoopRun(states: seq<Loop>, events: seq<Event>) {
    && |states| == |events| + 1
    && forall k :: 0 <= k < |events| ==> TurnAt(states, events, k)
  }

  ghost predicate TurnAt(states: seq<Loop>, events: seq<Event>, k: nat) {
    && k + 1 < |states| && k < |events|
    && !states[k].ended && !IsDone(states[k], events[k].eventLoopEmpty)
    && TakesBranch(states[k], events[k].branch, states[k + 1])
  }

  lemma LoopRunExtend(states: seq<Loop>, events: seq<Event>, n: nat, s: Loop)
    requires n < |events| && LoopRun(states, events[..n])
    requires !Last(states).ended && !IsDone(Last(states), events[n].eventLoopEmpty)
    requires TakesBranch(Last(states), events[n].branch, s)
    ensures LoopRun(states + [s], events[..n + 1])
  {
    var states', events' := states + [s], events[..n + 1];
    forall k | 0 <= k < |events'|
      ensures TurnAt(states', events', k)
    {
      assert k < n ==> TurnAt(states, events[..n], k);
    }
  }

  // In every run, when the event loop finishes, each request queued under its own
  // sender gets one reply: its own answer if its promise was settled by the last
  // poll, or when the drain began, and status 500 only if it was not.
  lemma FinishedRequestsAreAnswered(states: seq<Loop>, events: seq<Event>, k: nat, f: RequestFuture)
    returns (last: nat)
    requires LoopRun(states, events) && k < |events| && events[k].branch.EventLoopDone?
    requires f in states[k].queue.requests && f.respTx.Some? && Ids(states[k].queue.requests)[f.respTx.value] == 1
    ensures var q, scenes, q' := states[k].queue, events[k].branch.scenes, states[k + 1].queue;
            && q'.requests == [] && q.replies <= q'.replies
            && FairlyDrained(q, scenes, q', last)
            && (Settling(scenes, last) ==>
                  forall r :: r in q'.replies[|q.replies|..] && r.to == f.respTx.value ==>
                    && (Ready(f, scenes(last)) ==> r.data == ReplyData(Followed(f.promise, scenes(last).settled)))
                    && (Ready(f, scenes(0)) ==> r.data == ReplyData(Followed(f.promise, scenes(0).settled)))
                    && (!Ready(f, scenes(last)) ==> r.data == Done(CouldNotComplete)))
  {
    assert TurnAt(states, events, k);
    var q, scenes, q' := states[k].queue, events[k].branch.scenes, states[k + 1].queue;
    last :| FairlyDrained(q, scenes, q', last);
    if Settling(scenes, last) {
      forall r | r in q'.replies[|q.replies|..] && r.to == f.respTx.value
        ensures r == Owed(f, scenes(last))
        ensures Ready(f, scenes(0)) ==> r.data == ReplyData(Followed(f.promise, scenes(0).settled))
      {
        ReadyIsAnswered(q, scenes, q', last, f, 0, r);
      }
    }
  }

  // In every run: a new request is answered or queued with the promise it was given,
  // its body is pushed, and requests are told that they came after a shutdown.
  lemma NewRequestsAreStarted(states: seq<Loop>, events: seq<Event>, k: nat, id: Id)
    requires LoopRun(states, events) && k < |events|
    requires events[k].branch.Message? && events[k].branch.message == Some(HandleRequest(id))
    ensures var q, started, q' := states[k].queue, events[k].branch.started, states[k + 1].queue;
            && states[k + 1].shutdownRequested == states[k].shutdownRequested && !states[k + 1].ended
            && if states[k].shutdownRequested then
                 q' == q.(replies := q.replies + [Reply(id, ScriptError(Some(NewRequestAfterShutdown)))])
               else
                 && (started.Refused? ==> q' == q.(replies := q.replies + [Reply(id, RequestError(started.error))]))
                 && (started.Deferred? ==>
                       q' == q.(requests := q.requests + [RequestFuture(started.promise, Some(id))]))
                 && (started.Immediate? ==>
                       && q'.requests == q.requests
                       && q'.replies == q.replies + [Reply(id, Done(Page(started.content)))]
                       && q'.continuations
                          == q.continuations + if started.bodyFuture.Some? then [started.bodyFuture.value] else [])
  {
    assert TurnAt(states, events, k);
  }

  // In every run: Shutdown, or a closed channel, is remembered from then on, and only
  // they are; Terminate ends the loop with a 503 for every queued request.
  lemma {:induction false} ControlIsObeyed(states: seq<Loop>, events: seq<Event>, n: nat)
    requires LoopRun(states, events) && n <= |events| && !states[0].shutdownRequested
    ensures states[n].shutdownRequested <==>
              exists k :: 0 <= k < n && events[k].branch.Message?
                          && (events[k].branch.message == None || events[k].branch.message == Some(Shutdown))
    ensures n > 0 ==> (states[n].ended <==>
                         events[n - 1].branch.Message? && events[n - 1].branch.message == Some(Terminate))
    ensures n > 0 && states[n].ended ==>
              && states[n].queue.requests == []
              && states[n].queue.replies
                 == states[n - 1].queue.replies + Cancelled(states[n - 1].queue.requests, ServerShuttingDown)
  {
    if n > 0 {
      ControlIsObeyed(states, events, n - 1);
      assert TurnAt(states, events, n - 1);
      ControlStep(states[n - 1], events[n - 1].branch, states[n]);
    }
  }

  lemma ControlStep(s: Loop, b: Branch, s': Loop)
    requires TakesBranch(s, b, s') && !s.ended
    ensures s'.shutdownRequested <==>
              s.shutdownRequested || (b.Message? && (b.message == None || b.message == Some(Shutdown)))
    ensures s'.ended <==> b.Message? && b.message == Some(Terminate)
    ensures s'.ended ==> s'.queue.requests == []
                         && s'.queue.replies == s.queue.replies + Cancelled(s.queue.requests, ServerShuttingDown)
  {
  }

  // In every run, polling the queue makes progress of just one kind, or finds nothing
  // ready.
  lemma QueueIsPolled(states: seq<Loop>, events: seq<Event>, k: nat) returns (p: Progress)
    requires LoopRun(states, events) && k < |events| && events[k].branch.QueueNext?
    ensures Polled(states[k].queue, events[k].branch.scene, p, states[k + 1].queue)
  {
    assert TurnAt(states, events, k);
    p :| Polled(states[k].queue, events[k].branch.scene, p, states[k + 1].queue);
  }

  // The requests among the messages received.
  function Requests(events: seq<Event>): multiset<Id> {
    if events == [] then multiset{}
    else
      var b := events[|events| - 1].branch;
      Requests(events[..|events| - 1]) + if b.Message? then Request(b.message) else multiset{}
  }

  // A run between two states of the worker that has consumed these events.
  predicate Consumes(trace: seq<Worker>, labels: seq<Label>, from: Worker, to: Worker, events: seq<Event>) {
    Run(trace, labels) && trace[0] == from && Last(trace) == to && Received(labels) == Requests(events)
  }

  predicate LabelFits(l: Label, b: Branch) {
    if b.Message? then l.Take? && l.message == b.message else l.Answer?
  }

  lemma ConsumesNext(trace: seq<Worker>, labels: seq<Label>, from: Worker, to: Worker, events: seq<Event>, n: nat,
                     l: Label, w: Worker)
    requires n < |events| && Consumes(trace, labels, from, to, events[..n])
    requires Step(to, l, w) && LabelFits(l, events[n].branch)
    ensures Consumes(trace + [w], labels + [l], from, w, events[..n + 1])
  {
    RunExtend(trace, labels, l, w);
    ReceivedExtend(labels, l);
    assert events[..n + 1][..n] == events[..n];
  }

  lemma ConsumesLeave(trace: seq<Worker>, labels: seq<Label>, from: Worker, to: Worker, events: seq<Event>, w: Worker)
    requires Consumes(trace, labels, from, to, events) && Step(to, Leave, w)
    ensures Consumes(trace + [w], labels + [Leave], from, w, events)
  {
    RunExtend(trace, labels, Leave, w);
    ReceivedExtend(labels, Leave);
  }

  // A loop that has ended has used each sender it received once.
  lemma EndedExactly(trace: seq<Worker>, labels: seq<Label>, from: Worker, to: Worker, events: seq<Event>)
    requires Consumes(trace, labels, from, to, events) && to.phase.Ended?
    ensures forall id :: Uses(to.sent, id) == Requests(events)[id]
  {
    forall id
      ensures Uses(to.sent, id) == Requests(events)[id]
    {
      ExactlyOneReply(trace, labels, id);
    }
  }

  // A poll answers at most one queued request, with its own answer.
  lemma PollIsAnswer(q: Queue, scene: Scene, p: Progress, q': Queue, replies: seq<Reply>)
    requires Polled(q, scene, p, q') && q'.replies == q.replies + replies
    ensures Answered(replies) <= Ids(q.requests)
    ensures Ids(q'.requests) == Ids(q.requests) - Answered(replies)
    ensures forall r :: r in replies ==> IsOwn(r.data)
  {
    match p
    case Finished(i) =>
      MovedIds(Without(q.requests, i), q'.requests, scene);
      IdsWithout(q.requests, i);
      assert replies == q'.replies[|q.replies|..];
      AnsweredOne(replies[0]);
    case _ =>
      MovedIds(q.requests, q'.requests, scene);
      assert replies == q'.replies[|q.replies|..];
  }

  // A drain answers every queued request, with its own answer or the reason.
  lemma DrainIsAnswer(trace: seq<Queue>, scenes: nat -> Scene, progress: seq<Progress>, replies: seq<Reply>)
    requires Drain(trace, scenes, progress) && OwnSenders(Last(trace).requests)
    requires Last(trace).replies + Cancelled(Last(trace).requests, Unresolvable) == trace[0].replies + replies
    ensures Answered(replies) == Ids(trace[0].requests)
    ensures forall r :: r in replies ==> IsOwn(r.data) || r.data == Done(CouldNotComplete)
  {
    DrainOutcome(trace, scenes, progress, Unresolvable);
    CancelledData(Last(trace).requests, Unresolvable);
    var cancelled := Cancelled(Last(trace).requests, Unresolvable);
    AddedReplies(trace[0].replies, Last(trace).replies, cancelled, replies);
    forall r | r in replies
      ensures IsOwn(r.data) || r.data == Done(CouldNotComplete)
    {
      if r !in cancelled {
        assert OwnReply(r, trace, scenes, |progress|);
      }
    }
  }

  lemma AddedReplies(before: seq<Reply>, after: seq<Reply>, cancelled: seq<Reply>, replies: seq<Reply>)
    requires before <= after && after + cancelled == before + replies
    ensures replies == after[|before|..] + cancelled
  {
    assert replies == (before + replies)[|before|..];
  }

  class RequestLoop {
    const requestQueue: RequestQueue
    var shutdownRequested: bool
    var phase: Phase
    ghost var taken: multiset<Id>

    constructor (scriptError: Option<nat>)
      ensures Valid() && fresh(requestQueue)
      ensures Start(Abstract()) && Conserved(Abstract())
      ensures phase == if scriptError.None? then Running else ScriptFailed(Some(Thrown(scriptError.value)))
    {
      requestQueue := new RequestQueue();
      shutdownRequested := false;
      phase := if scriptError.None? then Running else ScriptFailed(Some(Thrown(scriptError.value)));
      taken := multiset{};
    }

    ghost predicate Valid()
      reads this, requestQueue
    {
      requestQueue.Valid()
    }

    ghost function Abstract(): Worker
      reads this, requestQueue
    {
      Worker(phase, shutdownRequested, taken, Ids(requestQueue.requests), requestQueue.replies)
    }

    function LoopState(): Loop
      reads this, requestQueue
    {
      Loop(requestQueue.Abstract(), shutdownRequested, phase.Ended?)
    }

    // resp_tx.send
    method Send(respTx: Id, data: ResponseData)
      modifies requestQueue`replies
      ensures requestQueue.replies == old(requestQueue.replies) + [Reply(respTx, data)]
    {
      requestQueue.replies := requestQueue.replies + [Reply(respTx, data)];
    }

    method HandleNewRequest(respTx: Id, started: Started) returns (ghost replies: seq<Reply>)
      requires Valid() && phase == Running && !shutdownRequested
      modifies requestQueue, this`taken
      ensures Valid() && Step(old(Abstract()), Take(Some(HandleRequest(respTx)), replies), Abstract())
      ensures Starts(old(requestQueue.Abstract()), respTx, started, requestQueue.Abstract())
    {
      taken := taken + multiset{respTx};
      replies := [];
      match started
      case Refused(error) =>
        Send(respTx, RequestError(error));
        replies := [Reply(respTx, RequestError(error))];
      case Deferred(promise) => requestQueue.Push(promise, respTx);
      case Immediate(content, bodyFuture) =>
        if bodyFuture.Some? {
          requestQueue.PushContinuation(bodyFuture.value);
        }
        Send(respTx, Done(Page(content)));
        replies := [Reply(respTx, Done(Page(content)))];
    }

    // The branch of select! that receives a message.
    method Receive(message: Option<ControlMessage>, started: Started) returns (ghost replies: seq<Reply>)
      requires Valid() && phase == Running
      modifies this, requestQueue
      ensures Valid() && Step(old(Abstract()), Take(message, replies), Abstract())
      ensures Receives(old(LoopState()), message, started, LoopState())
    {
      replies := [];
      match message
      case None => shutdownRequested := true;
      case Some(Shutdown) => shutdownRequested := true;
      case Some(Terminate) =>
        replies := Cancelled(requestQueue.requests, ServerShuttingDown);
        CancelledAnswers(requestQueue.requests, ServerShuttingDown);
        CancelledData(requestQueue.requests, ServerShuttingDown);
        requestQueue.CancelAll(ServerShuttingDown);
        phase := Ended;
      case Some(HandleRequest(respTx)) =>
        if shutdownRequested {
          taken := taken + multiset{respTx};
          Send(respTx, ScriptError(Some(NewRequestAfterShutdown)));
          replies := [Reply(respTx, ScriptError(Some(NewRequestAfterShutdown)))];
        } else {
          replies := HandleNewRequest(respTx, started);
        }
    }

    // The branch for request_queue.next(), which select! takes only when it is ready.
    method Next(scene: Scene) returns (ghost replies: seq<Reply>)
      requires Valid() && phase == Running
      modifies requestQueue
      ensures Valid() && Step(old(Abstract()), Answer(replies), Abstract())
      ensures exists p :: Polled(old(requestQueue.Abstract()), scene, p, requestQueue.Abstract())
    {
      ghost var before := requestQueue.Abstract();
      var _, p := requestQueue.PollNext(scene);
      replies := requestQueue.replies[|before.replies|..];
      assert requestQueue.replies == before.replies + replies;
      PollIsAnswer(before, scene, p, requestQueue.Abstract(), replies);
    }

    // The branch for a finished event loop: no I/O is left, so nothing else can
    // settle the promises still pending.
    method FinishedEventLoop(scenes: nat -> Scene) returns (ghost replies: seq<Reply>)
      requires Valid() && phase == Running
      modifies requestQueue
      ensures Valid() && Step(old(Abstract()), Answer(replies), Abstract())
      ensures Abstract().pending == multiset{}
      ensures exists last :: FairlyDrained(old(requestQueue.Abstract()), scenes, requestQueue.Abstract(), last)
    {
      ghost var before := requestQueue.replies;
      var trace, progress := requestQueue.CancelUnfinished(scenes, Unresolvable);
      DrainOutcome(trace, scenes, progress, Unresolvable);
      replies := requestQueue.replies[|before|..];
      assert requestQueue.replies == before + replies;
      DrainIsAnswer(trace, scenes, progress, replies);
      DrainIsFair(trace, scenes, progress, requestQueue.Abstract());
    }

    // The branch select! takes.
    method Select(b: Branch) returns (ghost l: Label)
      requires Valid() && phase == Running
      modifies this, requestQueue
      ensures Valid() && Step(old(Abstract()), l, Abstract()) && LabelFits(l, b)
      ensures TakesBranch(old(LoopState()), b, LoopState()) && (phase == Running || phase == Ended)
    {
      ghost var replies;
      match b
      case Message(message, started) =>
        replies := Receive(message, started);
        l := Take(message, replies);
      case QueueNext(scene) =>
        replies := Next(scene);
        l := Answer(replies);
      case EventLoopDone(scenes) =>
        replies := FinishedEventLoop(scenes);
        l := Answer(replies);
      case EventLoopError => l := Answer([]);
    }

    // The check at the top of the loop. Unfinished bodies keep it going too.
    method BreakIfDone(eventLoopEmpty: bool) returns (broke: bool)
      requires Valid() && phase == Running
      modifies this`phase
      ensures Valid()
      ensures broke <==> old(shutdownRequested && eventLoopEmpty && requestQueue.IsEmpty())
      ensures broke ==> Step(old(Abstract()), Leave, Abstract())
      ensures !broke ==> Abstract() == old(Abstract())
    {
      broke := shutdownRequested && eventLoopEmpty && requestQueue.IsEmpty();
      if broke {
        phase := Ended;
      }
    }

    // handle_requests_inner, after its setup: turns until the loop ends or the
    // events do. Once it has ended, the senders received have been used once each.
    method HandleRequestsInner(events: seq<Event>)
      returns (consumed: nat, ghost trace: seq<Worker>, ghost labels: seq<Label>, ghost states: seq<Loop>)
      requires Valid() && phase == Running && Start(Abstract())
      modifies this, requestQueue
      ensures Valid() && consumed <= |events|
      ensures Consumes(trace, labels, old(Abstract()), Abstract(), events[..consumed])
      ensures LoopRun(states, events[..consumed]) && states[0] == old(LoopState())
      ensures Last(states).queue == requestQueue.Abstract() && Last(states).shutdownRequested == shutdownRequested
      ensures phase == Ended <==>
                Last(states).ended || (consumed < |events| && IsDone(Last(states), events[consumed].eventLoopEmpty))
      ensures phase == Ended || (phase == Running && consumed == |events|)
      ensures phase == Ended ==>
                forall id :: Uses(requestQueue.replies, id) == Requests(events[..consumed])[id]
    {
      trace, labels, states := [Abstract()], [], [LoopState()];
      consumed := 0;
      while consumed < |events| && phase == Running
        invariant Valid() && consumed <= |events| && (phase == Running || phase == Ended)
        invariant Consumes(trace, labels, old(Abstract()), Abstract(), events[..consumed])
        invariant LoopRun(states, events[..consumed]) && states[0] == old(LoopState())
        invariant Last(states).queue == requestQueue.Abstract() && Last(states).shutdownRequested == shutdownRequested
        invariant Last(states).ended ==> phase == Ended
        invariant phase == Ended ==>
                    Last(states).ended || (consumed < |events| && IsDone(Last(states), events[consumed].eventLoopEmpty))
        decreases phase == Running, |events| - consumed
      {
        ghost var w, s := Abstract(), LoopState();
        var broke := BreakIfDone(events[consumed].eventLoopEmpty);
        if broke {
          ConsumesLeave(trace, labels, old(Abstract()), w, events[..consumed], Abstract());
          trace, labels := trace + [Abstract()], labels + [Leave];
        } else {
          var l := Select(events[consumed].branch);
          ConsumesNext(trace, labels, old(Abstract()), w, events, consumed, l, Abstract());
          LoopRunExtend(states, events, consumed, LoopState());
          trace, labels, states := trace + [Abstract()], labels + [l], states + [LoopState()];
          consumed := consumed + 1;
        }
      }
      if phase == Ended {
        EndedExactly(trace, labels, old(Abstract()), Abstract(), events[..consumed]);
      }
    }

    // The loop of a worker whose script failed: it answers until told to stop.
    method ReportFailure(messages: seq<Option<ControlMessage>>)
      returns (consumed: nat, ghost trace: seq<Worker>, ghost labels: seq<Label>)
      requires Valid() && phase.ScriptFailed? && Start(Abstract())
      modifies this, requestQueue
      ensures Valid() && Run(trace, labels) && trace[0] == old(Abstract()) && Last(trace) == Abstract()
      ensures consumed == |labels| <= |messages|
      ensures forall k :: 0 <= k < consumed ==> labels[k].Take? && labels[k].message == messages[k]
      ensures phase == Ended || consumed == |messages|
      ensures forall k :: 0 <= k < |requestQueue.replies| ==>
                requestQueue.replies[k].data == ScriptError(if k == 0 then old(phase).error else None)
    {
      trace, labels := [Abstract()], [];
      consumed := 0;
      while consumed < |messages| && phase != Ended
        invariant Valid() && consumed <= |messages| && !phase.Running?
        invariant Run(trace, labels) && |labels| == consumed
        invariant forall k :: 0 <= k < consumed ==> labels[k].Take? && labels[k].message == messages[k]
        invariant trace[0] == old(Abstract()) && Last(trace) == Abstract()
      {
        var replies := Report(messages[consumed]);
        RunExtend(trace, labels, Take(messages[consumed], replies), Abstract());
        trace, labels := trace + [Abstract()], labels + [Take(messages[consumed], replies)];
        consumed := consumed + 1;
      }
      FailedScriptReplies(trace, labels, |labels|);
    }

    method Report(message: Option<ControlMessage>) returns (ghost replies: seq<Reply>)
      requires Valid() && phase.ScriptFailed?
      modifies this, requestQueue
      ensures Valid() && Step(old(Abstract()), Take(message, replies), Abstract())
      ensures !phase.Running?
    {
      replies := [];
      match message
      case Some(HandleRequest(respTx)) =>
        taken := taken + multiset{respTx};
        var error := phase.error;
        phase := ScriptFailed(None);
        Send(respTx, ScriptError(error));
        replies := [Reply(respTx, ScriptError(error))];
      case _ => phase := Ended;
    }
  }
}
