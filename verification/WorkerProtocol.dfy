// What a worker thread does to its requests, one message or one batch of replies
// at a time. RequestLoop implements this protocol.
module WorkerProtocol {
  import opened Wrappers
  import opened Helpers
  import opened RequestQueue

  datatype ControlMessage = HandleRequest(respTx: Id) | Shutdown | Terminate

  datatype Phase = Running | ScriptFailed(error: Option<ScriptFailure>) | Ended

  datatype Worker = Worker(
    phase: Phase,
    shutdownRequested: bool,
    taken: multiset<Id>,     // requests received from the channel
    pending: multiset<Id>,   // those in the queue
    sent: seq<Reply>
  )

  // A worker at the start of its loop, after its script ran or failed.
  predicate Start(w: Worker) {
    && !w.phase.Ended?
    && !w.shutdownRequested && w.taken == w.pending == multiset{} && w.sent == []
  }

  // Take receives a message, or the end of a closed channel. Answer lets queued
  // requests go, and Leave is the normal end of the loop.
  datatype Label =
    | Take(message: Option<ControlMessage>, replies: seq<Reply>)
    | Answer(replies: seq<Reply>)
    | Leave

  predicate IsOwn(data: ResponseData) {
    data.RequestError? || (data.Done? && data.response.Page?)
  }

  predicate TakeRequest(w: Worker, id: Id, replies: seq<Reply>, w': Worker) {
    && w' == w.(taken := w.taken + multiset{id}, phase := w'.phase, pending := w'.pending, sent := w.sent + replies)
    && match w.phase
       case ScriptFailed(error) =>
         w'.phase == ScriptFailed(None) && w'.pending == w.pending && replies == [Reply(id, ScriptError(error))]
       case Running =>
         w'.phase == Running &&
         if w.shutdownRequested then
           w'.pending == w.pending && replies == [Reply(id, ScriptError(Some(NewRequestAfterShutdown)))]
         else if replies == [] then w'.pending == w.pending + multiset{id}
         else w'.pending == w.pending && replies == [Reply(id, replies[0].data)] && IsOwn(replies[0].data)
       case Ended => false
  }

  predicate TakeTerminate(w: Worker, replies: seq<Reply>, w': Worker) {
    && Answered(replies) == w.pending
    && (forall r :: r in replies ==> r.data == Done(ServerIsShuttingDown))
    && w' == w.(phase := Ended, pending := multiset{}, sent := w.sent + replies)
  }

  predicate Step(w: Worker, l: Label, w': Worker) {
    match l
    case Take(Some(HandleRequest(id)), replies) => TakeRequest(w, id, replies, w')
    case Take(message, replies) =>
      if w.phase.Running? && message == Some(Terminate) then TakeTerminate(w, replies, w')
      else
        && replies == [] && !w.phase.Ended?
        && w' == if w.phase.Running? then w.(shutdownRequested := true) else w.(phase := Ended)
    case Answer(replies) =>
      && w.phase.Running? && Answered(replies) <= w.pending
      && (forall r :: r in replies ==> IsOwn(r.data) || r.data == Done(CouldNotComplete))
      && w' == w.(pending := w.pending - Answered(replies), sent := w.sent + replies)
    case Leave =>
      && w.phase.Running? && w.shutdownRequested && w.pending == multiset{}
      && w' == w.(phase := Ended)
  }

  // Requests taken are those answered and those in the queue, with no overlap.
  predicate Conserved(w: Worker) {
    && w.taken == Answered(w.sent) + w.pending
    && (!w.phase.Running? ==> w.pending == multiset{})
  }

  lemma TakeConserves(w: Worker, id: Id, replies: seq<Reply>, w': Worker)
    requires Conserved(w) && TakeRequest(w, id, replies, w')
    ensures Conserved(w')
  {
    if replies == [] {
      assert w.sent + replies == w.sent;
    } else {
      assert replies == [Reply(id, replies[0].data)];
      AnsweredOne(replies[0]);
      AnsweredAppend(w.sent, replies);
    }
  }

  // Replies to requests in the queue move them from one side to the other.
  lemma AnswersConserve(w: Worker, replies: seq<Reply>, w': Worker)
    requires w.taken == Answered(w.sent) + w.pending && Answered(replies) <= w.pending
    requires w'.taken == w.taken && w'.pending == w.pending - Answered(replies)
    requires w'.sent == w.sent + replies
    ensures w'.taken == Answered(w'.sent) + w'.pending
  {
    AnsweredAppend(w.sent, replies);
  }

  lemma StepConserves(w: Worker, l: Label, w': Worker)
    requires Conserved(w) && Step(w, l, w')
    ensures Conserved(w')
  {
    match l
    case Take(Some(HandleRequest(id)), replies) => TakeConserves(w, id, replies, w');
    case Take(_, replies) =>
      if w.phase.Running? && l.message == Some(Terminate) {
        AnswersConserve(w, replies, w');
      }
    case Answer(replies) => AnswersConserve(w, replies, w');
    case Leave =>
  }

  // A run of one worker.
  predicate Run(trace: seq<Worker>, labels: seq<Label>) {
    && |trace| == |labels| + 1 && Start(trace[0])
    && forall k :: 0 <= k < |labels| ==> StepAt(trace, labels, k)
  }

  predicate StepAt(trace: seq<Worker>, labels: seq<Label>, k: nat) {
    k + 1 < |trace| && k < |labels| && Step(trace[k], labels[k], trace[k + 1])
  }

  lemma RunExtend(trace: seq<Worker>, labels: seq<Label>, l: Label, w: Worker)
    requires Run(trace, labels) && Step(Last(trace), l, w)
    ensures Run(trace + [w], labels + [l])
  {
    forall k | 0 <= k < |labels + [l]|
      ensures StepAt(trace + [w], labels + [l], k)
    {
      assert k < |labels| ==> StepAt(trace, labels, k);
    }
  }

  lemma RunPrefix(trace: seq<Worker>, labels: seq<Label>, n: nat)
    requires Run(trace, labels) && n <= |labels|
    ensures Run(trace[..n + 1], labels[..n])
  {
    var trace', labels' := trace[..n + 1], labels[..n];
    forall k | 0 <= k < n
      ensures StepAt(trace', labels', k)
    {
      assert StepAt(trace, labels, k);
    }
  }

  lemma {:induction false} RunConserves(trace: seq<Worker>, labels: seq<Label>, n: nat)
    requires Run(trace, labels) && n <= |labels|
    ensures Conserved(trace[n])
  {
    if n > 0 {
      RunConserves(trace, labels, n - 1);
      assert StepAt(trace, labels, n - 1);
      StepConserves(trace[n - 1], labels[n - 1], trace[n]);
    }
  }

  // The requests among the messages a run has received.
  function Received(labels: seq<Label>): multiset<Id> {
    if labels == [] then multiset{}
    else
      var l := labels[|labels| - 1];
      Received(labels[..|labels| - 1]) + if l.Take? then Request(l.message) else multiset{}
  }

  function Request(message: Option<ControlMessage>): multiset<Id> {
    if message.Some? && message.value.HandleRequest? then multiset{message.value.respTx} else multiset{}
  }

  lemma ReceivedExtend(labels: seq<Label>, l: Label)
    ensures Received(labels + [l]) == Received(labels) + if l.Take? then Request(l.message) else multiset{}
  {
    assert (labels + [l])[..|labels|] == labels;
  }

  lemma {:induction false} TakenIsReceived(trace: seq<Worker>, labels: seq<Label>)
    requires Run(trace, labels)
    ensures Last(trace).taken == Received(labels)
    decreases |labels|
  {
    if labels != [] {
      var n := |labels| - 1;
      assert StepAt(trace, labels, n);
      RunPrefix(trace, labels, n);
      TakenIsReceived(trace[..n + 1], labels[..n]);
    }
  }

  // How often a sender is used.
  function Uses(replies: seq<Reply>, id: Id): nat {
    if replies == [] then 0
    else Uses(replies[..|replies| - 1], id) + if replies[|replies| - 1].to == id then 1 else 0
  }

  lemma {:induction false} UsesAnswered(replies: seq<Reply>, id: Id)
    ensures Uses(replies, id) == Answered(replies)[id]
    decreases |replies|
  {
    if replies != [] {
      UsesAnswered(replies[..|replies| - 1], id);
    }
  }

  // However the loop ends, each sender received has been used as often as it was
  // received, and no other: exactly once each, senders being distinct. Until then
  // none has been used more often.
  lemma ExactlyOneReply(trace: seq<Worker>, labels: seq<Label>, id: Id)
    requires Run(trace, labels)
    ensures Uses(Last(trace).sent, id) <= Received(labels)[id]
    ensures Last(trace).phase.Ended? ==> Uses(Last(trace).sent, id) == Received(labels)[id]
  {
    RunConserves(trace, labels, |labels|);
    TakenIsReceived(trace, labels);
    UsesAnswered(Last(trace).sent, id);
  }

  // When the script failed, only the first request is told why.
  lemma {:induction false} FailedScriptReplies(trace: seq<Worker>, labels: seq<Label>, n: nat)
    requires Run(trace, labels) && trace[0].phase.ScriptFailed? && n <= |labels|
    ensures !trace[n].phase.Running?
    ensures trace[n].phase.ScriptFailed? ==>
              trace[n].phase.error == if trace[n].sent == [] then trace[0].phase.error else None
    ensures forall k :: 0 <= k < |trace[n].sent| ==>
              trace[n].sent[k].data == ScriptError(if k == 0 then trace[0].phase.error else None)
  {
    if n > 0 {
      FailedScriptReplies(trace, labels, n - 1);
      assert StepAt(trace, labels, n - 1);
    }
  }
}
