// request_queue.rs: the requests whose promises are pending, and the bodies still
// being produced for answered ones.
module RequestQueue {
  import opened Wrappers
  import opened Helpers

  // A request is known by its one-shot reply sender.
  type Id = int
  type Promise = int
  type Continuation = int

  datatype Response = Page(content: nat) | CouldNotComplete | ServerIsShuttingDown
  datatype ScriptFailure = Thrown(error: nat) | NewRequestAfterShutdown
  datatype ResponseData =
    | Done(response: Response)
    | RequestError(error: nat)
    | ScriptError(failure: Option<ScriptFailure>)
  datatype Reply = Reply(to: Id, data: ResponseData)

  datatype CancelReason = Unresolvable | ServerShuttingDown

  // What finish_request says about a settled promise.
  datatype Answer =
    | StillPending(promise: Promise)
    | Respond(content: nat, bodyFuture: Option<Continuation>)
    | Fail(error: nat)

  // The world as one poll finds it: what is settled, and which bodies are complete.
  datatype Scene = Scene(settled: map<Promise, Answer>, complete: set<Continuation>)

  datatype RequestFuture = RequestFuture(promise: Promise, respTx: Option<Id>)

  // Following settled promises from p as far as they lead.
  function Followed(p: Promise, settled: map<Promise, Answer>): Answer
    decreases |settled|
  {
    if p !in settled then StillPending(p)
    else if settled[p].StillPending? then Followed(settled[p].promise, settled - {p})
    else settled[p]
  }

  predicate Ready(f: RequestFuture, scene: Scene) {
    !Followed(f.promise, scene.settled).StillPending?
  }

  // The reply that belongs to a final answer.
  function ReplyData(a: Answer): ResponseData
    requires !a.StillPending?
  {
    if a.Respond? then Done(Page(a.content)) else RequestError(a.error)
  }

  function CancelData(reason: CancelReason): ResponseData {
    if reason.Unresolvable? then Done(CouldNotComplete) else Done(ServerIsShuttingDown)
  }

  function BodyFuture(a: Answer): seq<Continuation> {
    if a.Respond? && a.bodyFuture.Some? then [a.bodyFuture.value] else []
  }

  // The senders in the queue, and those replied to.
  function Ids(requests: seq<RequestFuture>): multiset<Id> {
    if requests == [] then multiset{}
    else
      var f := requests[|requests| - 1];
      Ids(requests[..|requests| - 1]) + if f.respTx.Some? then multiset{f.respTx.value} else multiset{}
  }

  function Answered(replies: seq<Reply>): multiset<Id> {
    if replies == [] then multiset{}
    else Answered(replies[..|replies| - 1]) + multiset{replies[|replies| - 1].to}
  }

  lemma {:induction false} IdsAppend(a: seq<RequestFuture>, b: seq<RequestFuture>)
    ensures Ids(a + b) == Ids(a) + Ids(b)
    decreases |b|
  {
    if b == [] {
      assert a + b == a;
    } else {
      var n := |b| - 1;
      assert (a + b)[..|a + b| - 1] == a + b[..n];
      IdsAppend(a, b[..n]);
    }
  }

  lemma {:induction false} AnsweredAppend(a: seq<Reply>, b: seq<Reply>)
    ensures Answered(a + b) == Answered(a) + Answered(b)
    decreases |b|
  {
    if b == [] {
      assert a + b == a;
    } else {
      var n := |b| - 1;
      assert (a + b)[..|a + b| - 1] == a + b[..n];
      AnsweredAppend(a, b[..n]);
    }
  }

  lemma IdsOne(f: RequestFuture)
    requires f.respTx.Some?
    ensures Ids([f]) == multiset{f.respTx.value}
  {
    assert [f][..0] == [];
  }

  lemma AnsweredOne(r: Reply)
    ensures Answered([r]) == multiset{r.to}
  {
    assert [r][..0] == [];
  }

  lemma IdsWithout(requests: seq<RequestFuture>, i: nat)
    requires i < |requests| && requests[i].respTx.Some?
    ensures Ids(requests) == Ids(Without(requests, i)) + multiset{requests[i].respTx.value}
  {
    var f := requests[i];
    assert requests == requests[..i] + ([f] + requests[i + 1..]);
    IdsAppend(requests[..i], [f] + requests[i + 1..]);
    IdsAppend([f], requests[i + 1..]);
    IdsOne(f);
    IdsAppend(requests[..i], requests[i + 1..]);
  }

  // Moving a request to another promise keeps its sender.
  predicate SameSenders(a: seq<RequestFuture>, b: seq<RequestFuture>) {
    |a| == |b| && forall i :: 0 <= i < |a| ==> a[i].respTx == b[i].respTx
  }

  lemma {:induction false} IdsSame(a: seq<RequestFuture>, b: seq<RequestFuture>)
    requires SameSenders(a, b)
    ensures Ids(a) == Ids(b)
    decreases |a|
  {
    if a != [] {
      IdsSame(a[..|a| - 1], b[..|b| - 1]);
    }
  }

  // The replies cancel_all sends.
  function Cancelled(requests: seq<RequestFuture>, reason: CancelReason): seq<Reply> {
    if requests == [] then []
    else
      var f := requests[|requests| - 1];
      Cancelled(requests[..|requests| - 1], reason)
      + if f.respTx.Some? then [Reply(f.respTx.value, CancelData(reason))] else []
  }

  lemma CancelledStep(requests: seq<RequestFuture>, f: RequestFuture, reason: CancelReason)
    requires f.respTx.Some?
    ensures Cancelled(requests + [f], reason)
            == Cancelled(requests, reason) + [Reply(f.respTx.value, CancelData(reason))]
  {
    assert (requests + [f])[..|requests|] == requests;
  }

  // Each sender in the queue gets one reply, the one for the reason.
  lemma {:induction false} CancelledAnswers(requests: seq<RequestFuture>, reason: CancelReason)
    requires forall f :: f in requests ==> f.respTx.Some?
    ensures Answered(Cancelled(requests, reason)) == Ids(requests)
    decreases |requests|
  {
    if requests != [] {
      var n := |requests| - 1;
      var f := requests[n];
      assert requests == requests[..n] + [f];
      CancelledAnswers(requests[..n], reason);
      CancelledStep(requests[..n], f, reason);
      AnsweredAppend(Cancelled(requests[..n], reason), [Reply(f.respTx.value, CancelData(reason))]);
      AnsweredOne(Reply(f.respTx.value, CancelData(reason)));
    }
  }

  lemma {:induction false} CancelledData(requests: seq<RequestFuture>, reason: CancelReason)
    ensures forall r :: r in Cancelled(requests, reason) ==> r.data == CancelData(reason)
    decreases |requests|
  {
    if requests != [] {
      CancelledData(requests[..|requests| - 1], reason);
    }
  }

  // The queue as one value.
  datatype Queue = Queue(requests: seq<RequestFuture>, continuations: seq<Continuation>, replies: seq<Reply>)

  // What one poll of the stream achieved: a request finished, a body completed, or
  // nothing was ready.
  datatype Progress = Nothing | Finished(request: nat) | Completed(continuation: nat)

  predicate NoneReady(requests: seq<RequestFuture>, scene: Scene) {
    forall i :: 0 <= i < |requests| ==> !Ready(requests[i], scene)
  }

  predicate OwnSenders(requests: seq<RequestFuture>) {
    forall i :: 0 <= i < |requests| ==> requests[i].respTx.Some?
  }

  // Polled or not, a request that is not ready may have moved on to the promise its
  // settled ones lead to. One that is ready has not been polled yet.
  predicate Moved(before: RequestFuture, after: RequestFuture, scene: Scene) {
    || after == before
    || (!Ready(before, scene) && after == before.(promise := Followed(before.promise, scene.settled).promise))
  }

  predicate MovedOn(before: seq<RequestFuture>, after: seq<RequestFuture>, scene: Scene) {
    |after| == |before| && forall i :: 0 <= i < |before| ==> Moved(before[i], after[i], scene)
  }

  lemma MovedSenders(before: seq<RequestFuture>, after: seq<RequestFuture>, scene: Scene)
    requires MovedOn(before, after, scene)
    ensures SameSenders(after, before)
  {
    forall i | 0 <= i < |before|
      ensures after[i].respTx == before[i].respTx
    {
      assert Moved(before[i], after[i], scene);
    }
  }

  lemma MovedIds(before: seq<RequestFuture>, after: seq<RequestFuture>, scene: Scene)
    requires MovedOn(before, after, scene)
    ensures Ids(after) == Ids(before)
  {
    MovedSenders(before, after, scene);
    IdsSame(after, before);
  }

  lemma MovedWithout(before: seq<RequestFuture>, after: seq<RequestFuture>, i: nat, scene: Scene)
    requires |after| == |before| && i < |before|
    requires forall j :: 0 <= j < |before| && j != i ==> Moved(before[j], after[j], scene)
    ensures MovedOn(Without(before, i), Without(after, i), scene)
  {
  }

  // The i-th request finishes with its own answer.
  predicate Finishes(q: Queue, scene: Scene, i: nat, q': Queue) {
    && i < |q.requests| && q.requests[i].respTx.Some? && Ready(q.requests[i], scene)
    && MovedOn(Without(q.requests, i), q'.requests, scene)
    && var answer := Followed(q.requests[i].promise, scene.settled);
    && q'.continuations == q.continuations + BodyFuture(answer)
    && q'.replies == q.replies + [Reply(q.requests[i].respTx.value, ReplyData(answer))]
  }

  predicate Polled(q: Queue, scene: Scene, p: Progress, q': Queue) {
    match p
    case Finished(i) => Finishes(q, scene, i, q')
    case Completed(j) =>
      && NoneReady(q.requests, scene) && MovedOn(q.requests, q'.requests, scene) && q'.replies == q.replies
      && j < |q.continuations| && q.continuations[j] in scene.complete
      && q'.continuations == Without(q.continuations, j)
    case Nothing =>
      && NoneReady(q.requests, scene) && MovedOn(q.requests, q'.requests, scene) && q'.replies == q.replies
      && (forall c :: c in q.continuations ==> c !in scene.complete)
      && q'.continuations == q.continuations
  }

  // Successive polls, each in its own scene.
  predicate Polls(trace: seq<Queue>, scenes: nat -> Scene, progress: seq<Progress>) {
    && |trace| == |progress| + 1
    && forall k :: 0 <= k < |progress| ==> PolledAt(trace, scenes, progress, k)
  }

  predicate PolledAt(trace: seq<Queue>, scenes: nat -> Scene, progress: seq<Progress>, k: nat) {
    k + 1 < |trace| && k < |progress| && Polled(trace[k], scenes(k), progress[k], trace[k + 1])
  }

  // Polls until the first that finds nothing ready.
  predicate Drain(trace: seq<Queue>, scenes: nat -> Scene, progress: seq<Progress>) {
    && Polls(trace, scenes, progress)
    && progress != [] && progress[|progress| - 1] == Nothing
    && forall k :: 0 <= k < |progress| - 1 ==> progress[k] != Nothing
  }

  function Size(q: Queue): nat {
    2 * |q.requests| + |q.continuations|
  }

  // A finished request may leave a continuation behind, but never more than one.
  lemma PolledSize(q: Queue, scene: Scene, p: Progress, q': Queue)
    requires Polled(q, scene, p, q')
    ensures p == Nothing ==> Size(q') == Size(q)
    ensures p != Nothing ==> Size(q') < Size(q)
  {
  }

  lemma PollsExtend(trace: seq<Queue>, scenes: nat -> Scene, progress: seq<Progress>, p: Progress, q: Queue)
    requires Polls(trace, scenes, progress) && Polled(Last(trace), scenes(|progress|), p, q)
    ensures Polls(trace + [q], scenes, progress + [p])
  {
    forall k | 0 <= k < |progress + [p]|
      ensures PolledAt(trace + [q], scenes, progress + [p], k)
    {
      assert k < |progress| ==> PolledAt(trace, scenes, progress, k);
    }
  }

  // Every sender the queue has seen: those it holds, and those used.
  function Senders(q: Queue): multiset<Id> {
    Ids(q.requests) + Answered(q.replies)
  }

  // A poll neither loses nor duplicates a sender.
  lemma PolledConserves(q: Queue, scene: Scene, p: Progress, q': Queue)
    requires Polled(q, scene, p, q')
    ensures Senders(q') == Senders(q)
  {
    match p
    case Finished(i) =>
      var r := Reply(q.requests[i].respTx.value, ReplyData(Followed(q.requests[i].promise, scene.settled)));
      MovedIds(Without(q.requests, i), q'.requests, scene);
      IdsWithout(q.requests, i);
      AnsweredAppend(q.replies, [r]);
      AnsweredOne(r);
    case _ => MovedIds(q.requests, q'.requests, scene);
  }

  // The reply is a request's own answer in some scene of the run.
  ghost predicate OwnReply(r: Reply, trace: seq<Queue>, scenes: nat -> Scene, n: nat) {
    exists k, i :: 0 <= k < n && k < |trace| && 0 <= i < |trace[k].requests|
      && OwnReplyOf(r, trace[k].requests[i], scenes(k))
  }

  predicate OwnReplyOf(r: Reply, f: RequestFuture, scene: Scene) {
    f.respTx == Some(r.to) && Ready(f, scene) && r.data == ReplyData(Followed(f.promise, scene.settled))
  }

  // Since the start of the run every reply has been a request's own.
  ghost predicate OwnReplies(trace: seq<Queue>, scenes: nat -> Scene, n: nat)
    requires n < |trace|
  {
    && trace[0].replies <= trace[n].replies
    && forall r :: r in trace[n].replies[|trace[0].replies|..] ==> OwnReply(r, trace, scenes, n)
  }

  lemma {:induction false} PollsConserve(trace: seq<Queue>, scenes: nat -> Scene, progress: seq<Progress>, n: nat)
    requires Polls(trace, scenes, progress) && n <= |progress|
    ensures Senders(trace[n]) == Senders(trace[0])
  {
    if n > 0 {
      PollsConserve(trace, scenes, progress, n - 1);
      assert PolledAt(trace, scenes, progress, n - 1);
      PolledConserves(trace[n - 1], scenes(n - 1), progress[n - 1], trace[n]);
    }
  }

  // Every poll that finds something ready uses up some of the size.
  lemma {:induction false} DrainSize(trace: seq<Queue>, scenes: nat -> Scene, progress: seq<Progress>, n: nat)
    requires Drain(trace, scenes, progress) && n < |progress|
    ensures Size(trace[n]) + n <= Size(trace[0])
  {
    if n > 0 {
      DrainSize(trace, scenes, progress, n - 1);
      assert PolledAt(trace, scenes, progress, n - 1);
      PolledSize(trace[n - 1], scenes(n - 1), progress[n - 1], trace[n]);
    }
  }

  lemma {:induction false} PollsOwnReplies(trace: seq<Queue>, scenes: nat -> Scene, progress: seq<Progress>, n: nat)
    requires Polls(trace, scenes, progress) && n <= |progress|
    ensures OwnReplies(trace, scenes, n)
  {
    if n == 0 {
      assert trace[0].replies[|trace[0].replies|..] == [];
    } else {
      PollsOwnReplies(trace, scenes, progress, n - 1);
      PollOwnReplies(trace, scenes, progress, n);
    }
  }

  lemma PollOwnReplies(trace: seq<Queue>, scenes: nat -> Scene, progress: seq<Progress>, n: nat)
    requires Polls(trace, scenes, progress) && 0 < n <= |progress|
    requires OwnReplies(trace, scenes, n - 1)
    ensures OwnReplies(trace, scenes, n)
  {
    var q, p, q' := trace[n - 1], progress[n - 1], trace[n];
    assert PolledAt(trace, scenes, progress, n - 1);
    forall r | r in q'.replies[|trace[0].replies|..]
      ensures OwnReply(r, trace, scenes, n)
    {
      if r in q.replies[|trace[0].replies|..] {
        assert OwnReply(r, trace, scenes, n - 1);
      } else {
        assert OwnReplyOf(r, trace[n - 1].requests[p.request], scenes(n - 1));
      }
    }
  }

  // A continuation no scene has completed is still there.
  lemma {:induction false} ContinuationSurvives(trace: seq<Queue>, scenes: nat -> Scene, progress: seq<Progress>,
                                                n: nat, c: Continuation)
    requires Polls(trace, scenes, progress) && n <= |progress|
    requires c in trace[0].continuations
    requires forall k :: 0 <= k < n ==> c !in scenes(k).complete
    ensures c in trace[n].continuations
  {
    if n > 0 {
      ContinuationSurvives(trace, scenes, progress, n - 1, c);
      var q, p, q' := trace[n - 1], progress[n - 1], trace[n];
      assert PolledAt(trace, scenes, progress, n - 1);
    }
  }

  lemma CancelTerm(a: multiset<Id>, b: multiset<Id>, c: multiset<Id>, d: multiset<Id>)
    requires a + (b + c) == d + b
    ensures c + a == d
  {
    forall x: Id
      ensures (c + a)[x] == d[x]
    {
      assert (a + (b + c))[x] == (d + b)[x];
    }
  }

  // A drain takes at most one poll more than the size of the queue. What it then
  // cancels was not ready in the last scene; everything else got its own answer;
  // and together that is one reply for each request that was queued.
  lemma {:induction false} DrainOutcome(trace: seq<Queue>, scenes: nat -> Scene, progress: seq<Progress>, reason: CancelReason)
    requires Drain(trace, scenes, progress)
    requires OwnSenders(Last(trace).requests)
    ensures |progress| <= Size(trace[0]) + 1
    ensures OwnReplies(trace, scenes, |progress|)
    ensures Answered(Last(trace).replies[|trace[0].replies|..] + Cancelled(Last(trace).requests, reason))
            == Ids(trace[0].requests)
    ensures SameSenders(Last(trace).requests, trace[|progress| - 1].requests)
    ensures NoneReady(trace[|progress| - 1].requests, scenes(|progress| - 1))
    ensures forall c :: c in Last(trace).continuations ==> c !in scenes(|progress| - 1).complete
  {
    var n := |progress|;
    var before, after := trace[0].replies, trace[n].replies;
    DrainSize(trace, scenes, progress, n - 1);
    PollsConserve(trace, scenes, progress, n);
    PollsOwnReplies(trace, scenes, progress, n);
    CancelledAnswers(trace[n].requests, reason);
    assert after == before + after[|before|..];
    assert Senders(trace[n]) == Senders(trace[0]);
    AnsweredAppend(before, after[|before|..]);
    AnsweredAppend(after[|before|..], Cancelled(trace[n].requests, reason));
    CancelTerm(Ids(trace[n].requests), Answered(before), Answered(after[|before|..]), Ids(trace[0].requests));
    assert PolledAt(trace, scenes, progress, n - 1);
    MovedSenders(trace[n - 1].requests, trace[n].requests, scenes(n - 1));
  }

  function Below(n: nat): (r: set<nat>)
    ensures forall k :: k in r <==> 0 <= k < n
  {
    if n == 0 then {} else Below(n - 1) + {n - 1}
  }

  class RequestQueue {
    var requests: seq<RequestFuture>
    var continuations: seq<Continuation>
    // Everything sent through the reply senders of this worker.
    var replies: seq<Reply>

    constructor ()
      ensures Valid() && requests == [] && continuations == [] && replies == []
    {
      requests, continuations, replies := [], [], [];
    }

    // Every queued request still owns its sender, so expect cannot fail.
    ghost predicate Valid()
      reads this
    {
      OwnSenders(requests)
    }

    function Abstract(): Queue
      reads this
    {
      Queue(requests, continuations, replies)
    }

    predicate IsEmpty()
      reads this
    {
      requests == [] && continuations == []
    }

    method Push(promise: Promise, respTx: Id)
      requires Valid()
      modifies this`requests
      ensures Valid() && requests == old(requests) + [RequestFuture(promise, Some(respTx))]
      ensures Ids(requests) == old(Ids(requests)) + multiset{respTx}
    {
      var f := RequestFuture(promise, Some(respTx));
      IdsAppend(requests, [f]);
      IdsOne(f);
      requests := requests + [f];
    }

    method PushContinuation(future: Continuation)
      modifies this`continuations
      ensures continuations == old(continuations) + [future]
    {
      continuations := continuations + [future];
    }

    // Every request in the queue gets the reply for the reason, in some order.
    method CancelAll(reason: CancelReason)
      requires Valid()
      modifies this`requests, this`replies
      ensures Valid() && requests == []
      ensures replies == old(replies) + Cancelled(old(requests), reason)
    {
      var cancelling := requests;
      requests := [];
      var n := 0;
      while n < |cancelling|
        invariant n <= |cancelling| && requests == []
        invariant replies == old(replies) + Cancelled(cancelling[..n], reason)
      {
        var req := cancelling[n];
        assert cancelling[..n + 1] == cancelling[..n] + [req];
        CancelledStep(cancelling[..n], req, reason);
        replies := replies + [Reply(req.respTx.value, CancelData(reason))];
        n := n + 1;
      }
      assert cancelling[..n] == cancelling;
    }

    // RequestFuture::poll on the i-th request. When it is ready, its sender has
    // been taken out and used once.
    method PollRequest(i: nat, scene: Scene) returns (answer: Answer)
      requires Valid() && i < |requests|
      modifies this`requests, this`replies
      ensures answer == Followed(old(requests[i].promise), scene.settled)
      ensures |requests| == |old(requests)|
      ensures forall j :: 0 <= j < |requests| && j != i ==> requests[j] == old(requests[j])
      ensures answer.StillPending? ==>
                requests[i] == old(requests[i]).(promise := answer.promise) && replies == old(replies)
      ensures !answer.StillPending? ==>
                && requests[i].respTx.None?
                && replies == old(replies) + [Reply(old(requests[i].respTx).value, ReplyData(answer))]
    {
      var settled := scene.settled;
      answer := StillPending(requests[i].promise);
      while answer.StillPending? && answer.promise in settled
        invariant |requests| == |old(requests)|
        invariant requests == old(requests)[i := requests[i]]
        invariant requests[i].respTx == old(requests[i]).respTx && replies == old(replies)
        invariant answer.StillPending? ==> requests[i].promise == answer.promise
        invariant answer.StillPending? ==>
                    Followed(answer.promise, settled) == Followed(old(requests[i].promise), scene.settled)
        invariant !answer.StillPending? ==>
                    answer == Followed(old(requests[i].promise), scene.settled)
        decreases answer.StillPending?, |settled|
      {
        var next := settled[answer.promise];
        settled := settled - {answer.promise};
        answer := next;
        if next.StillPending? {
          requests := requests[i := requests[i].(promise := next.promise)];
        }
      }
      if !answer.StillPending? {
        var respTx := requests[i].respTx.value;
        requests := requests[i := requests[i].(respTx := None)];
        replies := replies + [Reply(respTx, ReplyData(answer))];
      }
    }

    // FuturesUnordered::poll_next: requests are polled in any order until one is ready.
    method PollRequests(scene: Scene) returns (answer: Option<Answer>, ghost i: nat)
      requires Valid()
      modifies this`requests, this`replies
      ensures Valid()
      ensures answer.None? ==>
                && NoneReady(old(requests), scene) && MovedOn(old(requests), requests, scene)
                && replies == old(replies)
      ensures answer.Some? ==>
                && i < |old(requests)| && Ready(old(requests)[i], scene)
                && answer.value == Followed(old(requests)[i].promise, scene.settled)
                && MovedOn(Without(old(requests), i), requests, scene)
                && replies == old(replies) + [Reply(old(requests)[i].respTx.value, ReplyData(answer.value))]
    {
      var unpolled := Below(|requests|);
      while unpolled != {}
        invariant Valid() && MovedOn(old(requests), requests, scene) && replies == old(replies)
        invariant forall k :: k in unpolled ==> 0 <= k < |requests| && requests[k] == old(requests)[k]
        invariant forall k :: 0 <= k < |requests| && k !in unpolled ==> !Ready(old(requests)[k], scene)
        decreases unpolled
      {
        var next :| next in unpolled;
        unpolled := unpolled - {next};
        ghost var before := requests;
        var polled := PollRequest(next, scene);
        if !polled.StillPending? {
          forall j | 0 <= j < |requests| && j != next
            ensures Moved(old(requests)[j], requests[j], scene)
          {
            assert Moved(old(requests)[j], before[j], scene);
          }
          MovedWithout(old(requests), requests, next, scene);
          requests := Without(requests, next);
          return Some(polled), next;
        }
      }
      answer, i := None, 0;
    }

    // The continuations' poll_next: any complete one leaves the queue.
    method PollContinuations(scene: Scene) returns (ready: bool, ghost j: nat)
      modifies this`continuations
      ensures ready ==> j < |old(continuations)| && old(continuations)[j] in scene.complete
                        && continuations == Without(old(continuations), j)
      ensures !ready ==> continuations == old(continuations)
                         && forall c :: c in continuations ==> c !in scene.complete
    {
      var n := 0;
      while n < |continuations|
        invariant n <= |continuations| && continuations == old(continuations)
        invariant forall k :: 0 <= k < n ==> continuations[k] !in scene.complete
      {
        if continuations[n] in scene.complete {
          continuations := Without(continuations, n);
          return true, n;
        }
        n := n + 1;
      }
      ready, j := false, 0;
    }

    // RequestQueue::poll_next
    method PollNext(scene: Scene) returns (ready: bool, ghost progress: Progress)
      requires Valid()
      modifies this
      ensures Valid() && Polled(old(Abstract()), scene, progress, Abstract())
      ensures ready <==> progress != Nothing
    {
      if IsEmpty() {
        return false, Nothing;
      }
      if requests != [] {
        var answer, i := PollRequests(scene);
        if answer.Some? {
          if answer.value.Respond? && answer.value.bodyFuture.Some? {
            PushContinuation(answer.value.bodyFuture.value);
          }
          return true, Finished(i);
        }
      }
      if continuations != [] {
        var done, j := PollContinuations(scene);
        if done {
          return true, Completed(j);
        }
      }
      ready, progress := false, Nothing;
    }

    // CancelUnfinished::poll. The scenes are what successive polls find.
    method CancelUnfinished(scenes: nat -> Scene, reason: CancelReason)
      returns (ghost trace: seq<Queue>, ghost progress: seq<Progress>)
      requires Valid()
      modifies this
      ensures Valid() && Drain(trace, scenes, progress) && trace[0] == old(Abstract())
      ensures OwnSenders(Last(trace).requests)
      ensures requests == [] && continuations == Last(trace).continuations
      ensures replies == Last(trace).replies + Cancelled(Last(trace).requests, reason)
    {
      trace, progress := [Abstract()], [];
      var n, ready := 0, true;
      while ready
        invariant Valid() && n == |progress| && Polls(trace, scenes, progress)
        invariant trace[0] == old(Abstract()) && Last(trace) == Abstract()
        invariant forall k :: 0 <= k < n - 1 ==> progress[k] != Nothing
        invariant ready ==> n > 0 ==> progress[n - 1] != Nothing
        invariant !ready ==> n > 0 && progress[n - 1] == Nothing
        decreases ready, Size(Abstract())
      {
        ghost var p;
        ready, p := PollNext(scenes(n));
        PolledSize(Last(trace), scenes(n), p, Abstract());
        PollsExtend(trace, scenes, progress, p, Abstract());
        trace, progress := trace + [Abstract()], progress + [p];
        n := n + 1;
      }
      CancelAll(reason);
    }
  }
}
