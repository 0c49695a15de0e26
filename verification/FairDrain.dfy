// What a drain gives each queued request, when promises that are settled stay so.
module FairDrain {
  import opened Wrappers
  import opened Helpers
  import opened RequestQueue

  type Settled = map<Promise, Answer>

  // --- Following promises ---

  // From p, n settled promises lead on to the next, and then one to the answer a.
  predicate LeadsTo(p: Promise, settled: Settled, n: nat, a: Answer)
    decreases n
  {
    && p in settled
    && if n == 0 then settled[p] == a && !a.StillPending?
       else settled[p].StillPending? && LeadsTo(settled[p].promise, settled, n - 1, a)
  }

  // From p, n settled promises lead on to p'.
  predicate Hops(p: Promise, settled: Settled, n: nat, p': Promise)
    decreases n
  {
    if n == 0 then p' == p
    else p in settled && settled[p].StillPending? && Hops(settled[p].promise, settled, n - 1, p')
  }

  predicate Grows(before: Settled, after: Settled) {
    forall p :: p in before ==> p in after && after[p] == before[p]
  }

  lemma {:induction false} LeadsToOne(p: Promise, settled: Settled, m: nat, a: Answer, n: nat, b: Answer)
    requires LeadsTo(p, settled, m, a) && LeadsTo(p, settled, n, b)
    ensures m == n && a == b
    decreases m
  {
    if m > 0 && n > 0 { LeadsToOne(settled[p].promise, settled, m - 1, a, n - 1, b); }
  }

  lemma {:induction false} LeadsToGrows(p: Promise, before: Settled, after: Settled, n: nat, a: Answer)
    requires LeadsTo(p, before, n, a) && Grows(before, after)
    ensures LeadsTo(p, after, n, a)
    decreases n
  {
    if n > 0 { LeadsToGrows(before[p].promise, before, after, n - 1, a); }
  }

  lemma {:induction false} HopsGrow(p: Promise, before: Settled, after: Settled, n: nat, p': Promise)
    requires Hops(p, before, n, p') && Grows(before, after)
    ensures Hops(p, after, n, p')
    decreases n
  {
    if n > 0 { HopsGrow(before[p].promise, before, after, n - 1, p'); }
  }

  // A longer way leads through p than any from beyond it, so p can be left out.
  lemma {:induction false} LeadsAround(q: Promise, settled: Settled, m: nat, a: Answer, p: Promise, n: nat)
    requires LeadsTo(q, settled, m, a) && LeadsTo(p, settled, n, a) && m < n
    ensures LeadsTo(q, settled - {p}, m, a)
    decreases m
  {
    if q == p {
      LeadsToOne(p, settled, m, a, n, a);
    } else if m > 0 {
      LeadsAround(settled[q].promise, settled, m - 1, a, p, n);
    }
  }

  lemma {:induction false} LeadsIsFollowed(p: Promise, settled: Settled, n: nat, a: Answer)
    requires LeadsTo(p, settled, n, a)
    ensures Followed(p, settled) == a
    decreases n
  {
    if n > 0 {
      LeadsAround(settled[p].promise, settled, n - 1, a, p, n);
      LeadsIsFollowed(settled[p].promise, settled - {p}, n - 1, a);
    }
  }

  lemma {:induction false} FollowedLeads(p: Promise, settled: Settled) returns (n: nat)
    requires !Followed(p, settled).StillPending?
    ensures LeadsTo(p, settled, n, Followed(p, settled))
    decreases |settled|
  {
    n := 0;
    if settled[p].StillPending? {
      var a := Followed(p, settled);
      n := FollowedLeads(settled[p].promise, settled - {p});
      LeadsToGrows(settled[p].promise, settled - {p}, settled, n, a);
      n := n + 1;
    }
  }

  lemma {:induction false} FollowedHops(p: Promise, settled: Settled) returns (n: nat)
    requires Followed(p, settled).StillPending?
    ensures Hops(p, settled, n, Followed(p, settled).promise)
    decreases |settled|
  {
    n := 0;
    if p in settled {
      var p' := Followed(p, settled).promise;
      n := FollowedHops(settled[p].promise, settled - {p});
      HopsGrow(settled[p].promise, settled - {p}, settled, n, p');
      n := n + 1;
    }
  }

  // A poll finds an answer exactly when settled promises lead to it.
  lemma FollowedIsPath(p: Promise, settled: Settled, n: nat, a: Answer)
    ensures !Followed(p, settled).StillPending? ==> exists m: nat ::
              LeadsTo(p, settled, m, Followed(p, settled))
    ensures LeadsTo(p, settled, n, a) ==> Followed(p, settled) == a && !a.StillPending?
  {
    if !Followed(p, settled).StillPending? {
      var m := FollowedLeads(p, settled);
      assert LeadsTo(p, settled, m, Followed(p, settled));
    }
    if LeadsTo(p, settled, n, a) {
      LeadsIsFollowed(p, settled, n, a);
      LeadsToFinal(p, settled, n, a);
    }
  }

  lemma {:induction false} LeadsToFinal(p: Promise, settled: Settled, n: nat, a: Answer)
    requires LeadsTo(p, settled, n, a)
    ensures !a.StillPending?
    decreases n
  {
    if n > 0 { LeadsToFinal(settled[p].promise, settled, n - 1, a); }
  }

  lemma {:induction false} HopsJoin(p: Promise, settled: Settled, m: nat, p': Promise, n: nat, p'': Promise)
    requires Hops(p, settled, m, p') && Hops(p', settled, n, p'')
    ensures Hops(p, settled, m + n, p'')
    decreases m
  {
    if m > 0 { HopsJoin(settled[p].promise, settled, m - 1, p', n, p''); }
  }

  // Moving along keeps where a promise leads.
  lemma {:induction false} HopsLead(p: Promise, settled: Settled, m: nat, p': Promise, n: nat, a: Answer)
    requires Hops(p, settled, m, p') && LeadsTo(p', settled, n, a)
    ensures LeadsTo(p, settled, m + n, a)
    decreases m
  {
    if m > 0 { HopsLead(settled[p].promise, settled, m - 1, p', n, a); }
  }

  lemma {:induction false} LeadPastHops(p: Promise, settled: Settled, m: nat, p': Promise, n: nat, a: Answer)
    requires Hops(p, settled, m, p') && LeadsTo(p, settled, n, a)
    ensures m <= n && LeadsTo(p', settled, n - m, a)
    decreases m
  {
    if m > 0 { LeadPastHops(settled[p].promise, settled, m - 1, p', n - 1, a); }
  }

  // --- One request through a drain ---

  predicate IsAt(f: RequestFuture, now: RequestFuture, n: nat, settled: Settled) {
    now.respTx == f.respTx && Hops(f.promise, settled, n, now.promise)
  }

  // The request f is still in the queue, perhaps moved on, as seen from the scene of
  // the last poll; or it has been answered with what its promise led to.
  ghost predicate Tracked(f: RequestFuture, q: Queue, sent: nat, settled: Settled) {
    || (exists i, n :: 0 <= i < |q.requests| && IsAt(f, q.requests[i], n, settled))
    || (f.respTx.Some? && Ready(f, Scene(settled, {})) && sent <= |q.replies|
        && Reply(f.respTx.value, ReplyData(Followed(f.promise, settled))) in q.replies[sent..])
  }

  lemma MovedIsAt(f: RequestFuture, before: RequestFuture, after: RequestFuture, n: nat, scene: Scene, settled: Settled)
    returns (m: nat)
    requires IsAt(f, before, n, settled) && Moved(before, after, scene) && Grows(scene.settled, settled)
    ensures IsAt(f, after, m, settled)
  {
    m := n;
    if after != before {
      var k := FollowedHops(before.promise, scene.settled);
      HopsGrow(before.promise, scene.settled, settled, k, after.promise);
      HopsJoin(f.promise, settled, n, before.promise, k, after.promise);
      m := n + k;
    }
  }

  // A request found ready was ready all along, with the same answer.
  lemma FoundReady(f: RequestFuture, now: RequestFuture, n: nat, scene: Scene, settled: Settled)
    requires IsAt(f, now, n, settled) && Ready(now, scene) && Grows(scene.settled, settled)
    ensures Ready(f, Scene(settled, {}))
    ensures Followed(f.promise, settled) == Followed(now.promise, scene.settled)
  {
    var a := Followed(now.promise, scene.settled);
    var k := FollowedLeads(now.promise, scene.settled);
    LeadsToGrows(now.promise, scene.settled, settled, k, a);
    HopsLead(f.promise, settled, n, now.promise, k, a);
    LeadsIsFollowed(f.promise, settled, n + k, a);
  }

  lemma FoundPending(f: RequestFuture, now: RequestFuture, n: nat, scene: Scene)
    requires IsAt(f, now, n, scene.settled) && !Ready(now, scene)
    ensures !Ready(f, Scene(scene.settled, {}))
  {
    if Ready(f, Scene(scene.settled, {})) {
      var a := Followed(f.promise, scene.settled);
      var k := FollowedLeads(f.promise, scene.settled);
      LeadPastHops(f.promise, scene.settled, n, now.promise, k, a);
      LeadsIsFollowed(now.promise, scene.settled, k - n, a);
    }
  }

  // --- All of them ---

  // What is settled in one scene is settled the same way in every later one.
  ghost predicate Settling(scenes: nat -> Scene, last: nat) {
    forall k :: 0 <= k <= last ==> Grows(scenes(k).settled, scenes(last).settled)
  }

  lemma PollTracks(f: RequestFuture, q: Queue, scene: Scene, p: Progress, q': Queue, sent: nat, settled: Settled)
    requires Polled(q, scene, p, q') && Grows(scene.settled, settled) && sent <= |q.replies|
    requires Tracked(f, q, sent, settled)
    ensures Tracked(f, q', sent, settled)
  {
    if i, n :| 0 <= i < |q.requests| && IsAt(f, q.requests[i], n, settled) {
      match p
      case Finished(r) =>
        if i == r {
          FoundReady(f, q.requests[i], n, scene, settled);
          assert q'.replies[|q.replies|] in q'.replies[sent..];
        } else {
          var j := if i < r then i else i - 1;
          assert Without(q.requests, r)[j] == q.requests[i];
          StillTracked(f, Without(q.requests, r), q', j, n, scene, sent, settled);
        }
      case Completed(_) => StillTracked(f, q.requests, q', i, n, scene, sent, settled);
      case Nothing => StillTracked(f, q.requests, q', i, n, scene, sent, settled);
    } else {
      var r := Reply(f.respTx.value, ReplyData(Followed(f.promise, settled)));
      assert r in q'.replies[sent..] by {
        assert q.replies <= q'.replies;
        assert q'.replies[sent..][..|q.replies| - sent] == q.replies[sent..];
      }
    }
  }

  lemma StillTracked(f: RequestFuture, before: seq<RequestFuture>, q': Queue, i: nat, n: nat, scene: Scene,
                     sent: nat, settled: Settled)
    requires i < |before| && MovedOn(before, q'.requests, scene) && Grows(scene.settled, settled)
    requires IsAt(f, before[i], n, settled)
    ensures Tracked(f, q', sent, settled)
  {
    var m := MovedIsAt(f, before[i], q'.requests[i], n, scene, settled);
  }

  lemma {:induction false} RunTracks(trace: seq<Queue>, scenes: nat -> Scene, progress: seq<Progress>, n: nat,
                                     last: nat, i: nat)
    requires Polls(trace, scenes, progress) && n <= |progress| && n <= last + 1 && Settling(scenes, last)
    requires i < |trace[0].requests|
    ensures |trace[0].replies| <= |trace[n].replies|
    ensures Tracked(trace[0].requests[i], trace[n], |trace[0].replies|, scenes(last).settled)
  {
    var f := trace[0].requests[i];
    if n == 0 {
      assert IsAt(f, trace[0].requests[i], 0, scenes(last).settled);
    } else {
      RunTracks(trace, scenes, progress, n - 1, last, i);
      assert PolledAt(trace, scenes, progress, n - 1);
      PollTracks(f, trace[n - 1], scenes(n - 1), progress[n - 1], trace[n], |trace[0].replies|, scenes(last).settled);
    }
  }

  // The reply a drain owes a request: its own answer if its promise is settled in the
  // scene of the last poll, and status 500 if not.
  function Owed(f: RequestFuture, scene: Scene): Reply
    requires f.respTx.Some?
  {
    Reply(f.respTx.value,
          if Ready(f, scene) then ReplyData(Followed(f.promise, scene.settled)) else Done(CouldNotComplete))
  }

  lemma CancelledHas(requests: seq<RequestFuture>, reason: CancelReason, i: nat)
    requires i < |requests| && requests[i].respTx.Some?
    ensures Reply(requests[i].respTx.value, CancelData(reason)) in Cancelled(requests, reason)
    decreases |requests|
  {
    if i < |requests| - 1 { CancelledHas(requests[..|requests| - 1], reason, i); }
  }

  // Every request that was queued gets what it is owed.
  lemma OwedIsSent(trace: seq<Queue>, scenes: nat -> Scene, progress: seq<Progress>, i: nat)
    requires Drain(trace, scenes, progress) && Settling(scenes, |progress| - 1)
    requires i < |trace[0].requests| && trace[0].requests[i].respTx.Some?
    requires trace[0].replies <= Last(trace).replies
    ensures Owed(trace[0].requests[i], scenes(|progress| - 1))
            in Last(trace).replies[|trace[0].replies|..] + Cancelled(Last(trace).requests, Unresolvable)
  {
    var last := |progress| - 1;
    var f, settled := trace[0].requests[i], scenes(last).settled;
    var before, after := trace[last], trace[last + 1];
    RunTracks(trace, scenes, progress, last, last, i);
    assert PolledAt(trace, scenes, progress, last);
    if j, n :| 0 <= j < |before.requests| && IsAt(f, before.requests[j], n, settled) {
      assert !Ready(before.requests[j], scenes(last));
      FoundPending(f, before.requests[j], n, scenes(last));
      assert Moved(before.requests[j], after.requests[j], scenes(last));
      CancelledHas(after.requests, Unresolvable, j);
    }
  }

  // Two different replies to one sender use it twice.
  lemma {:induction false} TwoReplies(replies: seq<Reply>, r: Reply, s: Reply)
    requires r in replies && s in replies && r != s && r.to == s.to
    ensures Answered(replies)[r.to] >= 2
    decreases |replies|
  {
    var n := |replies| - 1;
    if r in replies[..n] && s in replies[..n] {
      TwoReplies(replies[..n], r, s);
    } else if r in replies[..n] {
      OneReply(replies[..n], r);
    } else {
      OneReply(replies[..n], s);
    }
  }

  lemma {:induction false} OneReply(replies: seq<Reply>, r: Reply)
    requires r in replies
    ensures Answered(replies)[r.to] >= 1
    decreases |replies|
  {
    var n := |replies| - 1;
    if r in replies[..n] { OneReply(replies[..n], r); }
  }

  // A drained queue: what was sent, what is still there, and after how many polls.
  ghost predicate FairlyDrained(q: Queue, scenes: nat -> Scene, q': Queue, last: nat) {
    && last <= Size(q)
    && q'.requests == [] && q.replies <= q'.replies
    && Answered(q'.replies[|q.replies|..]) == Ids(q.requests)
    && (Settling(scenes, last) ==>
          forall f :: f in q.requests && f.respTx.Some? ==> Owed(f, scenes(last)) in q'.replies[|q.replies|..])
    && (forall c :: c in q.continuations && (forall k :: 0 <= k <= last ==> c !in scenes(k).complete)
                    ==> c in q'.continuations)
    && (forall c :: c in q'.continuations ==> c !in scenes(last).complete)
  }

  // A request queued under its own sender gets just what it is owed, and if it was
  // ready in any scene of the drain, that is its own answer and never the 500.
  lemma ReadyIsAnswered(q: Queue, scenes: nat -> Scene, q': Queue, last: nat, f: RequestFuture, k: nat, r: Reply)
    requires FairlyDrained(q, scenes, q', last) && Settling(scenes, last)
    requires f in q.requests && f.respTx.Some? && Ids(q.requests)[f.respTx.value] == 1
    requires r in q'.replies[|q.replies|..] && r.to == f.respTx.value
    ensures r == Owed(f, scenes(last))
    ensures k <= last && Ready(f, scenes(k)) ==> r.data == ReplyData(Followed(f.promise, scenes(k).settled))
  {
    if r != Owed(f, scenes(last)) {
      TwoReplies(q'.replies[|q.replies|..], r, Owed(f, scenes(last)));
    }
    if k <= last && Ready(f, scenes(k)) {
      var a := Followed(f.promise, scenes(k).settled);
      var n := FollowedLeads(f.promise, scenes(k).settled);
      LeadsToGrows(f.promise, scenes(k).settled, scenes(last).settled, n, a);
      LeadsIsFollowed(f.promise, scenes(last).settled, n, a);
    }
  }

  // Draining as CancelUnfinished does is fair.
  lemma DrainIsFair(trace: seq<Queue>, scenes: nat -> Scene, progress: seq<Progress>, q': Queue)
    requires Drain(trace, scenes, progress) && OwnSenders(Last(trace).requests)
    requires q' == Queue([], Last(trace).continuations,
                         Last(trace).replies + Cancelled(Last(trace).requests, Unresolvable))
    ensures FairlyDrained(trace[0], scenes, q', |progress| - 1)
  {
    var q, last, after := trace[0], |progress| - 1, Last(trace);
    var cancelled := Cancelled(after.requests, Unresolvable);
    DrainOutcome(trace, scenes, progress, Unresolvable);
    assert q'.replies[|q.replies|..] == after.replies[|q.replies|..] + cancelled;
    if Settling(scenes, last) {
      forall f | f in q.requests && f.respTx.Some?
        ensures Owed(f, scenes(last)) in q'.replies[|q.replies|..]
      {
        var i :| 0 <= i < |q.requests| && q.requests[i] == f;
        OwedIsSent(trace, scenes, progress, i);
      }
    }
    forall c | c in q.continuations && (forall k :: 0 <= k <= last ==> c !in scenes(k).complete)
      ensures c in q'.continuations
    {
      ContinuationSurvives(trace, scenes, progress, |progress|, c);
    }
  }

  // Requests come first: a body is completed, and a poll finds nothing, only when no
  // request is ready; and a poll finds nothing only when no body is complete.
  lemma PollPrefersRequests(q: Queue, scene: Scene, p: Progress, q': Queue)
    requires Polled(q, scene, p, q')
    ensures (exists f :: f in q.requests && Ready(f, scene)) <==> p.Finished?
    ensures p == Nothing ==> forall c :: c in q.continuations ==> c !in scene.complete
  {
    if p.Finished? {
      assert q.requests[p.request] in q.requests;
    }
  }

  // The data of replies, by the answer or the reason.
  lemma ReplyDataIs(a: Answer)
    ensures a.Respond? ==> ReplyData(a) == Done(Page(a.content))
                           && BodyFuture(a) == if a.bodyFuture.Some? then [a.bodyFuture.value] else []
    ensures a.Fail? ==> ReplyData(a) == RequestError(a.error) && BodyFuture(a) == []
    ensures CancelData(Unresolvable) == Done(CouldNotComplete)
    ensures CancelData(ServerShuttingDown) == Done(ServerIsShuttingDown)
  {
  }
}
