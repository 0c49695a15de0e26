// single.rs: the dispatcher in front of the worker threads. Each method is one
// critical section of its mutex.
module SingleRunner {
  import opened Wrappers
  import opened Helpers
  import opened RequestQueue
  import opened WorkerProtocol
  import opened PoolProtocol

  class AtomicI32 {
    var value: int

    constructor ()
      ensures value == 0
    {
      value := 0;
    }
  }

  class WorkerThreadInfo {
    var channel: seq<ControlMessage>
    var isFinished: bool
    const inFlightRequests: AtomicI32

    constructor ()
      ensures channel == [] && !isFinished
      ensures fresh(inFlightRequests) && inFlightRequests.value == 0
    {
      channel, isFinished := [], false;
      inFlightRequests := new AtomicI32();
    }
  }

  class IncrementGuard {
    const value: AtomicI32

    constructor (value: AtomicI32)
      modifies value
      ensures this.value == value && value.value == old(value.value) + 1
    {
      this.value := value;
      value.value := value.value + 1;
    }
  }

  class SingleRunner {
    var threads: seq<WorkerThreadInfo>
    const maxThreads: nat
    var shutDown: bool

    // The dispatcher together with its threads.
    ghost var pool: Pool

    constructor (maxThreads: nat)
      requires maxThreads > 0
      ensures Valid() && this.maxThreads == maxThreads && pool == EMPTY
    {
      threads, shutDown := [], false;
      this.maxThreads := maxThreads;
      pool := EMPTY;
    }

    function Counters(): (r: set<AtomicI32>)
      reads this
    {
      set t | t in threads :: t.inFlightRequests
    }

    ghost predicate Distinct()
      reads this
    {
      && (forall i, j :: 0 <= i < j < |threads| ==> threads[i] != threads[j])
      && (forall i, j :: 0 <= i < j < |threads| ==> threads[i].inFlightRequests != threads[j].inFlightRequests)
    }

    ghost predicate Shows(i: nat)
      requires i < |threads| && i < |pool.threads|
      reads this, threads[i], threads[i].inFlightRequests
    {
      && threads[i].channel == pool.threads[i].channel
      && threads[i].inFlightRequests.value == pool.threads[i].inFlight
      && threads[i].isFinished == pool.threads[i].worker.phase.Ended?
    }

    ghost predicate Valid()
      reads this, threads, Counters()
    {
      && maxThreads > 0 && Distinct() && shutDown == pool.shutDown
      && |pool.threads| == |threads|
      && forall i :: 0 <= i < |threads| ==> Shows(i)
    }

    // The counter snapshot find_or_spawn_thread takes.
    method RequestCounts() returns (counts: seq<int>)
      requires Valid()
      ensures counts == Loads(pool.threads)
    {
      counts := [];
      while |counts| < |threads|
        invariant |counts| <= |threads|
        invariant forall i :: 0 <= i < |counts| ==> counts[i] == pool.threads[i].inFlight
      {
        assert Shows(|counts|);
        counts := counts + [threads[|counts|].inFlightRequests.value];
      }
    }

    // The three steps, on the snapshot; |counts| asks for a new thread.
    static method PickThread(counts: seq<int>, maxThreads: nat) returns (k: nat)
      requires maxThreads > 0
      ensures Picks(counts, maxThreads, k)
    {
      k := 0;
      while k < |counts|
        invariant k <= |counts| && forall i :: 0 <= i < k ==> counts[i] > 0
      {
        if counts[k] <= 0 {
          return;
        }
        k := k + 1;
      }
      if |counts| < maxThreads {
        return |counts|;
      }
      k := 0;
      var i := 1;
      while i < |counts|
        invariant 0 <= k < i <= |counts|
        invariant forall j :: 0 <= j < i ==> counts[k] <= counts[j]
        invariant forall j :: 0 <= j < k ==> counts[k] < counts[j]
      {
        if counts[i] < counts[k] {
          k := i;
        }
        i := i + 1;
      }
    }

    // handle, up to the release of the lock. No guard means the 503 response.
    method Handle(respTx: Id, ghost spawned: Thread) returns (guard: IncrementGuard?, ghost k: nat)
      requires Valid() && PoolProtocol.Fresh(spawned)
      modifies this, threads, Counters()
      ensures Valid() && Next(old(pool), maxThreads, Event.Handle(respTx, k, spawned), pool)
      ensures guard == null <==> old(shutDown)
      ensures guard != null ==> k < |threads| && guard.value == threads[k].inFlightRequests
      ensures guard != null ==>
                threads[k].channel != [] && Last(threads[k].channel) == HandleRequest(respTx)
                && guard.value.value == LoadOf(old(pool), k) + 1
    {
      if shutDown {
        return null, 0;
      }
      var counts := RequestCounts();
      var index := PickThread(counts, maxThreads);
      k := index;
      if index == |threads| {
        SpawnThread(spawned);
      }
      guard := Assign(index, respTx);
    }

    method SpawnThread(ghost spawned: Thread)
      requires Valid() && PoolProtocol.Fresh(spawned)
      modifies this`threads, this`pool
      ensures Valid() && |threads| == |old(threads)| + 1 && threads[..|old(threads)|] == old(threads)
      ensures fresh(threads[|old(threads)|]) && fresh(threads[|old(threads)|].inFlightRequests)
      ensures pool == old(pool).(threads := old(pool).threads + [spawned])
    {
      var worker := new WorkerThreadInfo();
      threads := threads + [worker];
      pool := pool.(threads := pool.threads + [spawned]);
      forall i | 0 <= i < |old(threads)|
        ensures Shows(i)
      {
        assert old(Shows(i));
      }
    }

    // The guard and the message, while the lock is held.
    method Assign(k: nat, respTx: Id) returns (guard: IncrementGuard)
      requires Valid() && k < |threads|
      modifies this`pool, threads[k], threads[k].inFlightRequests
      ensures Valid() && guard.value == threads[k].inFlightRequests
      ensures threads[k].channel == old(threads[k].channel) + [HandleRequest(respTx)]
      ensures guard.value.value == old(pool).threads[k].inFlight + 1
      ensures var t := old(pool).threads[k];
              pool == old(pool).(threads := old(pool).threads[k := Assigned(t, respTx)],
                                 guards := old(pool).guards + multiset{k as int},
                                 peak := Max(old(pool).peak, |old(pool).guards| + 1))
    {
      var thread := threads[k];
      assert Shows(k);
      guard := new IncrementGuard(thread.inFlightRequests);
      thread.channel := thread.channel + [HandleRequest(respTx)];
      pool := pool.(threads := pool.threads[k := Assigned(pool.threads[k], respTx)],
                    guards := pool.guards + multiset{k as int},
                    peak := Max(pool.peak, |pool.guards| + 1));
      OthersShow(k);
    }

    // The guard is dropped when the response has arrived or its receiver is gone.
    method Drop(guard: IncrementGuard, ghost k: nat)
      requires Valid() && k < |threads| && guard.value == threads[k].inFlightRequests && k in pool.guards
      modifies this`pool, guard.value
      ensures Valid() && Next(old(pool), maxThreads, Release(k), pool)
      ensures guard.value.value == old(guard.value.value) - 1
    {
      assert Shows(k);
      guard.value.value := guard.value.value - 1;
      pool := pool.(guards := pool.guards - multiset{k as int},
                    threads := pool.threads[k := pool.threads[k].(inFlight := pool.threads[k].inFlight - 1)]);
      OthersShow(k);
    }

    // What is shown has changed for at most the k-th thread.
    twostate lemma OthersShow(k: nat)
      requires old(Valid()) && threads == old(threads)
      requires |pool.threads| == |threads|
      requires forall i :: 0 <= i < |threads| && i != k ==>
                 && pool.threads[i] == old(pool).threads[i]
                 && unchanged(threads[i]) && unchanged(threads[i].inFlightRequests)
      requires k < |threads| ==> Shows(k)
      ensures forall i :: 0 <= i < |threads| ==> Shows(i)
    {
      forall i | 0 <= i < |threads|
        ensures Shows(i)
      {
        if i != k {
          assert old(Shows(i));
        }
      }
    }

    // One thread's receiving end: a message taken, replies sent, or the end of its loop.
    method Work(k: nat, message: Option<ControlMessage>, ended: bool, ghost l: Label, ghost worker: Worker)
      requires Valid() && k < |threads|
      requires l.Take? <==> message.Some?
      requires l.Take? ==> threads[k].channel != [] && l.message == message && message.value == threads[k].channel[0]
      requires Step(pool.threads[k].worker, l, worker) && ended == worker.phase.Ended?
      modifies this`pool, threads[k]
      ensures Valid() && Next(old(pool), maxThreads, Event.Work(k, l, worker), pool)
    {
      assert Shows(k);
      var t := threads[k];
      if message.Some? {
        t.channel := t.channel[1..];
      }
      t.isFinished := ended;
      pool := pool.(threads := pool.threads[k := pool.threads[k].(channel := t.channel, worker := worker)]);
      OthersShow(k);
    }

    // The critical section of shutdown that asks every unfinished thread to stop.
    method RequestShutdown()
      requires Valid()
      modifies this`shutDown, this`pool, threads
      ensures Valid() && Next(old(pool), maxThreads, Event.RequestShutdown, pool)
    {
      shutDown := true;
      pool := pool.(shutDown := true);
      OthersShow(|threads|);
      Tell(Shutdown);
    }

    // The critical section of shutdown after its timeout.
    method SendTerminate()
      requires Valid() && shutDown
      modifies this`pool, threads
      ensures Valid() && Next(old(pool), maxThreads, Event.SendTerminate, pool)
    {
      pool := pool.(terminated := true);
      OthersShow(|threads|);
      Tell(Terminate);
    }

    method Tell(message: ControlMessage)
      requires Valid()
      modifies this`pool, threads
      ensures Valid() && Told(old(pool).threads, message, pool.threads)
      ensures pool == old(pool).(threads := pool.threads)
    {
      var n := 0;
      while n < |threads|
        invariant n <= |threads| && Valid()
        invariant |pool.threads| == |threads| && pool == old(pool).(threads := pool.threads)
        invariant Told(old(pool).threads[..n], message, pool.threads[..n])
        invariant pool.threads[n..] == old(pool).threads[n..]
      {
        TellOne(n, message);
        n := n + 1;
      }
    }

    method TellOne(k: nat, message: ControlMessage)
      requires Valid() && k < |threads|
      modifies this`pool, threads[k]
      ensures Valid() && Told(old(pool).threads[k..k + 1], message, pool.threads[k..k + 1])
      ensures pool == old(pool).(threads := old(pool).threads[k := pool.threads[k]])
    {
      assert Shows(k);
      var t := threads[k];
      if !t.isFinished {
        t.channel := t.channel + [message];
        pool := pool.(threads := pool.threads[k := pool.threads[k].(channel := t.channel)]);
      }
      OthersShow(k);
    }
  }
}
