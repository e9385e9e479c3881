/** The callback queue of the React Native transport: `detach` collects callbacks in a module-level
    array, and a single timer runs what was collected. */
module Scheduling {
  import opened Bytes

  // A callback, by name. What it does is up to its surroundings, and may differ each time.
  type Callback = nat

  // What one callback invocation does: the callbacks it detaches, in order, and whether it throws then.
  datatype Reaction = Reaction(detaches: seq<Callback>, throws: bool)

  // The behaviour of the n-th callback invocation there is.
  type Behaviour = nat -> Reaction

  // `timers` counts the setTimeout calls that have not fired. `executed` and `detached` are history.
  datatype Queue = Queue(awaiting: Option<seq<Callback>>, timers: nat, executed: seq<Callback>, detached: seq<Callback>)

  const EMPTY := Queue(None, 0, [], [])

  function AfterDetach(q: Queue, cb: Callback): Queue {
    match q.awaiting
    case Some(cbs) => q.(awaiting := Some(cbs + [cb]), detached := q.detached + [cb])
    case None => q.(awaiting := Some([cb]), timers := q.timers + 1, detached := q.detached + [cb])
  }

  function AfterDetachAll(q: Queue, cbs: seq<Callback>): Queue
    decreases |cbs|
  {
    if cbs == [] then q else AfterDetachAll(AfterDetach(q, cbs[0]), cbs[1..])
  }

  function AfterExecute(q: Queue, react: Behaviour, cb: Callback): Queue {
    AfterDetachAll(q.(executed := q.executed + [cb]), react(|q.executed|).detaches)
  }

  // After a throw the callbacks that have not run go back to the front of the queue.
  function Requeue(q: Queue, rest: seq<Callback>): Queue {
    match q.awaiting
    case Some(cbs) => q.(awaiting := Some(rest + cbs))
    case None => q.(awaiting := Some(rest), timers := q.timers + 1)
  }

  function RunBatch(q: Queue, react: Behaviour, batch: seq<Callback>): Queue
    decreases |batch|
  {
    if batch == [] then q
    else
      var r := AfterExecute(q, react, batch[0]);
      if react(|q.executed|).throws then Requeue(r, batch[1..]) else RunBatch(r, react, batch[1..])
  }

  function AfterRunCallbacks(q: Queue, react: Behaviour): Queue {
    match q.awaiting
    case None => q
    case Some(batch) => RunBatch(q.(awaiting := None), react, batch)
  }

  /** The pending timer fires. */
  function AfterFire(q: Queue, react: Behaviour): Queue
    requires q.timers > 0
  {
    AfterRunCallbacks(q.(timers := q.timers - 1), react)
  }

  function Awaiting(q: Queue): seq<Callback> { if q.awaiting.Some? then q.awaiting.value else [] }

  /** How many of `count` invocations throw, counting from the one numbered `from`. */
  function Throwing(react: Behaviour, from: nat, count: nat): nat
    decreases count
  {
    if count == 0 then 0 else (if react(from).throws then 1 else 0) + Throwing(react, from + 1, count - 1)
  }

  class Scheduler {
    var awaitingExecution: Option<seq<Callback>>
    var timers: nat
    const react: Behaviour
    var invocations: nat
    ghost var executed: seq<Callback>
    ghost var detached: seq<Callback>

    ghost predicate Valid()
      reads this
    {
      invocations == |executed|
    }

    ghost function State(): Queue
      reads this
    {
      Queue(awaitingExecution, timers, executed, detached)
    }

    constructor (react: Behaviour)
      ensures Valid() && State() == EMPTY && this.react == react
    {
      this.react := react;
      awaitingExecution, timers, invocations, executed, detached := None, 0, 0, [], [];
    }

    method Detach(cb: Callback)
      requires Valid()
      modifies this
      ensures Valid() && State() == AfterDetach(old(State()), cb)
    {
      detached := detached + [cb];
      if awaitingExecution != None {
        awaitingExecution := Some(awaitingExecution.value + [cb]);
        return;
      }
      awaitingExecution := Some([cb]);
      timers := timers + 1;
    }

    // The call of one callback.
    method Execute(cb: Callback) returns (threw: bool)
      requires Valid()
      modifies this
      ensures Valid() && State() == AfterExecute(old(State()), react, cb)
      ensures threw == react(|old(executed)|).throws
    {
      var reaction := react(invocations);
      invocations := invocations + 1;
      executed := executed + [cb];
      ghost var start := State();
      for i := 0 to |reaction.detaches|
        invariant Valid()
        invariant AfterDetachAll(State(), reaction.detaches[i..]) == AfterDetachAll(start, reaction.detaches)
        invariant executed == start.executed
      {
        assert reaction.detaches[i..][0] == reaction.detaches[i]
            && reaction.detaches[i..][1..] == reaction.detaches[i + 1..];
        Detach(reaction.detaches[i]);
      }
      threw := reaction.throws;
    }

    // The catch block: starts a queue with its timer unless there is one, and puts the rest in front.
    method RequeueRest(thisCallbackSet: seq<Callback>, i: nat)
      requires Valid() && i < |thisCallbackSet|
      modifies this
      ensures Valid() && State() == Requeue(old(State()), thisCallbackSet[i + 1..])
    {
      if awaitingExecution == None {
        awaitingExecution := Some([]);
        timers := timers + 1;
      }
      ghost var queued := awaitingExecution.value;
      var k := |thisCallbackSet| - 1;
      while k > i
        invariant i <= k < |thisCallbackSet|
        invariant awaitingExecution.Some? && awaitingExecution.value == thisCallbackSet[k + 1..] + queued
        invariant Valid() && executed == old(executed) && detached == old(detached)
        invariant timers == old(timers) + if old(awaitingExecution) == None then 1 else 0
      {
        awaitingExecution := Some([thisCallbackSet[k]] + awaitingExecution.value);
        k := k - 1;
      }
      assert old(awaitingExecution) == None ==> thisCallbackSet[i + 1..] + queued == thisCallbackSet[i + 1..];
    }

    method RunCallbacks() returns (threw: bool)
      requires Valid()
      modifies this
      ensures Valid() && State() == AfterRunCallbacks(old(State()), react)
      ensures threw <==> Throwing(react, |old(executed)|, |Awaiting(old(State()))|) > 0
    {
      threw := false;
      if awaitingExecution != None {
        var thisCallbackSet := awaitingExecution.value;
        awaitingExecution := None;
        ghost var start := State();
        for i := 0 to |thisCallbackSet|
          invariant Valid()
          invariant RunBatch(State(), react, thisCallbackSet[i..]) == RunBatch(start, react, thisCallbackSet)
          invariant Throwing(react, |executed|, |thisCallbackSet| - i)
                 == Throwing(react, |start.executed|, |thisCallbackSet|)
        {
          ghost var before := State();
          assert thisCallbackSet[i..][0] == thisCallbackSet[i] && thisCallbackSet[i..][1..] == thisCallbackSet[i + 1..];
          ExecutesOne(before, react, thisCallbackSet[i]);
          var failed := Execute(thisCallbackSet[i]);
          if failed {
            RequeueRest(thisCallbackSet, i);
            return true;
          }
        }
      }
    }

    method Fire() returns (threw: bool)
      requires Valid() && timers > 0
      modifies this
      ensures Valid() && State() == AfterFire(old(State()), react)
      ensures threw <==> Throwing(react, |old(executed)|, |Awaiting(old(State()))|) > 0
    {
      timers := timers - 1;
      threw := RunCallbacks();
    }
  }

  // ---- every run ----

  /** What holds while a batch runs: one timer if and only if something awaits it, and everything
      ever detached is, in order, what has run, the rest of the batch, and what awaits. */
  ghost predicate InBatch(q: Queue, batch: seq<Callback>) {
    && q.timers == (if q.awaiting.Some? then 1 else 0)
    && q.executed + batch + Awaiting(q) == q.detached
  }

  ghost predicate Inv(q: Queue) { InBatch(q, []) }

  lemma DetachKeeps(q: Queue, cb: Callback, batch: seq<Callback>)
    requires InBatch(q, batch)
    ensures InBatch(AfterDetach(q, cb), batch)
  {
    assert q.executed + batch + (Awaiting(q) + [cb]) == q.detached + [cb];
    assert Awaiting(AfterDetach(q, cb)) == Awaiting(q) + [cb];
  }

  lemma {:induction false} DetachAllKeeps(q: Queue, cbs: seq<Callback>, batch: seq<Callback>)
    requires InBatch(q, batch)
    ensures InBatch(AfterDetachAll(q, cbs), batch)
    decreases |cbs|
  {
    if cbs != [] {
      DetachKeeps(q, cbs[0], batch);
      DetachAllKeeps(AfterDetach(q, cbs[0]), cbs[1..], batch);
    }
  }

  lemma ExecuteKeeps(q: Queue, react: Behaviour, cb: Callback, rest: seq<Callback>)
    requires InBatch(q, [cb] + rest)
    ensures InBatch(AfterExecute(q, react, cb), rest)
  {
    var r := q.(executed := q.executed + [cb]);
    assert r.executed + rest == q.executed + ([cb] + rest);
    DetachAllKeeps(r, react(|q.executed|).detaches, rest);
  }

  lemma {:induction false} RunBatchKeeps(q: Queue, react: Behaviour, batch: seq<Callback>)
    requires InBatch(q, batch)
    ensures Inv(RunBatch(q, react, batch))
    decreases |batch|
  {
    if batch != [] {
      var cb, rest := batch[0], batch[1..];
      assert batch == [cb] + rest;
      ExecuteKeeps(q, react, cb, rest);
      var r := AfterExecute(q, react, cb);
      if react(|q.executed|).throws {
        assert r.executed + [] + (rest + Awaiting(r)) == r.executed + rest + Awaiting(r);
        assert Awaiting(Requeue(r, rest)) == rest + Awaiting(r);
      } else {
        RunBatchKeeps(r, react, rest);
      }
    }
  }

  lemma FireKeeps(q: Queue, react: Behaviour)
    requires Inv(q) && q.timers > 0
    ensures Inv(AfterFire(q, react))
  {
    var batch := q.awaiting.value;
    var r := q.(timers := q.timers - 1, awaiting := None);
    assert r.executed + batch + [] == q.executed + [] + batch;
    RunBatchKeeps(r, react, batch);
  }

  datatype Event = Detached(cb: Callback) | Fired

  // A run of the module: callbacks are detached from outside, and timers fire when there is one.
  function Run(q: Queue, react: Behaviour, events: seq<Event>): Queue
    decreases |events|
  {
    if events == [] then q
    else
      var r :=
        match events[0]
        case Detached(cb) => AfterDetach(q, cb)
        case Fired => if q.timers > 0 then AfterFire(q, react) else q;
      Run(r, react, events[1..])
  }

  lemma {:induction false} RunKeeps(q: Queue, react: Behaviour, events: seq<Event>)
    requires Inv(q)
    ensures Inv(Run(q, react, events))
    decreases |events|
  {
    if events != [] {
      match events[0] {
        case Detached(cb) =>
          DetachKeeps(q, cb, []);
          RunKeeps(AfterDetach(q, cb), react, events[1..]);
        case Fired =>
          if q.timers > 0 {
            FireKeeps(q, react);
            RunKeeps(AfterFire(q, react), react, events[1..]);
          } else {
            RunKeeps(q, react, events[1..]);
          }
      }
    }
  }

  /** FIFO and exactly once, over every run: what has been executed, followed by what awaits, is
      everything ever detached, in that order; a timer is pending if and only if the queue is there,
      and never a second one. */
  lemma FifoExactlyOnce(react: Behaviour, events: seq<Event>)
    ensures var q := Run(EMPTY, react, events);
            && q.executed + Awaiting(q) == q.detached
            && q.timers <= 1
            && (q.timers == 1 <==> q.awaiting.Some?)
  {
    RunKeeps(EMPTY, react, events);
    var q := Run(EMPTY, react, events);
    assert q.executed + [] + Awaiting(q) == q.executed + Awaiting(q);
  }

  // ---- draining ----

  /** The queue after `k` firings, or fewer if no timer is pending any more. */
  function Firings(q: Queue, react: Behaviour, k: nat): Queue
    decreases k
  {
    if k == 0 || q.timers == 0 then q else Firings(AfterFire(q, react), react, k - 1)
  }

  /** How many callbacks `count` invocations detach, counting from the one numbered `from`. */
  function Detaches(react: Behaviour, from: nat, count: nat): nat
    decreases count
  {
    if count == 0 then 0 else |react(from).detaches| + Detaches(react, from + 1, count - 1)
  }

  lemma {:induction false} DetachAllCounts(q: Queue, cbs: seq<Callback>)
    ensures var r := AfterDetachAll(q, cbs);
            && r.executed == q.executed
            && |Awaiting(r)| == |Awaiting(q)| + |cbs|
            && |r.detached| == |q.detached| + |cbs|
    decreases |cbs|
  {
    if cbs != [] {
      assert Awaiting(AfterDetach(q, cbs[0])) == Awaiting(q) + [cbs[0]];
      DetachAllCounts(AfterDetach(q, cbs[0]), cbs[1..]);
    }
  }

  // One invocation.
  lemma ExecutesOne(q: Queue, react: Behaviour, cb: Callback)
    ensures var r := AfterExecute(q, react, cb);
            && r.executed == q.executed + [cb]
            && |Awaiting(r)| == |Awaiting(q)| + |react(|q.executed|).detaches|
            && |r.detached| >= |q.detached|
  {
    DetachAllCounts(q.(executed := q.executed + [cb]), react(|q.executed|).detaches);
  }

  // A batch executes some of its callbacks, at least one if there are any, and keeps count of the rest.
  lemma {:induction false} RunBatchCounts(q: Queue, react: Behaviour, batch: seq<Callback>)
    ensures var r := RunBatch(q, react, batch);
            && q.executed <= r.executed && |r.detached| >= |q.detached|
            && (batch != [] ==> |r.executed| > |q.executed|)
            && |r.executed| - |q.executed| + |Awaiting(r)|
               == |batch| + |Awaiting(q)| + Detaches(react, |q.executed|, |r.executed| - |q.executed|)
    decreases |batch|
  {
    hide AfterExecute;
    if batch != [] {
      var rest := batch[1..];
      ExecutesOne(q, react, batch[0]);
      var t := AfterExecute(q, react, batch[0]);
      if react(|q.executed|).throws {
        assert |Awaiting(Requeue(t, rest))| == |rest| + |Awaiting(t)|;
        assert Detaches(react, |q.executed|, 1) == |react(|q.executed|).detaches|;
      } else {
        RunBatchCounts(t, react, rest);
      }
    }
  }

  lemma FireCounts(q: Queue, react: Behaviour)
    requires Inv(q) && q.timers > 0
    ensures var r := AfterFire(q, react);
            && q.executed <= r.executed && |r.detached| >= |q.detached|
            && |r.executed| - |q.executed| + |Awaiting(r)|
               == |Awaiting(q)| + Detaches(react, |q.executed|, |r.executed| - |q.executed|)
            && (Awaiting(q) != [] ==> |r.executed| > |q.executed|)
            && (Awaiting(q) == [] ==> r.timers == 0)
  {
    RunBatchCounts(q.(timers := q.timers - 1, awaiting := None), react, q.awaiting.value);
  }

  lemma {:induction false} DetachesAdd(react: Behaviour, from: nat, a: nat, b: nat)
    ensures Detaches(react, from, a + b) == Detaches(react, from, a) + Detaches(react, from + a, b)
    decreases a
  {
    if a > 0 {
      DetachesAdd(react, from + 1, a - 1, b);
    }
  }

  /** Any number of firings: nothing executed is undone, and the executions are paid for by what awaited and what
      they themselves detached. As long as the queue has not drained, every firing has executed something. */
  lemma {:induction false} FiringsCount(q: Queue, react: Behaviour, k: nat)
    requires Inv(q)
    ensures var r := Firings(q, react, k);
            && Inv(r) && q.executed <= r.executed && |r.detached| >= |q.detached|
            && |r.executed| - |q.executed| + |Awaiting(r)|
               == |Awaiting(q)| + Detaches(react, |q.executed|, |r.executed| - |q.executed|)
            && (r.timers > 0 ==> |r.executed| >= |q.executed| + k)
    decreases k
  {
    if k > 0 && q.timers > 0 {
      var t := AfterFire(q, react);
      FireKeeps(q, react);
      FireCounts(q, react);
      FiringsCount(t, react, k - 1);
      var r := Firings(t, react, k - 1);
      DetachesAdd(react, |q.executed|, |t.executed| - |q.executed|, |r.executed| - |t.executed|);
    }
  }

  /** A drained queue has run everything ever detached, in the order of detaching. */
  lemma DrainRunsEverything(q: Queue, react: Behaviour, k: nat)
    requires Inv(q) && Firings(q, react, k).timers == 0
    ensures var r := Firings(q, react, k);
            r.awaiting == None && r.executed == r.detached && q.executed <= r.executed
  {
    FiringsCount(q, react, k);
    var r := Firings(q, react, k);
    assert r.executed + [] + [] == r.executed;
  }

  // The invocations up to number `limit` are enough for all callbacks there will be by then. Running some of them
  // keeps it so.
  ghost predicate EnoughBy(react: Behaviour, executed: nat, waiting: nat, limit: nat) {
    executed <= limit && waiting + Detaches(react, executed, limit - executed) <= limit - executed
  }

  lemma {:induction false} RunBatchWithin(q: Queue, react: Behaviour, batch: seq<Callback>, limit: nat)
    requires EnoughBy(react, |q.executed|, |batch| + |Awaiting(q)|, limit)
    ensures var r := RunBatch(q, react, batch); EnoughBy(react, |r.executed|, |Awaiting(r)|, limit)
    decreases |batch|
  {
    hide AfterExecute;
    if batch != [] {
      var rest := batch[1..];
      ExecutesOne(q, react, batch[0]);
      var t := AfterExecute(q, react, batch[0]);
      if react(|q.executed|).throws {
        assert |Awaiting(Requeue(t, rest))| == |rest| + |Awaiting(t)|;
      } else {
        RunBatchWithin(t, react, rest, limit);
      }
    }
  }

  // Then firings drain the queue, with at most one more than there are invocations left.
  lemma {:induction false} EnoughDrains(q: Queue, react: Behaviour, limit: nat)
    requires Inv(q) && EnoughBy(react, |q.executed|, |Awaiting(q)|, limit)
    ensures Firings(q, react, limit - |q.executed| + 1).timers == 0
    decreases limit - |q.executed|, q.timers
  {
    if q.timers > 0 {
      var t := AfterFire(q, react);
      FireKeeps(q, react);
      FireCounts(q, react);
      RunBatchWithin(q.(timers := q.timers - 1, awaiting := None), react, q.awaiting.value, limit);
      if Awaiting(q) == [] {
        assert Firings(t, react, limit - |q.executed|) == t;
      } else {
        EnoughDrains(t, react, limit);
        var fewer := limit - |t.executed| + 1;
        FiringsAdd(t, react, fewer, limit - |q.executed| - fewer);
      }
    }
  }

  lemma {:induction false} FiringsAdd(q: Queue, react: Behaviour, a: nat, b: nat)
    ensures Firings(q, react, a + b) == Firings(Firings(q, react, a), react, b)
    decreases a
  {
    if a > 0 && q.timers > 0 {
      FiringsAdd(AfterFire(q, react), react, a - 1, b);
    }
  }

  /** Draining ends exactly if at some point the invocations have caught up: some number of invocations is at least
      what awaited and what they detach together. With callbacks that go on detaching, it does not. */
  lemma DrainEnds(q: Queue, react: Behaviour)
    requires Inv(q)
    ensures (exists k: nat :: Firings(q, react, k).timers == 0) <==>
            exists m: nat :: |Awaiting(q)| + Detaches(react, |q.executed|, m) <= m
  {
    if k: nat :| Firings(q, react, k).timers == 0 {
      FiringsCount(q, react, k);
      var r := Firings(q, react, k);
      var m := |r.executed| - |q.executed|;
      assert |Awaiting(q)| + Detaches(react, |q.executed|, m) <= m;
    }
    if m: nat :| |Awaiting(q)| + Detaches(react, |q.executed|, m) <= m {
      EnoughDrains(q, react, |q.executed| + m);
      assert Firings(q, react, m + 1).timers == 0;
    }
  }

  ghost predicate DetachesAtMost(q: Queue, react: Behaviour, bound: nat) {
    forall k: nat :: |Firings(q, react, k).detached| <= bound
  }

  /** In other words: exactly if finitely many callbacks are ever detached. */
  lemma DrainEndsIfFinite(q: Queue, react: Behaviour)
    requires Inv(q)
    ensures (exists k: nat :: Firings(q, react, k).timers == 0) <==>
            exists bound: nat :: DetachesAtMost(q, react, bound)
  {
    if end: nat :| Firings(q, react, end).timers == 0 {
      var bound := |Firings(q, react, end).detached|;
      forall k: nat ensures |Firings(q, react, k).detached| <= bound {
        if k <= end {
          FiringsCount(q, react, k);
          FiringsAdd(q, react, k, end - k);
          FiringsCount(Firings(q, react, k), react, end - k);
        } else {
          FiringsAdd(q, react, end, k - end);
        }
      }
      assert DetachesAtMost(q, react, bound);
    }
    if bound: nat :| DetachesAtMost(q, react, bound) {
      var r := Firings(q, react, bound + 1);
      FiringsCount(q, react, bound + 1);
      assert |r.executed| <= |r.detached| <= bound;
      assert r.timers == 0;
    }
  }

  /** A callback that detaches itself again, whenever it is invoked, keeps the queue from draining. */
  lemma SelfDetachingNeverDrains(q: Queue, react: Behaviour)
    requires Inv(q) && Awaiting(q) != [] && (forall n: nat :: |react(n).detaches| >= 1)
    ensures forall k: nat :: Firings(q, react, k).timers > 0
  {
    DrainEnds(q, react);
    forall m: nat ensures |Awaiting(q)| + Detaches(react, |q.executed|, m) > m {
      DetachesAtLeast(react, |q.executed|, m);
    }
  }

  lemma {:induction false} DetachesAtLeast(react: Behaviour, from: nat, count: nat)
    requires forall n: nat :: |react(n).detaches| >= 1
    ensures Detaches(react, from, count) >= count
    decreases count
  {
    if count > 0 {
      DetachesAtLeast(react, from + 1, count - 1);
    }
  }

  ghost predicate NoReentry(react: Behaviour, from: nat, count: nat) {
    forall n: nat | from <= n < from + count :: react(n).detaches == []
  }

  // A batch that detaches nothing stops behind its first throw.
  lemma {:induction false} PlainBatch(q: Queue, react: Behaviour, batch: seq<Callback>)
    requires NoReentry(react, |q.executed|, |batch|) && q.awaiting == None && q.timers == 0
    ensures var (r, t) := (RunBatch(q, react, batch), Throwing(react, |q.executed|, |batch|));
            if t == 0 then r.awaiting == None && r.timers == 0
            else
              && r.awaiting.Some? && r.timers == 1
              && |r.executed| + |Awaiting(r)| == |q.executed| + |batch| && |r.executed| >= |q.executed|
              && Throwing(react, |r.executed|, |Awaiting(r)|) == t - 1
    decreases |batch|
  {
    if batch != [] {
      var r := AfterExecute(q, react, batch[0]);
      assert r == q.(executed := q.executed + [batch[0]]);
      if !react(|q.executed|).throws {
        PlainBatch(r, react, batch[1..]);
      }
    }
  }

  /** Exact drain bound: without re-entrant enqueues, a queue of callbacks of which t throw takes exactly t + 1
      firings, and not one less. */
  lemma {:induction false} DrainBound(q: Queue, react: Behaviour)
    requires Inv(q) && q.awaiting.Some? && NoReentry(react, |q.executed|, |q.awaiting.value|)
    ensures var t := Throwing(react, |q.executed|, |q.awaiting.value|);
            Firings(q, react, t + 1).timers == 0 && forall j: nat | j <= t :: Firings(q, react, j).timers > 0
    decreases Throwing(react, |q.executed|, |q.awaiting.value|)
  {
    var t := Throwing(react, |q.executed|, |q.awaiting.value|);
    var r := AfterFire(q, react);
    PlainBatch(q.(timers := q.timers - 1, awaiting := None), react, q.awaiting.value);
    FireKeeps(q, react);
    if t > 0 {
      DrainBound(r, react);
      forall j: nat | j <= t ensures Firings(q, react, j).timers > 0 {
        if j > 0 {
          assert Firings(q, react, j) == Firings(r, react, j - 1);
        }
      }
    }
  }
}
