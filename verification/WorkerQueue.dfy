/** The worker queue of App.Run, between the adapter's emit callback and the workers that dispatch. */
module WorkerQueue {
  // The emit callback puts events into a bounded channel, workers take them and dispatch them, and Run closes the
  // channel when the adapter returns and waits for the workers.  One action is one channel operation or one step of
  // Run itself.  The adapter emits nothing after its Start has returned.

  type Event = nat
  type WorkerId = nat

  datatype RunPc = StartingUp | Serving | Draining | Returned

  /** A busy worker dispatches the event accepted at some position. */
  datatype WorkerPc = Idle | Busy(position: nat) | Exited

  /**
   The queue with, as history, every accepted event in order, how many were taken, and how often the event accepted at
   each position was dispatched.
   */
  datatype State = State(
    buffer: nat,
    pc: RunPc,
    queue: seq<Event>,
    closed: bool,
    workers: map<WorkerId, WorkerPc>,
    accepted: seq<Event>,
    taken: nat,
    dispatched: multiset<nat>)

  /** The channel capacity is positive: sizes that are not are ignored when the option is read. */
  predicate IsInitial(s: State) {
    && s.buffer > 0 && s.pc == StartingUp && s.queue == [] && !s.closed
    && s.workers != map[] && (forall w :: w in s.workers ==> s.workers[w] == Idle)
    && s.accepted == [] && s.taken == 0 && s.dispatched == multiset{}
  }

  datatype Action =
    | HooksDone(ok: bool)
    | Emit(e: Event)
    | Take(w: WorkerId)
    | Finish(w: WorkerId)
    | AdapterReturns
    | Exit(w: WorkerId)
    | Return

  predicate Enabled(s: State, a: Action) {
    match a
    case HooksDone(_) => s.pc == StartingUp
    case Emit(_) => s.pc == Serving && |s.queue| < s.buffer
    case Take(w) => w in s.workers && s.workers[w] == Idle && s.queue != []
    case Finish(w) => w in s.workers && s.workers[w].Busy?
    case AdapterReturns => s.pc == Serving
    case Exit(w) => w in s.workers && s.workers[w] == Idle && s.closed && s.queue == []
    case Return => s.pc == Draining && forall w :: w in s.workers ==> s.workers[w] == Exited
  }

  function Apply(s: State, a: Action): State
    requires Enabled(s, a)
  {
    match a
    case HooksDone(ok) => if ok then s.(pc := Serving) else s.(pc := Draining, closed := true)
    case Emit(e) => s.(queue := s.queue + [e], accepted := s.accepted + [e])
    case Take(w) => s.(workers := s.workers[w := Busy(s.taken)], queue := s.queue[1..], taken := s.taken + 1)
    case Finish(w) =>
      s.(workers := s.workers[w := Idle], dispatched := s.dispatched + multiset{s.workers[w].position})
    case AdapterReturns => s.(pc := Draining, closed := true)
    case Exit(w) => s.(workers := s.workers[w := Exited])
    case Return => s.(pc := Returned)
  }

  predicate IsRun(s: State, run: seq<Action>)
    decreases |run|
  {
    run == [] || (Enabled(s, run[0]) && IsRun(Apply(s, run[0]), run[1..]))
  }

  function After(s: State, run: seq<Action>): State
    requires IsRun(s, run)
    decreases |run|
  {
    if run == [] then s else After(Apply(s, run[0]), run[1..])
  }

  // ---------------------------------------------------------------- the inductive invariant

  /** Each taken position is with exactly one worker and not dispatched yet, or was dispatched exactly once. */
  ghost predicate PositionOk(s: State, i: nat) {
    || (s.dispatched[i] == 1 && forall w :: w in s.workers ==> s.workers[w] != Busy(i))
    || (s.dispatched[i] == 0 && exists w :: w in s.workers && s.workers[w] == Busy(i))
  }

  ghost predicate Inv(s: State) {
    && s.taken <= |s.accepted| && s.queue == s.accepted[s.taken..] && |s.queue| <= s.buffer
    && (s.closed <==> s.pc == Draining || s.pc == Returned)
    && (forall i :: i in s.dispatched ==> i < s.taken)
    && (forall i :: 0 <= i < s.taken ==> PositionOk(s, i))
    && (forall w :: w in s.workers && s.workers[w].Busy? ==> s.workers[w].position < s.taken)
    && (forall w, w' :: w in s.workers && w' in s.workers && s.workers[w].Busy? && s.workers[w] == s.workers[w']
                        ==> w == w')
    && (forall w :: w in s.workers && s.workers[w] == Exited ==> s.closed && s.queue == [])
    && (s.pc == Returned ==> forall w :: w in s.workers ==> s.workers[w] == Exited)
    && s.workers != map[]
  }

  lemma TakeKeepsInv(s: State, w: WorkerId)
    requires Inv(s) && Enabled(s, Take(w))
    ensures Inv(Apply(s, Take(w)))
  {
    var t := Apply(s, Take(w));
    forall i | 0 <= i < t.taken ensures PositionOk(t, i) {
      if i < s.taken {
        assert PositionOk(s, i);
        if s.dispatched[i] == 0 {
          var w' :| w' in s.workers && s.workers[w'] == Busy(i);
          assert t.workers[w'] == Busy(i);
        }
      } else {
        assert t.workers[w] == Busy(i);
      }
    }
  }

  lemma FinishKeepsInv(s: State, w: WorkerId)
    requires Inv(s) && Enabled(s, Finish(w))
    ensures Inv(Apply(s, Finish(w)))
  {
    var t := Apply(s, Finish(w));
    forall i | 0 <= i < t.taken ensures PositionOk(t, i) {
      assert PositionOk(s, i);
      if i != s.workers[w].position && s.dispatched[i] == 0 {
        var w' :| w' in s.workers && s.workers[w'] == Busy(i);
        assert t.workers[w'] == Busy(i);
      }
    }
  }

  lemma ExitKeepsInv(s: State, w: WorkerId)
    requires Inv(s) && Enabled(s, Exit(w))
    ensures Inv(Apply(s, Exit(w)))
  {
    var t := Apply(s, Exit(w));
    forall i | 0 <= i < t.taken ensures PositionOk(t, i) {
      assert PositionOk(s, i);
      if s.dispatched[i] == 0 {
        var w' :| w' in s.workers && s.workers[w'] == Busy(i);
        assert t.workers[w'] == Busy(i);
      }
    }
  }

  lemma StepKeepsInv(s: State, a: Action)
    requires Inv(s) && Enabled(s, a)
    ensures Inv(Apply(s, a))
  {
    match a
    case Take(w) => TakeKeepsInv(s, w);
    case Finish(w) => FinishKeepsInv(s, w);
    case Exit(w) => ExitKeepsInv(s, w);
    case _ =>
      var t := Apply(s, a);
      assert t.workers == s.workers && t.dispatched == s.dispatched && t.taken == s.taken;
      forall i | 0 <= i < t.taken ensures PositionOk(t, i) { assert PositionOk(s, i); }
  }

  lemma {:induction false} RunKeepsInv(s: State, run: seq<Action>)
    requires Inv(s) && IsRun(s, run)
    ensures Inv(After(s, run))
    decreases |run|
  {
    if run != [] {
      StepKeepsInv(s, run[0]);
      RunKeepsInv(Apply(s, run[0]), run[1..]);
    }
  }

  // ---------------------------------------------------------------- what every run guarantees

  /**
   The queue holds, in order, exactly the accepted events that no worker has taken, and never more than its buffer.
   */
  lemma QueueIsFifoAndBounded(s: State, run: seq<Action>)
    requires IsInitial(s) && IsRun(s, run)
    ensures
      var t := After(s, run);
      t.taken <= |t.accepted| && t.queue == t.accepted[t.taken..] && |t.queue| <= t.buffer
  {
    RunKeepsInv(s, run);
  }

  /** No event is ever dispatched twice, nor one that was not accepted. */
  lemma NeverDispatchedTwice(s: State, run: seq<Action>, i: nat)
    requires IsInitial(s) && IsRun(s, run)
    ensures After(s, run).dispatched[i] <= 1
    ensures i >= |After(s, run).accepted| ==> After(s, run).dispatched[i] == 0
  {
    RunKeepsInv(s, run);
    var t := After(s, run);
    if i < t.taken {
      assert PositionOk(t, i);
    } else {
      assert i !in t.dispatched;
    }
  }

  /** When Run returns, every event it accepted has been dispatched exactly once and nothing is left in the queue. */
  lemma EveryAcceptedEventIsDispatchedOnce(s: State, run: seq<Action>)
    requires IsInitial(s) && IsRun(s, run) && After(s, run).pc == Returned
    ensures
      var t := After(s, run);
      t.queue == [] && forall i :: 0 <= i < |t.accepted| ==> t.dispatched[i] == 1
  {
    RunKeepsInv(s, run);
    var t := After(s, run);
    assert t.queue == [] by {
      var w :| w in t.workers;
      assert t.workers[w] == Exited;
    }
    forall i | 0 <= i < |t.accepted| ensures t.dispatched[i] == 1 {
      assert |t.accepted[t.taken..]| == 0;
      assert PositionOk(t, i);
    }
  }

  function BusyWorkers(s: State): set<WorkerId> { set w | w in s.workers && s.workers[w].Busy? }

  function LiveWorkers(s: State): set<WorkerId> { set w | w in s.workers && s.workers[w] != Exited }

  /** How many steps of the workers are left before Run can return. */
  function StepsLeft(s: State): nat { 2 * |s.queue| + |BusyWorkers(s)| + |LiveWorkers(s)| }

  lemma TakeCountsDown(t: State, w: WorkerId)
    requires Enabled(t, Take(w))
    ensures StepsLeft(Apply(t, Take(w))) == StepsLeft(t) - 1
  {
    var t' := Apply(t, Take(w));
    assert BusyWorkers(t') == BusyWorkers(t) + {w} && w !in BusyWorkers(t);
    assert LiveWorkers(t') == LiveWorkers(t);
  }

  lemma FinishCountsDown(t: State, w: WorkerId)
    requires Enabled(t, Finish(w))
    ensures StepsLeft(Apply(t, Finish(w))) == StepsLeft(t) - 1
  {
    var t' := Apply(t, Finish(w));
    assert BusyWorkers(t') == BusyWorkers(t) - {w} && w in BusyWorkers(t);
    assert LiveWorkers(t') == LiveWorkers(t);
  }

  lemma ExitCountsDown(t: State, w: WorkerId)
    requires Enabled(t, Exit(w))
    ensures StepsLeft(Apply(t, Exit(w))) == StepsLeft(t) - 1
  {
    var t' := Apply(t, Exit(w));
    assert BusyWorkers(t') == BusyWorkers(t);
    assert LiveWorkers(t') == LiveWorkers(t) - {w} && w in LiveWorkers(t);
  }

  lemma DrainStepCountsDown(t: State, a: Action)
    requires t.pc == Draining && Enabled(t, a) && a != Return
    ensures StepsLeft(Apply(t, a)) == StepsLeft(t) - 1
  {
    hide StepsLeft;
    match a
    case Take(w) => TakeCountsDown(t, w);
    case Finish(w) => FinishCountsDown(t, w);
    case Exit(w) => ExitCountsDown(t, w);
  }

  /** While Run drains the queue some step is enabled: it cannot be left waiting for its workers. */
  lemma DrainingNeverSticks(s: State, run: seq<Action>)
    requires IsInitial(s) && IsRun(s, run) && After(s, run).pc == Draining
    ensures exists a :: Enabled(After(s, run), a)
  {
    RunKeepsInv(s, run);
    var t := After(s, run);
    if w :| w in t.workers && t.workers[w].Busy? {
      assert Enabled(t, Finish(w));
    } else if w :| w in t.workers && t.workers[w] == Idle {
      assert Enabled(t, if t.queue == [] then Exit(w) else Take(w));
    } else {
      assert Enabled(t, Return);
    }
  }

  /** Draining ends: no run goes on for more steps than are left when it starts, unless it returns. */
  lemma {:induction false} DrainingEnds(t: State, more: seq<Action>)
    requires t.pc == Draining && IsRun(t, more)
    requires After(t, more).pc == Draining
    ensures |more| <= StepsLeft(t)
    decreases |more|
  {
    if more != [] {
      if more[0] == Return {
        ReturnedStays(Apply(t, Return), more[1..]);
      } else {
        DrainStepCountsDown(t, more[0]);
        DrainingEnds(Apply(t, more[0]), more[1..]);
      }
    }
  }

  lemma {:induction false} ReturnedStays(t: State, more: seq<Action>)
    requires t.pc == Returned && IsRun(t, more)
    ensures After(t, more).pc == Returned
    decreases |more|
  {
    if more != [] {
      ReturnedStays(Apply(t, more[0]), more[1..]);
    }
  }
}
