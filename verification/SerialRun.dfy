/**
 App.Run with a serial function: the worker queue and the keyed locks together.  A worker that has taken an event takes
 the lock of the event's key, if it has one, handles the event, gives the lock back and is then ready for the next.
 */
module SerialRun {
  import opened Common
  import Queue = WorkerQueue
  import Locks = KeyedLocks

  type WorkerId = nat

  /** The key that events of one conversation share; None where the serial function gives no key. */
  type Serial = Queue.Event -> Option<Locks.Key>

  /** Both systems, and the workers that have handled the event they took but are not done with it. */
  datatype State = State(q: Queue.State, l: Locks.State, handled: set<WorkerId>) {
    predicate Busy(w: WorkerId) { w in q.workers && q.workers[w].Busy? }

    /** The key of the event that a worker has taken. */
    function KeyOf(serial: Serial, w: WorkerId): Option<Locks.Key> {
      if Busy(w) && q.workers[w].position < |q.accepted| then serial(q.accepted[q.workers[w].position]) else None
    }
  }

  predicate IsInitial(s: State) { Queue.IsInitial(s.q) && s.l == Locks.INITIAL && s.handled == {} }

  datatype Action =
    | Step(a: Queue.Action)
    | Enter(w: WorkerId)
    | Acquire(w: WorkerId)
    | Handle(w: WorkerId)
    | Unlock(w: WorkerId)
    | Leave(w: WorkerId)

  predicate Enabled(serial: Serial, s: State, a: Action) {
    match a
    case Step(a) => Queue.Enabled(s.q, a) && (a.Finish? ==> a.w in s.handled && s.l.At(a.w).Idle?)
    case Enter(w) => s.Busy(w) && w !in s.handled && s.l.At(w).Idle? && s.KeyOf(serial, w).Some?
    case Acquire(w) => Locks.Enabled(s.l, Locks.Acquire(w))
    case Handle(w) =>
      s.Busy(w) && w !in s.handled && if s.KeyOf(serial, w).Some? then s.l.At(w).Inside? else s.l.At(w).Idle?
    case Unlock(w) => w in s.handled && Locks.Enabled(s.l, Locks.Unlock(w))
    case Leave(w) => Locks.Enabled(s.l, Locks.Leave(w))
  }

  function Apply(serial: Serial, s: State, a: Action): State
    requires Enabled(serial, s, a)
  {
    match a
    case Step(a) => s.(q := Queue.Apply(s.q, a), handled := if a.Finish? then s.handled - {a.w} else s.handled)
    case Enter(w) => s.(l := Locks.Apply(s.l, Locks.Enter(w, s.KeyOf(serial, w).value)))
    case Acquire(w) => s.(l := Locks.Apply(s.l, Locks.Acquire(w)))
    case Handle(w) => s.(handled := s.handled + {w})
    case Unlock(w) => s.(l := Locks.Apply(s.l, Locks.Unlock(w)))
    case Leave(w) => s.(l := Locks.Apply(s.l, Locks.Leave(w)))
  }

  predicate IsRun(serial: Serial, s: State, run: seq<Action>)
    decreases |run|
  {
    run == [] || (Enabled(serial, s, run[0]) && IsRun(serial, Apply(serial, s, run[0]), run[1..]))
  }

  function After(serial: Serial, s: State, run: seq<Action>): State
    requires IsRun(serial, s, run)
    decreases |run|
  {
    if run == [] then s else After(serial, Apply(serial, s, run[0]), run[1..])
  }

  // ---------------------------------------------------------------- the inductive invariant

  /** A worker uses locks only for the key of the event it has taken, and gives them back after handling it. */
  ghost predicate WorkerOk(serial: Serial, s: State, w: WorkerId) {
    && (w in s.handled ==> s.Busy(w))
    && match s.l.At(w)
       case Idle => true
       case Wanting(key, _) => s.KeyOf(serial, w) == Some(key) && w !in s.handled
       case Inside(key, _) => s.KeyOf(serial, w) == Some(key)
       case Leaving(key, _) => s.KeyOf(serial, w) == Some(key) && w in s.handled
  }

  ghost predicate Inv(serial: Serial, s: State) {
    Queue.Inv(s.q) && Locks.Inv(s.l) && forall w :: WorkerOk(serial, s, w)
  }

  lemma QueueStepKeepsInv(serial: Serial, s: State, a: Queue.Action)
    requires Inv(serial, s) && Enabled(serial, s, Step(a))
    ensures Inv(serial, Apply(serial, s, Step(a)))
  {
    Queue.StepKeepsInv(s.q, a);
    forall w ensures WorkerOk(serial, Apply(serial, s, Step(a)), w) {
      assert WorkerOk(serial, s, w);
    }
  }

  /** The worker that a lock step is about, and where it leaves that worker. */
  lemma LockStepMovesOne(serial: Serial, s: State, a: Action, w: WorkerId)
    requires Enabled(serial, s, a) && (a == Enter(w) || a == Acquire(w) || a == Unlock(w) || a == Leave(w))
    ensures
      var t := Apply(serial, s, a);
      && t.q == s.q && t.handled == s.handled && (forall v :: v != w ==> t.l.At(v) == s.l.At(v))
      && match a
         case Enter(_) => t.l.At(w).Wanting? && s.KeyOf(serial, w) == Some(t.l.At(w).key)
         case Acquire(_) => t.l.At(w).Inside? && s.l.At(w).Wanting? && t.l.At(w).key == s.l.At(w).key
         case Unlock(_) => t.l.At(w).Leaving? && s.l.At(w).Inside? && t.l.At(w).key == s.l.At(w).key
         case _ => t.l.At(w).Idle?
  {
  }

  lemma LockStepKeepsWorkers(serial: Serial, s: State, a: Action, w: WorkerId, v: WorkerId)
    requires Enabled(serial, s, a) && (a == Enter(w) || a == Acquire(w) || a == Unlock(w) || a == Leave(w))
    requires WorkerOk(serial, s, w) && WorkerOk(serial, s, v)
    ensures WorkerOk(serial, Apply(serial, s, a), v)
  {
    LockStepMovesOne(serial, s, a, w);
    hide Locks.Apply;
  }

  lemma LockStepKeepsInv(serial: Serial, s: State, a: Action, w: WorkerId)
    requires Inv(serial, s) && Enabled(serial, s, a)
    requires a == Enter(w) || a == Acquire(w) || a == Unlock(w) || a == Leave(w)
    ensures Inv(serial, Apply(serial, s, a))
  {
    hide Locks.Inv, Queue.Inv, WorkerOk;
    match a {
      case Enter(_) => Locks.StepKeepsInv(s.l, Locks.Enter(w, s.KeyOf(serial, w).value));
      case Acquire(_) => Locks.StepKeepsInv(s.l, Locks.Acquire(w));
      case Unlock(_) => Locks.StepKeepsInv(s.l, Locks.Unlock(w));
      case Leave(_) => Locks.StepKeepsInv(s.l, Locks.Leave(w));
    }
    forall v ensures WorkerOk(serial, Apply(serial, s, a), v) {
      assert WorkerOk(serial, s, w) && WorkerOk(serial, s, v);
      LockStepKeepsWorkers(serial, s, a, w, v);
    }
  }

  lemma HandleKeepsInv(serial: Serial, s: State, w: WorkerId)
    requires Inv(serial, s) && Enabled(serial, s, Handle(w))
    ensures Inv(serial, Apply(serial, s, Handle(w)))
  {
    hide Locks.Inv, Queue.Inv;
    forall v ensures WorkerOk(serial, Apply(serial, s, Handle(w)), v) {
      assert WorkerOk(serial, s, v);
    }
  }

  lemma StepKeepsInv(serial: Serial, s: State, a: Action)
    requires Inv(serial, s) && Enabled(serial, s, a)
    ensures Inv(serial, Apply(serial, s, a))
  {
    hide Inv;
    match a
    case Step(a) => QueueStepKeepsInv(serial, s, a);
    case Handle(w) => HandleKeepsInv(serial, s, w);
    case _ => LockStepKeepsInv(serial, s, a, a.w);
  }

  lemma {:induction false} RunKeepsInv(serial: Serial, s: State, run: seq<Action>)
    requires Inv(serial, s) && IsRun(serial, s, run)
    ensures Inv(serial, After(serial, s, run))
    decreases |run|
  {
    if run != [] {
      StepKeepsInv(serial, s, run[0]);
      RunKeepsInv(serial, Apply(serial, s, run[0]), run[1..]);
    }
  }

  lemma InitialInv(serial: Serial, s: State)
    requires IsInitial(s)
    ensures Inv(serial, s)
  {
    Locks.InitialInv();
  }

  // ---------------------------------------------------------------- what every run guarantees

  /** The part of a run that the queue takes is a run of the queue alone, so its theorems hold here too. */
  lemma {:induction false} QueueRuns(serial: Serial, s: State, run: seq<Action>) returns (steps: seq<Queue.Action>)
    requires IsRun(serial, s, run)
    ensures Queue.IsRun(s.q, steps) && Queue.After(s.q, steps) == After(serial, s, run).q
    decreases |run|
  {
    if run == [] {
      steps := [];
    } else {
      var rest := QueueRuns(serial, Apply(serial, s, run[0]), run[1..]);
      steps := if run[0].Step? then [run[0].a] + rest else rest;
      assert run[0].Step? ==> steps[1..] == rest;
    }
  }

  /** With the locks in between too, Run returns only after it has dispatched each accepted event exactly once. */
  lemma SerialRunDispatchesOnce(serial: Serial, s: State, run: seq<Action>)
    requires IsInitial(s) && IsRun(serial, s, run) && After(serial, s, run).q.pc == Queue.Returned
    ensures
      var t := After(serial, s, run);
      t.q.queue == [] && forall i :: 0 <= i < |t.q.accepted| ==> t.q.dispatched[i] == 1
  {
    var steps := QueueRuns(serial, s, run);
    Queue.EveryAcceptedEventIsDispatchedOnce(s.q, steps);
  }

  /** Two workers never handle events of one key at the same time. */
  lemma OneHandlerPerKey(serial: Serial, s: State, run: seq<Action>, w: WorkerId, w': WorkerId)
    requires IsInitial(s) && IsRun(serial, s, run)
    requires Enabled(serial, After(serial, s, run), Handle(w)) && Enabled(serial, After(serial, s, run), Handle(w'))
    requires After(serial, s, run).KeyOf(serial, w) == After(serial, s, run).KeyOf(serial, w') != None
    ensures w == w'
  {
    InitialInv(serial, s);
    RunKeepsInv(serial, s, run);
    var t := After(serial, s, run);
    assert WorkerOk(serial, t, w) && WorkerOk(serial, t, w');
    Locks.OneInsidePerKey(t.l, w, w');
  }

  /** A worker with an event can go on, or waits for another one that can. */
  lemma BusyCanGoOn(serial: Serial, s: State, w: WorkerId) returns (a: Action)
    requires Inv(serial, s) && s.Busy(w) && !s.l.At(w).Wanting?
    ensures Enabled(serial, s, a)
  {
    assert WorkerOk(serial, s, w);
    assert w in s.l.threads ==> Locks.ThreadOk(s.l, w);
    if s.l.At(w).Leaving? {
      a := Leave(w);
    } else if w in s.handled {
      a := if s.l.At(w).Inside? then Unlock(w) else Step(Queue.Finish(w));
    } else {
      a := if s.l.At(w).Idle? && s.KeyOf(serial, w).Some? then Enter(w) else Handle(w);
    }
  }

  lemma WaiterOrHolderCanGoOn(serial: Serial, s: State, w: WorkerId) returns (a: Action)
    requires Inv(serial, s) && s.Busy(w)
    ensures Enabled(serial, s, a)
  {
    if !s.l.At(w).Wanting? {
      a := BusyCanGoOn(serial, s, w);
    } else if h :| h in s.l.threads && s.l.At(h).Inside? && s.l.At(h).key == s.l.At(w).key {
      assert WorkerOk(serial, s, h);
      a := BusyCanGoOn(serial, s, h);
    } else {
      Locks.FreeKeyCanBeEntered(s.l, w);
      a := Acquire(w);
    }
  }

  /** While Run waits for its workers some step is enabled, although workers may be waiting for each other's keys. */
  lemma SerialDrainingNeverSticks(serial: Serial, s: State, run: seq<Action>)
    requires IsInitial(s) && IsRun(serial, s, run) && After(serial, s, run).q.pc == Queue.Draining
    ensures exists a :: Enabled(serial, After(serial, s, run), a)
  {
    InitialInv(serial, s);
    RunKeepsInv(serial, s, run);
    var t := After(serial, s, run);
    if w :| w in t.q.workers && t.q.workers[w].Busy? {
      var a := WaiterOrHolderCanGoOn(serial, t, w);
    } else if w :| w in t.q.workers && t.q.workers[w] == Queue.Idle {
      var a := if t.q.queue == [] then Queue.Exit(w) else Queue.Take(w);
      assert Enabled(serial, t, Step(a));
    } else {
      assert Enabled(serial, t, Step(Queue.Return));
    }
  }

  // ---------------------------------------------------------------- draining ends

  /** How many steps a worker still has to take for the event it has. */
  function Remaining(serial: Serial, s: State, w: WorkerId): nat {
    if !s.Busy(w) then 0
    else if s.KeyOf(serial, w).None? then if w in s.handled then 1 else 2
    else match s.l.At(w)
      case Idle => if w in s.handled then 1 else 6
      case Wanting(_, _) => 5
      case Inside(_, _) => if w in s.handled then 3 else 4
      case Leaving(_, _) => 2
  }

  function Steps(serial: Serial, s: State): set<(WorkerId, nat)> {
    set w, k | w in s.q.workers && k in {1, 2, 3, 4, 5, 6} && k <= Remaining(serial, s, w) :: (w, k)
  }

  function StepsLeft(serial: Serial, s: State): nat {
    7 * |s.q.queue| + |Steps(serial, s)| + |Queue.LiveWorkers(s.q)|
  }

  /** A step of one worker on its event brings that event nearer to its end. */
  lemma WorkerStepCountsDown(serial: Serial, s: State, t: State, w: WorkerId)
    requires t.q.workers.Keys == s.q.workers.Keys && t.q.queue == s.q.queue
    requires Queue.LiveWorkers(t.q) == Queue.LiveWorkers(s.q)
    requires w in s.q.workers && Remaining(serial, t, w) < Remaining(serial, s, w) <= 6
    requires forall v :: v in s.q.workers && v != w ==> Remaining(serial, t, v) == Remaining(serial, s, v)
    ensures StepsLeft(serial, t) < StepsLeft(serial, s)
  {
    hide Remaining;
    var last := (w, Remaining(serial, s, w));
    assert last in Steps(serial, s) && last !in Steps(serial, t);
    SubsetIsSmaller(Steps(serial, t), Steps(serial, s) - {last});
  }

  lemma OthersKeepTheirSteps(serial: Serial, s: State, a: Action, w: WorkerId, v: WorkerId)
    requires Enabled(serial, s, a) && v != w && (forall u :: WorkerOk(serial, s, u)) && Queue.Inv(s.q)
    requires a == Enter(w) || a == Acquire(w) || a == Handle(w) || a == Unlock(w) || a == Leave(w)
             || a == Step(Queue.Finish(w)) || a == Step(Queue.Take(w)) || a == Step(Queue.Exit(w))
    ensures Remaining(serial, Apply(serial, s, a), v) == Remaining(serial, s, v)
  {
    if !a.Step? && !a.Handle? {
      LockStepMovesOne(serial, s, a, w);
      OthersAreBusyAlike(serial, s, Apply(serial, s, a), v);
    } else {
      var t := Apply(serial, s, a);
      assert t.l == s.l;
      OthersAreBusyAlike(serial, s, t, v);
    }
  }

  lemma OthersAreBusyAlike(serial: Serial, s: State, t: State, v: WorkerId)
    requires s.l.At(v) == t.l.At(v) && (v in s.handled <==> v in t.handled) && s.q.accepted == t.q.accepted
    requires v in s.q.workers <==> v in t.q.workers
    requires v in s.q.workers ==> s.q.workers[v] == t.q.workers[v]
    ensures Remaining(serial, t, v) == Remaining(serial, s, v)
  {
  }

  lemma OwnStepCountsDown(serial: Serial, s: State, a: Action, w: WorkerId)
    requires Inv(serial, s) && Enabled(serial, s, a)
    requires a == Enter(w) || a == Acquire(w) || a == Handle(w) || a == Unlock(w) || a == Leave(w)
             || a == Step(Queue.Finish(w))
    ensures w in s.q.workers && Remaining(serial, Apply(serial, s, a), w) < Remaining(serial, s, w) <= 6
  {
    assert WorkerOk(serial, s, w);
  }

  lemma WorkingCountsDown(serial: Serial, s: State, a: Action, w: WorkerId)
    requires Inv(serial, s) && Enabled(serial, s, a)
    requires a == Enter(w) || a == Acquire(w) || a == Handle(w) || a == Unlock(w) || a == Leave(w)
             || a == Step(Queue.Finish(w))
    ensures StepsLeft(serial, Apply(serial, s, a)) < StepsLeft(serial, s)
  {
    var t := Apply(serial, s, a);
    OwnStepCountsDown(serial, s, a, w);
    forall v | v in s.q.workers && v != w ensures Remaining(serial, t, v) == Remaining(serial, s, v) {
      OthersKeepTheirSteps(serial, s, a, w, v);
    }
    hide Inv, Remaining, StepsLeft, Locks.Apply;
    assert Queue.LiveWorkers(t.q) == Queue.LiveWorkers(s.q);
    WorkerStepCountsDown(serial, s, t, w);
  }

  lemma TakingCountsDown(serial: Serial, s: State, w: WorkerId)
    requires Inv(serial, s) && Enabled(serial, s, Step(Queue.Take(w)))
    ensures StepsLeft(serial, Apply(serial, s, Step(Queue.Take(w)))) < StepsLeft(serial, s)
  {
    var t := Apply(serial, s, Step(Queue.Take(w)));
    forall v | v in s.q.workers && v != w ensures Remaining(serial, t, v) == Remaining(serial, s, v) {
      OthersKeepTheirSteps(serial, s, Step(Queue.Take(w)), w, v);
    }
    hide Inv, Remaining;
    assert Queue.LiveWorkers(t.q) == Queue.LiveWorkers(s.q);
    var own: set<(WorkerId, nat)> := {(w, 1), (w, 2), (w, 3), (w, 4), (w, 5), (w, 6)};
    assert Steps(serial, t) <= Steps(serial, s) + own;
    SubsetIsSmaller(Steps(serial, t), Steps(serial, s) + own);
    assert |own| <= 6;
  }

  lemma ExitingCountsDown(serial: Serial, s: State, w: WorkerId)
    requires Inv(serial, s) && Enabled(serial, s, Step(Queue.Exit(w)))
    ensures StepsLeft(serial, Apply(serial, s, Step(Queue.Exit(w)))) < StepsLeft(serial, s)
  {
    var t := Apply(serial, s, Step(Queue.Exit(w)));
    forall v | v in s.q.workers ensures Remaining(serial, t, v) == Remaining(serial, s, v) {
      if v != w {
        OthersKeepTheirSteps(serial, s, Step(Queue.Exit(w)), w, v);
      }
    }
    hide Inv, Remaining;
    assert Queue.LiveWorkers(t.q) == Queue.LiveWorkers(s.q) - {w} && w in Queue.LiveWorkers(s.q);
    assert Steps(serial, t) == Steps(serial, s);
  }

  lemma DrainStepCountsDown(serial: Serial, s: State, a: Action)
    requires Inv(serial, s) && s.q.pc == Queue.Draining && Enabled(serial, s, a) && a != Step(Queue.Return)
    ensures StepsLeft(serial, Apply(serial, s, a)) < StepsLeft(serial, s) && Apply(serial, s, a).q.pc == Queue.Draining
  {
    hide Inv, StepsLeft;
    match a
    case Step(Take(w)) => TakingCountsDown(serial, s, w);
    case Step(Exit(w)) => ExitingCountsDown(serial, s, w);
    case Step(Finish(w)) => WorkingCountsDown(serial, s, a, w);
    case Step(_) =>
    case Enter(w) => WorkingCountsDown(serial, s, a, w);
    case Acquire(w) => WorkingCountsDown(serial, s, a, w);
    case Handle(w) => WorkingCountsDown(serial, s, a, w);
    case Unlock(w) => WorkingCountsDown(serial, s, a, w);
    case Leave(w) => WorkingCountsDown(serial, s, a, w);
  }

  lemma {:induction false} DrainingIsBounded(serial: Serial, s: State, more: seq<Action>)
    requires Inv(serial, s) && s.q.pc == Queue.Draining && IsRun(serial, s, more)
    requires After(serial, s, more).q.pc == Queue.Draining
    ensures |more| <= StepsLeft(serial, s)
    decreases |more|
  {
    if more != [] {
      var next := Apply(serial, s, more[0]);
      StepKeepsInv(serial, s, more[0]);
      if more[0] == Step(Queue.Return) {
        ReturnedStays(serial, next, more[1..]);
      } else {
        DrainStepCountsDown(serial, s, more[0]);
        DrainingIsBounded(serial, next, more[1..]);
      }
    }
  }

  lemma {:induction false} ReturnedStays(serial: Serial, s: State, more: seq<Action>)
    requires s.q.pc == Queue.Returned && IsRun(serial, s, more)
    ensures After(serial, s, more).q.pc == Queue.Returned
    decreases |more|
  {
    if more != [] {
      ReturnedStays(serial, Apply(serial, s, more[0]), more[1..]);
    }
  }

  /**
   So draining ends, from any reachable state within a number of steps known there, unless Run returns before that.
   */
  lemma SerialDrainingEnds(serial: Serial, s: State, run: seq<Action>, more: seq<Action>)
    requires IsInitial(s) && IsRun(serial, s, run) && IsRun(serial, After(serial, s, run), more)
    requires After(serial, s, run).q.pc == Queue.Draining
    requires After(serial, After(serial, s, run), more).q.pc == Queue.Draining
    ensures |more| <= StepsLeft(serial, After(serial, s, run))
  {
    InitialInv(serial, s);
    RunKeepsInv(serial, s, run);
    DrainingIsBounded(serial, After(serial, s, run), more);
  }
}
