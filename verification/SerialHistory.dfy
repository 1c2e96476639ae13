/**
 App.Run with a serial function, told from the actions of a run alone: what the queue and the locks see of it, which
 event a worker has and under which key, and that each event is handled once, inside its key.  The queue's own laws and
 the locks' are used as they are.
 */
module SerialHistory {
  import opened Common
  import opened SerialRun
  import Queue = WorkerQueue
  import Locks = KeyedLocks
  import QH = QueueHistory
  import LH = LockHistory

  lemma {:induction false} RunSnoc(serial: Serial, s: State, run: seq<Action>, a: Action)
    ensures IsRun(serial, s, run + [a]) <==> IsRun(serial, s, run) && Enabled(serial, After(serial, s, run), a)
    ensures IsRun(serial, s, run + [a]) ==> After(serial, s, run + [a]) == Apply(serial, After(serial, s, run), a)
    decreases |run|
  {
    hide Enabled, Apply;
    if run == [] {
      assert run + [a] == [a] && [a][1..] == [];
    } else {
      assert (run + [a])[0] == run[0] && (run + [a])[1..] == run[1..] + [a];
      if Enabled(serial, s, run[0]) {
        RunSnoc(serial, Apply(serial, s, run[0]), run[1..], a);
      }
    }
  }

  lemma {:induction false} LastStep(serial: Serial, s: State, run: seq<Action>)
    requires run != [] && IsRun(serial, s, run)
    ensures IsRun(serial, s, Front(run)) && Enabled(serial, After(serial, s, Front(run)), Final(run))
    ensures After(serial, s, run) == Apply(serial, After(serial, s, Front(run)), Final(run))
  {
    assert run == Front(run) + [Final(run)];
    RunSnoc(serial, s, Front(run), Final(run));
  }

  /** What the queue sees of a run. */
  function QueueActions(run: seq<Action>): seq<Queue.Action>
    decreases |run|
  {
    if run == [] then []
    else QueueActions(Front(run)) + if Final(run).Step? then [Final(run).a] else []
  }

  /** The key of the event that a worker has taken and not finished, by what was emitted and taken. */
  function KeyBy(serial: Serial, run: seq<Action>, w: WorkerId): Option<Locks.Key> {
    var position := QH.TakenBy(QueueActions(run), w);
    var emitted := QH.Emitted(QueueActions(run));
    if position.Some? && position.value < |emitted| then serial(emitted[position.value]) else None
  }

  /** What the locks see of a run. */
  function LockActions(serial: Serial, run: seq<Action>): seq<Locks.Action>
    decreases |run|
  {
    if run == [] then []
    else
      LockActions(serial, Front(run)) +
      match Final(run)
      case Enter(w) =>
        if KeyBy(serial, Front(run), w).Some? then [Locks.Enter(w, KeyBy(serial, Front(run), w).value)] else []
      case Acquire(w) => [Locks.Acquire(w)]
      case Unlock(w) => [Locks.Unlock(w)]
      case Leave(w) => [Locks.Leave(w)]
      case _ => []
  }

  /** The positions of the events that were handled, each as often as it was. */
  function Handled(run: seq<Action>): multiset<nat>
    decreases |run|
  {
    if run == [] then multiset{}
    else if Final(run).Handle? && QH.TakenBy(QueueActions(Front(run)), Final(run).w).Some?
    then Handled(Front(run)) + multiset{QH.TakenBy(QueueActions(Front(run)), Final(run).w).value}
    else Handled(Front(run))
  }

  lemma StepOnQueue(serial: Serial, s: State, a: Action)
    requires Enabled(serial, s, a)
    ensures a.Step? ==> Queue.Enabled(s.q, a.a) && Apply(serial, s, a).q == Queue.Apply(s.q, a.a)
    ensures !a.Step? ==> Apply(serial, s, a).q == s.q
  {
  }

  lemma {:induction false} QueueProjection(serial: Serial, s: State, run: seq<Action>)
    requires IsInitial(s) && IsRun(serial, s, run)
    ensures Queue.IsRun(s.q, QueueActions(run)) && Queue.After(s.q, QueueActions(run)) == After(serial, s, run).q
    decreases |run|
  {
    if run == [] {
      assert QueueActions(run) == [];
      assert Queue.IsRun(s.q, []) && Queue.After(s.q, []) == s.q;
    } else {
      LastStep(serial, s, run);
      QueueProjection(serial, s, Front(run));
      StepOnQueue(serial, After(serial, s, Front(run)), Final(run));
      hide Queue.Enabled, Queue.Apply, Enabled, Apply, IsRun, After, Queue.IsRun, Queue.After;
      if Final(run).Step? {
        QH.RunSnoc(s.q, QueueActions(Front(run)), Final(run).a);
      } else {
        assert QueueActions(run) == QueueActions(Front(run));
      }
    }
  }

  lemma KeyIs(serial: Serial, s: State, run: seq<Action>, w: WorkerId)
    requires IsInitial(s) && IsRun(serial, s, run)
    ensures After(serial, s, run).KeyOf(serial, w) == KeyBy(serial, run, w)
  {
    QueueProjection(serial, s, run);
    QH.RunRecorded(s.q, QueueActions(run));
  }

  lemma {:induction false} LockProjection(serial: Serial, s: State, run: seq<Action>)
    requires IsInitial(s) && IsRun(serial, s, run)
    ensures Locks.IsRun(Locks.INITIAL, LockActions(serial, run))
    ensures Locks.After(Locks.INITIAL, LockActions(serial, run)) == After(serial, s, run).l
    decreases |run|
  {
    if run != [] {
      LastStep(serial, s, run);
      LockProjection(serial, s, Front(run));
      hide Locks.Enabled, Locks.Apply, KeyBy, Queue.Enabled, Queue.Apply;
      var before := LockActions(serial, Front(run));
      match Final(run)
      case Enter(w) =>
        KeyIs(serial, s, Front(run), w);
        LockEnterIsEnabled(serial, After(serial, s, Front(run)), w);
        LH.RunSnoc(Locks.INITIAL, before, Locks.Enter(w, KeyBy(serial, Front(run), w).value));
      case Acquire(w) => LH.RunSnoc(Locks.INITIAL, before, Locks.Acquire(w));
      case Unlock(w) => LH.RunSnoc(Locks.INITIAL, before, Locks.Unlock(w));
      case Leave(w) => LH.RunSnoc(Locks.INITIAL, before, Locks.Leave(w));
      case _ => assert before + [] == before;
    }
  }

  lemma LockEnterIsEnabled(serial: Serial, s: State, w: WorkerId)
    requires Enabled(serial, s, Enter(w))
    ensures s.KeyOf(serial, w).Some? && Locks.Enabled(s.l, Locks.Enter(w, s.KeyOf(serial, w).value))
  {
  }

  /** Events with a key are handled inside that key, so no two workers handle events of one key at the same time. */
  lemma {:induction false} HandledInsideKey(serial: Serial, s: State, run: seq<Action>, w: WorkerId, w': WorkerId,
                                            key: Locks.Key)
    requires IsInitial(s) && IsRun(serial, s, run) && Enabled(serial, After(serial, s, run), Handle(w))
    requires KeyBy(serial, run, w) == Some(key)
    ensures LH.StageOf(LockActions(serial, run), w) == LH.InsideOf(key)
    ensures LH.StageOf(LockActions(serial, run), w') == LH.InsideOf(key) ==> w' == w
  {
    InitialInv(serial, s);
    RunKeepsInv(serial, s, run);
    assert WorkerOk(serial, After(serial, s, run), w);
    KeyIs(serial, s, run, w);
    LockProjection(serial, s, run);
    LH.StageIs(LockActions(serial, run), w);
    if LH.StageOf(LockActions(serial, run), w') == LH.InsideOf(key) {
      LH.ExclusionByActions(LockActions(serial, run), w, w', key);
    }
  }

  // ---------------------------------------------------------------- every event is handled once

  /** An event with a worker was handled if the worker says so; one taken before and let go was handled once. */
  ghost predicate PositionHandled(handled: multiset<nat>, t: State, i: nat) {
    if i >= t.q.taken then handled[i] == 0
    else
      || (handled[i] == 1 && forall w :: w in t.q.workers && t.q.workers[w] == Queue.Busy(i) ==> w in t.handled)
      || (handled[i] == 0 && exists w :: w in t.q.workers && t.q.workers[w] == Queue.Busy(i) && w !in t.handled)
  }

  lemma HandleHandles(serial: Serial, run: seq<Action>, s: State, i: nat)
    requires run != [] && Enabled(serial, s, Final(run)) && Inv(serial, s) && Final(run).Handle?
    requires forall w :: s.Busy(w) ==> QH.TakenBy(QueueActions(Front(run)), w) == Some(s.q.workers[w].position)
    requires PositionHandled(Handled(Front(run)), s, i)
    ensures PositionHandled(Handled(run), Apply(serial, s, Final(run)), i)
  {
    var t, a := Apply(serial, s, Final(run)), Final(run);
    assert s.Busy(a.w) && WorkerOk(serial, s, a.w);
    var p := s.q.workers[a.w].position;
    assert Handled(run) == Handled(Front(run)) + multiset{p};
    if i < s.q.taken && i != p && Handled(Front(run))[i] == 0 {
      var w :| w in s.q.workers && s.q.workers[w] == Queue.Busy(i) && w !in s.handled;
      assert w in t.q.workers && t.q.workers[w] == Queue.Busy(i) && w !in t.handled;
    }
  }

  /** A worker that has not handled its event keeps it through every step but handling it. */
  lemma UnhandledStays(serial: Serial, s: State, a: Action, w: WorkerId)
    requires Enabled(serial, s, a) && !a.Handle? && s.Busy(w) && w !in s.handled
    ensures
      var t := Apply(serial, s, a);
      w in t.q.workers && t.q.workers[w] == s.q.workers[w] && w !in t.handled
  {
    hide Locks.Apply, Locks.Enabled;
  }

  lemma {:induction false} OthersHandleNothing(serial: Serial, s: State, a: Action, handled: multiset<nat>, i: nat)
    requires Enabled(serial, s, a) && Inv(serial, s) && !a.Handle? && PositionHandled(handled, s, i)
    ensures PositionHandled(handled, Apply(serial, s, a), i)
  {
    hide Locks.Apply, Locks.Enabled, Locks.Inv, Queue.Inv;
    var t := Apply(serial, s, a);
    if i < s.q.taken && handled[i] == 0 {
      var w :| w in s.q.workers && s.q.workers[w] == Queue.Busy(i) && w !in s.handled;
      UnhandledStays(serial, s, a, w);
      assert w in t.q.workers && t.q.workers[w] == Queue.Busy(i) && w !in t.handled;
    } else if a.Step? && a.a.Take? {
      assert WorkerOk(serial, s, a.a.w);
      assert t.q.workers[a.a.w] == Queue.Busy(s.q.taken);
    }
  }

  lemma {:induction false} RunHandles(serial: Serial, s: State, run: seq<Action>, i: nat)
    requires IsInitial(s) && IsRun(serial, s, run)
    ensures PositionHandled(Handled(run), After(serial, s, run), i)
    decreases |run|
  {
    if run != [] {
      LastStep(serial, s, run);
      RunHandles(serial, s, Front(run), i);
      InitialInv(serial, s);
      RunKeepsInv(serial, s, Front(run));
      QueueProjection(serial, s, Front(run));
      QH.RunRecorded(s.q, QueueActions(Front(run)));
      if Final(run).Handle? {
        HandleHandles(serial, run, After(serial, s, Front(run)), i);
      } else {
        OthersHandleNothing(serial, After(serial, s, Front(run)), Final(run), Handled(Front(run)), i);
      }
    }
  }

  /** When Run returns, each event that was emitted has been handled exactly once. */
  lemma {:induction false} EmittedIsHandledOnce(serial: Serial, s: State, run: seq<Action>, i: nat)
    requires IsInitial(s) && IsRun(serial, s, run) && Queue.Return in QueueActions(run)
    ensures i < |QH.Emitted(QueueActions(run))| ==> Handled(run)[i] == 1
    ensures i >= |QH.Emitted(QueueActions(run))| ==> Handled(run)[i] == 0
  {
    RunHandles(serial, s, run, i);
    QueueProjection(serial, s, run);
    QH.PhaseIs(s.q, QueueActions(run));
    QH.AllTaken(s.q, QueueActions(run));
    QH.RunRecorded(s.q, QueueActions(run));
    InitialInv(serial, s);
    RunKeepsInv(serial, s, run);
  }
}
