/** The worker queue told from the actions of a run alone: what was emitted, who took it, and what became of it. */
module QueueHistory {
  import opened Common
  import opened WorkerQueue

  lemma {:induction false} RunSnoc(s: State, run: seq<Action>, a: Action)
    ensures IsRun(s, run + [a]) <==> IsRun(s, run) && Enabled(After(s, run), a)
    ensures IsRun(s, run + [a]) ==> After(s, run + [a]) == Apply(After(s, run), a)
    decreases |run|
  {
    hide Enabled, Apply;
    if run == [] {
      assert run + [a] == [a] && [a][1..] == [];
    } else {
      assert (run + [a])[0] == run[0] && (run + [a])[1..] == run[1..] + [a];
      if Enabled(s, run[0]) {
        RunSnoc(Apply(s, run[0]), run[1..], a);
      }
    }
  }

  lemma {:induction false} LastStep(s: State, run: seq<Action>)
    requires run != [] && IsRun(s, run)
    ensures IsRun(s, Front(run)) && Enabled(After(s, Front(run)), Final(run))
    ensures After(s, run) == Apply(After(s, Front(run)), Final(run))
    ensures forall b :: b in run <==> b in Front(run) || b == Final(run)
  {
    assert run == Front(run) + [Final(run)];
    RunSnoc(s, Front(run), Final(run));
  }

  /** The events of the Emit actions, in order. */
  function Emitted(run: seq<Action>): seq<Event>
    decreases |run|
  {
    if run == [] then []
    else Emitted(Front(run)) + if Final(run).Emit? then [Final(run).e] else []
  }

  /** How many events were taken from the queue. */
  function Takes(run: seq<Action>): nat
    decreases |run|
  {
    if run == [] then 0 else Takes(Front(run)) + if Final(run).Take? then 1 else 0
  }

  /** Which event, by its position among those emitted, a worker has taken and not finished. */
  function TakenBy(run: seq<Action>, w: WorkerId): Option<nat>
    decreases |run|
  {
    if run == [] then None
    else if Final(run) == Take(w) then Some(Takes(Front(run)))
    else if Final(run) == Finish(w) then None
    else TakenBy(Front(run), w)
  }

  /** The positions of the events that workers have finished, each as often as it was. */
  function Finished(run: seq<Action>): multiset<nat>
    decreases |run|
  {
    if run == [] then multiset{}
    else if Final(run).Finish? && TakenBy(Front(run), Final(run).w).Some?
    then Finished(Front(run)) + multiset{TakenBy(Front(run), Final(run).w).value}
    else Finished(Front(run))
  }

  /** The state says what the actions say. */
  ghost predicate Recorded(run: seq<Action>, t: State) {
    && t.accepted == Emitted(run) && t.taken == Takes(run) && t.dispatched == Finished(run)
    && (forall w :: TakenBy(run, w).Some? ==> w in t.workers && t.workers[w] == Busy(TakenBy(run, w).value))
    && (forall w :: w in t.workers && t.workers[w].Busy? ==> TakenBy(run, w) == Some(t.workers[w].position))
  }

  lemma {:induction false} StepRecorded(run: seq<Action>, s: State)
    requires run != [] && Enabled(s, Final(run)) && Recorded(Front(run), s)
    ensures Recorded(run, Apply(s, Final(run)))
  {
    var t := Apply(s, Final(run));
    forall w | TakenBy(run, w).Some? ensures w in t.workers && t.workers[w] == Busy(TakenBy(run, w).value) {
      assert Final(run) != Take(w) ==> TakenBy(Front(run), w).Some?;
    }
  }

  lemma {:induction false} RunRecorded(s: State, run: seq<Action>)
    requires IsInitial(s) && IsRun(s, run)
    ensures Recorded(run, After(s, run))
    decreases |run|
  {
    if run != [] {
      LastStep(s, run);
      RunRecorded(s, Front(run));
      StepRecorded(run, After(s, Front(run)));
    }
  }

  /** The phase of Run is decided by how its hooks ended and whether the adapter has returned. */
  lemma {:induction false} PhaseIs(s: State, run: seq<Action>)
    requires IsInitial(s) && IsRun(s, run)
    ensures
      var pc := After(s, run).pc;
      && (pc == StartingUp <==> HooksDone(true) !in run && HooksDone(false) !in run)
      && (pc == Serving <==> HooksDone(true) in run && AdapterReturns !in run)
      && (pc == Returned <==> Return in run)
      && (HooksDone(false) in run ==> Emitted(run) == [] && HooksDone(true) !in run)
      && (AdapterReturns in run ==> HooksDone(true) in run)
      && (Return in run ==> HooksDone(false) in run || AdapterReturns in run)
      && (pc == StartingUp ==> Emitted(run) == [])
    decreases |run|
  {
    if run != [] {
      LastStep(s, run);
      PhaseIs(s, Front(run));
    }
  }

  /** Whatever the workers do: the queue is the events emitted and not yet taken, in order, and within the buffer. */
  lemma {:induction false} QueueIsTheRest(s: State, run: seq<Action>)
    requires IsInitial(s) && IsRun(s, run)
    ensures Takes(run) <= |Emitted(run)| && After(s, run).queue == Emitted(run)[Takes(run)..]
    ensures |Emitted(run)| - Takes(run) <= s.buffer
  {
    RunRecorded(s, run);
    QueueIsFifoAndBounded(s, run);
    BufferStays(s, run);
  }

  lemma {:induction false} BufferStays(s: State, run: seq<Action>)
    requires IsRun(s, run)
    ensures After(s, run).buffer == s.buffer
    decreases |run|
  {
    if run != [] {
      BufferStays(Apply(s, run[0]), run[1..]);
    }
  }

  lemma {:induction false} ReturnedFinished(s: State, run: seq<Action>, i: nat)
    requires IsInitial(s) && IsRun(s, run) && After(s, run).pc == Returned
    ensures Finished(run)[i] == if i < |Emitted(run)| then 1 else 0
  {
    RunRecorded(s, run);
    EveryAcceptedEventIsDispatchedOnce(s, run);
    NeverDispatchedTwice(s, run, i);
    hide Finished, Emitted, Takes, TakenBy;
  }

  lemma {:induction false} AllTaken(s: State, run: seq<Action>)
    requires IsInitial(s) && IsRun(s, run) && After(s, run).pc == Returned
    ensures Takes(run) == |Emitted(run)|
  {
    QueueIsTheRest(s, run);
    EveryAcceptedEventIsDispatchedOnce(s, run);
    hide Emitted, Takes;
    assert |Emitted(run)[Takes(run)..]| == 0;
  }

  /** When Run returns, each event that was emitted has been taken and finished exactly once. */
  lemma {:induction false} EmittedIsDispatchedOnce(s: State, run: seq<Action>)
    requires IsInitial(s) && IsRun(s, run) && Return in run
    ensures forall i: nat :: i < |Emitted(run)| ==> Finished(run)[i] == 1
    ensures |Finished(run)| == |Emitted(run)| == Takes(run)
  {
    PhaseIs(s, run);
    AllTaken(s, run);
    var finished, n := Finished(run), |Emitted(run)|;
    forall i: nat ensures finished[i] == if i < n then 1 else 0 {
      ReturnedFinished(s, run, i);
    }
    OneOfEach(finished, n);
  }

  lemma {:induction false} OneOfEach(m: multiset<nat>, n: nat)
    requires forall i: nat :: m[i] == if i < n then 1 else 0
    ensures |m| == n
  {
    if n == 0 {
      assert m == multiset{};
    } else {
      OneOfEach(m - multiset{n - 1}, n - 1);
    }
  }
}
