/** Waiting for the action channel told from the actions of a run alone: which answer a waiter gives, and why. */
module AdapterHistory {
  import opened Common
  import opened AdapterState

  lemma {:induction false} RunSnoc(s: State, run: seq<Action>, a: Action)
    requires s.log != []
    ensures IsRun(s, run + [a]) <==> IsRun(s, run) && Enabled(After(s, run), a)
    ensures IsRun(s, run + [a]) ==> After(s, run + [a]) == Apply(After(s, run), a)
    decreases |run|
  {
    hide Enabled;
    if run == [] {
      assert run + [a] == [a] && [a][1..] == [];
    } else {
      assert (run + [a])[0] == run[0] && (run + [a])[1..] == run[1..] + [a];
      if Enabled(s, run[0]) {
        RunSnoc(Apply(s, run[0]), run[1..], a);
      }
    }
  }

  lemma {:induction false} LastStep(run: seq<Action>)
    requires run != [] && IsRun(INITIAL, run)
    ensures IsRun(INITIAL, Front(run)) && Enabled(After(INITIAL, Front(run)), Final(run))
    ensures After(INITIAL, run) == Apply(After(INITIAL, Front(run)), Final(run))
    ensures forall b :: b in run <==> b in Front(run) || b == Final(run)
  {
    assert run == Front(run) + [Final(run)];
    RunSnoc(INITIAL, Front(run), Final(run));
  }

  /** The reports of the updates, in order and as they were made. */
  function Reports(run: seq<Action>): seq<Report>
    decreases |run|
  {
    if run == [] then []
    else Reports(Front(run)) + if Final(run).Update? then [Final(run).report] else []
  }

  /** A report that means ready: of kind ready, and with the action channel ready. */
  predicate SaysReady(r: Report) { r.kind == Ready && r.actionReady }

  predicate SaysStopped(r: Report) { r.kind == Stopped }

  /** What is stored agrees with the reports on being ready and on being stopped, and starts as neither. */
  ghost predicate LogSays(run: seq<Action>, log: seq<Report>) {
    && |log| == |Reports(run)| + 1
    && !log[0].Normal().actionReady && !log[0].Normal().kind.Stopped?
    && forall i :: 0 < i < |log| ==>
         && (log[i].Normal().actionReady <==> SaysReady(Reports(run)[i - 1]))
         && (log[i].Normal().kind.Stopped? <==> SaysStopped(Reports(run)[i - 1]))
  }

  lemma {:induction false} LogIs(run: seq<Action>)
    requires IsRun(INITIAL, run)
    ensures LogSays(run, After(INITIAL, run).log)
    decreases |run|
  {
    if run != [] {
      LastStep(run);
      LogIs(Front(run));
    }
  }

  lemma {:induction false} ReportsAreUpdates(run: seq<Action>, i: nat)
    requires i < |Reports(run)|
    ensures exists u :: Update(u, Reports(run)[i]) in run
    decreases |run|
  {
    var front, a := Front(run), Final(run);
    assert run == front + [a];
    if i < |Reports(front)| {
      ReportsAreUpdates(front, i);
      var u :| Update(u, Reports(front)[i]) in front;
      assert Update(u, Reports(run)[i]) in run;
    } else {
      assert a == Update(a.u, Reports(run)[i]) && a in run;
    }
  }

  /** A waiter that gave up did so because its context ended, and only then. */
  lemma {:induction false} CancelledIff(run: seq<Action>, w: WaiterId)
    requires IsRun(INITIAL, run)
    ensures
      var waiters := After(INITIAL, run).waiters;
      Cancel(w) in run <==> w in waiters && waiters[w].Returned? && waiters[w].outcome == ContextError
    decreases |run|
  {
    if run != [] {
      LastStep(run);
      CancelledIff(Front(run), w);
    }
  }

  /** nil is returned only if some update said ready, and ErrActionUnavailable only if some update said stopped. */
  lemma AnswersAreReported(run: seq<Action>, w: WaiterId)
    requires IsRun(INITIAL, run)
    requires w in After(INITIAL, run).waiters && After(INITIAL, run).waiters[w].Returned?
    ensures
      match After(INITIAL, run).waiters[w].outcome
      case Nil => exists u, r :: Update(u, r) in run && SaysReady(r)
      case Unavailable => exists u, r :: Update(u, r) in run && SaysStopped(r)
      case ContextError => Cancel(w) in run
  {
    ReturnsOnlyWhatItRead(run, w);
    LogIs(run);
    CancelledIff(run, w);
    var pc := After(INITIAL, run).waiters[w];
    if !pc.outcome.ContextError? {
      assert pc.version > 0;
      ReportsAreUpdates(run, pc.version - 1);
      var u :| Update(u, Reports(run)[pc.version - 1]) in run;
    }
  }

  /** The last report decides what a waiter that asks now is answered: nil, ErrActionUnavailable, or it waits. */
  lemma LastReportDecides(run: seq<Action>, w: WaiterId)
    requires IsRun(INITIAL, run) && Enabled(After(INITIAL, run), Register(w))
    ensures
      var asked := Apply(After(INITIAL, run), Register(w));
      && Enabled(asked, Decide(w))
      && var pc := DoDecide(asked, w).waiters[w];
         if Reports(run) == [] then pc.Blocked?
         else
           var last := Reports(run)[|Reports(run)| - 1];
           if SaysReady(last) then pc.Returned? && pc.outcome == Nil
           else if SaysStopped(last) then pc.Returned? && pc.outcome == Unavailable
           else pc.Blocked?
  {
    LogIs(run);
    RunKeepsInv(INITIAL, run);
  }
}
