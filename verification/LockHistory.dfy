/** The keyed locks told from the actions of a run alone. */
module LockHistory {
  import opened Common
  import opened KeyedLocks

  lemma {:induction false} RunSnoc(s: State, run: seq<Action>, a: Action)
    ensures IsRun(s, run + [a]) <==> IsRun(s, run) && Enabled(After(s, run), a)
    ensures IsRun(s, run + [a]) ==> After(s, run + [a]) == Apply(After(s, run), a)
    decreases |run|
  {
    hide Enabled, Apply;
    if run == [] {
      assert run + [a] == [a] && [a][1..] == [];
    } else {
      assert (run + [a])[0] == run[0] && (run + [a])[1..] == run[1..] + [a];
      if Enabled(s, run[0]) {
        RunSnoc(Apply(s, run[0]), run[1..], a);
      }
    }
  }

  lemma {:induction false} LastStep(run: seq<Action>)
    requires run != [] && IsRun(INITIAL, run)
    ensures IsRun(INITIAL, Front(run)) && Enabled(After(INITIAL, Front(run)), Final(run))
    ensures After(INITIAL, run) == Apply(After(INITIAL, Front(run)), Final(run))
  {
    assert run == Front(run) + [Final(run)];
    RunSnoc(INITIAL, Front(run), Final(run));
  }

  /** What a thread is about, from the last thing it did: nothing, waiting for a key, inside it, or leaving it. */
  datatype Stage = Outside | WaitingFor(key: Key) | InsideOf(key: Key) | LeavingFrom(key: Key)

  function StageOf(run: seq<Action>, t: ThreadId): Stage
    decreases |run|
  {
    if run == [] then Outside
    else
      var before := StageOf(Front(run), t);
      match Final(run)
      case Enter(u, key) => if u == t then WaitingFor(key) else before
      case Acquire(u) => if u == t && before.WaitingFor? then InsideOf(before.key) else before
      case Unlock(u) => if u == t && before.InsideOf? then LeavingFrom(before.key) else before
      case Leave(u) => if u == t then Outside else before
  }

  predicate Shows(pc: Pc, stage: Stage) {
    match pc
    case Idle => stage == Outside
    case Wanting(key, _) => stage == WaitingFor(key)
    case Inside(key, _) => stage == InsideOf(key)
    case Leaving(key, _) => stage == LeavingFrom(key)
  }

  lemma {:induction false} StageIs(run: seq<Action>, t: ThreadId)
    requires IsRun(INITIAL, run)
    ensures Shows(After(INITIAL, run).At(t), StageOf(run, t))
    decreases |run|
  {
    if run != [] {
      LastStep(run);
      StageIs(Front(run), t);
    }
  }

  /** Two threads that have acquired one key and not given it back are the same thread. */
  lemma ExclusionByActions(run: seq<Action>, t: ThreadId, t': ThreadId, key: Key)
    requires IsRun(INITIAL, run) && StageOf(run, t) == InsideOf(key) && StageOf(run, t') == InsideOf(key)
    ensures t == t'
  {
    StageIs(run, t);
    StageIs(run, t');
    MutualExclusionPerKey(run, t, t');
  }

  predicate UsesKey(run: seq<Action>, t: ThreadId, key: Key) { !StageOf(run, t).Outside? && StageOf(run, t).key == key }

  /** The table holds exactly the keys that some thread waits for, is inside of, or leaves. */
  lemma KeysInUse(run: seq<Action>, key: Key)
    requires IsRun(INITIAL, run)
    ensures key in After(INITIAL, run).table.locks <==>
              exists t: ThreadId :: UsesKey(run, t, key)
  {
    var s := After(INITIAL, run);
    InitialInv();
    RunKeepsInv(INITIAL, run);
    if key in s.table.locks {
      var t := KeyHasUser(s, key);
      StageIs(run, t);
      assert UsesKey(run, t, key);
    }
    if t: ThreadId :| UsesKey(run, t, key) {
      StageIs(run, t);
      assert ThreadOk(s, t);
    }
  }

  lemma KeyHasUser(s: State, key: Key) returns (t: ThreadId)
    requires Inv(s) && key in s.table.locks
    ensures !s.At(t).Idle? && s.At(t).key == key
  {
    var l := s.table.locks[key];
    assert s.table.refs[l] > 0 && |Users(s, l)| == s.table.refs[l];
    assert Users(s, l) != {};
    t :| t in Users(s, l);
    assert ThreadOk(s, t);
  }
}
