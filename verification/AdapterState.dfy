/** Waiting until the adapter's action channel is ready. */
module AdapterState {
  import opened Common

  // A waiter registers a channel under the state mutex and blocks on it; an update swaps the state and the list of
  // waiters under the same mutex and closes the old list afterwards.

  type WaiterId = nat
  type UpdaterId = nat
  type ChanId = nat

  datatype Kind = Unset | Unknown | Starting | Ready | Disconnected | Stopped

  datatype Report = Report(kind: Kind, actionReady: bool) {
    /** The action channel can only be ready in state ready, and a state that was never set is unknown. */
    function Normal(): Report {
      Report(if kind.Unset? then Unknown else kind, actionReady && kind.Ready?)
    }
  }

  /** What the state mutex guards. */
  datatype Shared = Shared(current: Report, waiters: seq<ChanId>, next: ChanId) {
    function Register(): Shared {
      if current.Normal().actionReady then this.(next := next + 1)
      else this.(waiters := waiters + [next], next := next + 1)
    }
    function Update(report: Report): Shared { Shared(report.Normal(), [], next) }
  }

  /** A channel with its close count, and, as history, who took it over and its place in the list it is in. */
  datatype Chan = Chan(closes: nat, taker: Option<UpdaterId>, slot: nat)

  datatype Outcome = Nil | Unavailable | ContextError

  /** Versions count the updates so far; a waiter remembers the version and the state it read. */
  datatype WaiterPc =
    | Looping
    | Deciding(ch: ChanId, read: Report, version: nat)
    | Blocked(ch: ChanId, read: Report, version: nat)
    | Returned(outcome: Outcome, read: Report, version: nat)

  /** An updater past its critical section, with the channels it took and how many of them it has closed. */
  datatype Updater = Updater(taken: seq<ChanId>, done: nat) {
    function Remaining(): seq<ChanId> { if done <= |taken| then taken[done..] else [] }
  }

  datatype State = State(
    shared: Shared,
    log: seq<Report>,
    chans: map<ChanId, Chan>,
    waiters: map<WaiterId, WaiterPc>,
    updaters: map<UpdaterId, Updater>,
    panicked: bool)
  {
    function Version(): int { |log| - 1 }
    function Move(w: WaiterId, pc: WaiterPc): State { this.(waiters := waiters[w := pc]) }
  }

  /** The zero state, which no update has replaced yet. */
  const ZERO := Report(Unset, false)
  const INITIAL := State(Shared(ZERO, [], 0), [ZERO], map[], map[], map[], false)

  datatype Action =
    | Call(w: WaiterId)
    | Register(w: WaiterId)
    | Decide(w: WaiterId)
    | Wake(w: WaiterId)
    | Cancel(w: WaiterId)
    | Update(u: UpdaterId, report: Report)
    | CloseNext(u: UpdaterId)

  predicate Enabled(s: State, a: Action) {
    match a
    case Call(w) => w !in s.waiters
    case Register(w) => w in s.waiters && s.waiters[w].Looping?
    case Decide(w) => w in s.waiters && s.waiters[w].Deciding?
    case Wake(w) =>
      && w in s.waiters && s.waiters[w].Blocked?
      && s.waiters[w].ch in s.chans && s.chans[s.waiters[w].ch].closes > 0
    case Cancel(w) => w in s.waiters && s.waiters[w].Blocked?
    case Update(u, _) => u !in s.updaters && s.log != []
    case CloseNext(u) =>
      && u in s.updaters && s.updaters[u].done < |s.updaters[u].taken|
      && s.updaters[u].taken[s.updaters[u].done] in s.chans
  }

  function DoRegister(s: State, w: WaiterId): State
    requires Enabled(s, Register(w)) && s.log != []
  {
    var read := s.shared.current.Normal();
    var chan := Chan(if read.actionReady then 1 else 0, None, |s.shared.waiters|);
    s.Move(w, Deciding(s.shared.next, read, s.Version()))
     .(chans := s.chans[s.shared.next := chan], shared := s.shared.Register())
  }

  function DoDecide(s: State, w: WaiterId): State
    requires Enabled(s, Decide(w))
  {
    var pc := s.waiters[w];
    s.Move(w,
      if pc.read.actionReady then Returned(Nil, pc.read, pc.version)
      else if pc.read.kind.Stopped? then Returned(Unavailable, pc.read, pc.version)
      else Blocked(pc.ch, pc.read, pc.version))
  }

  /** Records that updater u took the registered channels. */
  function Taken(chans: map<ChanId, Chan>, taken: seq<ChanId>, u: UpdaterId): map<ChanId, Chan> {
    map c | c in chans :: if c in taken then chans[c].(taker := Some(u)) else chans[c]
  }

  function DoUpdate(s: State, u: UpdaterId, report: Report): State
    requires Enabled(s, Update(u, report))
  {
    s.(shared := s.shared.Update(report),
       log := s.log + [report.Normal()],
       chans := Taken(s.chans, s.shared.waiters, u),
       updaters := s.updaters[u := Updater(s.shared.waiters, 0)])
  }

  function DoCloseNext(s: State, u: UpdaterId): State
    requires Enabled(s, CloseNext(u))
  {
    var up := s.updaters[u];
    var ch := up.taken[up.done];
    if s.chans[ch].closes > 0 then s.(panicked := true)
    else
      s.(chans := s.chans[ch := s.chans[ch].(closes := 1)],
         updaters := s.updaters[u := up.(done := up.done + 1)])
  }

  function Apply(s: State, a: Action): State
    requires Enabled(s, a) && s.log != []
  {
    match a
    case Call(w) => s.Move(w, Looping)
    case Register(w) => DoRegister(s, w)
    case Decide(w) => DoDecide(s, w)
    case Wake(w) => s.Move(w, Looping)
    case Cancel(w) => s.Move(w, Returned(ContextError, s.waiters[w].read, s.waiters[w].version))
    case Update(u, report) => DoUpdate(s, u, report)
    case CloseNext(u) => DoCloseNext(s, u)
  }

  predicate IsRun(s: State, run: seq<Action>)
    requires s.log != []
    decreases |run|
  {
    run == [] || (Enabled(s, run[0]) && IsRun(Apply(s, run[0]), run[1..]))
  }

  function After(s: State, run: seq<Action>): (s': State)
    requires s.log != [] && IsRun(s, run)
    ensures s'.log != []
    decreases |run|
  {
    if run == [] then s else After(Apply(s, run[0]), run[1..])
  }

  // ---------------------------------------------------------------- the inductive invariant

  /** A registered channel is open and in the place it was given. */
  ghost predicate RegisteredOk(s: State, i: nat)
    requires i < |s.shared.waiters|
  {
    var ch := s.shared.waiters[i];
    ch in s.chans && s.chans[ch] == Chan(0, None, i)
  }

  ghost predicate UpdaterOk(s: State, u: UpdaterId)
    requires u in s.updaters
  {
    && s.updaters[u].done <= |s.updaters[u].taken|
    && forall i :: 0 <= i < |s.updaters[u].taken| ==>
         var ch := s.updaters[u].taken[i];
         ch in s.chans && s.chans[ch] == Chan(if i < s.updaters[u].done then 1 else 0, Some(u), i)
  }

  ghost predicate StillRegistered(s: State, ch: ChanId)
    requires ch in s.chans
  {
    s.chans[ch].taker == None && s.chans[ch].slot < |s.shared.waiters| && s.shared.waiters[s.chans[ch].slot] == ch
  }

  ghost predicate StillToClose(s: State, ch: ChanId)
    requires ch in s.chans
  {
    && s.chans[ch].taker.Some? && s.chans[ch].taker.value in s.updaters
    && var up := s.updaters[s.chans[ch].taker.value];
       up.done <= s.chans[ch].slot < |up.taken| && up.taken[s.chans[ch].slot] == ch
  }

  /**
   Every channel that is not closed is registered, or in the private list of an updater that still has to close it.
   */
  ghost predicate ChanOk(s: State, ch: ChanId)
    requires ch in s.chans
  {
    && ch < s.shared.next
    && (s.chans[ch].closes == 1 || (s.chans[ch].closes == 0 && (StillRegistered(s, ch) || StillToClose(s, ch))))
  }

  ghost predicate ReadOk(s: State, read: Report, version: nat) {
    version < |s.log| && read == s.log[version].Normal()
  }

  ghost predicate WaiterOk(s: State, w: WaiterId)
    requires w in s.waiters
  {
    match s.waiters[w]
    case Looping => true
    case Deciding(ch, read, version) =>
      && ReadOk(s, read, version) && ch in s.chans && (StillRegistered(s, ch) ==> version == s.Version())
    case Blocked(ch, read, version) =>
      && ReadOk(s, read, version) && ch in s.chans && (StillRegistered(s, ch) ==> version == s.Version())
      && !read.actionReady && !read.kind.Stopped?
    case Returned(outcome, read, version) =>
      && ReadOk(s, read, version)
      && (outcome.Nil? ==> read.actionReady) && (outcome.Unavailable? ==> read.kind.Stopped?)
  }

  ghost predicate Inv(s: State) {
    && !s.panicked
    && s.log != [] && s.log[s.Version()] == s.shared.current
    && (forall i :: 0 <= i < |s.shared.waiters| ==> RegisteredOk(s, i))
    && (forall u :: u in s.updaters ==> UpdaterOk(s, u))
    && (forall ch :: ch in s.chans ==> ChanOk(s, ch))
    && (forall w :: w in s.waiters ==> WaiterOk(s, w))
  }

  lemma MoveKeepsInv(s: State, w: WaiterId, pc: WaiterPc)
    requires Inv(s) && WaiterOk(s.Move(w, pc), w)
    ensures Inv(s.Move(w, pc))
  {
    var t := s.Move(w, pc);
    forall i | 0 <= i < |t.shared.waiters| ensures RegisteredOk(t, i) { assert RegisteredOk(s, i); }
    forall u | u in t.updaters ensures UpdaterOk(t, u) { assert UpdaterOk(s, u); }
    forall ch | ch in t.chans ensures ChanOk(t, ch) { assert ChanOk(s, ch); }
    forall v | v in t.waiters ensures WaiterOk(t, v) { assert v in s.waiters ==> WaiterOk(s, v); }
  }

  lemma RegisterKeepsInv(s: State, w: WaiterId)
    requires Inv(s) && Enabled(s, Register(w))
    ensures Inv(DoRegister(s, w))
  {
    var t := DoRegister(s, w);
    assert s.shared.next !in s.chans;
    forall i | 0 <= i < |t.shared.waiters| ensures RegisteredOk(t, i) {
      assert i < |s.shared.waiters| ==> RegisteredOk(s, i);
    }
    forall u | u in t.updaters ensures UpdaterOk(t, u) { assert UpdaterOk(s, u); }
    forall ch | ch in t.chans ensures ChanOk(t, ch) { assert ch in s.chans ==> ChanOk(s, ch); }
    forall v | v in t.waiters ensures WaiterOk(t, v) { assert WaiterOk(s, v); }
  }

  lemma UpdateKeepsInv(s: State, u: UpdaterId, report: Report)
    requires Inv(s) && Enabled(s, Update(u, report))
    ensures Inv(DoUpdate(s, u, report))
  {
    var t := DoUpdate(s, u, report);
    forall ch | ch in s.shared.waiters ensures ch in s.chans && s.chans[ch].taker == None {
      var i :| 0 <= i < |s.shared.waiters| && s.shared.waiters[i] == ch;
      assert RegisteredOk(s, i);
    }
    forall i | 0 <= i < |s.shared.waiters|
      ensures s.shared.waiters[i] in t.chans && t.chans[s.shared.waiters[i]] == Chan(0, Some(u), i)
    {
      assert RegisteredOk(s, i) && s.shared.waiters[i] in s.shared.waiters;
    }
    assert UpdaterOk(t, u);
    forall v | v in t.updaters ensures UpdaterOk(t, v) { assert v != u ==> UpdaterOk(s, v); }
    forall ch | ch in t.chans ensures ChanOk(t, ch) { assert ChanOk(s, ch); }
    forall w | w in t.waiters ensures WaiterOk(t, w) { assert WaiterOk(s, w); }
  }

  lemma CloseNextKeepsInv(s: State, u: UpdaterId)
    requires Inv(s) && Enabled(s, CloseNext(u))
    ensures Inv(DoCloseNext(s, u))
  {
    var t := DoCloseNext(s, u);
    assert UpdaterOk(s, u);
    forall i | 0 <= i < |t.shared.waiters| ensures RegisteredOk(t, i) { assert RegisteredOk(s, i); }
    forall v | v in t.updaters ensures UpdaterOk(t, v) { assert UpdaterOk(s, v); }
    forall ch | ch in t.chans ensures ChanOk(t, ch) { assert ChanOk(s, ch); }
    forall w | w in t.waiters ensures WaiterOk(t, w) { assert WaiterOk(s, w); }
  }

  lemma StepKeepsInv(s: State, a: Action)
    requires Inv(s) && Enabled(s, a)
    ensures Inv(Apply(s, a))
  {
    match a
    case Call(w) => MoveKeepsInv(s, w, Looping);
    case Register(w) => RegisterKeepsInv(s, w);
    case Decide(w) => assert WaiterOk(s, w); MoveKeepsInv(s, w, DoDecide(s, w).waiters[w]);
    case Wake(w) => MoveKeepsInv(s, w, Looping);
    case Cancel(w) => assert WaiterOk(s, w); MoveKeepsInv(s, w, Apply(s, a).waiters[w]);
    case Update(u, report) => UpdateKeepsInv(s, u, report);
    case CloseNext(u) => CloseNextKeepsInv(s, u);
  }

  lemma {:induction false} RunKeepsInv(s: State, run: seq<Action>)
    requires Inv(s) && IsRun(s, run)
    ensures Inv(After(s, run))
    decreases |run|
  {
    if run != [] {
      StepKeepsInv(s, run[0]);
      RunKeepsInv(Apply(s, run[0]), run[1..]);
    }
  }

  // ---------------------------------------------------------------- what every run guarantees

  /**
   No lost wakeup.  The channel a waiter is blocked on is closed already, or in the list of an updater that still has
   to close it, or registered with no update since the waiter read a state that was neither ready nor stopped.
   */
  lemma NoLostWakeup(run: seq<Action>, w: WaiterId)
    requires IsRun(INITIAL, run)
    requires w in After(INITIAL, run).waiters && After(INITIAL, run).waiters[w].Blocked?
    ensures
      var s := After(INITIAL, run);
      var pc := s.waiters[w];
      && pc.ch in s.chans
      && (|| Enabled(s, Wake(w))
          || (exists u :: u in s.updaters && pc.ch in s.updaters[u].Remaining())
          || (pc.ch in s.shared.waiters && pc.version == s.Version()
              && !s.shared.current.Normal().actionReady && !s.shared.current.Normal().kind.Stopped?))
  {
    RunKeepsInv(INITIAL, run);
    var s := After(INITIAL, run);
    assert WaiterOk(s, w);
    var ch := s.waiters[w].ch;
    assert ChanOk(s, ch);
    if s.chans[ch].closes == 0 && StillToClose(s, ch) {
      var u := s.chans[ch].taker.value;
      assert UpdaterOk(s, u);
      assert s.updaters[u].Remaining()[s.chans[ch].slot - s.updaters[u].done] == ch;
    }
  }

  /** Each channel is closed at most once, and closing never panics or waits. */
  lemma ClosedOnce(run: seq<Action>, u: UpdaterId)
    requires IsRun(INITIAL, run)
    ensures
      var s := After(INITIAL, run);
      && !s.panicked
      && (forall ch :: ch in s.chans ==> s.chans[ch].closes <= 1)
      && (u in s.updaters && s.updaters[u].done < |s.updaters[u].taken| ==>
            Enabled(s, CloseNext(u)) && !Apply(s, CloseNext(u)).panicked)
  {
    RunKeepsInv(INITIAL, run);
    var s := After(INITIAL, run);
    assert forall ch :: ch in s.chans ==> ChanOk(s, ch);
    if u in s.updaters && s.updaters[u].done < |s.updaters[u].taken| {
      assert UpdaterOk(s, u);
      CloseNextKeepsInv(s, u);
    }
  }

  /**
   nil and ErrActionUnavailable are returned only after a state that was really stored was read as ready or stopped.
   */
  lemma ReturnsOnlyWhatItRead(run: seq<Action>, w: WaiterId)
    requires IsRun(INITIAL, run)
    requires w in After(INITIAL, run).waiters && After(INITIAL, run).waiters[w].Returned?
    ensures
      var s := After(INITIAL, run);
      var pc := s.waiters[w];
      && pc.version < |s.log|
      && (pc.outcome.Nil? ==> s.log[pc.version].Normal() == Report(Ready, true))
      && (pc.outcome.Unavailable? ==> s.log[pc.version].Normal() == Report(Stopped, false))
  {
    RunKeepsInv(INITIAL, run);
    assert WaiterOk(After(INITIAL, run), w);
  }

  lemma {:induction false} CloseUpTo(s: State, u: UpdaterId, slot: nat) returns (more: seq<Action>)
    requires Inv(s) && u in s.updaters && s.updaters[u].done <= slot < |s.updaters[u].taken|
    ensures IsRun(s, more) && |more| == slot + 1 - s.updaters[u].done && forall a :: a in more ==> a == CloseNext(u)
    ensures
      var ch := s.updaters[u].taken[slot];
      ch in After(s, more).chans && After(s, more).chans[ch].closes == 1 && After(s, more).waiters == s.waiters
    decreases slot - s.updaters[u].done
  {
    assert UpdaterOk(s, u);
    CloseNextKeepsInv(s, u);
    var next := Apply(s, CloseNext(u));
    if s.updaters[u].done == slot {
      more := [CloseNext(u)];
      assert After(s, more) == next;
    } else {
      var rest := CloseUpTo(next, u, slot);
      more := [CloseNext(u)] + rest;
      assert more[1..] == rest;
    }
  }

  /**
   A waiter that an update has overtaken can be woken by steps of the updater that took its channel, and nothing else.
   */
  lemma OvertakenWaiterIsWoken(run: seq<Action>, w: WaiterId) returns (more: seq<Action>)
    requires IsRun(INITIAL, run)
    requires w in After(INITIAL, run).waiters && After(INITIAL, run).waiters[w].Blocked?
    requires After(INITIAL, run).waiters[w].version != After(INITIAL, run).Version()
    ensures
      var s := After(INITIAL, run);
      && IsRun(s, more) && (forall a :: a in more ==> a.CloseNext?)
      && Enabled(After(s, more), Wake(w))
  {
    RunKeepsInv(INITIAL, run);
    var s := After(INITIAL, run);
    assert WaiterOk(s, w);
    var ch := s.waiters[w].ch;
    assert ChanOk(s, ch);
    if s.chans[ch].closes == 1 {
      more := [];
    } else {
      more := CloseUpTo(s, s.chans[ch].taker.value, s.chans[ch].slot);
    }
  }

  // ---------------------------------------------------------------- the guarded fields as an object

  class Signal {
    var closed: bool

    constructor ()
      ensures !closed
    {
      closed := false;
    }

    /** Closing twice would panic. */
    method Close()
      requires !closed
      modifies this
      ensures closed
    {
      closed := true;
    }
  }

  class StateCell {
    var current: Report
    var waiters: seq<Signal>

    constructor ()
      ensures Valid() && current == ZERO && waiters == []
    {
      current := ZERO;
      waiters := [];
    }

    /** Registered signals are open and registered once. */
    ghost predicate Valid()
      reads this, waiters
    {
      && (forall i :: 0 <= i < |waiters| ==> !waiters[i].closed)
      && (forall i, j :: 0 <= i < j < |waiters| ==> waiters[i] != waiters[j])
    }

    /** A ready state gives a signal that is closed already; any other state registers an open one at the end. */
    method WaitChange() returns (ch: Signal, state: Report)
      requires Valid()
      modifies this`waiters
      ensures Valid() && fresh(ch) && state == current.Normal() && current == old(current)
      ensures ch.closed == state.actionReady
      ensures waiters == if state.actionReady then old(waiters) else old(waiters) + [ch]
    {
      state := current.Normal();
      ch := new Signal();
      if state.actionReady {
        ch.Close();
      } else {
        waiters := waiters + [ch];
      }
    }

    /** Stores the normalised state, forgets every registered signal and closes each of them once. */
    method Update(report: Report)
      requires Valid()
      modifies this, waiters
      ensures Valid() && current == report.Normal() && waiters == []
      ensures forall i :: 0 <= i < |old(waiters)| ==> old(waiters)[i].closed
    {
      var taken := waiters;
      current := report.Normal();
      waiters := [];
      for i := 0 to |taken|
        invariant current == report.Normal() && waiters == []
        invariant forall j :: 0 <= j < i ==> taken[j].closed
        invariant forall j :: i <= j < |taken| ==> !taken[j].closed
        modifies taken
      {
        taken[i].Close();
      }
    }
  }
}
