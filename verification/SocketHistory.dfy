/** What callers of the echo protocol get, and which results have to arrive, from the actions of a run alone. */
module SocketHistory {
  import opened Common
  import opened SocketProtocol

  // ---------------------------------------------------------------- runs from their last action

  lemma {:induction false} RunSnoc(s: State, run: seq<Action>, a: Action)
    ensures IsRun(s, run + [a]) <==> IsRun(s, run) && Enabled(After(s, run), a)
    ensures IsRun(s, run + [a]) ==> After(s, run + [a]) == Apply(After(s, run), a)
    decreases |run|
  {
    hide Enabled, Apply;
    if run == [] {
      assert run + [a] == [a] && [a][1..] == [];
    } else {
      assert (run + [a])[0] == run[0] && (run + [a])[1..] == run[1..] + [a];
      if Enabled(s, run[0]) {
        RunSnoc(Apply(s, run[0]), run[1..], a);
      }
    }
  }

  lemma {:induction false} LastStep(transport: Transport, run: seq<Action>)
    requires run != [] && IsRun(Initial(transport), run)
    ensures IsRun(Initial(transport), Front(run)) && Enabled(Reached(transport, Front(run)), Final(run))
    ensures Reached(transport, run) == Apply(Reached(transport, Front(run)), Final(run))
  {
    assert run == Front(run) + [Final(run)];
    RunSnoc(Initial(transport), Front(run), Final(run));
  }

  // ---------------------------------------------------------------- the current connection

  /** The connection that the actions leave installed: the last one installed, unless it was cleared since. */
  function CurrentBy(run: seq<Action>): Option<ConnId>
    decreases |run|
  {
    if run == [] then None
    else match Final(run)
      case Install(d) => Some(d)
      case Clear(d) => if CurrentBy(Front(run)) == Some(d) then None else CurrentBy(Front(run))
      case _ => CurrentBy(Front(run))
  }

  /** In the client loop the driver that has installed its connection and not cleared it has the current one. */
  ghost predicate ClientHasCurrent(s: State) {
    s.transport.ClientLoop? ==>
      forall d :: d in s.drivers && s.drivers[d].Installed() ==> s.shared.conn == Some(d)
  }

  lemma {:induction false} StepKeepsClientCurrent(s: State, a: Action)
    requires Inv(s) && Enabled(s, a) && ClientHasCurrent(s)
    ensures ClientHasCurrent(Apply(s, a)) && Apply(s, a).transport == s.transport
  {
    hide CallsOk, AllPendingOk, DriversOk, EchoesDistinct;
  }

  /** A new connection becomes current, and only the end of the current one makes it none. */
  lemma {:induction false} CurrentIs(transport: Transport, run: seq<Action>)
    requires IsRun(Initial(transport), run)
    ensures Reached(transport, run).shared.conn == CurrentBy(run)
    ensures ClientHasCurrent(Reached(transport, run)) && Reached(transport, run).transport == transport
    decreases |run|
  {
    if run != [] {
      LastStep(transport, run);
      CurrentIs(transport, Front(run));
      ReachedInv(transport, Front(run));
      StepKeepsClientCurrent(Reached(transport, Front(run)), Final(run));
      StepChangesConn(Reached(transport, Front(run)), Final(run));
    }
  }

  lemma StepChangesConn(s: State, a: Action)
    requires Enabled(s, a) && ClientHasCurrent(s)
    ensures Apply(s, a).shared.conn ==
              match a
              case Install(d) => Some(d)
              case Clear(d) => if s.shared.conn == Some(d) then None else s.shared.conn
              case _ => s.shared.conn
  {
  }

  // ---------------------------------------------------------------- what a call returns, and why

  /** The call is giving up with an error, or has. */
  predicate FailsWith(pc: CallPc, error: CallError) { pc == Removing(error) || pc == Returned(Gave(error)) }

  /** The call's request was written: it waits, got something, or gave up waiting. */
  predicate HasWritten(pc: CallPc) {
    pc.Waiting? || FailsWith(pc, ContextDone) || (pc.Returned? && !pc.outcome.Gave?)
  }

  /** The action is a step of this call. */
  predicate IsStepOf(a: Action, c: CallId) {
    (a.Begin? || a.Register? || a.MarshalFail? || a.ReadConn? || a.LockWrite? || a.FinishWrite? || a.Receive?
     || a.Cancel? || a.Remove?) && a.c == c
  }

  lemma OthersLeavePc(s: State, a: Action, c: CallId)
    requires Enabled(s, a) && !IsStepOf(a, c)
    ensures c in Apply(s, a).calls <==> c in s.calls
    ensures c in s.calls ==> Apply(s, a).calls[c].pc == s.calls[c].pc
  {
  }

  /** At some ReadConn of the call this was the current connection. */
  ghost predicate ReadAs(run: seq<Action>, c: CallId, conn: Option<ConnId>) {
    exists i :: 0 <= i < |run| && run[i] == ReadConn(c) && CurrentBy(run[..i]) == conn
  }

  lemma ReadAsSnoc(run: seq<Action>, c: CallId, conn: Option<ConnId>)
    requires run != []
    ensures ReadAs(run, c, conn) <==>
              ReadAs(Front(run), c, conn) || (Final(run) == ReadConn(c) && CurrentBy(Front(run)) == conn)
  {
    hide CurrentBy;
    if i :| 0 <= i < |run| && run[i] == ReadConn(c) && CurrentBy(run[..i]) == conn {
      if i < |run| - 1 {
        assert Front(run)[i] == ReadConn(c) && Front(run)[..i] == run[..i];
      }
    }
    if i :| 0 <= i < |Front(run)| && Front(run)[i] == ReadConn(c) && CurrentBy(Front(run)[..i]) == conn {
      assert run[i] == ReadConn(c) && Front(run)[..i] == run[..i];
    }
    if Final(run) == ReadConn(c) && CurrentBy(Front(run)) == conn {
      assert run[|run| - 1] == ReadConn(c) && run[..|run| - 1] == Front(run);
    }
  }

  /** One step of a call, by the place before and after it, and the connection that was current. */
  predicate Moves(a: Action, conn: Option<ConnId>, pc: CallPc, pc': CallPc) {
    match a
    case Register(_) => pc.Allocated? && pc'.Registered?
    case MarshalFail(_) => pc.Registered? && pc' == Removing(MarshalError)
    case ReadConn(_) => pc.Registered? && pc' == if conn.Some? then Locking(conn.value) else Removing(NotConnected)
    case LockWrite(_) => pc.Locking? && pc' == Writing(pc.conn)
    case FinishWrite(_, ok) => pc.Writing? && pc' == if ok then Waiting(pc.conn) else Removing(WriteError)
    case Receive(_) => pc.Waiting? && pc'.Returned? && !pc'.outcome.Gave?
    case Cancel(_) => pc.Waiting? && pc' == Removing(ContextDone)
    case Remove(_) => pc.Removing? && pc' == Returned(Gave(pc.error))
    case _ => false
  }

  lemma OwnStepMoves(s: State, a: Action, c: CallId)
    requires Enabled(s, a) && IsStepOf(a, c) && !a.Begin?
    ensures c in s.calls && c in Apply(s, a).calls
    ensures Moves(a, s.shared.conn, s.calls[c].pc, Apply(s, a).calls[c].pc)
  {
  }

  /** Where a call stands, from the actions of the run; with every error its one cause. */
  ghost predicate Explained(run: seq<Action>, s: State, c: CallId) {
    && (FinishWrite(c, true) in run <==> c in s.calls && HasWritten(s.calls[c].pc))
    && (FinishWrite(c, false) in run <==> c in s.calls && FailsWith(s.calls[c].pc, WriteError))
    && (MarshalFail(c) in run <==> c in s.calls && FailsWith(s.calls[c].pc, MarshalError))
    && (Cancel(c) in run <==> c in s.calls && FailsWith(s.calls[c].pc, ContextDone))
    && (Receive(c) in run <==> c in s.calls && s.calls[c].pc.Returned? && !s.calls[c].pc.outcome.Gave?)
    && (ReadAs(run, c, None) <==> c in s.calls && FailsWith(s.calls[c].pc, NotConnected))
    && (c in s.calls && s.calls[c].pc.UsesConn() ==> ReadAs(run, c, Some(s.calls[c].pc.conn)))
  }

  lemma ActionSnoc(run: seq<Action>, b: Action)
    requires run != []
    ensures b in run <==> b in Front(run) || b == Final(run)
  {
    assert run == Front(run) + [Final(run)];
  }

  lemma CallMembership(run: seq<Action>, c: CallId)
    requires run != []
    ensures forall ok :: FinishWrite(c, ok) in run <==>
              FinishWrite(c, ok) in Front(run) || FinishWrite(c, ok) == Final(run)
    ensures MarshalFail(c) in run <==> MarshalFail(c) in Front(run) || MarshalFail(c) == Final(run)
    ensures Cancel(c) in run <==> Cancel(c) in Front(run) || Cancel(c) == Final(run)
    ensures Receive(c) in run <==> Receive(c) in Front(run) || Receive(c) == Final(run)
    ensures forall conn :: ReadAs(run, c, conn) <==>
              ReadAs(Front(run), c, conn) || (Final(run) == ReadConn(c) && CurrentBy(Front(run)) == conn)
  {
    forall ok
      ensures FinishWrite(c, ok) in run <==> FinishWrite(c, ok) in Front(run) || FinishWrite(c, ok) == Final(run)
    {
      ActionSnoc(run, FinishWrite(c, ok));
    }
    ActionSnoc(run, MarshalFail(c));
    ActionSnoc(run, Cancel(c));
    ActionSnoc(run, Receive(c));
    forall conn
      ensures ReadAs(run, c, conn) <==>
                ReadAs(Front(run), c, conn) || (Final(run) == ReadConn(c) && CurrentBy(Front(run)) == conn)
    {
      ReadAsSnoc(run, c, conn);
    }
  }

  lemma {:induction false} OtherStepExplained(run: seq<Action>, s: State, c: CallId)
    requires run != [] && Enabled(s, Final(run)) && !IsStepOf(Final(run), c) && Explained(Front(run), s, c)
    ensures Explained(run, Apply(s, Final(run)), c)
  {
    CallMembership(run, c);
    OthersLeavePc(s, Final(run), c);
    hide Enabled, Apply, ReadAs, CurrentBy;
  }

  lemma {:induction false} MoveExplained(run: seq<Action>, s: State, t: State, c: CallId)
    requires run != [] && c in s.calls && c in t.calls && Explained(Front(run), s, c) && IsStepOf(Final(run), c)
    requires Moves(Final(run), CurrentBy(Front(run)), s.calls[c].pc, t.calls[c].pc)
    ensures Explained(run, t, c)
  {
    hide ReadAs, CurrentBy;
    CallMembership(run, c);
  }

  lemma BeginExplained(run: seq<Action>, s: State, t: State, c: CallId)
    requires run != [] && c !in s.calls && c in t.calls && Explained(Front(run), s, c)
    requires Final(run) == Begin(c) && t.calls[c].pc == Allocated
    ensures Explained(run, t, c)
  {
    hide ReadAs, CurrentBy;
    CallMembership(run, c);
  }

  lemma {:induction false} OwnStepExplained(run: seq<Action>, s: State, c: CallId)
    requires run != [] && Enabled(s, Final(run)) && IsStepOf(Final(run), c) && Explained(Front(run), s, c)
    requires s.shared.conn == CurrentBy(Front(run))
    ensures Explained(run, Apply(s, Final(run)), c)
  {
    hide Enabled, Apply, Explained, Moves, CurrentBy;
    if Final(run).Begin? {
      BeginIs(s, c);
      BeginExplained(run, s, Apply(s, Final(run)), c);
    } else {
      OwnStepMoves(s, Final(run), c);
      MoveExplained(run, s, Apply(s, Final(run)), c);
    }
  }

  lemma {:induction false} CallExplained(transport: Transport, run: seq<Action>, c: CallId)
    requires IsRun(Initial(transport), run)
    ensures Explained(run, Reached(transport, run), c)
    decreases |run|
  {
    if run != [] {
      LastStep(transport, run);
      CurrentIs(transport, Front(run));
      CallExplained(transport, Front(run), c);
      hide Enabled, Apply, ReadAs, CurrentBy, Explained, IsRun, After;
      if IsStepOf(Final(run), c) {
        OwnStepExplained(run, Reached(transport, Front(run)), c);
      } else {
        OtherStepExplained(run, Reached(transport, Front(run)), c);
      }
    }
  }

  lemma BeginIs(s: State, c: CallId)
    requires Enabled(s, Begin(c))
    ensures c !in s.calls && c in Apply(s, Begin(c)).calls && Apply(s, Begin(c)).calls[c].pc == Allocated
  {
  }

  /** The same for what callRaw returned. */
  lemma {:induction false} ReturnsForItsReason(transport: Transport, run: seq<Action>, c: CallId)
    requires IsRun(Initial(transport), run)
    requires c in Reached(transport, run).calls && Reached(transport, run).calls[c].pc.Returned?
    ensures
      match Reached(transport, run).calls[c].pc.outcome
      case Got(_) => FinishWrite(c, true) in run && Receive(c) in run
      case ZeroValue => false
      case Gave(MarshalError) => MarshalFail(c) in run
      case Gave(NotConnected) => ReadAs(run, c, None)
      case Gave(WriteError) => FinishWrite(c, false) in run
      case Gave(ContextDone) => FinishWrite(c, true) in run && Cancel(c) in run
  {
    CallExplained(transport, run, c);
    DeliveredAtMostOnce(transport, run, c);
  }

  // ---------------------------------------------------------------- where results come from

  /** A connection installed in place of another one. */
  ghost predicate ReplacedOther(run: seq<Action>, d: ConnId) {
    exists i :: 0 <= i < |run| && run[i] == Install(d) && CurrentBy(run[..i]).Some? && CurrentBy(run[..i]) != Some(d)
  }

  /** A connection cleared while it was the current one. */
  ghost predicate ClearedCurrent(run: seq<Action>, d: ConnId) {
    exists i :: 0 <= i < |run| && run[i] == Clear(d) && CurrentBy(run[..i]) == Some(d)
  }

  /** A response is a frame with that echo; an error stems from a replacement or the end of the current connection. */
  ghost predicate Sourced(transport: Transport, run: seq<Action>, result: Result) {
    match result
    case Response(e, body) => exists d :: Frame(d, e, body) in run
    case Failed(Replaced) => transport.ReverseServer? && exists d :: Detach(d) in run && ReplacedOther(run, d)
    case Failed(Disconnected) => exists d :: Detach(d) in run && ClearedCurrent(run, d)
  }

  lemma ReplacedOtherSnoc(run: seq<Action>, d: ConnId)
    requires run != []
    ensures ReplacedOther(Front(run), d) ==> ReplacedOther(run, d)
    ensures (Final(run) == Install(d) && CurrentBy(Front(run)).Some? && CurrentBy(Front(run)) != Some(d))
            ==> ReplacedOther(run, d)
  {
    hide CurrentBy;
    if ReplacedOther(Front(run), d) {
      var i :| 0 <= i < |Front(run)| && Front(run)[i] == Install(d)
               && CurrentBy(Front(run)[..i]).Some? && CurrentBy(Front(run)[..i]) != Some(d);
      assert run[i] == Install(d) && Front(run)[..i] == run[..i];
    }
    assert run[..|run| - 1] == Front(run);
  }

  lemma ClearedCurrentSnoc(run: seq<Action>, d: ConnId)
    requires run != []
    ensures ClearedCurrent(Front(run), d) ==> ClearedCurrent(run, d)
    ensures Final(run) == Clear(d) && CurrentBy(Front(run)) == Some(d) ==> ClearedCurrent(run, d)
  {
    hide CurrentBy;
    if ClearedCurrent(Front(run), d) {
      var i :| 0 <= i < |Front(run)| && Front(run)[i] == Clear(d) && CurrentBy(Front(run)[..i]) == Some(d);
      assert run[i] == Clear(d) && Front(run)[..i] == run[..i];
    }
    assert run[..|run| - 1] == Front(run);
  }

  lemma StillSourced(transport: Transport, run: seq<Action>, result: Result)
    requires run != [] && Sourced(transport, Front(run), result)
    ensures Sourced(transport, run, result)
  {
    hide ReplacedOther, ClearedCurrent;
    match result
    case Response(e, body) =>
      var d :| Frame(d, e, body) in Front(run);
      ActionSnoc(run, Frame(d, e, body));
    case Failed(Replaced) =>
      var d :| Detach(d) in Front(run) && ReplacedOther(Front(run), d);
      ActionSnoc(run, Detach(d));
      ReplacedOtherSnoc(run, d);
    case Failed(Disconnected) =>
      var d :| Detach(d) in Front(run) && ClearedCurrent(Front(run), d);
      ActionSnoc(run, Detach(d));
      ClearedCurrentSnoc(run, d);
  }

  ghost predicate CallSourced(transport: Transport, run: seq<Action>, call: Call) {
    && (forall i :: 0 <= i < |call.buf| ==> Sourced(transport, run, call.buf[i]))
    && (call.pc.Returned? && call.pc.outcome.Got? ==> Sourced(transport, run, call.pc.outcome.result))
  }

  ghost predicate DriverSourced(transport: Transport, run: seq<Action>, d: ConnId, driver: Driver) {
    match driver.pc
    case Owing(ThenRead) => transport.ReverseServer? && driver.reason == Replaced && ReplacedOther(run, d)
    case Owing(ThenFinish) => driver.reason == Disconnected && ClearedCurrent(run, d)
    case Delivering(_, _, result, _) => Sourced(transport, run, result)
    case _ => true
  }

  ghost predicate AllSourced(transport: Transport, run: seq<Action>, s: State) {
    && (forall c :: c in s.calls ==> CallSourced(transport, run, s.calls[c]))
    && (forall d :: d in s.drivers ==> DriverSourced(transport, run, d, s.drivers[d]))
  }

  /** How one step changes a call's results: it gets one from a driver, receives its first, or keeps them. */
  lemma StepOnResults(s: State, a: Action, c: CallId)
    requires Enabled(s, a) && c in Apply(s, a).calls
    ensures
      var call := Apply(s, a).calls[c];
      || (c !in s.calls && call.buf == [] && !call.pc.Returned?)
      || (c in s.calls && (call.buf == s.calls[c].buf || (s.calls[c].buf != [] && call.buf == s.calls[c].buf[1..]))
          && (call.pc.Returned? && call.pc.outcome.Got? ==>
                || call.pc == s.calls[c].pc
                || (s.calls[c].buf != [] && call.pc.outcome.result == s.calls[c].buf[0])))
      || (c in s.calls && a.Send? && a.c == c && a.d in s.drivers && s.drivers[a.d].pc.Delivering?
          && call.buf == s.calls[c].buf + [s.drivers[a.d].pc.result] && call.pc == s.calls[c].pc)
  {
  }

  lemma {:induction false} CallStaysSourced(transport: Transport, run: seq<Action>, s: State, c: CallId)
    requires run != [] && Enabled(s, Final(run)) && AllSourced(transport, Front(run), s)
    requires c in Apply(s, Final(run)).calls
    ensures CallSourced(transport, run, Apply(s, Final(run)).calls[c])
  {
    StepOnResults(s, Final(run), c);
    hide Enabled, Apply, Sourced;
    var call := Apply(s, Final(run)).calls[c];
    forall r | Sourced(transport, Front(run), r) ensures Sourced(transport, run, r) {
      StillSourced(transport, run, r);
    }
    if c in s.calls {
      assert CallSourced(transport, Front(run), s.calls[c]);
      if Final(run).Send? && Final(run).d in s.drivers {
        assert DriverSourced(transport, Front(run), Final(run).d, s.drivers[Final(run).d]);
      }
    }
  }

  /** How one step changes a driver: by its own steps only, each with what it takes on. */
  lemma StepOnDriver(s: State, a: Action, d: ConnId)
    requires Enabled(s, a) && d in Apply(s, a).drivers
    ensures
      var driver := Apply(s, a).drivers[d];
      || driver.pc.Connected? || driver.pc.Reading? || driver.pc.Ending? || driver.pc.Finished?
      || (d in s.drivers && driver == s.drivers[d])
      || (a == Install(d) && driver.pc == Owing(ThenRead) && driver.reason == s.drivers[d].reason
          && s.transport.ReverseServer? && s.shared.ReplaceOwes(d))
      || (a == Clear(d) && driver.pc == Owing(ThenFinish) && driver.reason == Disconnected
          && (s.transport.ReverseServer? ==> s.shared.conn == Some(d)))
      || (a == Detach(d) && d in s.drivers && s.drivers[d].pc.Owing? && driver.pc.Delivering?
          && driver.pc.result == Failed(s.drivers[d].reason))
      || (a.Frame? && a.d == d && driver.pc.Delivering? && driver.pc.result == Response(a.echo, a.body))
      || (d in s.drivers && s.drivers[d].pc.Delivering? && driver.pc.Delivering?
          && driver.pc.result == s.drivers[d].pc.result)
  {
  }

  /** A driver that has not yet installed its connection has the first reason. */
  ghost predicate FreshReasons(s: State) {
    forall d :: d in s.drivers && s.drivers[d].pc.Connected? ==> s.drivers[d].reason == Replaced
  }

  lemma StepKeepsFreshReasons(s: State, a: Action)
    requires Enabled(s, a) && FreshReasons(s)
    ensures FreshReasons(Apply(s, a))
  {
  }

  lemma {:induction false} DriverStaysSourced(transport: Transport, run: seq<Action>, s: State, d: ConnId)
    requires run != [] && Enabled(s, Final(run)) && AllSourced(transport, Front(run), s)
    requires s.transport == transport && s.shared.conn == CurrentBy(Front(run))
    requires ClientHasCurrent(s) && FreshReasons(s)
    requires d in Apply(s, Final(run)).drivers
    ensures DriverSourced(transport, run, d, Apply(s, Final(run)).drivers[d])
  {
    var a := Final(run);
    StepOnDriver(s, a, d);
    if d in s.drivers {
      assert DriverSourced(transport, Front(run), d, s.drivers[d]);
    }
    ReplacedOtherSnoc(run, d);
    ClearedCurrentSnoc(run, d);
    assert a == Install(d) ==> d in s.drivers && s.drivers[d].pc.Connected?;
    assert a == Clear(d) ==> s.shared.conn == Some(d) || s.transport.ReverseServer?;
    assert a in run by { assert run[|run| - 1] == a; }
    hide Enabled, Apply, ReplacedOther, ClearedCurrent, CurrentBy;
    forall r | Sourced(transport, Front(run), r) ensures Sourced(transport, run, r) {
      StillSourced(transport, run, r);
    }
  }

  lemma {:induction false} EverythingIsSourced(transport: Transport, run: seq<Action>)
    requires IsRun(Initial(transport), run)
    ensures AllSourced(transport, run, Reached(transport, run)) && FreshReasons(Reached(transport, run))
    decreases |run|
  {
    if run != [] {
      LastStep(transport, run);
      var s, a := Reached(transport, Front(run)), Final(run);
      EverythingIsSourced(transport, Front(run));
      CurrentIs(transport, Front(run));
      StepKeepsFreshReasons(s, a);
      hide Enabled, Apply, IsRun, After, CallSourced, DriverSourced, FreshReasons;
      forall c | c in Apply(s, a).calls ensures CallSourced(transport, run, Apply(s, a).calls[c]) {
        CallStaysSourced(transport, run, s, c);
      }
      forall d | d in Apply(s, a).drivers ensures DriverSourced(transport, run, d, Apply(s, a).drivers[d]) {
        DriverStaysSourced(transport, run, s, d);
      }
    }
  }

  /**
   What a caller receives is accounted for by the run: the body of a frame that carried its own echo, or the error of a
   connection that replaced another one, or of a connection that ended while it was current.
   */
  lemma ReceivedFromTheRun(transport: Transport, run: seq<Action>, c: CallId)
    requires IsRun(Initial(transport), run) && c in Reached(transport, run).calls
    requires Reached(transport, run).calls[c].pc.Returned? && Reached(transport, run).calls[c].pc.outcome.Got?
    ensures
      var call := Reached(transport, run).calls[c];
      match call.pc.outcome.result
      case Response(e, body) => e == call.echo && exists d :: Frame(d, e, body) in run
      case Failed(Replaced) => transport.ReverseServer? && exists d :: Detach(d) in run && ReplacedOther(run, d)
      case Failed(Disconnected) => exists d :: Detach(d) in run && ClearedCurrent(run, d)
  {
    EverythingIsSourced(transport, run);
    DeliveredAtMostOnce(transport, run, c);
    assert CallSourced(transport, run, Reached(transport, run).calls[c]);
  }

  // ---------------------------------------------------------------- results that have to arrive

  /** What a driver still has to send stays, with the same result, until it sends it. */
  lemma OthersLeaveTodo(s: State, a: Action, d: ConnId, c: CallId)
    requires Enabled(s, a) && a != Send(d, c) && d in s.drivers && c in s.drivers[d].Todo()
    ensures d in Apply(s, a).drivers && c in Apply(s, a).drivers[d].Todo()
    ensures Apply(s, a).drivers[d].pc.result == s.drivers[d].pc.result
  {
  }

  lemma {:induction false} TodoStays(s: State, more: seq<Action>, d: ConnId, c: CallId)
    requires IsRun(s, more) && Send(d, c) !in more && d in s.drivers && c in s.drivers[d].Todo()
    ensures d in After(s, more).drivers && c in After(s, more).drivers[d].Todo()
    ensures After(s, more).drivers[d].pc.result == s.drivers[d].pc.result
    decreases |more|
  {
    if more != [] {
      assert more[0] in more;
      OthersLeaveTodo(s, more[0], d, c);
      hide Enabled, Apply;
      TodoStays(Apply(s, more[0]), more[1..], d, c);
    }
  }

  lemma SendPuts(s: State, d: ConnId, c: CallId)
    requires Inv(s) && d in s.drivers && c in s.drivers[d].Todo() && Enabled(s, Send(d, c))
    ensures c in Apply(s, Send(d, c)).calls && Apply(s, Send(d, c)).calls[c].buf == [s.drivers[d].pc.result]
  {
    assert DriverOk(s, d);
  }

  /** A frame for a pending echo, whatever happens before its driver sends it: the send leaves exactly its body. */
  lemma {:induction false} FrameArrives(transport: Transport, run: seq<Action>, d: ConnId, e: Echo, body: string,
                                        more: seq<Action>)
    requires IsRun(Initial(transport), run) && e in Reached(transport, run).shared.pending
    requires Enabled(Reached(transport, run), Frame(d, e, body))
    ensures
      var c := Reached(transport, run).shared.pending[e];
      var s := Apply(Reached(transport, run), Frame(d, e, body));
      IsRun(s, more) && Send(d, c) !in more && Enabled(After(s, more), Send(d, c)) ==>
        var t := Apply(After(s, more), Send(d, c));
        c in t.calls && t.calls[c].echo == e && t.calls[c].buf == [Response(e, body)]
  {
    ReachedInv(transport, run);
    var before := Reached(transport, run);
    var c := before.shared.pending[e];
    assert PendingOk(before, e);
    FrameKeepsInv(before, d, e, body);
    var s := Apply(before, Frame(d, e, body));
    assert c in s.drivers[d].Todo() && s.drivers[d].pc.result == Response(e, body);
    if IsRun(s, more) && Send(d, c) !in more && Enabled(After(s, more), Send(d, c)) {
      TodoStays(s, more, d, c);
      RunKeepsInv(s, more);
      EchoStays(s, more, c);
      SendPuts(After(s, more), d, c);
      SendLeavesEcho(After(s, more), d, c);
    }
  }

  lemma SendLeavesEcho(s: State, d: ConnId, c: CallId)
    requires Enabled(s, Send(d, c)) && c in s.calls
    ensures c in Apply(s, Send(d, c)).calls && Apply(s, Send(d, c)).calls[c].echo == s.calls[c].echo
  {
  }

  lemma StepLeavesEcho(s: State, a: Action, c: CallId)
    requires Enabled(s, a) && c in s.calls
    ensures c in Apply(s, a).calls && Apply(s, a).calls[c].echo == s.calls[c].echo
  {
  }

  lemma {:induction false} EchoStays(s: State, more: seq<Action>, c: CallId)
    requires IsRun(s, more) && c in s.calls
    ensures c in After(s, more).calls && After(s, more).calls[c].echo == s.calls[c].echo
    decreases |more|
  {
    if more != [] {
      StepLeavesEcho(s, more[0], c);
      EchoStays(Apply(s, more[0]), more[1..], c);
    }
  }

  /** The same for a failure that a driver owes: each call pending when it detaches gets exactly the driver's reason. */
  lemma FailureArrives(transport: Transport, run: seq<Action>, d: ConnId, e: Echo, more: seq<Action>)
    requires IsRun(Initial(transport), run) && e in Reached(transport, run).shared.pending
    requires Enabled(Reached(transport, run), Detach(d))
    ensures
      var c := Reached(transport, run).shared.pending[e];
      var reason := Reached(transport, run).drivers[d].reason;
      var s := Apply(Reached(transport, run), Detach(d));
      IsRun(s, more) && Send(d, c) !in more && Enabled(After(s, more), Send(d, c)) ==>
        var t := Apply(After(s, more), Send(d, c));
        c in t.calls && t.calls[c].buf == [Failed(reason)]
  {
    ReachedInv(transport, run);
    var before := Reached(transport, run);
    var c := before.shared.pending[e];
    DetachKeepsInv(before, d);
    var s := Apply(before, Detach(d));
    assert c in s.drivers[d].Todo() && s.drivers[d].pc.result == Failed(before.drivers[d].reason);
    if IsRun(s, more) && Send(d, c) !in more && Enabled(After(s, more), Send(d, c)) {
      TodoStays(s, more, d, c);
      RunKeepsInv(s, more);
      SendPuts(After(s, more), d, c);
    }
  }

  /** What is in a waiting call's channel is what it receives. */
  lemma ReceiveTakesWhatIsThere(s: State, c: CallId, result: Result)
    requires c in s.calls && s.calls[c].pc.Waiting? && s.calls[c].buf == [result]
    ensures Enabled(s, Receive(c)) && Apply(s, Receive(c)).calls[c].pc == Returned(Got(result))
  {
  }
}
