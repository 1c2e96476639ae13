/** The echo protocol of the OneBot 11 websocket transports, as a labelled transition system. */
module SocketProtocol {
  import opened Common

  // Many callers share one replaceable connection, register an echo, write a request and wait for a frame that carries
  // the same echo.  There is one action per critical section or channel operation; any number of callers and of
  // connection drivers interleave.

  type CallId = nat
  type ConnId = nat
  type Echo = nat

  datatype Reason = Replaced | Disconnected

  /** What a pending channel may carry: a response frame, or an error from failPending. */
  datatype Result = Response(echo: Echo, body: string) | Failed(reason: Reason)

  /** The three fields that the peer's mutexes guard.  A pending channel is named by the call that made it. */
  datatype Shared = Shared(conn: Option<ConnId>, pending: map<Echo, CallId>, nextEcho: nat) {
    function Draw(): Shared { this.(nextEcho := nextEcho + 1) }
    function Register(e: Echo, c: CallId): Shared { this.(pending := pending[e := c]) }
    function Remove(e: Echo): Shared { this.(pending := pending - {e}) }
    function Detach(): Shared { this.(pending := map[]) }
    function SetConn(k: Option<ConnId>): Shared { this.(conn := k) }
    /** replaceConn owes a failPending exactly when another connection was installed. */
    predicate ReplaceOwes(k: ConnId) { conn.Some? && conn.value != k }
    /** disconnectConn acts only for the connection that is still installed. */
    predicate IsCurrent(k: ConnId) { conn == Some(k) }
  }

  datatype CallError = MarshalError | NotConnected | WriteError | ContextDone

  /** ZeroValue is what a receive from a closed, drained channel yields. */
  datatype Outcome = Got(result: Result) | ZeroValue | Gave(error: CallError)

  /** Where a caller stands inside callRaw. */
  datatype CallPc =
    | Allocated
    | Registered
    | Locking(conn: ConnId)
    | Writing(conn: ConnId)
    | Waiting(conn: ConnId)
    | Removing(error: CallError)
    | Returned(outcome: Outcome)
  {
    predicate UsesConn() { Locking? || Writing? || Waiting? }
    predicate InsideRegistered() { Registered? || UsesConn() || Removing? }
  }

  /**
   A call and its capacity-one channel.  The last three fields are history: how often the channel was sent to and
   closed, and which driver's critical section took it out of the pending map.
   */
  datatype Call = Call(
    echo: Echo, pc: CallPc, buf: seq<Result>, closed: bool, sends: nat, closes: nat, taker: Option<ConnId>)
  {
    predicate Untouched() { buf == [] && !closed && sends == 0 && closes == 0 }
  }

  datatype Next = ThenRead | ThenFinish

  /**
   Where a connection driver stands: the accept handler of the reverse transport, or one round of the client loop.  An
   ending driver's read has failed, but it has not yet cleared its connection.
   */
  datatype DriverPc =
    | Connected
    | Owing(next: Next)
    | Delivering(todo: set<CallId>, closing: Option<CallId>, result: Result, next: Next)
    | Reading
    | Ending
    | Finished

  /** A driver is named by its connection: every accepted or dialled connection has exactly one. */
  datatype Driver = Driver(pc: DriverPc, reason: Reason) {
    function Todo(): set<CallId> { if pc.Delivering? then pc.todo else {} }
    function Closing(): Option<CallId> { if pc.Delivering? then pc.closing else None }
    /** The driver's connection is installed and its read loop goes on. */
    predicate Live() { pc.Reading? || (pc.Owing? && pc.next.ThenRead?) || (pc.Delivering? && pc.next.ThenRead?) }
    /** The driver's connection may be the current one. */
    predicate Installed() { Live() || pc.Ending? }
  }

  datatype Transport = ReverseServer | ClientLoop

  datatype State = State(
    transport: Transport,
    shared: Shared,
    writer: Option<CallId>,
    calls: map<CallId, Call>,
    drivers: map<ConnId, Driver>,
    panicked: bool)
  {
    function CallAt(c: CallId, pc: CallPc): State
      requires c in calls
    {
      this.(calls := calls[c := calls[c].(pc := pc)])
    }

    function DriverAt(d: ConnId, pc: DriverPc): State
      requires d in drivers
    {
      this.(drivers := drivers[d := drivers[d].(pc := pc)])
    }
  }

  function Initial(transport: Transport): State {
    State(transport, Shared(None, map[], 0), None, map[], map[], false)
  }

  datatype Action =
    // steps of callRaw
    | Begin(c: CallId)
    | Register(c: CallId)
    | MarshalFail(c: CallId)
    | ReadConn(c: CallId)
    | LockWrite(c: CallId)
    | FinishWrite(c: CallId, ok: bool)
    | Receive(c: CallId)
    | Cancel(c: CallId)
    | Remove(c: CallId)
    // steps of the connection drivers
    | Arrive(d: ConnId)
    | Install(d: ConnId)
    | Frame(d: ConnId, echo: Echo, body: string)
    | ReadFail(d: ConnId)
    | Clear(d: ConnId)
    | Detach(d: ConnId)
    | Send(d: ConnId, c: CallId)
    | CloseChan(d: ConnId)
    | Resume(d: ConnId)

  // ---------------------------------------------------------------- guard and effect of each action
  // A send on a full open channel blocks; a send on a closed channel is taken and panics.

  /** Records that driver d took the channels of the given calls. */
  function Taken(calls: map<CallId, Call>, taken: set<CallId>, d: ConnId): map<CallId, Call> {
    map c | c in calls :: if c in taken then calls[c].(taker := Some(d)) else calls[c]
  }

  predicate CanBegin(s: State, c: CallId) { c !in s.calls }

  function DoBegin(s: State, c: CallId): State
    requires CanBegin(s, c)
  {
    s.(shared := s.shared.Draw(),
       calls := s.calls[c := Call(s.shared.Draw().nextEcho, Allocated, [], false, 0, 0, None)])
  }

  predicate CanRegister(s: State, c: CallId) { c in s.calls && s.calls[c].pc.Allocated? }

  function DoRegister(s: State, c: CallId): State
    requires CanRegister(s, c)
  {
    s.CallAt(c, Registered).(shared := s.shared.Register(s.calls[c].echo, c))
  }

  predicate CanMarshalFail(s: State, c: CallId) { c in s.calls && s.calls[c].pc.Registered? }

  function DoMarshalFail(s: State, c: CallId): State
    requires CanMarshalFail(s, c)
  {
    s.CallAt(c, Removing(MarshalError))
  }

  predicate CanReadConn(s: State, c: CallId) { c in s.calls && s.calls[c].pc.Registered? }

  function DoReadConn(s: State, c: CallId): State
    requires CanReadConn(s, c)
  {
    s.CallAt(c, if s.shared.conn.Some? then Locking(s.shared.conn.value) else Removing(NotConnected))
  }

  predicate CanLockWrite(s: State, c: CallId) { c in s.calls && s.calls[c].pc.Locking? && s.writer == None }

  function DoLockWrite(s: State, c: CallId): State
    requires CanLockWrite(s, c)
  {
    s.CallAt(c, Writing(s.calls[c].pc.conn)).(writer := Some(c))
  }

  predicate CanFinishWrite(s: State, c: CallId) { c in s.calls && s.calls[c].pc.Writing? }

  function DoFinishWrite(s: State, c: CallId, ok: bool): State
    requires CanFinishWrite(s, c)
  {
    s.CallAt(c, if ok then Waiting(s.calls[c].pc.conn) else Removing(WriteError)).(writer := None)
  }

  predicate CanReceive(s: State, c: CallId) {
    c in s.calls && s.calls[c].pc.Waiting? && (s.calls[c].buf != [] || s.calls[c].closed)
  }

  function DoReceive(s: State, c: CallId): State
    requires CanReceive(s, c)
  {
    var call := s.calls[c];
    if call.buf != [] then
      s.(calls := s.calls[c := call.(pc := Returned(Got(call.buf[0])), buf := call.buf[1..])])
    else
      s.CallAt(c, Returned(ZeroValue))
  }

  predicate CanCancel(s: State, c: CallId) { c in s.calls && s.calls[c].pc.Waiting? }

  function DoCancel(s: State, c: CallId): State
    requires CanCancel(s, c)
  {
    s.CallAt(c, Removing(ContextDone))
  }

  predicate CanRemove(s: State, c: CallId) { c in s.calls && s.calls[c].pc.Removing? }

  function DoRemove(s: State, c: CallId): State
    requires CanRemove(s, c)
  {
    s.CallAt(c, Returned(Gave(s.calls[c].pc.error))).(shared := s.shared.Remove(s.calls[c].echo))
  }

  predicate CanArrive(s: State, d: ConnId) {
    && d !in s.drivers
    && (s.transport.ClientLoop? ==> forall d' :: d' in s.drivers ==> s.drivers[d'].pc.Finished?)
  }

  function DoArrive(s: State, d: ConnId): State
    requires CanArrive(s, d)
  {
    s.(drivers := s.drivers[d := Driver(Connected, Replaced)])
  }

  predicate CanInstall(s: State, d: ConnId) { d in s.drivers && s.drivers[d].pc.Connected? }

  function DoInstall(s: State, d: ConnId): State
    requires CanInstall(s, d)
  {
    var owes := s.transport.ReverseServer? && s.shared.ReplaceOwes(d);
    s.DriverAt(d, if owes then Owing(ThenRead) else Reading).(shared := s.shared.SetConn(Some(d)))
  }

  predicate CanFrame(s: State, d: ConnId) { d in s.drivers && s.drivers[d].pc.Reading? }

  function DoFrame(s: State, d: ConnId, e: Echo, body: string): State
    requires CanFrame(s, d)
  {
    if e in s.shared.pending then
      var todo := {s.shared.pending[e]};
      s.DriverAt(d, Delivering(todo, None, Response(e, body), ThenRead))
       .(shared := s.shared.Remove(e), calls := Taken(s.calls, todo, d))
    else s
  }

  predicate CanReadFail(s: State, d: ConnId) { d in s.drivers && s.drivers[d].pc.Reading? }

  function DoReadFail(s: State, d: ConnId): State
    requires CanReadFail(s, d)
  {
    s.DriverAt(d, Ending)
  }

  predicate CanClear(s: State, d: ConnId) { d in s.drivers && s.drivers[d].pc.Ending? }

  function DoClear(s: State, d: ConnId): State
    requires CanClear(s, d)
  {
    if s.transport.ReverseServer? && !s.shared.IsCurrent(d) then
      s.DriverAt(d, Finished)
    else
      s.(drivers := s.drivers[d := s.drivers[d].(pc := Owing(ThenFinish), reason := Disconnected)],
         shared := s.shared.SetConn(None))
  }

  predicate CanDetach(s: State, d: ConnId) { d in s.drivers && s.drivers[d].pc.Owing? }

  function DoDetach(s: State, d: ConnId): State
    requires CanDetach(s, d)
  {
    var todo := s.shared.pending.Values;
    s.DriverAt(d, Delivering(todo, None, Failed(s.drivers[d].reason), s.drivers[d].pc.next))
     .(shared := s.shared.Detach(), calls := Taken(s.calls, todo, d))
  }

  predicate CanSend(s: State, d: ConnId, c: CallId) {
    && d in s.drivers && s.drivers[d].pc.Delivering? && s.drivers[d].pc.closing == None
    && c in s.drivers[d].pc.todo && c in s.calls && (s.calls[c].closed || s.calls[c].buf == [])
  }

  function DoSend(s: State, d: ConnId, c: CallId): State
    requires CanSend(s, d, c)
  {
    var pc := s.drivers[d].pc;
    var call := s.calls[c];
    if call.closed then s.(panicked := true)
    else
      s.DriverAt(d, pc.(todo := pc.todo - {c}, closing := Some(c)))
       .(calls := s.calls[c := call.(buf := call.buf + [pc.result], sends := call.sends + 1)])
  }

  predicate CanCloseChan(s: State, d: ConnId) {
    && d in s.drivers && s.drivers[d].pc.Delivering? && s.drivers[d].pc.closing.Some?
    && s.drivers[d].pc.closing.value in s.calls
  }

  function DoCloseChan(s: State, d: ConnId): State
    requires CanCloseChan(s, d)
  {
    var pc := s.drivers[d].pc;
    var call := s.calls[pc.closing.value];
    if call.closed then s.(panicked := true)
    else
      s.DriverAt(d, pc.(closing := None))
       .(calls := s.calls[pc.closing.value := call.(closed := true, closes := call.closes + 1)])
  }

  predicate CanResume(s: State, d: ConnId) {
    && d in s.drivers && s.drivers[d].pc.Delivering? && s.drivers[d].pc.closing == None
    && s.drivers[d].pc.todo == {}
  }

  function DoResume(s: State, d: ConnId): State
    requires CanResume(s, d)
  {
    s.DriverAt(d, if s.drivers[d].pc.next.ThenRead? then Reading else Finished)
  }

  predicate Enabled(s: State, a: Action) {
    match a
    case Begin(c) => CanBegin(s, c)
    case Register(c) => CanRegister(s, c)
    case MarshalFail(c) => CanMarshalFail(s, c)
    case ReadConn(c) => CanReadConn(s, c)
    case LockWrite(c) => CanLockWrite(s, c)
    case FinishWrite(c, _) => CanFinishWrite(s, c)
    case Receive(c) => CanReceive(s, c)
    case Cancel(c) => CanCancel(s, c)
    case Remove(c) => CanRemove(s, c)
    case Arrive(d) => CanArrive(s, d)
    case Install(d) => CanInstall(s, d)
    case Frame(d, _, _) => CanFrame(s, d)
    case ReadFail(d) => CanReadFail(s, d)
    case Clear(d) => CanClear(s, d)
    case Detach(d) => CanDetach(s, d)
    case Send(d, c) => CanSend(s, d, c)
    case CloseChan(d) => CanCloseChan(s, d)
    case Resume(d) => CanResume(s, d)
  }

  function Apply(s: State, a: Action): State
    requires Enabled(s, a)
  {
    match a
    case Begin(c) => DoBegin(s, c)
    case Register(c) => DoRegister(s, c)
    case MarshalFail(c) => DoMarshalFail(s, c)
    case ReadConn(c) => DoReadConn(s, c)
    case LockWrite(c) => DoLockWrite(s, c)
    case FinishWrite(c, ok) => DoFinishWrite(s, c, ok)
    case Receive(c) => DoReceive(s, c)
    case Cancel(c) => DoCancel(s, c)
    case Remove(c) => DoRemove(s, c)
    case Arrive(d) => DoArrive(s, d)
    case Install(d) => DoInstall(s, d)
    case Frame(d, e, body) => DoFrame(s, d, e, body)
    case ReadFail(d) => DoReadFail(s, d)
    case Clear(d) => DoClear(s, d)
    case Detach(d) => DoDetach(s, d)
    case Send(d, c) => DoSend(s, d, c)
    case CloseChan(d) => DoCloseChan(s, d)
    case Resume(d) => DoResume(s, d)
  }

  /** A run is a sequence of actions, each enabled where it is taken. */
  predicate IsRun(s: State, run: seq<Action>)
    decreases |run|
  {
    run == [] || (Enabled(s, run[0]) && IsRun(Apply(s, run[0]), run[1..]))
  }

  function After(s: State, run: seq<Action>): State
    requires IsRun(s, run)
    decreases |run|
  {
    if run == [] then s else After(Apply(s, run[0]), run[1..])
  }

  // ---------------------------------------------------------------- the inductive invariant

  ghost predicate SomeOwing(s: State) {
    exists d :: d in s.drivers && s.drivers[d].pc.Owing?
  }

  ghost predicate EchoesDistinct(s: State) {
    forall c, c' :: c in s.calls && c' in s.calls && c != c' ==> s.calls[c].echo != s.calls[c'].echo
  }

  ghost predicate ChannelOk(call: Call) {
    && call.closes <= call.sends <= 1
    && (call.closed <==> call.closes == 1)
    && |call.buf| <= call.sends
    && (call.sends == 1 && call.buf == [] ==> call.pc.Returned? && call.pc.outcome.Got?)
    && (call.buf != [] && call.buf[0].Response? ==> call.buf[0].echo == call.echo)
    && (call.pc.Allocated? ==> call.Untouched() && call.taker == None)
  }

  /** What a finished call may have returned: never the zero value, and only a response to its own echo. */
  ghost predicate ReturnOk(call: Call) {
    call.pc.Returned? ==>
      match call.pc.outcome
      case ZeroValue => false
      case Gave(_) => true
      case Got(result) => call.sends == 1 && call.buf == [] && (result.Response? ==> result.echo == call.echo)
  }

  /** A registered call that still waits for a result is pending, held by the driver that took it, or has its result. */
  ghost predicate Accounted(s: State, c: CallId)
    requires c in s.calls
  {
    var call := s.calls[c];
    call.pc.Registered? || call.pc.UsesConn() ==>
      || call.echo in s.shared.pending
      || call.sends == 1
      || (call.taker.Some? && call.taker.value in s.drivers && c in s.drivers[call.taker.value].Todo())
  }

  /**
   The heart of the protocol: a pending call bound to a connection that is no longer current is owed a failPending.
   */
  ghost predicate StaleIsOwed(s: State, c: CallId)
    requires c in s.calls
  {
    var call := s.calls[c];
    call.pc.UsesConn() && call.echo in s.shared.pending ==> s.shared.conn == Some(call.pc.conn) || SomeOwing(s)
  }

  ghost predicate CallOk(s: State, c: CallId)
    requires c in s.calls
  {
    && 1 <= s.calls[c].echo <= s.shared.nextEcho
    && ChannelOk(s.calls[c])
    && ReturnOk(s.calls[c])
    && (s.calls[c].pc.Writing? <==> s.writer == Some(c))
    && Accounted(s, c)
    && StaleIsOwed(s, c)
  }

  /** Every pending key belongs to the call that drew it, which is still inside callRaw and has no result yet. */
  ghost predicate PendingOk(s: State, e: Echo)
    requires e in s.shared.pending
  {
    var c := s.shared.pending[e];
    && c in s.calls && s.calls[c].echo == e && s.calls[c].pc.InsideRegistered()
    && s.calls[c].Untouched() && s.calls[c].taker == None
  }

  /** What a driver still has to send to is open, empty and its own; what it has sent to is open until it closes it. */
  ghost predicate DriverOk(s: State, d: ConnId)
    requires d in s.drivers
  {
    && (forall c :: c in s.drivers[d].Todo() ==>
          && c in s.calls && s.calls[c].Untouched() && s.calls[c].taker == Some(d)
          && s.drivers[d].Closing() != Some(c)
          && (s.drivers[d].pc.result.Response? ==> s.drivers[d].pc.result.echo == s.calls[c].echo))
    && (s.drivers[d].Closing().Some? ==>
          var c := s.drivers[d].Closing().value;
          c in s.calls && s.calls[c].taker == Some(d) && s.calls[c].sends == 1 && s.calls[c].closes == 0)
  }

  /** The current connection has a driver that reads it or is about to clear it; the client loop has one at a time. */
  ghost predicate ConnOk(s: State) {
    && (s.shared.conn.Some? ==> s.shared.conn.value in s.drivers && s.drivers[s.shared.conn.value].Installed())
    && (s.transport.ClientLoop? ==>
          forall d, d' :: d in s.drivers && d' in s.drivers && !s.drivers[d].pc.Finished? && !s.drivers[d'].pc.Finished?
                          ==> d == d')
  }

  ghost predicate Inv(s: State) {
    && !s.panicked
    && (s.writer.Some? ==> s.writer.value in s.calls)
    && EchoesDistinct(s)
    && CallsOk(s)
    && AllPendingOk(s)
    && DriversOk(s)
    && ConnOk(s)
  }

  ghost predicate CallsOk(s: State) { forall c :: c in s.calls ==> CallOk(s, c) }

  ghost predicate AllPendingOk(s: State) { forall e :: e in s.shared.pending ==> PendingOk(s, e) }

  ghost predicate DriversOk(s: State) { forall d :: d in s.drivers ==> DriverOk(s, d) }

  lemma OwingPersists(s: State, t: State, d: ConnId)
    requires forall k :: k in s.drivers && k != d ==> k in t.drivers && t.drivers[k] == s.drivers[k]
    requires d in s.drivers && s.drivers[d].pc.Owing? ==> d in t.drivers && t.drivers[d].pc.Owing?
    ensures SomeOwing(s) ==> SomeOwing(t)
  {
    if SomeOwing(s) {
      var k :| k in s.drivers && s.drivers[k].pc.Owing?;
      assert t.drivers[k].pc.Owing?;
    }
  }

  lemma PendingCallFacts(s: State, c: CallId)
    requires Inv(s) && c in s.shared.pending.Values
    ensures c in s.calls && s.calls[c].echo in s.shared.pending && s.shared.pending[s.calls[c].echo] == c
    ensures s.calls[c].Untouched() && s.calls[c].taker == None
  {
    var e :| e in s.shared.pending && s.shared.pending[e] == c;
    assert PendingOk(s, e);
  }

  // ---------------------------------------------------------------- callers keep the invariant

  /** A call that a step leaves alone, and whose pending entry, turn to write and deliverer it leaves alone too. */
  lemma UntouchedCallStays(s: State, t: State, k: CallId)
    requires k in s.calls && k in t.calls && t.calls[k] == s.calls[k] && CallOk(s, k)
    requires s.shared.nextEcho <= t.shared.nextEcho && s.shared.conn == t.shared.conn
    requires s.calls[k].echo in s.shared.pending <==> s.calls[k].echo in t.shared.pending
    requires s.writer == Some(k) <==> t.writer == Some(k)
    requires SomeOwing(s) ==> SomeOwing(t)
    requires forall d :: d in s.drivers && k in s.drivers[d].Todo() ==> d in t.drivers && k in t.drivers[d].Todo()
    ensures CallOk(t, k)
  {
  }

  lemma BeginKeepsInv(s: State, c: CallId)
    requires Inv(s) && CanBegin(s, c)
    ensures Inv(DoBegin(s, c))
  {
    var t := DoBegin(s, c);
    OwingPersists(s, t, 0);
    forall e | e in t.shared.pending ensures PendingOk(t, e) { assert PendingOk(s, e); }
    forall d | d in t.drivers ensures DriverOk(t, d) { assert DriverOk(s, d); }
    forall k | k in t.calls ensures CallOk(t, k) { assert k != c ==> CallOk(s, k); }
  }

  lemma RegisterKeepsCalls(s: State, c: CallId)
    requires Inv(s) && CanRegister(s, c)
    ensures CallsOk(DoRegister(s, c))
  {
    var t := DoRegister(s, c);
    OwingPersists(s, t, 0);
    hide SomeOwing;
    forall k | k in t.calls ensures CallOk(t, k) { assert CallOk(s, k); }
  }

  lemma RegisterKeepsInv(s: State, c: CallId)
    requires Inv(s) && CanRegister(s, c)
    ensures Inv(DoRegister(s, c))
  {
    var t := DoRegister(s, c);
    RegisterKeepsCalls(s, c);
    assert CallOk(s, c);
    forall e | e in t.shared.pending ensures PendingOk(t, e) { assert e in s.shared.pending ==> PendingOk(s, e); }
    forall d | d in t.drivers ensures DriverOk(t, d) { assert DriverOk(s, d); }
  }

  /** A registered caller that moves on without touching its channel or the pending map. */
  ghost predicate PlainMove(s: State, c: CallId, pc: CallPc, writer: Option<CallId>) {
    && c in s.calls && s.calls[c].pc.InsideRegistered() && pc.InsideRegistered()
    && (if pc.Writing? then s.writer == None && writer == Some(c)
        else if s.calls[c].pc.Writing? then writer == None
        else writer == s.writer)
    && (pc.UsesConn() ==>
          || (s.calls[c].pc.UsesConn() && pc.conn == s.calls[c].pc.conn)
          || (s.calls[c].pc.Registered? && s.shared.conn == Some(pc.conn)))
    && !pc.Registered?
  }

  lemma MovedCallIsOk(s: State, c: CallId, pc: CallPc, writer: Option<CallId>)
    requires Inv(s) && PlainMove(s, c, pc, writer)
    ensures CallOk(s.CallAt(c, pc).(writer := writer), c)
  {
    assert CallOk(s, c);
    OwingPersists(s, s.CallAt(c, pc).(writer := writer), 0);
    hide SomeOwing, DriversOk, AllPendingOk, ConnOk, EchoesDistinct;
  }

  lemma PlainMoveKeepsCalls(s: State, c: CallId, pc: CallPc, writer: Option<CallId>)
    requires Inv(s) && PlainMove(s, c, pc, writer)
    ensures CallsOk(s.CallAt(c, pc).(writer := writer))
  {
    hide SomeOwing, DriversOk, AllPendingOk, ConnOk, EchoesDistinct;
    var t := s.CallAt(c, pc).(writer := writer);
    OwingPersists(s, t, 0);
    MovedCallIsOk(s, c, pc, writer);
    forall k | k in t.calls ensures CallOk(t, k) {
      assert CallOk(s, k);
      if k != c {
        UntouchedCallStays(s, t, k);
      }
    }
  }

  lemma PlainMoveKeepsDrivers(s: State, c: CallId, pc: CallPc, writer: Option<CallId>)
    requires Inv(s) && PlainMove(s, c, pc, writer)
    ensures DriversOk(s.CallAt(c, pc).(writer := writer))
  {
    hide CallsOk, AllPendingOk, ConnOk, EchoesDistinct;
    var t := s.CallAt(c, pc).(writer := writer);
    forall d | d in t.drivers ensures DriverOk(t, d) { assert DriverOk(s, d); }
  }

  lemma PlainMoveKeepsInv(s: State, c: CallId, pc: CallPc, writer: Option<CallId>)
    requires Inv(s) && PlainMove(s, c, pc, writer)
    ensures Inv(s.CallAt(c, pc).(writer := writer))
  {
    hide CallsOk, DriversOk;
    var t := s.CallAt(c, pc).(writer := writer);
    PlainMoveKeepsCalls(s, c, pc, writer);
    PlainMoveKeepsDrivers(s, c, pc, writer);
    forall e | e in t.shared.pending ensures PendingOk(t, e) { assert PendingOk(s, e); }
  }

  lemma ReceiveKeepsInv(s: State, c: CallId)
    requires Inv(s) && CanReceive(s, c)
    ensures Inv(DoReceive(s, c))
  {
    var t := DoReceive(s, c);
    OwingPersists(s, t, 0);
    assert CallOk(s, c);
    forall e | e in t.shared.pending ensures PendingOk(t, e) { assert PendingOk(s, e); }
    forall d | d in t.drivers ensures DriverOk(t, d) { assert DriverOk(s, d); }
    forall k | k in t.calls ensures CallOk(t, k) { assert CallOk(s, k); }
  }

  lemma RemoveKeepsInv(s: State, c: CallId)
    requires Inv(s) && CanRemove(s, c)
    ensures Inv(DoRemove(s, c))
  {
    var t := DoRemove(s, c);
    OwingPersists(s, t, 0);
    forall e | e in t.shared.pending ensures PendingOk(t, e) { assert PendingOk(s, e); }
    forall d | d in t.drivers ensures DriverOk(t, d) { assert DriverOk(s, d); }
    forall k | k in t.calls ensures CallOk(t, k) { assert CallOk(s, k); }
  }

  // ---------------------------------------------------------------- drivers keep the invariant

  lemma ArriveKeepsCalls(s: State, d: ConnId)
    requires Inv(s) && CanArrive(s, d)
    ensures CallsOk(DoArrive(s, d))
  {
    var t := DoArrive(s, d);
    OwingPersists(s, t, d);
    forall k | k in t.calls ensures CallOk(t, k) { assert CallOk(s, k); }
  }

  lemma ArriveKeepsInv(s: State, d: ConnId)
    requires Inv(s) && CanArrive(s, d)
    ensures Inv(DoArrive(s, d))
  {
    var t := DoArrive(s, d);
    ArriveKeepsCalls(s, d);
    forall k | k in t.shared.pending ensures PendingOk(t, k) { assert PendingOk(s, k); }
    forall k | k in t.drivers ensures DriverOk(t, k) { assert k in s.drivers ==> DriverOk(s, k); }
  }

  lemma InstallKeepsCalls(s: State, d: ConnId)
    requires Inv(s) && CanInstall(s, d)
    ensures CallsOk(DoInstall(s, d))
  {
    var t := DoInstall(s, d);
    if t.drivers[d].pc.Owing? { assert SomeOwing(t); } else { OwingPersists(s, t, d); }
    forall k | k in t.calls ensures CallOk(t, k) { assert CallOk(s, k); }
  }

  lemma InstallKeepsInv(s: State, d: ConnId)
    requires Inv(s) && CanInstall(s, d)
    ensures Inv(DoInstall(s, d))
  {
    var t := DoInstall(s, d);
    InstallKeepsCalls(s, d);
    forall k | k in t.shared.pending ensures PendingOk(t, k) { assert PendingOk(s, k); }
    forall k | k in t.drivers ensures DriverOk(t, k) { assert k in s.drivers ==> DriverOk(s, k); }
  }

  lemma FrameKeepsCalls(s: State, d: ConnId, e: Echo, body: string)
    requires Inv(s) && CanFrame(s, d)
    ensures CallsOk(DoFrame(s, d, e, body))
  {
    var t := DoFrame(s, d, e, body);
    if e !in s.shared.pending { return; }
    var taken := s.shared.pending[e];
    PendingCallFacts(s, taken);
    OwingPersists(s, t, d);
    hide SomeOwing;
    forall k | k in t.calls ensures CallOk(t, k) {
      assert CallOk(s, k);
      if k != taken {
        assert s.calls[k].echo != e;
        UntouchedCallStays(s, t, k);
      }
    }
  }

  lemma FrameKeepsDrivers(s: State, d: ConnId, e: Echo, body: string)
    requires Inv(s) && CanFrame(s, d)
    ensures DriversOk(DoFrame(s, d, e, body))
  {
    if e !in s.shared.pending { return; }
    PendingCallFacts(s, s.shared.pending[e]);
    var t := DoFrame(s, d, e, body);
    forall k | k in t.drivers ensures DriverOk(t, k) { assert DriverOk(s, k); }
  }

  lemma FrameKeepsPending(s: State, d: ConnId, e: Echo, body: string)
    requires Inv(s) && CanFrame(s, d)
    ensures AllPendingOk(DoFrame(s, d, e, body))
  {
    hide CallsOk, DriversOk, ConnOk, EchoesDistinct;
    var t := DoFrame(s, d, e, body);
    forall k | k in t.shared.pending ensures PendingOk(t, k) { assert PendingOk(s, k); }
  }

  lemma FrameKeepsInv(s: State, d: ConnId, e: Echo, body: string)
    requires Inv(s) && CanFrame(s, d)
    ensures Inv(DoFrame(s, d, e, body))
  {
    FrameKeepsCalls(s, d, e, body);
    FrameKeepsDrivers(s, d, e, body);
    FrameKeepsPending(s, d, e, body);
    hide CallsOk, DriversOk, AllPendingOk;
  }

  lemma ReadFailKeepsCalls(s: State, d: ConnId)
    requires Inv(s) && CanReadFail(s, d)
    ensures CallsOk(DoReadFail(s, d))
  {
    var t := DoReadFail(s, d);
    OwingPersists(s, t, d);
    forall k | k in t.calls ensures CallOk(t, k) { assert CallOk(s, k); }
  }

  lemma ReadFailKeepsInv(s: State, d: ConnId)
    requires Inv(s) && CanReadFail(s, d)
    ensures Inv(DoReadFail(s, d))
  {
    var t := DoReadFail(s, d);
    ReadFailKeepsCalls(s, d);
    forall k | k in t.shared.pending ensures PendingOk(t, k) { assert PendingOk(s, k); }
    forall k | k in t.drivers ensures DriverOk(t, k) { assert k in s.drivers ==> DriverOk(s, k); }
  }

  lemma ClearKeepsCalls(s: State, d: ConnId)
    requires Inv(s) && CanClear(s, d)
    ensures CallsOk(DoClear(s, d))
  {
    var t := DoClear(s, d);
    if t.drivers[d].pc.Owing? { assert SomeOwing(t); } else { OwingPersists(s, t, d); }
    forall k | k in t.calls ensures CallOk(t, k) { assert CallOk(s, k); }
  }

  lemma ClearKeepsInv(s: State, d: ConnId)
    requires Inv(s) && CanClear(s, d)
    ensures Inv(DoClear(s, d))
  {
    var t := DoClear(s, d);
    ClearKeepsCalls(s, d);
    forall k | k in t.shared.pending ensures PendingOk(t, k) { assert PendingOk(s, k); }
    forall k | k in t.drivers ensures DriverOk(t, k) { assert k in s.drivers ==> DriverOk(s, k); }
  }

  lemma DetachKeepsCalls(s: State, d: ConnId)
    requires Inv(s) && CanDetach(s, d)
    ensures CallsOk(DoDetach(s, d))
  {
    var t := DoDetach(s, d);
    forall c | c in s.shared.pending.Values { PendingCallFacts(s, c); }
    forall k | k in t.calls ensures CallOk(t, k) { assert CallOk(s, k); }
  }

  lemma DetachKeepsInv(s: State, d: ConnId)
    requires Inv(s) && CanDetach(s, d)
    ensures Inv(DoDetach(s, d))
  {
    var t := DoDetach(s, d);
    DetachKeepsCalls(s, d);
    forall c | c in s.shared.pending.Values { PendingCallFacts(s, c); }
    forall k | k in t.drivers ensures DriverOk(t, k) { assert k in s.drivers ==> DriverOk(s, k); }
  }

  lemma SendKeepsCalls(s: State, d: ConnId, c: CallId)
    requires Inv(s) && CanSend(s, d, c)
    ensures CallsOk(DoSend(s, d, c))
  {
    var t := DoSend(s, d, c);
    assert DriverOk(s, d);
    OwingPersists(s, t, d);
    forall k | k in t.calls ensures CallOk(t, k) { assert CallOk(s, k); }
  }

  lemma SendKeepsDrivers(s: State, d: ConnId, c: CallId)
    requires Inv(s) && CanSend(s, d, c)
    ensures DriversOk(DoSend(s, d, c))
  {
    assert DriverOk(s, d);
    var t := DoSend(s, d, c);
    forall k | k in t.drivers ensures DriverOk(t, k) { assert DriverOk(s, k); }
  }

  lemma SendKeepsInv(s: State, d: ConnId, c: CallId)
    requires Inv(s) && CanSend(s, d, c)
    ensures Inv(DoSend(s, d, c))
  {
    var t := DoSend(s, d, c);
    SendKeepsCalls(s, d, c);
    SendKeepsDrivers(s, d, c);
    forall k | k in t.shared.pending ensures PendingOk(t, k) { assert PendingOk(s, k); }
    assert DriverOk(s, d);
  }

  lemma CloseChanKeepsCalls(s: State, d: ConnId)
    requires Inv(s) && CanCloseChan(s, d)
    ensures CallsOk(DoCloseChan(s, d))
  {
    var t := DoCloseChan(s, d);
    assert DriverOk(s, d);
    OwingPersists(s, t, d);
    forall k | k in t.calls ensures CallOk(t, k) { assert CallOk(s, k); }
  }

  lemma CloseChanKeepsDrivers(s: State, d: ConnId)
    requires Inv(s) && CanCloseChan(s, d)
    ensures DriversOk(DoCloseChan(s, d))
  {
    assert DriverOk(s, d);
    var t := DoCloseChan(s, d);
    forall k | k in t.drivers ensures DriverOk(t, k) { assert DriverOk(s, k); }
  }

  lemma CloseChanKeepsInv(s: State, d: ConnId)
    requires Inv(s) && CanCloseChan(s, d)
    ensures Inv(DoCloseChan(s, d))
  {
    var t := DoCloseChan(s, d);
    CloseChanKeepsCalls(s, d);
    CloseChanKeepsDrivers(s, d);
    forall k | k in t.shared.pending ensures PendingOk(t, k) { assert PendingOk(s, k); }
    assert DriverOk(s, d);
  }

  lemma ResumeKeepsCalls(s: State, d: ConnId)
    requires Inv(s) && CanResume(s, d)
    ensures CallsOk(DoResume(s, d))
  {
    var t := DoResume(s, d);
    OwingPersists(s, t, d);
    forall k | k in t.calls ensures CallOk(t, k) { assert CallOk(s, k); }
  }

  lemma ResumeKeepsInv(s: State, d: ConnId)
    requires Inv(s) && CanResume(s, d)
    ensures Inv(DoResume(s, d))
  {
    var t := DoResume(s, d);
    ResumeKeepsCalls(s, d);
    forall k | k in t.shared.pending ensures PendingOk(t, k) { assert PendingOk(s, k); }
    forall k | k in t.drivers ensures DriverOk(t, k) { assert k in s.drivers ==> DriverOk(s, k); }
  }

  lemma StepKeepsInv(s: State, a: Action)
    requires Inv(s) && Enabled(s, a)
    ensures Inv(Apply(s, a))
  {
    hide Inv;
    match a
    case Begin(c) => BeginKeepsInv(s, c);
    case Register(c) => RegisterKeepsInv(s, c);
    case MarshalFail(c) => PlainMoveKeepsInv(s, c, Removing(MarshalError), s.writer);
    case ReadConn(c) =>
      var pc := if s.shared.conn.Some? then Locking(s.shared.conn.value) else Removing(NotConnected);
      PlainMoveKeepsInv(s, c, pc, s.writer);
    case LockWrite(c) => PlainMoveKeepsInv(s, c, Writing(s.calls[c].pc.conn), Some(c));
    case FinishWrite(c, ok) =>
      PlainMoveKeepsInv(s, c, if ok then Waiting(s.calls[c].pc.conn) else Removing(WriteError), None);
    case Receive(c) => ReceiveKeepsInv(s, c);
    case Cancel(c) => PlainMoveKeepsInv(s, c, Removing(ContextDone), s.writer);
    case Remove(c) => RemoveKeepsInv(s, c);
    case Arrive(d) => ArriveKeepsInv(s, d);
    case Install(d) => InstallKeepsInv(s, d);
    case Frame(d, e, body) => FrameKeepsInv(s, d, e, body);
    case ReadFail(d) => ReadFailKeepsInv(s, d);
    case Clear(d) => ClearKeepsInv(s, d);
    case Detach(d) => DetachKeepsInv(s, d);
    case Send(d, c) => SendKeepsInv(s, d, c);
    case CloseChan(d) => CloseChanKeepsInv(s, d);
    case Resume(d) => ResumeKeepsInv(s, d);
  }

  lemma {:induction false} RunKeepsInv(s: State, run: seq<Action>)
    requires Inv(s) && IsRun(s, run)
    ensures Inv(After(s, run))
    decreases |run|
  {
    if run != [] {
      StepKeepsInv(s, run[0]);
      RunKeepsInv(Apply(s, run[0]), run[1..]);
    }
  }

  // ---------------------------------------------------------------- what every run guarantees

  /** The state that a transport reaches from start-up by a run. */
  function Reached(transport: Transport, run: seq<Action>): State
    requires IsRun(Initial(transport), run)
  {
    After(Initial(transport), run)
  }

  lemma ReachedInv(transport: Transport, run: seq<Action>)
    requires IsRun(Initial(transport), run)
    ensures Inv(Reached(transport, run))
  {
    RunKeepsInv(Initial(transport), run);
  }

  /** A waiting call can still get its result, or has it; see NoLostCall. */
  ghost predicate NotLost(s: State, c: CallId)
    requires c in s.calls && s.calls[c].pc.Waiting?
  {
    var call := s.calls[c];
    || call.buf != []
    || (exists d :: d in s.drivers && c in s.drivers[d].Todo())
    || (call.echo in s.shared.pending && s.shared.pending[call.echo] == c
        && (SomeOwing(s) ||
            (s.shared.conn == Some(call.pc.conn) && call.pc.conn in s.drivers && s.drivers[call.pc.conn].Installed())))
  }

  lemma InvMeansNotLost(s: State, c: CallId)
    requires Inv(s) && c in s.calls && s.calls[c].pc.Waiting?
    ensures NotLost(s, c)
  {
    assert CallOk(s, c);
    var call := s.calls[c];
    if call.echo in s.shared.pending {
      assert PendingOk(s, call.echo);
    } else if call.sends == 0 {
      assert c in s.drivers[call.taker.value].Todo();
    }
  }

  /**
   No lost call.  A waiting caller has its result in the channel, or a driver still has to send to it, or its echo is
   pending; and a pending echo whose connection is gone is owed a failPending, while one whose connection is current
   has a driver that reads that connection, or whose read has just failed and that clears it and fails the echo next.
   */
  lemma NoLostCall(transport: Transport, run: seq<Action>, c: CallId)
    requires IsRun(Initial(transport), run)
    requires c in Reached(transport, run).calls && Reached(transport, run).calls[c].pc.Waiting?
    ensures NotLost(Reached(transport, run), c)
  {
    ReachedInv(transport, run);
    InvMeansNotLost(Reached(transport, run), c);
  }

  /** No driver has clearing, failing or delivering left to do. */
  ghost predicate Quiet(s: State) {
    forall d :: d in s.drivers ==>
      var pc := s.drivers[d].pc; pc.Connected? || pc.Reading? || pc.Finished?
  }

  /** Every waiting call without a result is pending on the current connection, which its driver reads. */
  ghost predicate NobodyHangs(s: State) {
    forall c :: c in s.calls && s.calls[c].pc.Waiting? && s.calls[c].buf == [] ==>
      var k := s.calls[c].pc.conn;
      s.shared.conn == Some(k) && k in s.drivers && s.drivers[k].pc.Reading? && s.calls[c].echo in s.shared.pending
  }

  lemma QuietInvMeansNobodyHangs(s: State)
    requires Inv(s) && Quiet(s)
    ensures NobodyHangs(s)
  {
    forall c | c in s.calls && s.calls[c].pc.Waiting? && s.calls[c].buf == []
      ensures
        var k := s.calls[c].pc.conn;
        s.shared.conn == Some(k) && k in s.drivers && s.drivers[k].pc.Reading? && s.calls[c].echo in s.shared.pending
    {
      InvMeansNotLost(s, c);
    }
  }

  /** Once no driver has work left, nobody waits in vain on a connection that is gone or no longer read. */
  lemma QuietMeansNobodyHangs(transport: Transport, run: seq<Action>)
    requires IsRun(Initial(transport), run) && Quiet(Reached(transport, run))
    ensures NobodyHangs(Reached(transport, run))
  {
    ReachedInv(transport, run);
    QuietInvMeansNobodyHangs(Reached(transport, run));
  }

  /** Exactly-once delivery, for every call of every run, and nothing ever panics on a channel. */
  lemma DeliveredAtMostOnce(transport: Transport, run: seq<Action>, c: CallId)
    requires IsRun(Initial(transport), run) && c in Reached(transport, run).calls
    ensures
      var s := Reached(transport, run);
      var call := s.calls[c];
      && !s.panicked
      && call.closes <= call.sends <= 1 && |call.buf| <= 1
      && (call.pc.Returned? ==>
            && call.echo !in s.shared.pending
            && !call.pc.outcome.ZeroValue?
            && (call.pc.outcome.Got? ==> call.sends == 1)
            && (call.pc.outcome.Got? && call.pc.outcome.result.Response? ==> call.pc.outcome.result.echo == call.echo))
      && (forall c' :: c' in s.calls && c' != c ==> s.calls[c'].echo != call.echo)
  {
    ReachedInv(transport, run);
    var s := Reached(transport, run);
    assert CallOk(s, c);
    if s.calls[c].echo in s.shared.pending {
      assert PendingOk(s, s.calls[c].echo);
    }
  }

  /** Every pending key was drawn by a call that is still inside callRaw. */
  lemma PendingKeysAreLive(transport: Transport, run: seq<Action>, e: Echo)
    requires IsRun(Initial(transport), run) && e in Reached(transport, run).shared.pending
    ensures
      var s := Reached(transport, run);
      var c := s.shared.pending[e];
      c in s.calls && s.calls[c].echo == e && !s.calls[c].pc.Allocated? && !s.calls[c].pc.Returned?
  {
    ReachedInv(transport, run);
    assert PendingOk(Reached(transport, run), e);
  }

  lemma SendIsSafe(s: State, d: ConnId, c: CallId)
    requires Inv(s) && d in s.drivers && s.drivers[d].pc.Delivering? && s.drivers[d].pc.closing == None
    requires c in s.drivers[d].pc.todo
    ensures CanSend(s, d, c) && !DoSend(s, d, c).panicked
  {
    assert DriverOk(s, d);
  }

  lemma CloseIsSafe(s: State, d: ConnId)
    requires Inv(s) && d in s.drivers && s.drivers[d].Closing().Some?
    ensures CanCloseChan(s, d) && !DoCloseChan(s, d).panicked
  {
    assert DriverOk(s, d) && CallOk(s, s.drivers[d].pc.closing.value);
  }

  /** The next step of a driver with work left is enabled, and no channel operation of it panics. */
  ghost predicate CanProceed(s: State, d: ConnId)
    requires d in s.drivers
  {
    match s.drivers[d].pc
    case Ending => CanClear(s, d)
    case Owing(_) => CanDetach(s, d)
    case Delivering(todo, closing, _, _) =>
      if closing.Some? then CanCloseChan(s, d) && !DoCloseChan(s, d).panicked
      else if todo == {} then CanResume(s, d)
      else forall c :: c in todo ==> CanSend(s, d, c) && !DoSend(s, d, c).panicked
    case _ => true
  }

  lemma InvMeansCanProceed(s: State, d: ConnId)
    requires Inv(s) && d in s.drivers
    ensures CanProceed(s, d)
  {
    var pc := s.drivers[d].pc;
    if pc.Delivering? && pc.closing.Some? {
      CloseIsSafe(s, d);
    } else if pc.Delivering? {
      forall c | c in pc.todo ensures CanSend(s, d, c) && !DoSend(s, d, c).panicked {
        SendIsSafe(s, d, c);
      }
    }
  }

  /** No send to a pending channel blocks and none panics: a driver with work left can always take its next step. */
  lemma DeliveryNeverBlocks(transport: Transport, run: seq<Action>, d: ConnId)
    requires IsRun(Initial(transport), run) && d in Reached(transport, run).drivers
    ensures CanProceed(Reached(transport, run), d)
  {
    ReachedInv(transport, run);
    InvMeansCanProceed(Reached(transport, run), d);
  }

  /** The steps that a driver takes by itself, whatever its connection and its callers do. */
  predicate IsDriverStep(a: Action) {
    a.Clear? || a.Detach? || a.Send? || a.CloseChan? || a.Resume?
  }

  lemma SendDelivers(s: State, d: ConnId, c: CallId)
    requires Inv(s) && d in s.drivers && c in s.drivers[d].Todo() && s.drivers[d].Closing() == None
    ensures Enabled(s, Send(d, c)) && c in Apply(s, Send(d, c)).calls && Apply(s, Send(d, c)).calls[c].buf != []
  {
    assert DriverOk(s, d);
  }

  lemma CloseLeavesTodo(s: State, d: ConnId)
    requires Inv(s) && d in s.drivers && s.drivers[d].Closing().Some?
    ensures Enabled(s, CloseChan(d)) && d in Apply(s, CloseChan(d)).drivers
    ensures Apply(s, CloseChan(d)).drivers[d].Closing() == None
    ensures Apply(s, CloseChan(d)).drivers[d].Todo() == s.drivers[d].Todo()
  {
    assert DriverOk(s, d) && CallOk(s, s.drivers[d].pc.closing.value);
  }

  lemma ReleaseFromTodo(s: State, d: ConnId, c: CallId) returns (more: seq<Action>)
    requires Inv(s) && d in s.drivers && c in s.drivers[d].Todo()
    ensures IsRun(s, more) && |more| <= 2 && (forall a :: a in more ==> IsDriverStep(a))
    ensures c in After(s, more).calls && After(s, more).calls[c].buf != []
  {
    if s.drivers[d].Closing().Some? {
      CloseLeavesTodo(s, d);
      StepKeepsInv(s, CloseChan(d));
      hide Inv, Enabled, Apply;
      var mid := Apply(s, CloseChan(d));
      SendDelivers(mid, d, c);
      more := [CloseChan(d), Send(d, c)];
      assert more[1..] == [Send(d, c)] && [Send(d, c)][1..] == [];
      assert IsRun(mid, [Send(d, c)]) && After(mid, [Send(d, c)]) == Apply(mid, Send(d, c));
      assert After(s, more) == After(mid, [Send(d, c)]);
    } else {
      SendDelivers(s, d, c);
      hide Inv, Enabled, Apply;
      more := [Send(d, c)];
      assert more[1..] == [];
      assert After(s, more) == Apply(s, Send(d, c));
    }
  }

  /**
   From any reachable state, at most three steps of the drivers alone put a result before a caller whose connection is
   gone.
   */
  lemma StaleCallIsReleased(transport: Transport, run: seq<Action>, c: CallId) returns (more: seq<Action>)
    requires IsRun(Initial(transport), run) && c in Reached(transport, run).calls
    requires Reached(transport, run).calls[c].pc.Waiting?
    requires Reached(transport, run).shared.conn != Some(Reached(transport, run).calls[c].pc.conn)
    ensures
      var s := Reached(transport, run);
      && IsRun(s, more) && |more| <= 3 && (forall a :: a in more ==> IsDriverStep(a))
      && c in After(s, more).calls && After(s, more).calls[c].buf != []
  {
    NoLostCall(transport, run, c);
    ReachedInv(transport, run);
    var s := Reached(transport, run);
    if s.calls[c].buf != [] {
      more := [];
    } else if d :| d in s.drivers && c in s.drivers[d].Todo() {
      more := ReleaseFromTodo(s, d, c);
    } else {
      var d :| d in s.drivers && s.drivers[d].pc.Owing?;
      var mid := Apply(s, Detach(d));
      DetachKeepsInv(s, d);
      var rest := ReleaseFromTodo(mid, d, c);
      more := [Detach(d)] + rest;
      assert more[1..] == rest;
    }
  }

  // ---------------------------------------------------------------- every schedule of the drivers ends quiet

  function EndingDrivers(s: State): set<ConnId> { set d | d in s.drivers && s.drivers[d].pc.Ending? }

  function OwingDrivers(s: State): set<ConnId> { set d | d in s.drivers && s.drivers[d].pc.Owing? }

  function DeliveringDrivers(s: State): set<ConnId> { set d | d in s.drivers && s.drivers[d].pc.Delivering? }

  function ClosingDrivers(s: State): set<ConnId> { set d | d in s.drivers && s.drivers[d].Closing().Some? }

  function Undelivered(s: State): set<(ConnId, CallId)> {
    set d, c | d in s.drivers && c in s.drivers[d].Todo() :: (d, c)
  }

  /** An upper bound on the steps that the drivers can take by themselves. */
  function DriverSteps(s: State): nat {
    3 * |EndingDrivers(s)| + 2 * |OwingDrivers(s)| + |DeliveringDrivers(s)| + |ClosingDrivers(s)|
    + 2 * |Undelivered(s)| + 2 * |s.shared.pending|
  }

  lemma {:induction false} ValuesAtMostKeys(m: map<Echo, CallId>)
    ensures |m.Values| <= |m|
  {
    if m != map[] {
      var e :| e in m;
      var rest := m - {e};
      ValuesAtMostKeys(rest);
      forall v | v in m.Values ensures v in rest.Values + {m[e]} {
        var k :| k in m && m[k] == v;
        assert k != e ==> k in rest && rest[k] == v;
      }
      SubsetIsSmaller(m.Values, rest.Values + {m[e]});
      assert |rest| == |m| - 1 by { assert rest.Keys == m.Keys - {e} && |rest.Keys| == |rest| && |m.Keys| == |m|; }
    }
  }

  function Pairs(d: ConnId, todo: set<CallId>): set<(ConnId, CallId)> { set c | c in todo :: (d, c) }

  lemma {:induction false} PairsOfOne(d: ConnId, todo: set<CallId>)
    ensures |Pairs(d, todo)| == |todo|
  {
    if todo != {} {
      var c :| c in todo;
      PairsOfOne(d, todo - {c});
      assert Pairs(d, todo) == Pairs(d, todo - {c}) + {(d, c)} && (d, c) !in Pairs(d, todo - {c});
    }
  }

  predicate OneDriverMoved(s: State, t: State, d: ConnId) {
    d in s.drivers && d in t.drivers && t.drivers == s.drivers[d := t.drivers[d]]
  }

  function One(b: bool): nat { if b then 1 else 0 }

  lemma SizeAfterMove<T>(before: set<T>, after: set<T>, x: T)
    requires before - {x} == after - {x}
    ensures |after| == |before| - One(x in before) + One(x in after)
  {
    assert x in before ==> before == (before - {x}) + {x};
    assert x in after ==> after == (after - {x}) + {x};
    assert x !in before ==> before == before - {x};
    assert x !in after ==> after == after - {x};
  }

  lemma StagesAfterMove(s: State, t: State, d: ConnId)
    requires OneDriverMoved(s, t, d)
    ensures |EndingDrivers(t)| == |EndingDrivers(s)| - One(s.drivers[d].pc.Ending?) + One(t.drivers[d].pc.Ending?)
    ensures |OwingDrivers(t)| == |OwingDrivers(s)| - One(s.drivers[d].pc.Owing?) + One(t.drivers[d].pc.Owing?)
  {
    SizeAfterMove(EndingDrivers(s), EndingDrivers(t), d);
    SizeAfterMove(OwingDrivers(s), OwingDrivers(t), d);
  }

  lemma DeliveriesAfterMove(s: State, t: State, d: ConnId)
    requires OneDriverMoved(s, t, d)
    ensures |DeliveringDrivers(t)| ==
              |DeliveringDrivers(s)| - One(s.drivers[d].pc.Delivering?) + One(t.drivers[d].pc.Delivering?)
    ensures |ClosingDrivers(t)| ==
              |ClosingDrivers(s)| - One(s.drivers[d].Closing().Some?) + One(t.drivers[d].Closing().Some?)
  {
    SizeAfterMove(DeliveringDrivers(s), DeliveringDrivers(t), d);
    SizeAfterMove(ClosingDrivers(s), ClosingDrivers(t), d);
  }

  lemma SameUndelivered(s: State, t: State, d: ConnId)
    requires OneDriverMoved(s, t, d) && t.drivers[d].Todo() == s.drivers[d].Todo()
    ensures Undelivered(t) == Undelivered(s)
  {
  }

  lemma TakenIsUndelivered(s: State, d: ConnId)
    requires CanDetach(s, d)
    ensures Undelivered(DoDetach(s, d)) == Undelivered(s) + Pairs(d, s.shared.pending.Values)
  {
  }

  lemma ClearCountsDown(s: State, d: ConnId)
    requires CanClear(s, d)
    ensures DriverSteps(DoClear(s, d)) < DriverSteps(s)
  {
    hide EndingDrivers, OwingDrivers, DeliveringDrivers, ClosingDrivers, Undelivered;
    var t := DoClear(s, d);
    StagesAfterMove(s, t, d);
    DeliveriesAfterMove(s, t, d);
    SameUndelivered(s, t, d);
  }

  lemma DetachCountsDown(s: State, d: ConnId)
    requires CanDetach(s, d)
    ensures DriverSteps(DoDetach(s, d)) < DriverSteps(s)
  {
    hide EndingDrivers, OwingDrivers, DeliveringDrivers, ClosingDrivers, Undelivered;
    var t := DoDetach(s, d);
    var taken := Pairs(d, s.shared.pending.Values);
    StagesAfterMove(s, t, d);
    DeliveriesAfterMove(s, t, d);
    TakenIsUndelivered(s, d);
    PairsOfOne(d, s.shared.pending.Values);
    ValuesAtMostKeys(s.shared.pending);
  }

  lemma OneDelivered(s: State, d: ConnId, c: CallId)
    requires CanSend(s, d, c) && !s.calls[c].closed
    ensures Undelivered(DoSend(s, d, c)) == Undelivered(s) - {(d, c)} && (d, c) in Undelivered(s)
  {
  }

  lemma SendCountsDown(s: State, d: ConnId, c: CallId)
    requires CanSend(s, d, c) && !s.calls[c].closed
    ensures DriverSteps(DoSend(s, d, c)) < DriverSteps(s)
  {
    hide EndingDrivers, OwingDrivers, DeliveringDrivers, ClosingDrivers, Undelivered;
    var t := DoSend(s, d, c);
    StagesAfterMove(s, t, d);
    DeliveriesAfterMove(s, t, d);
    OneDelivered(s, d, c);
  }

  lemma CloseChanCountsDown(s: State, d: ConnId)
    requires CanCloseChan(s, d) && !s.calls[s.drivers[d].pc.closing.value].closed
    ensures DriverSteps(DoCloseChan(s, d)) < DriverSteps(s)
  {
    hide EndingDrivers, OwingDrivers, DeliveringDrivers, ClosingDrivers, Undelivered;
    var t := DoCloseChan(s, d);
    StagesAfterMove(s, t, d);
    DeliveriesAfterMove(s, t, d);
    SameUndelivered(s, t, d);
  }

  lemma ResumeCountsDown(s: State, d: ConnId)
    requires CanResume(s, d)
    ensures DriverSteps(DoResume(s, d)) < DriverSteps(s)
  {
    hide EndingDrivers, OwingDrivers, DeliveringDrivers, ClosingDrivers, Undelivered;
    var t := DoResume(s, d);
    StagesAfterMove(s, t, d);
    DeliveriesAfterMove(s, t, d);
    SameUndelivered(s, t, d);
  }

  lemma DriverStepCountsDown(s: State, a: Action)
    requires Inv(s) && Enabled(s, a) && IsDriverStep(a)
    ensures DriverSteps(Apply(s, a)) < DriverSteps(s)
  {
    hide DriverSteps;
    match a
    case Clear(d) => ClearCountsDown(s, d);
    case Detach(d) => DetachCountsDown(s, d);
    case Send(d, c) => assert DriverOk(s, d); SendCountsDown(s, d, c);
    case CloseChan(d) =>
      assert DriverOk(s, d) && CallOk(s, s.drivers[d].pc.closing.value);
      CloseChanCountsDown(s, d);
    case Resume(d) => ResumeCountsDown(s, d);
  }

  /** While a driver has work left it can take a step. */
  lemma BusyDriverCanStep(s: State, d: ConnId) returns (a: Action)
    requires Inv(s) && d in s.drivers
    requires var pc := s.drivers[d].pc; !(pc.Connected? || pc.Reading? || pc.Finished?)
    ensures IsDriverStep(a) && Enabled(s, a)
  {
    assert DriverOk(s, d);
    match s.drivers[d].pc
    case Ending => a := Clear(d);
    case Owing(_) => a := Detach(d);
    case Delivering(todo, closing, _, _) =>
      if closing.Some? {
        a := CloseChan(d);
      } else if c :| c in todo {
        a := Send(d, c);
      } else {
        a := Resume(d);
      }
  }

  /**
   Whatever the schedule: steps of the drivers alone come to an end within a bound known beforehand, and where no more
   of them is possible every waiting call has its result or is pending on the current connection, which is read.
   */
  lemma {:induction false} DriversSettle(s: State, more: seq<Action>)
    requires Inv(s) && IsRun(s, more) && forall a :: a in more ==> IsDriverStep(a)
    ensures |more| <= DriverSteps(s)
    ensures (forall a :: IsDriverStep(a) ==> !Enabled(After(s, more), a))
              ==> Quiet(After(s, more)) && NobodyHangs(After(s, more))
    decreases |more|
  {
    if more == [] {
      if forall a :: IsDriverStep(a) ==> !Enabled(s, a) {
        forall d | d in s.drivers
          ensures var pc := s.drivers[d].pc; pc.Connected? || pc.Reading? || pc.Finished?
        {
          var pc := s.drivers[d].pc;
          if !(pc.Connected? || pc.Reading? || pc.Finished?) {
            var a := BusyDriverCanStep(s, d);
            assert false;
          }
        }
        QuietInvMeansNobodyHangs(s);
      }
    } else {
      assert more[0] in more;
      DriverStepCountsDown(s, more[0]);
      StepKeepsInv(s, more[0]);
      DriversSettle(Apply(s, more[0]), more[1..]);
    }
  }

  /** The same of every state that a transport reaches. */
  lemma EveryScheduleReleases(transport: Transport, run: seq<Action>, more: seq<Action>)
    requires IsRun(Initial(transport), run)
    requires IsRun(Reached(transport, run), more) && forall a :: a in more ==> IsDriverStep(a)
    ensures
      var s := Reached(transport, run);
      && |more| <= DriverSteps(s)
      && ((forall a :: IsDriverStep(a) ==> !Enabled(After(s, more), a))
            ==> Quiet(After(s, more)) && NobodyHangs(After(s, more)))
  {
    ReachedInv(transport, run);
    DriversSettle(Reached(transport, run), more);
  }
}
