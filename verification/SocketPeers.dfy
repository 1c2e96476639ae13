/**
 The peer object itself, updated in place.  Each critical section is tied to the function on `Shared` that the
 transition system of `SocketProtocol` takes as one step; the methods that also deliver are proved to send exactly
 one result on every channel they took and to close it, and to leave every other pending channel open and empty.
 */
module SocketPeers {
  import opened Common
  import opened SocketProtocol

  /** A pending channel of capacity one, made by one call. */
  class Channel {
    const owner: CallId
    var buf: seq<Result>
    var closed: bool

    constructor (owner: CallId)
      ensures this.owner == owner && IsOpenAndEmpty()
    {
      this.owner := owner;
      buf := [];
      closed := false;
    }

    predicate IsOpenAndEmpty()
      reads this
    {
      !closed && buf == []
    }

    /** Holds after exactly one send and one close on a fresh channel that nobody has received from yet. */
    predicate Carries(result: Result)
      reads this
    {
      closed && buf == [result]
    }

    /** Would block on a full channel and panic on a closed one, so it may only be called on neither. */
    method SendAndClose(result: Result)
      requires IsOpenAndEmpty()
      modifies this
      ensures Carries(result)
    {
      buf := buf + [result];
      closed := true;
    }
  }

  /** A decoded text or binary frame: its echo if it has a nonempty one, and whether status and retcode are present. */
  datatype Frame = Frame(echo: Option<Echo>, hasStatus: bool, hasRetCode: bool, body: string) {
    predicate IsResponse() { echo.Some? && (hasStatus || hasRetCode) }
  }

  class SocketPeer {
    var conn: Option<ConnId>
    var pending: map<Echo, Channel>
    var nextEcho: nat

    constructor ()
      ensures Valid() && View() == Shared(None, map[], 0)
    {
      conn := None;
      pending := map[];
      nextEcho := 0;
    }

    /** Every pending channel is open and empty, and no two echoes share one. */
    ghost predicate Valid()
      reads this, pending.Values
    {
      && (forall e :: e in pending ==> pending[e].IsOpenAndEmpty())
      && (forall e, e' :: e in pending && e' in pending && e != e' ==> pending[e] != pending[e'])
    }

    ghost function View(): Shared
      reads this
    {
      Shared(conn, map e | e in pending :: pending[e].owner, nextEcho)
    }

    method DrawEcho() returns (e: Echo)
      modifies this`nextEcho
      ensures View() == old(View()).Draw() && e == View().nextEcho
    {
      nextEcho := nextEcho + 1;
      e := nextEcho;
    }

    method AddPending(e: Echo, ch: Channel)
      requires Valid() && ch.IsOpenAndEmpty() && ch !in pending.Values
      modifies this`pending
      ensures Valid() && View() == old(View()).Register(e, ch.owner)
      ensures pending == old(pending)[e := ch]
    {
      pending := pending[e := ch];
    }

    method RemovePending(e: Echo)
      requires Valid()
      modifies this`pending
      ensures Valid() && View() == old(View()).Remove(e)
    {
      pending := pending - {e};
    }

    method CurrentConn() returns (k: Option<ConnId>)
      ensures k == View().conn
    {
      k := conn;
    }

    method SetConn(k: Option<ConnId>)
      requires Valid()
      modifies this`conn
      ensures Valid() && View() == old(View()).SetConn(k)
    {
      conn := k;
    }

    /** Takes the channel of one echo, if it is still pending, and delivers to that channel alone. */
    method CompletePending(e: Echo, result: Result)
      requires Valid()
      modifies this`pending, pending.Values
      ensures Valid() && View() == old(View()).Remove(e)
      ensures e in old(pending) ==> old(pending[e]).Carries(result)
      ensures forall e' :: e' in old(pending) && e' != e ==> old(pending[e']).IsOpenAndEmpty()
    {
      if e in pending {
        var ch := pending[e];
        pending := pending - {e};
        ch.SendAndClose(result);
      }
    }

    /** Empties the pending map and gives every channel that was in it the same error, once. */
    method FailPending(reason: Reason)
      requires Valid()
      modifies this`pending, pending.Values
      ensures Valid() && View() == old(View()).Detach()
      ensures forall e :: e in old(pending) ==> old(pending[e]).Carries(Failed(reason))
    {
      var detached := pending;
      pending := map[];
      var rest := detached.Keys;
      while rest != {}
        invariant rest <= detached.Keys
        invariant forall e :: e in detached.Keys - rest ==> detached[e].Carries(Failed(reason))
        invariant forall e :: e in rest ==> detached[e].IsOpenAndEmpty()
        decreases |rest|
        modifies detached.Values
      {
        var e :| e in rest;
        detached[e].SendAndClose(Failed(reason));
        rest := rest - {e};
      }
    }

    /** Installs a connection; whatever was pending on a different one is failed, otherwise it stays pending. */
    method ReplaceConn(k: ConnId) returns (previous: Option<ConnId>)
      requires Valid()
      modifies this`conn, this`pending, pending.Values
      ensures Valid() && previous == old(View()).conn
      ensures
        var swapped := old(View()).SetConn(Some(k));
        if old(View()).ReplaceOwes(k)
        then View() == swapped.Detach() && forall e :: e in old(pending) ==> old(pending[e]).Carries(Failed(Replaced))
        else View() == swapped && pending == old(pending)
    {
      previous := conn;
      conn := Some(k);
      if previous.Some? && previous != Some(k) {
        FailPending(Replaced);
      }
    }

    /** Acts only for the connection that is still installed. */
    method DisconnectConn(k: ConnId) returns (done: bool)
      requires Valid()
      modifies this`conn, this`pending, pending.Values
      ensures Valid() && done == old(View()).IsCurrent(k)
      ensures
        if done
        then
          && View() == old(View()).SetConn(None).Detach()
          && forall e :: e in old(pending) ==> old(pending[e]).Carries(Failed(Disconnected))
        else View() == old(View()) && pending == old(pending)
    {
      if conn != Some(k) {
        return false;
      }
      conn := None;
      FailPending(Disconnected);
      done := true;
    }

    /** A frame with an echo and a status or return code completes that echo; any other frame goes to the event sink. */
    method HandleFrame(frame: Frame) returns (toSink: bool)
      requires Valid()
      modifies this`pending, pending.Values
      ensures Valid() && toSink == !frame.IsResponse()
      ensures !toSink <==> frame.echo.Some? && (frame.hasStatus || frame.hasRetCode)
      ensures View() == if frame.IsResponse() then old(View()).Remove(frame.echo.value) else old(View())
      ensures frame.IsResponse() && frame.echo.value in old(pending) ==>
                old(pending[frame.echo.value]).Carries(Response(frame.echo.value, frame.body))
    {
      if frame.IsResponse() {
        CompletePending(frame.echo.value, Response(frame.echo.value, frame.body));
        toSink := false;
      } else {
        toSink := true;
      }
    }
  }
}
