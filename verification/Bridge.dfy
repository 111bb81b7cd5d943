/** The client side of a relayed connection: one local TCP socket joined to one WebSocket. Bytes read
    before the relay accepts are kept and sent first once it does. */
module Bridge {
  import opened Wrappers
  import opened Bytes

  datatype WsState = Connecting | Open | Closing | Closed

  datatype Bridge = Bridge(ws: WsState, authed: bool, closed: bool, tcpDestroyed: bool, pending: seq<Chunk>)

  const NEW_BRIDGE := Bridge(Connecting, false, false, false, [])

  /** A frame from the relay; `OtherText` is any text that is not a JSON object of type "ok". */
  datatype Reply = OkText | OtherText | Payload(data: Chunk)

  function CloseBoth(b: Bridge): Bridge {
    if b.closed then b
    else b.(closed := true, tcpDestroyed := true, ws := if b.ws.Open? || b.ws.Connecting? then Closing else b.ws)
  }

  /** A frame arrives: the chunks sent to the relay and the bytes written to the local socket. */
  function OnReply(b: Bridge, r: Reply): (Bridge, seq<Chunk>, Option<Chunk>) {
    if !b.authed then
      if r.OkText? then (b.(authed := true, pending := []), if b.ws.Open? then b.pending else [], None)
      else (CloseBoth(b), [], None)
    else if !r.Payload? then (CloseBoth(b), [], None)
    else (b, [], if b.tcpDestroyed then None else Some(r.data))
  }

  /** A chunk is read from the local socket: the chunks sent to the relay. */
  function OnLocalData(b: Bridge, data: Chunk): (Bridge, seq<Chunk>) {
    if !b.authed then (b.(pending := b.pending + [data]), [])
    else (b, if b.ws.Open? then [data] else [])
  }

  /** A reply is what the bridge waits for: an "ok" before acceptance, a payload after it. */
  predicate Expected(b: Bridge, r: Reply) {
    if b.authed then r.Payload? else r.OkText?
  }

  /** A reply closes an open bridge exactly when it is not the one expected. An expected one leaves the sockets as
      they are: the first accepts and sends every kept chunk in order, later ones write their bytes. */
  lemma ReplyClosesExactly(b: Bridge, r: Reply)
    requires !b.closed && !b.tcpDestroyed
    ensures var (b', out, bytes) := OnReply(b, r);
      && (b'.closed <==> !Expected(b, r))
      && (b'.closed ==> b'.tcpDestroyed && !b'.ws.Open? && !b'.ws.Connecting? && out == [] && bytes.None?)
      && (!b'.closed ==>
            && b'.authed && !b'.tcpDestroyed && b'.ws == b.ws && b'.pending == (if b.authed then b.pending else [])
            && out == (if !b.authed && b.ws.Open? then b.pending else [])
            && bytes == (if b.authed then Some(r.data) else None))
  {
  }

  class BridgeConnection {
    var ws: WsState
    var authed: bool
    var closed: bool
    var tcpDestroyed: bool
    var pending: seq<Chunk>
    /** Everything this object has sent to the relay and written to the local socket. */
    var sent: seq<Chunk>
    var written: Chunk

    constructor ()
      ensures State() == NEW_BRIDGE && sent == [] && written == []
    {
      ws, authed, closed, tcpDestroyed, pending := Connecting, false, false, false, [];
      sent, written := [], [];
    }

    function State(): Bridge
      reads this
    {
      Bridge(ws, authed, closed, tcpDestroyed, pending)
    }

    method Close()
      modifies this`ws, this`closed, this`tcpDestroyed
      ensures State() == CloseBoth(old(State()))
    {
      if closed {
        return;
      }
      closed, tcpDestroyed := true, true;
      if ws.Open? || ws.Connecting? {
        ws := Closing;
      }
    }

    method Send(data: Chunk)
      modifies this`sent
      ensures sent == if ws.Open? then old(sent) + [data] else old(sent)
    {
      if ws.Open? {
        sent := sent + [data];
      }
    }

    method OnMessage(r: Reply)
      modifies this
      ensures var (b, out, bytes) := OnReply(old(State()), r);
        && State() == b && sent == old(sent) + out
        && written == old(written) + (if bytes.Some? then bytes.value else [])
    {
      if !authed {
        if !r.OkText? {
          Close();
          return;
        }
        authed := true;
        var chunks := pending;
        pending := [];
        for i := 0 to |chunks|
          invariant unchanged(`ws) && unchanged(`closed) && unchanged(`tcpDestroyed) && unchanged(`written)
          invariant authed && pending == []
          invariant sent == old(sent) + (if ws.Open? then chunks[..i] else [])
        {
          Send(chunks[i]);
        }
        return;
      }
      if !r.Payload? {
        Close();
        return;
      }
      if !tcpDestroyed {
        written := written + r.data;
      }
    }

    method OnData(data: Chunk)
      modifies this`pending, this`sent
      ensures var (b, out) := OnLocalData(old(State()), data); State() == b && sent == old(sent) + out
    {
      if !authed {
        pending := pending + [data];
        return;
      }
      Send(data);
    }
  }
}
