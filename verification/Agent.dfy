/** `AgentProtocol`: one object with its connection, its counters and its loops, proved against what is sent and
    what is received, and two of them end to end. */
module Agent {
  import opened Wrappers
  import opened Messages
  import opened Framing
  import opened Reconnect
  import opened Sending
  import opened Receiving

  /** A connected socket: what will arrive, and what has been sent. */
  class Socket {
    var incoming: Script
    var outgoing: Bytes

    constructor (script: Script)
      ensures incoming == script && outgoing == []
    {
      incoming, outgoing := script, [];
    }

    /** `socket.recv(n)` */
    method Receive(n: nat) returns (g: Got)
      requires n > 0
      modifies this`incoming
      ensures (g, incoming) == Recv(old(incoming), n)
      ensures g.Data? ==> 0 < |g.bytes| <= n && g.bytes + Pending(incoming) == Pending(old(incoming))
      ensures !g.Data? ==> Pending(incoming) == Pending(old(incoming))
    {
      RecvConserves(incoming, n);
      var step := Recv(incoming, n);
      g, incoming := step.0, step.1;
    }
  }

  /** `Nothing` is the source's `None`; `Escaped` is an exception `_receive_message` does not catch. */
  datatype Reception = Got(message: Message) | Nothing | Escaped

  class AgentProtocol {
    var socket: Socket?
    var connected: bool
    var authenticated: bool
    var reconnectAttempts: nat
    var bytesSent: nat
    var bytesReceived: nat
    var messagesSent: nat
    var messagesReceived: nat

    constructor ()
      ensures socket == null && !connected && !authenticated && reconnectAttempts == 0
      ensures bytesSent == bytesReceived == messagesSent == messagesReceived == 0
    {
      socket, connected, authenticated, reconnectAttempts := null, false, false, 0;
      bytesSent, bytesReceived, messagesSent, messagesReceived := 0, 0, 0, 0;
    }

    /** What the live connection still brings, if there is one. */
    function Live(): Option<Script>
      reads this, socket
    {
      if connected && socket != null then Some(socket.incoming) else None
    }

    predicate Valid()
      reads this
    {
      connected ==> socket != null
    }

    /** `connect`, with what becomes of the attempt; `escaped` says that an exception leaves it.  When the socket fails
        in the handshake, `disconnect` finds the connection lost and changes nothing. */
    method Connect(d: Dial) returns (ok: bool, escaped: bool)
      requires Valid()
      modifies this`socket, this`connected, this`authenticated, this`reconnectAttempts
      ensures Valid() && connected == (ok || escaped)
      ensures old(connected) ==> ok && !escaped && socket == old(socket)
      ensures old(connected) ==> authenticated == old(authenticated) && reconnectAttempts == old(reconnectAttempts)
      ensures !old(connected) ==> ok == d.Accepted? && escaped == d.HandshakeRaises?
      ensures !old(connected) ==> reconnectAttempts == if d.NoAnswer? then old(reconnectAttempts) + 1 else 0
      ensures !old(connected) ==> authenticated == (d.Accepted? || (!d.Refused? && old(authenticated)))
      ensures !old(connected) ==>
                match d
                case NoAnswer => socket == old(socket)
                case Refused => socket == null
                case Accepted(script) => fresh(socket) && socket.incoming == script && socket.outgoing == []
                case _ => fresh(socket)
    {
      if connected {
        return true, false;
      }
      match d {
        case NoAnswer =>
          reconnectAttempts := reconnectAttempts + 1;
          return false, false;
        case Refused =>
          Open([]);
          Disconnect();
          return false, false;
        case HandshakeBroken =>
          Open([]);
          connected := false;
          Disconnect();
          return false, false;
        case HandshakeRaises =>
          Open([]);
          return false, true;
        case Accepted(script) =>
          Open(script);
          authenticated := true;
          return true, false;
      }
    }

    /** The transport of `connect` works. */
    method Open(script: Script)
      modifies this`socket, this`connected, this`reconnectAttempts
      ensures connected && reconnectAttempts == 0
      ensures socket != null && fresh(socket) && socket.incoming == script && socket.outgoing == []
    {
      socket := new Socket(script);
      connected := true;
      reconnectAttempts := 0;
    }

    /** `disconnect`.  A connection already lost keeps its socket and its `authenticated` flag. */
    method Disconnect()
      modifies this`socket, this`connected, this`authenticated
      ensures !connected && authenticated == (old(authenticated) && !old(connected))
      ensures socket == if old(connected) then null else old(socket)
    {
      if !connected {
        return;
      }
      socket := null;
      connected := false;
      authenticated := false;
    }

    /** `reconnect` */
    method Reconnect(d: Dial) returns (ok: bool, escaped: bool, slept: nat)
      modifies this`socket, this`connected, this`authenticated, this`reconnectAttempts
      ensures Valid() && connected == (ok || escaped)
      ensures ok == d.Accepted? && escaped == d.HandshakeRaises?
      ensures slept == Delay(old(reconnectAttempts))
      ensures reconnectAttempts == if d.NoAnswer? then old(reconnectAttempts) + 1 else 0
      ensures (connected ==> fresh(socket)) && (socket == null || socket == old(socket) || fresh(socket))
      ensures d.Accepted? ==> authenticated && socket.incoming == d.script && socket.outgoing == []
    {
      Disconnect();
      slept := Delay(reconnectAttempts);
      ok, escaped := Connect(d);
    }

    /** `_send_message`.  `sign` is how the token signs; `fault` says that `sendall` raises after that many bytes. */
    method SendMessage(m: Message, sign: Signer, fault: Option<nat>) returns (ok: bool, after: Message)
      requires Sendable(m)
      modifies this`connected, this`bytesSent, this`messagesSent, socket
      ensures socket != null ==> socket.incoming == old(socket.incoming)
      ensures after == (if old(connected) && socket != null then Signed(m, authenticated, sign) else m)
      ensures var data := Payload(m, authenticated, sign);
              if !old(connected) || socket == null || |data| > MAX_MESSAGE_SIZE then
                && !ok && connected == old(connected) && (socket != null ==> socket.outgoing == old(socket.outgoing))
                && bytesSent == old(bytesSent) && messagesSent == old(messagesSent)
              else if fault.Some? then
                && !ok && !connected && bytesSent == old(bytesSent) && messagesSent == old(messagesSent)
                && socket.outgoing == old(socket.outgoing) + Cut(Frame(data), fault.value)
              else
                && ok && connected && socket.outgoing == old(socket.outgoing) + Frame(data)
                && bytesSent == old(bytesSent) + |Frame(data)| && messagesSent == old(messagesSent) + 1
    {
      after := m;
      if socket == null || !connected {
        return false, after;
      }
      var data := ToBytes(m);
      if GetsSigned(m, authenticated) {
        after := m.(signature := Some(Sign(sign, data)));
        data := Spliced(ToBytes(after), Sign(sign, data));
      }
      var length := |data|;
      if length > MAX_MESSAGE_SIZE {
        return false, after;
      }
      var frame := Header(length) + data;
      if fault.Some? {
        socket.outgoing := socket.outgoing + Cut(frame, fault.value);
        connected := false;
        return false, after;
      }
      socket.outgoing := socket.outgoing + frame;
      bytesSent := bytesSent + length + HEADER_SIZE;
      messagesSent := messagesSent + 1;
      return true, after;
    }

    /** `_recv_exact` */
    method ReceiveExact(n: nat) returns (g: Got)
      requires socket != null
      modifies socket`incoming
      ensures (g, socket.incoming) == RecvExact(old(socket.incoming), n, [])
    {
      var data: Bytes := [];
      while |data| < n
        invariant |data| <= n
        invariant RecvExact(old(socket.incoming), n, []) == RecvExact(socket.incoming, n, data)
        decreases n - |data|
      {
        RecvConserves(socket.incoming, n - |data|);
        var chunk := socket.Receive(n - |data|);
        if !chunk.Data? {
          return chunk;
        }
        data := data + chunk.bytes;
      }
      return Data(data);
    }

    /** `_receive_message` on a live connection; its effect on the stream is that of `ReceiveFrame`. */
    method ReceiveMessage() returns (r: Reception)
      modifies this`connected, this`bytesReceived, this`messagesReceived, socket
      ensures old(connected) && socket != null ==>
                var (o, rest) := ReceiveFrame(old(socket.incoming));
                && socket.incoming == rest && socket.outgoing == old(socket.outgoing)
                && connected == !(o.Broken? || (o.Body? && FromBytes(o.data).NotJson?))
                && bytesReceived == old(bytesReceived) + (if o.Body? then |o.data| + HEADER_SIZE else 0)
                && messagesReceived == old(messagesReceived) + (if o.Body? then 1 else 0)
                && r == (if !o.Body? then Nothing
                         else match FromBytes(o.data)
                           case Decoded(m) => Got(m)
                           case NotJson => Nothing
                           case Raises => Escaped)
      ensures !(old(connected) && socket != null) ==>
                r == Nothing && connected == old(connected) && bytesReceived == old(bytesReceived)
                && messagesReceived == old(messagesReceived) && (socket != null ==> unchanged(socket))
    {
      if socket == null || !connected {
        return Nothing;
      }
      var header := ReceiveExact(HEADER_SIZE);
      ExactConserves(old(socket.incoming), HEADER_SIZE, []);
      if !header.Data? {
        connected := !header.Failed?;
        return Nothing;
      }
      var length := HeaderValue(header.bytes);
      if length > MAX_MESSAGE_SIZE {
        return Nothing;
      }
      ExactConserves(socket.incoming, length, []);
      var data := ReceiveExact(length);
      if !data.Data? {
        connected := !data.Failed?;
        return Nothing;
      }
      if data.bytes == [] {
        return Nothing;
      }
      bytesReceived := bytesReceived + length + HEADER_SIZE;
      messagesReceived := messagesReceived + 1;
      match FromBytes(data.bytes) {
        case Decoded(m) =>
          return Got(m);
        case NotJson =>
          connected := false;
          return Nothing;
        case Raises =>
          return Escaped;
      }
    }

    /** `_sender_loop` over a queue: refused messages are skipped, and once the socket is broken every message is. */
    method SenderLoop(queue: seq<Message>, sign: Signer, faults: seq<Option<nat>>)
      requires socket != null && connected
      requires AllSendable(queue) && |faults| == |queue|
      modifies this`connected, this`bytesSent, this`messagesSent, socket
      ensures socket.incoming == old(socket.incoming)
      ensures var t := Transmit(queue, authenticated, sign, faults);
              && AllFit(t.sent, authenticated, sign) && connected == t.up
              && socket.outgoing == old(socket.outgoing) + OnWire(t, authenticated, sign)
              && bytesSent == old(bytesSent) + |Wire(Payloads(t.sent, authenticated, sign))|
              && messagesSent == old(messagesSent) + |t.sent|
    {
      hide ToBytes, Spliced, Payload, Payloads, Wire, Frame, AllFit, Fits, Cut, Transmit, SentOn, OnWire;
      ghost var before := socket.outgoing;
      ghost var t := Transmission([], [], true);
      NoneSent(authenticated, sign);
      var i := 0;
      while i < |queue|
        invariant 0 <= i <= |queue| && authenticated == old(authenticated) && socket.incoming == old(socket.incoming)
        invariant t == Transmit(queue[..i], authenticated, sign, faults[..i])
        invariant connected == t.up && AllFit(t.sent, authenticated, sign)
        invariant socket.outgoing == before + OnWire(t, authenticated, sign)
        invariant bytesSent == old(bytesSent) + |Wire(Payloads(t.sent, authenticated, sign))|
        invariant messagesSent == old(messagesSent) + |t.sent|
      {
        TransmitMore(queue, authenticated, sign, faults, i);
        SentMore(t, queue[i], authenticated, sign, faults[i], before);
        var ok, after := SendMessage(queue[i], sign, faults[i]);
        t := SentOn(t, queue[i], authenticated, sign, faults[i]);
        i := i + 1;
      }
      assert queue[..|queue|] == queue && faults[..|queue|] == faults;
    }

    /** The receive of `_receiver_loop` on a connection that is up, with what it gains, and whether the loop ends: when
        nothing more comes or an exception escapes. */
    method Receive(ghost dials: seq<Dial>) returns (r: Reception, stop: bool, ghost gain: Yield)
      requires Valid() && connected
      modifies this`connected, this`bytesReceived, this`messagesReceived, socket
      ensures Valid() && (stop ==> connected)
      ensures !stop && connected ==> Left(socket.incoming) < old(Left(socket.incoming))
      ensures YieldOf(old(Live()), dials) == Plus(gain, if stop then NO_YIELD else YieldOf(Live(), dials))
      ensures gain.messages == (if r.Got? then [r.message] else []) && gain.attempts == 0
      ensures messagesReceived == old(messagesReceived) + gain.bodies
      ensures bytesReceived == old(bytesReceived) + gain.bytes
    {
      hide YieldOf, Plus, FromBytes, ReceiveFrame;
      if Over(socket.incoming) {
        OverYield(socket.incoming, dials);
        PlusLaws(NO_YIELD, NO_YIELD, NO_YIELD);
        return Nothing, true, NO_YIELD;
      }
      ReceiveConsumes(socket.incoming);
      OneTurn(socket.incoming, dials);
      gain := Gain(ReceiveFrame(socket.incoming).0);
      GainIs(ReceiveFrame(socket.incoming).0);
      r := ReceiveMessage();
      stop := r.Escaped?;
    }

    /** The attempt of `_receiver_loop` on a connection that is down, likewise. */
    method Redial(d: Dial, ghost rest: seq<Dial>) returns (stop: bool, slept: nat)
      requires !connected
      modifies this`socket, this`connected, this`authenticated, this`reconnectAttempts
      ensures Valid() && (stop ==> connected) && (socket == null || socket == old(socket) || fresh(socket))
      ensures YieldOf(None, [d] + rest) == Plus(ATTEMPT, if stop then NO_YIELD else YieldOf(Live(), rest))
      ensures slept == Delay(old(reconnectAttempts))
      ensures reconnectAttempts == Next(old(reconnectAttempts), AttemptOf(d))
    {
      hide YieldOf, Plus;
      DialYield(d, rest);
      var ok;
      ok, stop, slept := Reconnect(d);
    }

    /** One or the other: `naps` is the sleep, if there was an attempt. */
    method Turn(dials: seq<Dial>) returns (r: Reception, naps: seq<nat>, stop: bool, ghost gain: Yield)
      requires Valid() && (connected || dials != [])
      modifies this`socket, this`connected, this`authenticated, this`reconnectAttempts, this`bytesReceived,
               this`messagesReceived, socket
      ensures Valid() && (stop ==> connected) && (socket == null || socket == old(socket) || fresh(socket))
      ensures |naps| == gain.attempts == (if old(connected) then 0 else 1)
      ensures !stop && old(connected) && connected ==>
                Left(socket.incoming) < old(if connected then Left(socket.incoming) else 0)
      ensures YieldOf(old(Live()), dials) == Plus(gain, if stop then NO_YIELD else YieldOf(Live(), dials[|naps|..]))
      ensures gain.messages == (if r.Got? then [r.message] else [])
      ensures messagesReceived == old(messagesReceived) + gain.bodies
      ensures bytesReceived == old(bytesReceived) + gain.bytes
      ensures Slept(old(reconnectAttempts), dials[..|naps|], naps, reconnectAttempts)
    {
      hide YieldOf, Plus, Left, Slept;
      NoDial(reconnectAttempts);
      if connected {
        assert dials[0..] == dials && dials[..0] == [];
        r, stop, gain := Receive(dials);
        naps := [];
      } else {
        assert dials == [dials[0]] + dials[1..];
        assert dials[..1] == [dials[0]];
        OneDial(reconnectAttempts, dials[0]);
        var nap;
        stop, nap := Redial(dials[0], dials[1..]);
        r, naps, gain := Nothing, [nap], ATTEMPT;
      }
    }

    /** `_receiver_loop`: receives while the connection is up and dials when it is down, until the last connection
        brings nothing more, an exception escapes or the attempts run out.  Returns the messages it hands to the
        dispatcher and its sleeps. */
    method ReceiverLoop(dials: seq<Dial>) returns (delivered: seq<Message>, slept: seq<nat>)
      requires Valid()
      modifies this`socket, this`connected, this`authenticated, this`reconnectAttempts, this`bytesReceived,
               this`messagesReceived, socket
      ensures Valid()
      ensures var sessions := Sessions(old(Live()), dials);
              && delivered == AllDelivered(sessions)
              && messagesReceived == old(messagesReceived) + |AllTaken(sessions)|
              && bytesReceived == old(bytesReceived) + WireLength(AllTaken(sessions))
      ensures |slept| == Dialled(old(Live()), dials)
      ensures Slept(old(reconnectAttempts), dials[..|slept|], slept, reconnectAttempts)
    {
      hide YieldOf, Plus, Slept, Left;
      delivered, slept := [], [];
      ghost var got, all := NO_YIELD, YieldOf(Live(), dials);
      assert dials[0..] == dials;
      PlusLaws(all, all, all);
      NoDial(reconnectAttempts);
      assert dials[..0] == [];
      while connected || |slept| < |dials|
        invariant |slept| <= |dials| && Valid() && (socket == null || socket == old(socket) || fresh(socket))
        invariant Plus(got, YieldOf(Live(), dials[|slept|..])) == all
        invariant delivered == got.messages && |slept| == got.attempts
        invariant messagesReceived == old(messagesReceived) + got.bodies
        invariant bytesReceived == old(bytesReceived) + got.bytes
        invariant Slept(old(reconnectAttempts), dials[..|slept|], slept, reconnectAttempts)
        decreases |dials| - |slept|, connected, if connected then Left(socket.incoming) else 0
      {
        ghost var i, counter := |slept|, reconnectAttempts;
        var r, naps, stop, gain := Turn(dials[|slept|..]);
        DialMore(old(reconnectAttempts), dials, i, slept, counter, naps, reconnectAttempts);
        slept := slept + naps;
        got := Gained(got, gain, if stop then NO_YIELD else YieldOf(Live(), dials[|slept|..]));
        if r.Got? {
          delivered := delivered + [r.message];
        }
        if stop {
          PlusLaws(got, got, got);
          break;
        }
      }
      if !connected {
        assert dials[|slept|..] == [];
        OverYield([], []);
        PlusLaws(got, got, got);
      }
      EndYield(got, all, old(Live()), dials);
    }
  }

  // ---------------------------------------------------------------------------------------------
  // End to end
  // ---------------------------------------------------------------------------------------------

  /** `network` brings what the sender put on the wire, in any pieces, with timeouts between frames only. */
  ghost predicate Brings(network: Script, t: Transmission, authenticated: bool, sign: Signer)
    requires AllFit(t.sent, authenticated, sign)
  {
    && Carries(network, Payloads(t.sent, authenticated, sign), t.part)
    && Aligned(network, Payloads(t.sent, authenticated, sign), |t.part|)
  }

  /** END TO END.  Any queue, signed message by message or not, crosses a network that may split its bytes in any way
      and time out between frames, also when the sender's socket breaks on the way: exactly the messages sent whole
      are delivered, in order, and as many bytes and messages are counted as the sender counts.  If the socket holds,
      those are the messages that are not oversized. */
  lemma EndToEnd(queue: seq<Message>, authenticated: bool, sign: Signer, faults: seq<Option<nat>>, network: Script)
    requires AllSendable(queue) && |faults| == |queue|
    requires Brings(network, Transmit(queue, authenticated, sign, faults), authenticated, sign)
    ensures var t := Transmit(queue, authenticated, sign, faults);
            && AllFit(t.sent, authenticated, sign)
            && Delivered(Bodies(network)) == AllReceived(t.sent)
            && |Taken(Bodies(network))| == |t.sent|
            && WireLength(Taken(Bodies(network))) == |Wire(Payloads(t.sent, authenticated, sign))|
            && t.sent <= Fitting(queue, authenticated, sign)
            && (t.up ==> t.sent == Fitting(queue, authenticated, sign))
  {
    hide Transmit, Fitting, Payloads, AllFit, CutFrame, Bodies, Delivered, Taken;
    TransmitIs(queue, authenticated, sign, faults);
    var t := Transmit(queue, authenticated, sign, faults);
    var bodies := Payloads(t.sent, authenticated, sign);
    Delivery(network, bodies, t.part);
    PayloadsDecode(t.sent, authenticated, sign);
    WireLengthIs(bodies);
  }

  /** A connection that brings what the sender sent is given up for a socket error and for nothing else: after an
      orderly close, in or between frames, the receiver loop stays on the dead connection and never dials again. */
  lemma RedialsIff(queue: seq<Message>, authenticated: bool, sign: Signer, faults: seq<Option<nat>>, network: Script,
                   dials: seq<Dial>)
    requires AllSendable(queue) && |faults| == |queue| && dials != []
    requires Brings(network, Transmit(queue, authenticated, sign, faults), authenticated, sign)
    ensures Dialled(Some(network), dials) > 0 <==> Fails(network)
  {
    hide Transmit, Fitting, Payloads, AllFit, CutFrame, Bodies, Delivered, Taken, AllMessages;
    TransmitIs(queue, authenticated, sign, faults);
    var t := Transmit(queue, authenticated, sign, faults);
    PayloadsDecode(t.sent, authenticated, sign);
    EndIs(network, Payloads(t.sent, authenticated, sign), t.part);
  }

  /** End to end for two agents: the counters of the receiver grow by what those of the sender grew by. */
  method Exchange(sender: AgentProtocol, receiver: AgentProtocol, queue: seq<Message>, sign: Signer,
                  faults: seq<Option<nat>>, network: Script) returns (delivered: seq<Message>)
    requires sender != receiver && sender.socket != null && receiver.socket != null && sender.socket != receiver.socket
    requires sender.connected && receiver.connected
    requires AllSendable(queue) && |faults| == |queue|
    requires Brings(network, Transmit(queue, sender.authenticated, sign, faults), sender.authenticated, sign)
    requires receiver.socket.incoming == network
    modifies sender, receiver, sender.socket, receiver.socket
    ensures delivered == AllReceived(Transmit(queue, old(sender.authenticated), sign, faults).sent)
    ensures receiver.messagesReceived - old(receiver.messagesReceived) == sender.messagesSent - old(sender.messagesSent)
    ensures receiver.bytesReceived - old(receiver.bytesReceived) == sender.bytesSent - old(sender.bytesSent)
  {
    hide Payloads, Bodies, Delivered, Taken, Carries, Aligned, CutFrame, Transmit, AllFit, Fitting, AllSendable;
    EndToEnd(queue, sender.authenticated, sign, faults, network);
    OneConnection(network);
    sender.SenderLoop(queue, sign, faults);
    var slept;
    delivered, slept := receiver.ReceiverLoop([]);
  }
}
