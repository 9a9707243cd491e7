/** What a sender puts on the wire: signing, refusing oversized messages, and breaking off when the socket does. */
module Sending {
  import opened Wrappers
  import opened Json
  import opened Messages
  import opened Framing

  /** The keyed hash of a token: the digest of each sequence of bytes. */
  type Signer = Bytes -> seq<Nibble>

  /** `hexdigest` */
  function HexDigest(digest: seq<Nibble>): (t: Text)
    ensures IsHex(t) && |t| == |digest|
  {
    if digest == [] then [] else [HexDigit(digest[0])] + HexDigest(digest[1..])
  }

  /** `AuthToken.sign` */
  function Sign(sign: Signer, data: Bytes): (t: Text)
    ensures IsHex(t)
  {
    HexDigest(sign(data))
  }

  /** A message is signed when it is sent once authenticated, unless it already carries a signature. */
  predicate GetsSigned(m: Message, authenticated: bool) {
    authenticated && (m.signature.None? || m.signature.value == [])
  }

  /** The bytes `_send_message` frames: a signature the message already carries is never sent. */
  function Payload(m: Message, authenticated: bool, sign: Signer): (b: Bytes)
    requires Sendable(m)
    ensures b != []
  {
    if GetsSigned(m, authenticated) then Spliced(ToBytes(m), Sign(sign, ToBytes(m))) else ToBytes(m)
  }

  /** The message object after it went through `_send_message` on a live connection, sent or not. */
  function Signed(m: Message, authenticated: bool, sign: Signer): Message
    requires Sendable(m)
  {
    if GetsSigned(m, authenticated) then m.(signature := Some(Sign(sign, ToBytes(m)))) else m
  }

  /** Sending a message again puts it on the wire without a signature, whatever signature it got first. */
  lemma SentAgain(m: Message, sign: Signer, sign': Signer)
    requires Sendable(m) && GetsSigned(m, true) && Sign(sign, ToBytes(m)) != []
    ensures var again := Signed(m, true, sign);
            && Payload(m, true, sign) == Spliced(ToBytes(m), Sign(sign, ToBytes(m)))
            && Sendable(again) && Payload(again, true, sign') == ToBytes(m)
  {
  }

  /** A message goes out unsigned exactly when it is not signed on the way: without authentication, or when it carries a
      signature already. */
  lemma UnsignedIff(m: Message, authenticated: bool, sign: Signer)
    requires Sendable(m)
    ensures Payload(m, authenticated, sign) == ToBytes(m) <==>
            !authenticated || (m.signature.Some? && m.signature.value != [])
  {
    if GetsSigned(m, authenticated) {
      assert |Payload(m, authenticated, sign)| > |ToBytes(m)|;
    }
  }

  /** Signing and verifying fit: the message object verifies under the token that signed it, and under another signature
      of the same bytes exactly when that is the same. */
  lemma SignThenVerify(m: Message, sign: Signer, sign': Signer)
    requires Sendable(m) && GetsSigned(m, true) && sign(ToBytes(m)) != []
    ensures var signed := Signed(m, true, sign);
            && Sendable(signed) && ToBytes(signed) == ToBytes(m)
            && Verifies(signed, Sign(sign, ToBytes(signed)))
            && (Verifies(signed, Sign(sign', ToBytes(signed))) <==> Sign(sign', ToBytes(m)) == Sign(sign, ToBytes(m)))
            && !Verifies(m, Sign(sign, ToBytes(m)))
  {
  }

  predicate AllSendable(queue: seq<Message>) {
    forall i :: 0 <= i < |queue| ==> Sendable(queue[i])
  }

  predicate Fits(m: Message, authenticated: bool, sign: Signer) {
    Sendable(m) && |Payload(m, authenticated, sign)| <= MAX_MESSAGE_SIZE
  }

  predicate AllFit(queue: seq<Message>, authenticated: bool, sign: Signer) {
    forall i :: 0 <= i < |queue| ==> Fits(queue[i], authenticated, sign)
  }

  /** The bytes of each message on the wire. */
  function Payloads(queue: seq<Message>, authenticated: bool, sign: Signer): (bodies: seq<Bytes>)
    requires AllFit(queue, authenticated, sign)
    ensures |bodies| == |queue| && ValidBodies(bodies)
  {
    if queue == [] then [] else [Payload(queue[0], authenticated, sign)] + Payloads(queue[1..], authenticated, sign)
  }

  // ---------------------------------------------------------------------------------------------
  // Sending a queue
  // ---------------------------------------------------------------------------------------------

  /** What became of a queue: the messages sent whole, what went out of the frame the socket broke in, and whether
      it still works. */
  datatype Transmission = Transmission(sent: seq<Message>, part: Bytes, up: bool)

  /** The first bytes of a frame, never all of it: `sendall` does not raise after the last byte. */
  function Cut(frame: Bytes, k: nat): (part: Bytes)
    requires frame != []
    ensures part <= frame && |part| < |frame|
  {
    frame[..if k < |frame| then k else |frame| - 1]
  }

  /** What one more message adds: nothing when it is oversized or the socket is broken; less than a frame when the
      socket breaks in it. */
  function SentOn(t: Transmission, m: Message, authenticated: bool, sign: Signer, fault: Option<nat>): (r: Transmission)
    requires Sendable(m)
    ensures AllFit(t.sent, authenticated, sign) ==> AllFit(r.sent, authenticated, sign)
  {
    if !t.up || !Fits(m, authenticated, sign) then t
    else if fault.Some? then Transmission(t.sent, Cut(Frame(Payload(m, authenticated, sign)), fault.value), false)
    else t.(sent := t.sent + [m])
  }

  /** Oversized messages are refused; at the first fault that a send meets, the socket breaks and the rest of the
      queue is dropped.  Fault `i` is how many bytes `sendall` gets out of message `i` before it raises. */
  function Transmit(queue: seq<Message>, authenticated: bool, sign: Signer, faults: seq<Option<nat>>): (t: Transmission)
    requires AllSendable(queue) && |faults| == |queue|
    ensures AllFit(t.sent, authenticated, sign)
  {
    if queue == [] then Transmission([], [], true)
    else
      var n := |queue| - 1;
      SentOn(Transmit(queue[..n], authenticated, sign, faults[..n]), queue[n], authenticated, sign, faults[n])
  }

  /** The messages of the queue that are not oversized. */
  function Fitting(queue: seq<Message>, authenticated: bool, sign: Signer): seq<Message> {
    if queue == [] then []
    else
      var n := |queue| - 1;
      Fitting(queue[..n], authenticated, sign) + (if Fits(queue[n], authenticated, sign) then [queue[n]] else [])
  }

  /** What is sent is the messages that fit, up to the one the socket broke in; of that one, less than a frame. */
  lemma {:induction false} TransmitIs(queue: seq<Message>, authenticated: bool, sign: Signer, faults: seq<Option<nat>>)
    requires AllSendable(queue) && |faults| == |queue|
    ensures var t := Transmit(queue, authenticated, sign, faults);
            && AllFit(t.sent, authenticated, sign) && CutFrame(t.part)
            && t.sent <= Fitting(queue, authenticated, sign)
            && (t.up ==> t.sent == Fitting(queue, authenticated, sign) && t.part == [])
            && (t.up <==> forall i :: 0 <= i < |queue| ==> faults[i].None? || !Fits(queue[i], authenticated, sign))
    decreases |queue|
  {
    hide Payload, Frame, Fits, CutFrame;
    if queue == [] {
      NoPart();
    } else {
      var n := |queue| - 1;
      TransmitIs(queue[..n], authenticated, sign, faults[..n]);
      assert forall i :: 0 <= i < n ==> queue[..n][i] == queue[i] && faults[..n][i] == faults[i];
      if Fits(queue[n], authenticated, sign) && faults[n].Some? {
        BodyFits(queue[n], authenticated, sign);
        PartOf(Payload(queue[n], authenticated, sign), faults[n].value);
      }
    }
  }

  lemma NoPart()
    ensures CutFrame([])
  {
    assert ValidBody([0]);
  }

  lemma PartOf(body: Bytes, k: nat)
    requires ValidBody(body)
    ensures CutFrame(Cut(Frame(body), k))
  {
  }

  /** The bytes it put on the wire. */
  function OnWire(t: Transmission, authenticated: bool, sign: Signer): Bytes
    requires AllFit(t.sent, authenticated, sign)
  {
    Wire(Payloads(t.sent, authenticated, sign)) + t.part
  }

  lemma TransmitMore(queue: seq<Message>, authenticated: bool, sign: Signer, faults: seq<Option<nat>>, i: nat)
    requires AllSendable(queue) && i < |queue| == |faults|
    ensures Transmit(queue[..i + 1], authenticated, sign, faults[..i + 1])
         == SentOn(Transmit(queue[..i], authenticated, sign, faults[..i]), queue[i], authenticated, sign, faults[i])
    ensures Transmit(queue[..i], authenticated, sign, faults[..i]).up ==>
              Transmit(queue[..i], authenticated, sign, faults[..i]).part == []
  {
    hide Fits, Cut, Payload;
    assert queue[..i + 1][..i] == queue[..i] && faults[..i + 1][..i] == faults[..i];
    UpIsWhole(queue[..i], authenticated, sign, faults[..i]);
  }

  lemma {:induction false} UpIsWhole(queue: seq<Message>, authenticated: bool, sign: Signer, faults: seq<Option<nat>>)
    requires AllSendable(queue) && |faults| == |queue|
    ensures var t := Transmit(queue, authenticated, sign, faults); t.up ==> t.part == []
    decreases |queue|
  {
    hide Fits, Cut, Payload;
    if queue != [] {
      var n := |queue| - 1;
      UpIsWhole(queue[..n], authenticated, sign, faults[..n]);
    }
  }

  /** What one more message adds to the messages and to the bytes sent. */
  lemma SentMore(t: Transmission, m: Message, authenticated: bool, sign: Signer, fault: Option<nat>, before: Bytes)
    requires AllFit(t.sent, authenticated, sign) && Sendable(m) && (t.up ==> t.part == [])
    ensures var t', body := SentOn(t, m, authenticated, sign, fault), Payload(m, authenticated, sign);
            var wire := before + OnWire(t, authenticated, sign);
            && AllFit(t'.sent, authenticated, sign)
            && if !t.up || |body| > MAX_MESSAGE_SIZE then t' == t
               else if fault.Some? then
                 && !t'.up && t'.sent == t.sent
                 && before + OnWire(t', authenticated, sign) == wire + Cut(Frame(body), fault.value)
               else
                 && t'.up && |t'.sent| == |t.sent| + 1
                 && before + OnWire(t', authenticated, sign) == wire + Frame(body)
                 && |Wire(Payloads(t'.sent, authenticated, sign))|
                    == |Wire(Payloads(t.sent, authenticated, sign))| + |Frame(body)|
  {
    hide Payload, Payloads, Fits, AllFit, Wire, Frame, Cut;
    BodyFits(m, authenticated, sign);
    if Fits(m, authenticated, sign) {
      FitsAll(t.sent, m, authenticated, sign);
      PayloadsSnoc(t.sent, m, authenticated, sign);
      WireSnoc(Payloads(t.sent, authenticated, sign), Payload(m, authenticated, sign));
    }
  }

  lemma {:induction false} PayloadsSnoc(done: seq<Message>, m: Message, authenticated: bool, sign: Signer)
    requires AllFit(done, authenticated, sign) && AllFit(done + [m], authenticated, sign)
    requires Fits(m, authenticated, sign)
    ensures Payloads(done + [m], authenticated, sign)
         == Payloads(done, authenticated, sign) + [Payload(m, authenticated, sign)]
  {
    hide Payload, Fits;
    if done == [] {
      assert done + [m] == [m] && [m][1..] == [];
    } else {
      assert (done + [m])[0] == done[0] && (done + [m])[1..] == done[1..] + [m];
      PayloadsSnoc(done[1..], m, authenticated, sign);
    }
  }

  lemma FitsAll(done: seq<Message>, m: Message, authenticated: bool, sign: Signer)
    requires AllFit(done, authenticated, sign) && Fits(m, authenticated, sign)
    ensures AllFit(done + [m], authenticated, sign) && Sendable(m) && ValidBody(Payload(m, authenticated, sign))
  {
  }

  lemma NoneSent(authenticated: bool, sign: Signer)
    ensures AllFit([], authenticated, sign) && Wire(Payloads([], authenticated, sign)) == []
    ensures Transmit([], authenticated, sign, []) == Transmission([], [], true)
    ensures OnWire(Transmission([], [], true), authenticated, sign) == []
  {
  }

  lemma BodyFits(m: Message, authenticated: bool, sign: Signer)
    requires Sendable(m)
    ensures Fits(m, authenticated, sign) <==> |Payload(m, authenticated, sign)| <= MAX_MESSAGE_SIZE
    ensures Fits(m, authenticated, sign) ==> ValidBody(Payload(m, authenticated, sign))
  {
  }

  lemma {:induction false} WireSnoc(bodies: seq<Bytes>, body: Bytes)
    requires ValidBodies(bodies) && ValidBody(body)
    ensures ValidBodies(bodies + [body]) && Wire(bodies + [body]) == Wire(bodies) + Frame(body)
  {
    hide Frame;
    if bodies == [] {
      assert bodies + [body] == [body] && [body][1..] == [];
    } else {
      assert (bodies + [body])[0] == bodies[0] && (bodies + [body])[1..] == bodies[1..] + [body];
      WireSnoc(bodies[1..], body);
    }
  }
}
