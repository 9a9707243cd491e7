/** What a receiver makes of the streams of its connections, one after another. */
module Receiving {
  import opened Wrappers
  import opened Messages
  import opened Framing
  import opened Reconnect
  import opened Sending

  // ---------------------------------------------------------------------------------------------
  // One connection
  // ---------------------------------------------------------------------------------------------

  /** Bytes on the wire for bodies of any length. */
  function WireLength(bodies: seq<Bytes>): nat {
    if bodies == [] then 0 else HEADER_SIZE + |bodies[0]| + WireLength(bodies[1..])
  }

  lemma {:induction false} WireLengthIs(bodies: seq<Bytes>)
    requires ValidBodies(bodies)
    ensures WireLength(bodies) == |Wire(bodies)|
  {
    if bodies != [] {
      WireLengthIs(bodies[1..]);
    }
  }

  /** The bodies a receiver takes off the stream: it stops at the first that is no message. */
  function Taken(bodies: seq<Bytes>): seq<Bytes> {
    if bodies == [] then []
    else [bodies[0]] + (if FromBytes(bodies[0]).Decoded? then Taken(bodies[1..]) else [])
  }

  /** The messages it delivers. */
  function Delivered(bodies: seq<Bytes>): seq<Message> {
    if bodies == [] || !FromBytes(bodies[0]).Decoded? then []
    else [FromBytes(bodies[0]).message] + Delivered(bodies[1..])
  }

  /** How a connection ends for the receiver: an error makes it `Lost`; `Idle`, nothing more comes, which an orderly
      close looks like too; `Died`, an exception escapes and ends the thread. */
  datatype Ending = Lost | Idle | Died

  function EndOf(s: Script): Ending
    decreases Left(s)
  {
    if Over(s) then Idle
    else
      ReceiveConsumes(s);
      var (o, s') := ReceiveFrame(s);
      if o.Broken? then Lost
      else if !o.Body? then EndOf(s')
      else match FromBytes(o.data)
        case Decoded(_) => EndOf(s')
        case NotJson => Lost
        case Raises => Died
  }

  /** A connection attempt: no transport; a handshake that is refused, in which the socket fails, or whose answer
      raises an exception; or one accepted, and what comes after it. */
  datatype Dial = NoAnswer | Refused | HandshakeBroken | HandshakeRaises | Accepted(script: Script)

  function AttemptOf(d: Dial): Attempt {
    match d
    case NoAnswer => Unreachable
    case Accepted(_) => Reached(true)
    case _ => Reached(false)
  }

  function AttemptsOf(dials: seq<Dial>): (r: seq<Attempt>)
    ensures |r| == |dials|
  {
    seq(|dials|, i requires 0 <= i < |dials| => AttemptOf(dials[i]))
  }

  function Link(d: Dial): Option<Script> { if d.Accepted? then Some(d.script) else None }

  /** The connections the receiver loop lives through, from one that is up or none: a lost one makes it dial, and an
      exception in a handshake ends it. */
  function Sessions(live: Option<Script>, dials: seq<Dial>): seq<Script>
    decreases |dials|, if live.Some? then 1 else 0
  {
    if live.Some? then [live.value] + (if EndOf(live.value).Lost? then Sessions(None, dials) else [])
    else if dials == [] || dials[0].HandshakeRaises? then []
    else Sessions(Link(dials[0]), dials[1..])
  }

  /** The attempts it makes. */
  function Dialled(live: Option<Script>, dials: seq<Dial>): (n: nat)
    ensures n <= |dials|
    decreases |dials|, if live.Some? then 1 else 0
  {
    if live.Some? then if EndOf(live.value).Lost? then Dialled(None, dials) else 0
    else if dials == [] then 0
    else if dials[0].HandshakeRaises? then 1
    else 1 + Dialled(Link(dials[0]), dials[1..])
  }

  /** The messages of all connections, and the bodies counted. */
  function AllDelivered(sessions: seq<Script>): seq<Message> {
    if sessions == [] then [] else Delivered(Bodies(sessions[0])) + AllDelivered(sessions[1..])
  }

  function AllTaken(sessions: seq<Script>): seq<Bytes> {
    if sessions == [] then [] else Taken(Bodies(sessions[0])) + AllTaken(sessions[1..])
  }

  lemma {:induction false} WireLengthConcat(a: seq<Bytes>, b: seq<Bytes>)
    ensures WireLength(a + b) == WireLength(a) + WireLength(b)
  {
    if a == [] {
      assert a + b == b;
    } else {
      assert (a + b)[1..] == a[1..] + b;
      WireLengthConcat(a[1..], b);
    }
  }

  /** How one receive moves the end of a connection on. */
  lemma EndMoves(s: Script)
    requires !Over(s)
    ensures var (o, s') := ReceiveFrame(s);
            EndOf(s) == if o.Broken? then Lost
                        else if !o.Body? || FromBytes(o.data).Decoded? then EndOf(s')
                        else if FromBytes(o.data).NotJson? then Lost
                        else Died
  {
    hide ReceiveFrame, FromBytes;
  }

  /** A header that announces too much, or nothing, costs four bytes and not the connection. */
  lemma BadHeaderCosts(s: Script)
    requires |Clear(s)| >= HEADER_SIZE
    requires var n := HeaderValue(Clear(s)[..HEADER_SIZE]); n > MAX_MESSAGE_SIZE || n == 0
    ensures Bodies(s) == Bodies(Take(s, HEADER_SIZE)) && EndOf(s) == EndOf(Take(s, HEADER_SIZE))
  {
    hide ReceiveFrame, Take, HeaderValue, Bodies;
    BadHeader(s);
    BodiesFirst(s);
    EndMoves(s);
  }

  /** What a receiver loop yields: messages handed on, bodies and bytes counted, and attempts made. */
  datatype Yield = Yield(messages: seq<Message>, bodies: nat, bytes: nat, attempts: nat)

  const NO_YIELD := Yield([], 0, 0, 0)

  const ATTEMPT := Yield([], 0, 0, 1)

  function Plus(a: Yield, b: Yield): Yield {
    Yield(a.messages + b.messages, a.bodies + b.bodies, a.bytes + b.bytes, a.attempts + b.attempts)
  }

  function YieldOf(live: Option<Script>, dials: seq<Dial>): Yield {
    var all := Sessions(live, dials);
    Yield(AllDelivered(all), |AllTaken(all)|, WireLength(AllTaken(all)), Dialled(live, dials))
  }

  /** What one body adds, and one receive. */
  function BodyGain(b: Bytes): Yield {
    Yield(match FromBytes(b) case Decoded(m) => [m] case _ => [], 1, HEADER_SIZE + |b|, 0)
  }

  function Gain(o: Outcome): Yield { if o.Body? then BodyGain(o.data) else NO_YIELD }

  lemma GainIs(o: Outcome)
    ensures Gain(o).attempts == 0 && Gain(o).bodies == (if o.Body? then 1 else 0)
    ensures Gain(o).bytes == (if o.Body? then |o.data| + HEADER_SIZE else 0)
    ensures Gain(o).messages == if o.Body? then (match FromBytes(o.data) case Decoded(m) => [m] case _ => []) else []
  {
    hide FromBytes;
  }

  /** What the bodies of one connection yield. */
  function BodiesYield(bodies: seq<Bytes>): Yield {
    Yield(Delivered(bodies), |Taken(bodies)|, WireLength(Taken(bodies)), 0)
  }

  lemma BodyFirst(b: Bytes, rest: seq<Bytes>)
    ensures BodiesYield([b] + rest) == Plus(BodyGain(b), if FromBytes(b).Decoded? then BodiesYield(rest) else NO_YIELD)
  {
    hide FromBytes;
    assert ([b] + rest)[1..] == rest;
    var taken := if FromBytes(b).Decoded? then Taken(rest) else [];
    assert Taken([b] + rest) == [b] + taken;
    assert ([b] + taken)[1..] == taken;
  }

  lemma NoBody()
    ensures BodiesYield([]) == NO_YIELD
  {
  }

  lemma PlusLaws(a: Yield, b: Yield, c: Yield)
    ensures Plus(Plus(a, b), c) == Plus(a, Plus(b, c))
    ensures Plus(a, NO_YIELD) == Plus(NO_YIELD, a) == a
  {
    assert a.messages + (b.messages + c.messages) == a.messages + b.messages + c.messages;
  }

  /** The connection that is up comes first. */
  lemma FirstSession(s: Script, dials: seq<Dial>)
    ensures YieldOf(Some(s), dials)
         == Plus(BodiesYield(Bodies(s)), if EndOf(s).Lost? then YieldOf(None, dials) else NO_YIELD)
  {
    hide Plus, BodiesYield, AllDelivered, AllTaken;
    var more := if EndOf(s).Lost? then Sessions(None, dials) else [];
    assert Sessions(Some(s), dials) == [s] + more;
    SessionsYield(s, more, if EndOf(s).Lost? then Dialled(None, dials) else 0);
    SessionsYield(s, [], 0);
  }

  lemma SessionsYield(s: Script, more: seq<Script>, attempts: nat)
    ensures var all := [s] + more;
            Yield(AllDelivered(all), |AllTaken(all)|, WireLength(AllTaken(all)), attempts)
            == Plus(BodiesYield(Bodies(s)),
                    Yield(AllDelivered(more), |AllTaken(more)|, WireLength(AllTaken(more)), attempts))
    ensures Yield(AllDelivered([]), |AllTaken([])|, WireLength(AllTaken([])), 0) == NO_YIELD
  {
    hide Bodies, Delivered, Taken;
    assert ([s] + more)[1..] == more;
    WireLengthConcat(Taken(Bodies(s)), AllTaken(more));
  }

  lemma ReceiveYield(s: Script)
    requires !Over(s)
    ensures var (o, s') := ReceiveFrame(s);
            BodiesYield(Bodies(s)) ==
              Plus(Gain(o), if !o.Broken? && (o.Body? ==> FromBytes(o.data).Decoded?) then BodiesYield(Bodies(s'))
                            else NO_YIELD)
  {
    hide ReceiveFrame, FromBytes, Bodies, BodiesYield, BodyGain, Plus;
    var (o, s') := ReceiveFrame(s);
    BodiesFirst(s);
    NoBody();
    PlusLaws(BodiesYield(Bodies(s')), NO_YIELD, NO_YIELD);
    PlusLaws(NO_YIELD, NO_YIELD, NO_YIELD);
    if o.Body? {
      BodyFirst(o.data, Bodies(s'));
    }
  }

  /** One receive takes its gain off everything still to come. */
  lemma OneTurn(s: Script, dials: seq<Dial>)
    requires !Over(s)
    ensures var (o, s') := ReceiveFrame(s);
            var up := !o.Broken? && (o.Body? ==> FromBytes(o.data).Decoded?);
            YieldOf(Some(s), dials) ==
              Plus(Gain(o), if o.Body? && FromBytes(o.data).Raises? then NO_YIELD
                            else YieldOf(if up then Some(s') else None, dials))
  {
    hide ReceiveFrame, FromBytes, EndOf, Bodies, YieldOf, BodiesYield, Plus, Gain;
    var (o, s') := ReceiveFrame(s);
    FirstSession(s, dials);
    FirstSession(s', dials);
    ReceiveYield(s);
    EndMoves(s);
    var more := if EndOf(s).Lost? then YieldOf(None, dials) else NO_YIELD;
    PlusLaws(Gain(o), BodiesYield(Bodies(s')), more);
    PlusLaws(Gain(o), NO_YIELD, more);
    PlusLaws(more, more, more);
  }

  /** Nothing comes any more from a connection that is over. */
  lemma OverYield(s: Script, dials: seq<Dial>)
    ensures Over(s) ==> YieldOf(Some(s), dials) == NO_YIELD
    ensures YieldOf(None, []) == NO_YIELD
  {
    hide BodiesYield, Plus;
    FirstSession(s, dials);
    NoBody();
    PlusLaws(NO_YIELD, NO_YIELD, NO_YIELD);
  }

  /** A connection that is down takes the next attempt. */
  lemma DialYield(d: Dial, rest: seq<Dial>)
    ensures YieldOf(None, [d] + rest) == Plus(ATTEMPT, if d.HandshakeRaises? then NO_YIELD else YieldOf(Link(d), rest))
  {
    hide AllDelivered, AllTaken, WireLength, Sessions, Dialled, Link, Plus;
    DialSessions(d, rest);
    NoSession();
    PlusLaws(ATTEMPT, ATTEMPT, ATTEMPT);
    if !d.HandshakeRaises? {
      var all, n := Sessions(Link(d), rest), Dialled(Link(d), rest);
      assert YieldOf(None, [d] + rest) == Yield(AllDelivered(all), |AllTaken(all)|, WireLength(AllTaken(all)), 1 + n);
      AttemptFirst(AllDelivered(all), |AllTaken(all)|, WireLength(AllTaken(all)), n);
    }
  }

  lemma AttemptFirst(messages: seq<Message>, bodies: nat, bytes: nat, n: nat)
    ensures Plus(ATTEMPT, Yield(messages, bodies, bytes, n)) == Yield(messages, bodies, bytes, 1 + n)
  {
    assert [] + messages == messages;
  }

  lemma DialSessions(d: Dial, rest: seq<Dial>)
    ensures Sessions(None, [d] + rest) == if d.HandshakeRaises? then [] else Sessions(Link(d), rest)
    ensures Dialled(None, [d] + rest) == if d.HandshakeRaises? then 1 else 1 + Dialled(Link(d), rest)
  {
    hide EndOf;
    var dials := [d] + rest;
    assert dials[0] == d && dials[1..] == rest;
  }

  lemma NoSession()
    ensures AllDelivered([]) == [] && AllTaken([]) == [] && WireLength([]) == 0
  {
  }

  /** What has been got, with a gain. */
  lemma Gained(got: Yield, gain: Yield, more: Yield) returns (now: Yield)
    ensures now == Yield(got.messages + gain.messages, got.bodies + gain.bodies, got.bytes + gain.bytes,
                         got.attempts + gain.attempts)
    ensures Plus(now, more) == Plus(got, Plus(gain, more))
  {
    now := Plus(got, gain);
    PlusLaws(got, gain, more);
  }

  lemma EndYield(got: Yield, all: Yield, live: Option<Script>, dials: seq<Dial>)
    requires got == all == YieldOf(live, dials)
    ensures got.messages == AllDelivered(Sessions(live, dials)) && got.bodies == |AllTaken(Sessions(live, dials))|
    ensures got.bytes == WireLength(AllTaken(Sessions(live, dials))) && got.attempts == Dialled(live, dials)
  {
  }

  /** The sleeps and the counter after some attempts. */
  predicate Slept(n: nat, dials: seq<Dial>, slept: seq<nat>, counter: nat) {
    slept == Sleeps(n, AttemptsOf(dials)) && counter == Counter(n, AttemptsOf(dials))
  }

  lemma NoDial(n: nat)
    ensures Slept(n, [], [], n)
  {
  }

  /** One more attempt, or none. */
  lemma DialMore(n: nat, dials: seq<Dial>, i: nat, slept: seq<nat>, counter: nat, naps: seq<nat>, now: nat)
    requires i + |naps| <= |dials| && |naps| <= 1 && Slept(n, dials[..i], slept, counter)
    requires Slept(counter, dials[i..][..|naps|], naps, now)
    ensures Slept(n, dials[..i + |naps|], slept + naps, now)
    ensures dials[i..][|naps|..] == dials[i + |naps|..]
  {
    if naps == [] {
      assert dials[i..][..0] == [] && slept + naps == slept;
      NoDial(counter);
    } else {
      assert dials[i..][..1] == [dials[i]];
      OneDial(counter, dials[i]);
      assert AttemptsOf(dials[..i + 1]) == AttemptsOf(dials[..i]) + [AttemptOf(dials[i])];
      SleepsSnoc(n, AttemptsOf(dials[..i]), AttemptOf(dials[i]));
    }
  }

  lemma OneDial(n: nat, d: Dial)
    ensures forall naps, now :: Slept(n, [d], naps, now) <==> naps == [Delay(n)] && now == Next(n, AttemptOf(d))
  {
    var run := [AttemptOf(d)];
    assert AttemptsOf([d]) == run && run[1..] == [];
    assert Sleeps(n, run) == [Delay(n)] + Sleeps(Next(n, run[0]), []);
    assert Counter(n, run) == Counter(Next(n, run[0]), []);
  }

  /** Without further attempts there is one connection. */
  lemma OneConnection(s: Script)
    ensures AllDelivered(Sessions(Some(s), [])) == Delivered(Bodies(s))
    ensures AllTaken(Sessions(Some(s), [])) == Taken(Bodies(s))
  {
    assert Sessions(Some(s), []) == [s] && [s][1..] == [];
  }

  predicate AllMessages(bodies: seq<Bytes>) {
    forall i :: 0 <= i < |bodies| ==> FromBytes(bodies[i]).Decoded?
  }

  /** What the receiver makes of each message. */
  function AllReceived(queue: seq<Message>): seq<Message> {
    if queue == [] then [] else [Received(queue[0])] + AllReceived(queue[1..])
  }

  lemma {:induction false} PayloadsDecode(queue: seq<Message>, authenticated: bool, sign: Signer)
    requires AllFit(queue, authenticated, sign)
    ensures Delivered(Payloads(queue, authenticated, sign)) == AllReceived(queue)
    ensures Taken(Payloads(queue, authenticated, sign)) == Payloads(queue, authenticated, sign)
    ensures AllMessages(Payloads(queue, authenticated, sign))
  {
    hide ToBytes, Spliced, FromBytes;
    if queue != [] {
      RoundTrip(queue[0]);
      SplicedRoundTrip(queue[0], Sign(sign, ToBytes(queue[0])));
      var bodies := Payloads(queue, authenticated, sign);
      assert bodies[1..] == Payloads(queue[1..], authenticated, sign);
      PayloadsDecode(queue[1..], authenticated, sign);
    }
  }

  // ---------------------------------------------------------------------------------------------
  // When a connection is given up
  // ---------------------------------------------------------------------------------------------

  /** A connection that carries messages, without a timeout inside a frame, is given up only for a socket error. */
  lemma {:induction false} EndIs(s: Script, bodies: seq<Bytes>, part: Bytes)
    requires ValidBodies(bodies) && AllMessages(bodies)
    requires Carries(s, bodies, part) && CutFrame(part) && Aligned(s, bodies, |part|)
    ensures EndOf(s) == if Fails(s) then Lost else Idle
    decreases Left(s)
  {
    hide ReceiveFrame, FromBytes, CutFrame, Header;
    if !Over(s) {
      EndMoves(s);
      ReceiveConsumes(s);
      if s[0].Timeout? {
        TimeoutFirst(s, bodies, part);
        assert s[1..] != [] ==> s[|s| - 1] == s[1..][|s| - 2];
        EndIs(s[1..], bodies, part);
      } else if s[0].Failure? {
        FailureFirst(s);
        assert s[1..] == [];
      } else if bodies == [] {
        LastReceive(s, part);
        EndMoves(s);
      } else if |Frame(bodies[0])| <= |Clear(s)| {
        var s' := WholeFrame(s, bodies, part);
        EndIs(s', bodies[1..], part);
      } else {
        BrokenFrame(s, bodies, part);
      }
    }
  }

  lemma FailureFirst(s: Script)
    requires s != [] && s[0].Failure?
    ensures ReceiveFrame(s).0 == Broken
  {
    assert RecvExact(s, HEADER_SIZE, []) == (Failed, s[1..]);
  }
}
