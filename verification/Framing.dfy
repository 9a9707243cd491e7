/** Length-prefixed framing over a byte stream that arrives in arbitrary pieces.

    The network's behaviour towards the receiver is a script of events; a theorem about every script is a
    theorem about every way `recv` may split the stream, time out, end or fail. */
module Framing {
  import opened Messages
  import opened Sequences

  const MAX_MESSAGE_SIZE: nat := 1024 * 1024
  const HEADER_SIZE: nat := 4

  // ---------------------------------------------------------------------------------------------
  // Frames
  // ---------------------------------------------------------------------------------------------

  /** `struct.pack(">I", n)` */
  function Header(n: nat): (h: Bytes)
    requires n < 0x1_0000_0000
    ensures |h| == HEADER_SIZE
  {
    [n / 0x100_0000, n / 0x1_0000 % 256, n / 256 % 256, n % 256]
  }

  function HeaderValue(h: Bytes): nat
    requires |h| == HEADER_SIZE
  {
    h[0] as int * 0x100_0000 + h[1] as int * 0x1_0000 + h[2] as int * 256 + h[3] as int
  }

  predicate ValidBody(b: Bytes) { 0 < |b| <= MAX_MESSAGE_SIZE }

  predicate ValidBodies(bodies: seq<Bytes>) {
    forall i :: 0 <= i < |bodies| ==> ValidBody(bodies[i])
  }

  function Frame(body: Bytes): Bytes
    requires ValidBody(body)
  {
    Header(|body|) + body
  }

  /** The bytes that sending `bodies` puts on the stream. */
  function Wire(bodies: seq<Bytes>): Bytes
    requires ValidBodies(bodies)
  {
    if bodies == [] then [] else Frame(bodies[0]) + Wire(bodies[1..])
  }

  // ---------------------------------------------------------------------------------------------
  // The stream
  // ---------------------------------------------------------------------------------------------

  type Piece = b: Bytes | b != [] witness [0]

  /** `Closed` is the peer's orderly end (every later `recv` returns nothing); `Failure` is a socket error. */
  datatype Event = Chunk(data: Piece) | Timeout | Closed | Failure

  type Script = seq<Event>

  /** The bytes still to come. */
  function Pending(s: Script): Bytes {
    if s == [] then [] else (if s[0].Chunk? then s[0].data else []) + Pending(s[1..])
  }

  /** What one `recv` call does; an exhausted script times out. */
  datatype Got = Data(bytes: Bytes) | AtEnd | TimedOut | Failed

  function Recv(s: Script, n: nat): (Got, Script)
    requires n > 0
  {
    if s == [] then (TimedOut, s)
    else
      match s[0]
      case Timeout => (TimedOut, s[1..])
      case Closed => (AtEnd, s)
      case Failure => (Failed, s[1..])
      case Chunk(d) =>
        if |d| <= n then (Data(d), s[1..]) else (Data(d[..n]), [Chunk(d[n..])] + s[1..])
  }

  /** `_recv_exact`: keep receiving until `n` bytes are there; anything but data drops what was read. */
  function RecvExact(s: Script, n: nat, acc: Bytes): (Got, Script)
    requires |acc| <= n
    decreases n - |acc|
  {
    if |acc| == n then (Data(acc), s)
    else
      var (g, s') := Recv(s, n - |acc|);
      if g.Data? && g.bytes != [] then RecvExact(s', n, acc + g.bytes) else (g, s')
  }

  /** What one `_receive_message` does to the stream, before the body is parsed. */
  datatype Outcome = Body(data: Bytes) | Interrupted | StreamEnd | Oversized | EmptyFrame | Broken

  function Stopped(g: Got): Outcome {
    match g
    case Data(_) => EmptyFrame
    case AtEnd => StreamEnd
    case TimedOut => Interrupted
    case Failed => Broken
  }

  function ReceiveFrame(s: Script): (Outcome, Script) {
    var (g, s1) := RecvExact(s, HEADER_SIZE, []);
    if !(g.Data? && |g.bytes| == HEADER_SIZE) then (Stopped(g), s1)
    else
      var n := HeaderValue(g.bytes);
      if n > MAX_MESSAGE_SIZE then (Oversized, s1)
      else
        var (g2, s2) := RecvExact(s1, n, []);
        if g2.Data? && g2.bytes != [] then (Body(g2.bytes), s2) else (Stopped(g2), s2)
  }

  /** Bytes and events left: what every receive makes smaller. */
  function Left(s: Script): nat { |Pending(s)| + |s| }

  /** Nothing more can arrive. */
  predicate Over(s: Script) { s == [] || s[0].Closed? }

  /** The bodies that repeated `_receive_message` calls get out of `s`, until the stream is over or breaks. */
  function Bodies(s: Script): seq<Bytes>
    decreases Left(s)
  {
    if Over(s) then []
    else
      var (o, s') := ReceiveFrame(s);
      ReceiveConsumes(s);
      match o
      case Body(b) => [b] + Bodies(s')
      case Broken => []
      case _ => Bodies(s')
  }

  /** What one receive takes off the bodies still to come. */
  lemma BodiesFirst(s: Script)
    requires !Over(s)
    ensures var (o, s') := ReceiveFrame(s);
            Bodies(s) == if o.Body? then [o.data] + Bodies(s') else if o.Broken? then [] else Bodies(s')
  {
  }

  // ---------------------------------------------------------------------------------------------
  // Conservation: received frames never hold more bytes than arrived
  // ---------------------------------------------------------------------------------------------

  lemma RecvConserves(s: Script, n: nat)
    requires n > 0
    ensures var (g, s') := Recv(s, n);
            && (g.Data? ==> 0 < |g.bytes| <= n && g.bytes + Pending(s') == Pending(s) && Left(s') < Left(s))
            && (!g.Data? ==> Pending(s') == Pending(s) && Left(s') <= Left(s))
            && (!Over(s) ==> Left(s') < Left(s))
  {
    if s != [] && s[0].Chunk? && |s[0].data| > n {
      RestOfChunk(s, n);
    }
  }

  lemma RestOfChunk(s: Script, n: nat)
    requires s != [] && s[0].Chunk? && 0 < n < |s[0].data|
    ensures var d, s' := s[0].data, [Chunk(s[0].data[n..])] + s[1..];
            d[..n] + Pending(s') == Pending(s) && |s'| == |s|
  {
    var d := s[0].data;
    var s' := [Chunk(d[n..])] + s[1..];
    assert s'[1..] == s[1..];
    assert Pending(s') == d[n..] + Pending(s[1..]);
    assert d[..n] + (d[n..] + Pending(s[1..])) == d + Pending(s[1..]);
  }

  lemma {:induction false} ExactConserves(s: Script, n: nat, acc: Bytes)
    requires |acc| <= n
    ensures var (g, s') := RecvExact(s, n, acc);
            && (g.Data? ==> |g.bytes| == n && g.bytes + Pending(s') == acc + Pending(s))
            && |Pending(s')| <= |Pending(s)| && Left(s') <= Left(s)
            && (|acc| < n && !Over(s) ==> Left(s') < Left(s))
    decreases n - |acc|
  {
    hide Recv, Pending, Left, Over;
    if |acc| < n {
      RecvConserves(s, n - |acc|);
      var (g, s') := Recv(s, n - |acc|);
      if g.Data? {
        ExactConserves(s', n, acc + g.bytes);
        assert acc + g.bytes + Pending(s') == acc + (g.bytes + Pending(s'));
      }
    }
  }

  lemma ReceiveConsumes(s: Script)
    ensures var (o, s') := ReceiveFrame(s);
            && |Pending(s')| <= |Pending(s)| && Left(s') <= Left(s)
            && (!Over(s) ==> Left(s') < Left(s))
            && (o.Body? ==> ValidBody(o.data) && |Pending(s')| + |o.data| + HEADER_SIZE == |Pending(s)|)
  {
    ExactConserves(s, HEADER_SIZE, []);
    var (g, s1) := RecvExact(s, HEADER_SIZE, []);
    if g.Data? && HeaderValue(g.bytes) <= MAX_MESSAGE_SIZE {
      ExactConserves(s1, HeaderValue(g.bytes), []);
    }
  }

  /** However the stream behaves, received bodies are valid and account for no more bytes than came in. */
  lemma {:induction false} Conservation(s: Script)
    ensures ValidBodies(Bodies(s))
    ensures |Wire(Bodies(s))| <= |Pending(s)|
    decreases Left(s)
  {
    if !Over(s) {
      ReceiveConsumes(s);
      var (o, s') := ReceiveFrame(s);
      if !o.Broken? {
        Conservation(s');
        if o.Body? {
          assert Bodies(s) == [o.data] + Bodies(s') && Bodies(s)[1..] == Bodies(s');
        }
      }
    }
  }

  // ---------------------------------------------------------------------------------------------
  // What a receive does to a stream with no interruption inside the frame
  // ---------------------------------------------------------------------------------------------

  /** The bytes before the first event that is not data, and the script from that event on. */
  function Clear(s: Script): Bytes {
    if s != [] && s[0].Chunk? then s[0].data + Clear(s[1..]) else []
  }

  function AfterClear(s: Script): Script {
    if s != [] && s[0].Chunk? then AfterClear(s[1..]) else s
  }

  /** `s` with the first `k` bytes taken. */
  function Take(s: Script, k: nat): Script
    requires k <= |Clear(s)|
  {
    if k == 0 then s
    else if k < |s[0].data| then [Chunk(s[0].data[k..])] + s[1..]
    else Take(s[1..], k - |s[0].data|)
  }

  /** A first piece with its first `k` bytes taken. */
  lemma TakePart(s: Script, k: nat)
    requires s != [] && s[0].Chunk? && k < |s[0].data|
    ensures var t := [Chunk(s[0].data[k..])] + s[1..];
            Pending(t) == Pending(s)[k..] && Clear(t) == Clear(s)[k..] && AfterClear(t) == AfterClear(s)
  {
    var d := s[0].data;
    var t := [Chunk(d[k..])] + s[1..];
    assert t[1..] == s[1..];
    assert d[k..] + Pending(s[1..]) == (d + Pending(s[1..]))[k..];
    assert d[k..] + Clear(s[1..]) == (d + Clear(s[1..]))[k..];
  }

  lemma {:induction false} TakeLeaves(s: Script, k: nat)
    requires k <= |Clear(s)|
    ensures |Clear(s)| <= |Pending(s)|
    ensures Pending(Take(s, k)) == Pending(s)[k..]
    ensures Clear(Take(s, k)) == Clear(s)[k..]
    ensures Clear(s)[..k] == Pending(s)[..k]
    ensures AfterClear(Take(s, k)) == AfterClear(s)
    decreases s
  {
    ClearFirst(s);
    if k > 0 {
      var d := s[0].data;
      if k < |d| {
        TakePart(s, k);
      } else {
        TakeLeaves(s[1..], k - |d|);
        Cuts(d, Pending(s[1..]), k);
        Cuts(d, Clear(s[1..]), k);
      }
    }
  }

  /** The stream is its clear part followed by the rest. */
  lemma {:induction false} ClearFirst(s: Script)
    ensures Pending(s) == Clear(s) + Pending(AfterClear(s))
    ensures AfterClear(s) != [] ==> !AfterClear(s)[0].Chunk?
    decreases s
  {
    if s != [] && s[0].Chunk? {
      ClearFirst(s[1..]);
      Regroup(s[0].data, Clear(s[1..]), Pending(AfterClear(s[1..])));
    }
  }

  /** Enough clear bytes: the exact number is read, wherever the pieces end. */
  lemma {:induction false} ExactClear(s: Script, n: nat, acc: Bytes)
    requires |acc| <= n && n - |acc| <= |Clear(s)|
    ensures RecvExact(s, n, acc) == (Data(acc + Clear(s)[..n - |acc|]), Take(s, n - |acc|))
    decreases n - |acc|
  {
    var k := n - |acc|;
    if k == 0 {
      assert acc + Clear(s)[..0] == acc;
    } else {
      var d := s[0].data;
      if |d| <= k {
        ExactClear(s[1..], n, acc + d);
        assert acc + d + Clear(s[1..])[..k - |d|] == acc + Clear(s)[..k];
      } else {
        var acc' := acc + d[..k];
        assert |acc'| == n;
        assert d[..k] == Clear(s)[..k];
      }
    }
  }

  /** Too few clear bytes: they are dropped, and the first event after them decides. */
  lemma {:induction false} ExactCut(s: Script, n: nat, acc: Bytes)
    requires |acc| <= n && n - |acc| > |Clear(s)|
    ensures RecvExact(s, n, acc) == Recv(AfterClear(s), 1)
    ensures !Recv(AfterClear(s), 1).0.Data?
    decreases n - |acc|
  {
    ClearFirst(s);
    if s != [] && s[0].Chunk? {
      ExactCut(s[1..], n, acc + s[0].data);
    }
  }

  lemma HeaderRoundTrip(n: nat)
    requires n < 0x1_0000_0000
    ensures HeaderValue(Header(n)) == n
  {
    assert n / 256 == n / 0x1_0000 * 256 + n / 256 % 256;
    assert n / 0x1_0000 == n / 0x100_0000 * 256 + n / 0x1_0000 % 256;
  }

  /** A frame whose bytes arrive uninterrupted is received whole. */
  lemma FrameClear(s: Script, body: Bytes)
    requires ValidBody(body) && Frame(body) <= Clear(s)
    ensures HEADER_SIZE <= |Clear(s)| && |body| <= |Clear(Take(s, HEADER_SIZE))| && |Frame(body)| <= |Pending(s)|
    ensures ReceiveFrame(s) == (Body(body), Take(Take(s, HEADER_SIZE), |body|))
    ensures Pending(Take(Take(s, HEADER_SIZE), |body|)) == Pending(s)[|Frame(body)|..]
  {
    hide RecvExact, Clear, Take, Pending, Header, HeaderValue;
    var n := |body|;
    ExactClear(s, HEADER_SIZE, []);
    TakeLeaves(s, HEADER_SIZE);
    assert [] + Clear(s)[..HEADER_SIZE] == Header(n) by {
      assert Frame(body)[..HEADER_SIZE] == Header(n);
    }
    HeaderRoundTrip(n);
    var s1 := Take(s, HEADER_SIZE);
    assert [] + Clear(s1)[..n] == body by {
      assert Clear(s1)[..n] == Clear(s)[HEADER_SIZE..][..n] == Frame(body)[HEADER_SIZE..];
    }
    ExactClear(s1, n, []);
    TakeLeaves(s1, n);
    assert Pending(s)[HEADER_SIZE..][n..] == Pending(s)[HEADER_SIZE + n..];
  }

  /** An oversized header, or an empty one, costs its four bytes and nothing else. */
  lemma BadHeader(s: Script)
    requires |Clear(s)| >= HEADER_SIZE
    ensures var n := HeaderValue(Clear(s)[..HEADER_SIZE]);
            && (n > MAX_MESSAGE_SIZE ==> ReceiveFrame(s) == (Oversized, Take(s, HEADER_SIZE)))
            && (n == 0 ==> ReceiveFrame(s) == (EmptyFrame, Take(s, HEADER_SIZE)))
    ensures |Pending(s)| >= HEADER_SIZE && Pending(Take(s, HEADER_SIZE)) == Pending(s)[HEADER_SIZE..]
  {
    ExactClear(s, HEADER_SIZE, []);
    TakeLeaves(s, HEADER_SIZE);
    assert [] + Clear(s)[..HEADER_SIZE] == Clear(s)[..HEADER_SIZE];
  }

  /** The header is in network order: its bytes are the base-256 digits of the length, the first one highest. */
  lemma NetworkOrder(a: Byte, b: Byte, c: Byte, d: Byte)
    ensures var n := ((a as int * 256 + b as int) * 256 + c as int) * 256 + d as int;
            Header(n) == [a, b, c, d] && HeaderValue([a, b, c, d]) == n
  {
    var n := ((a as int * 256 + b as int) * 256 + c as int) * 256 + d as int;
    assert n / 256 == (a as int * 256 + b as int) * 256 + c as int;
    assert n / 0x1_0000 == a as int * 256 + b as int;
    assert n / 0x100_0000 == a as int;
  }

  /** A frame cut short by the first event after the clear bytes: those bytes are lost. */
  lemma FrameCut(s: Script, body: Bytes)
    requires ValidBody(body) && Clear(s) <= Frame(body) && |Clear(s)| < |Frame(body)|
    ensures ReceiveFrame(s) == (Stopped(Recv(AfterClear(s), 1).0), Recv(AfterClear(s), 1).1)
    ensures !Recv(AfterClear(s), 1).0.Data?
  {
    hide RecvExact, Recv, Clear, AfterClear, Take, Pending, Header, HeaderValue;
    var n := |body|;
    if |Clear(s)| < HEADER_SIZE {
      ExactCut(s, HEADER_SIZE, []);
    } else {
      ExactClear(s, HEADER_SIZE, []);
      TakeLeaves(s, HEADER_SIZE);
      assert [] + Clear(s)[..HEADER_SIZE] == Header(n) by {
        assert Clear(s)[..HEADER_SIZE] == Frame(body)[..HEADER_SIZE] == Header(n);
      }
      HeaderRoundTrip(n);
      ExactCut(Take(s, HEADER_SIZE), n, []);
    }
  }

  // ---------------------------------------------------------------------------------------------
  // Exact delivery
  // ---------------------------------------------------------------------------------------------

  /** The stream ends `tail` bytes after the last frame of `bodies`; `remaining` bytes before its end, one of them
      starts or the last one ends. */
  predicate AtBoundary(remaining: nat, bodies: seq<Bytes>, tail: nat)
    requires ValidBodies(bodies)
  {
    exists j :: 0 <= j <= |bodies| && remaining == |Wire(bodies[j..])| + tail
  }

  /** Every timeout in `s` falls between two frames. */
  predicate Aligned(s: Script, bodies: seq<Bytes>, tail: nat)
    requires ValidBodies(bodies)
  {
    s != [] ==> (s[0].Timeout? ==> AtBoundary(|Pending(s[1..])|, bodies, tail)) && Aligned(s[1..], bodies, tail)
  }

  /** A frame that did not arrive whole: maybe nothing of it. */
  ghost predicate CutFrame(part: Bytes) {
    exists body :: ValidBody(body) && part <= Frame(body) && |part| < |Frame(body)|
  }

  /** The connection ends or fails, if it does, after everything else. */
  predicate EndsLast(s: Script) {
    forall i :: 0 <= i < |s| - 1 ==> !s[i].Closed? && !s[i].Failure?
  }

  /** The connection ends with a socket error. */
  predicate Fails(s: Script) { s != [] && s[|s| - 1].Failure? }

  lemma {:induction false} TakeKeeps(s: Script, k: nat, bodies: seq<Bytes>, tail: nat)
    requires k <= |Clear(s)| && ValidBodies(bodies)
    ensures Aligned(Take(s, k), bodies, tail) <==> Aligned(s, bodies, tail)
    ensures EndsLast(s) ==> EndsLast(Take(s, k))
    ensures Fails(Take(s, k)) <==> Fails(s)
    decreases s
  {
    if k > 0 {
      if k < |s[0].data| {
        var t := [Chunk(s[0].data[k..])] + s[1..];
        assert t[1..] == s[1..];
        assert forall i :: 0 < i < |s| ==> t[i] == s[i];
        assert EndsLast(s) ==> forall i :: 0 <= i < |t| - 1 ==> !t[i].Closed? && !t[i].Failure?;
      } else {
        TakeKeeps(s[1..], k - |s[0].data|, bodies, tail);
      }
    }
  }

  lemma {:induction false} WireLonger(bodies: seq<Bytes>, j: nat)
    requires ValidBodies(bodies) && j < |bodies|
    ensures |Wire(bodies[j + 1..])| < |Wire(bodies)|
    decreases j
  {
    if j > 0 {
      WireLonger(bodies[1..], j - 1);
      assert bodies[1..][j..] == bodies[j + 1..];
    }
  }

  /** Once the first frame is gone, the boundaries that matter are those of the other frames. */
  lemma {:induction false} AlignedTail(s: Script, bodies: seq<Bytes>, tail: nat)
    requires ValidBodies(bodies) && bodies != [] && |Pending(s)| <= |Wire(bodies[1..])| + tail
    ensures Aligned(s, bodies, tail) <==> Aligned(s, bodies[1..], tail)
    decreases s
  {
    if s != [] {
      AlignedTail(s[1..], bodies, tail);
      var r := |Pending(s[1..])|;
      if AtBoundary(r, bodies, tail) {
        var j :| 0 <= j <= |bodies| && r == |Wire(bodies[j..])| + tail;
        assert j > 0 by {
          WireLonger(bodies, 0);
        }
        assert bodies[1..][j - 1..] == bodies[j..];
      }
      if AtBoundary(r, bodies[1..], tail) {
        var j :| 0 <= j <= |bodies[1..]| && r == |Wire(bodies[1..][j..])| + tail;
        assert bodies[1..][j..] == bodies[j + 1..];
      }
    }
  }

  /** A timeout strictly inside the first frame is on no boundary. */
  lemma InsideFirstFrame(r: nat, bodies: seq<Bytes>, tail: nat)
    requires ValidBodies(bodies) && bodies != [] && |Wire(bodies[1..])| + tail < r < |Wire(bodies)| + tail
    ensures !AtBoundary(r, bodies, tail)
  {
    forall j | 0 <= j <= |bodies| ensures r != |Wire(bodies[j..])| + tail {
      if j > 1 {
        WireLonger(bodies[1..], j - 2);
        assert bodies[1..][j - 1..] == bodies[j..];
      }
    }
  }

  /** When a whole stream is still to come, an interruption before its end can only be a timeout. */
  lemma {:induction false} CutByTimeout(s: Script)
    requires EndsLast(s) && |Clear(s)| < |Pending(s)|
    ensures AfterClear(s) != [] && AfterClear(s)[0].Timeout?
    ensures |Pending(AfterClear(s)[1..])| == |Pending(s)| - |Clear(s)|
    decreases s
  {
    ClearFirst(s);
    if s[0].Chunk? {
      CutByTimeout(s[1..]);
    }
  }

  lemma {:induction false} NotAligned(s: Script, bodies: seq<Bytes>, tail: nat)
    requires ValidBodies(bodies) && AfterClear(s) != [] && AfterClear(s)[0].Timeout?
    requires !AtBoundary(|Pending(AfterClear(s)[1..])|, bodies, tail)
    ensures !Aligned(s, bodies, tail)
    decreases s
  {
    if s[0].Chunk? {
      NotAligned(s[1..], bodies, tail);
    }
  }

  /** `s` carries the frames of `bodies` and then `part` of one more, and ends after that. */
  predicate Carries(s: Script, bodies: seq<Bytes>, part: Bytes)
    requires ValidBodies(bodies)
  {
    Pending(s) == Wire(bodies) + part && EndsLast(s)
  }

  /** THE FRAMING LAW.  Whatever pieces the stream arrives in, and wherever it ends, repeated receives yield
      exactly the bodies whose frames arrived whole, in order, when no timeout falls inside a frame; and when the
      stream does not end inside a frame, only then. */
  lemma {:induction false} Delivery(s: Script, bodies: seq<Bytes>, part: Bytes)
    requires ValidBodies(bodies) && Carries(s, bodies, part) && CutFrame(part)
    ensures Aligned(s, bodies, |part|) ==> Bodies(s) == bodies
    ensures part == [] && Bodies(s) == bodies ==> Aligned(s, bodies, 0)
    decreases Left(s)
  {
    if s == [] {
    } else if s[0].Timeout? {
      TimeoutFirst(s, bodies, part);
      Delivery(s[1..], bodies, part);
    } else if !s[0].Chunk? {
      assert s[1..] == [];
      NothingLeft(s);
      assert |Wire(bodies) + part| == 0;
    } else if bodies == [] {
      LastPart(s, part);
    } else if |Frame(bodies[0])| <= |Clear(s)| {
      var s' := WholeFrame(s, bodies, part);
      Delivery(s', bodies[1..], part);
      assert bodies == [bodies[0]] + bodies[1..];
    } else {
      BrokenFrame(s, bodies, part);
    }
  }

  /** For a stream that ends between two frames: exactly the bodies sent, if and only if no timeout falls inside a
      frame. */
  lemma DeliveryIff(s: Script, bodies: seq<Bytes>)
    requires ValidBodies(bodies) && Pending(s) == Wire(bodies) && EndsLast(s)
    ensures Bodies(s) == bodies <==> Aligned(s, bodies, 0)
  {
    assert Wire(bodies) + [] == Wire(bodies);
    assert ValidBody([0]);
    Delivery(s, bodies, []);
  }

  lemma TimeoutFirst(s: Script, bodies: seq<Bytes>, part: Bytes)
    requires s != [] && s[0].Timeout? && ValidBodies(bodies) && Carries(s, bodies, part)
    ensures ReceiveFrame(s) == (Interrupted, s[1..])
    ensures Bodies(s) == Bodies(s[1..]) && Carries(s[1..], bodies, part)
    ensures Aligned(s, bodies, |part|) ==> Aligned(s[1..], bodies, |part|)
    ensures Aligned(s[1..], bodies, |part|) ==> Aligned(s, bodies, |part|)
  {
    assert bodies[0..] == bodies;
    assert RecvExact(s, HEADER_SIZE, []) == (TimedOut, s[1..]);
  }

  lemma WholeFrame(s: Script, bodies: seq<Bytes>, part: Bytes) returns (s': Script)
    requires s != [] && s[0].Chunk? && ValidBodies(bodies) && Carries(s, bodies, part)
    requires bodies != [] && |Frame(bodies[0])| <= |Clear(s)|
    ensures ReceiveFrame(s) == (Body(bodies[0]), s') && (Fails(s) <==> Fails(s'))
    ensures Bodies(s) == [bodies[0]] + Bodies(s') && Left(s') < Left(s)
    ensures Carries(s', bodies[1..], part)
    ensures Aligned(s, bodies, |part|) <==> Aligned(s', bodies[1..], |part|)
  {
    hide Aligned, AtBoundary, Take, Clear, Header, ReceiveFrame;
    var f := Frame(bodies[0]);
    TakeLeaves(s, |f|);
    assert Pending(s) == f + (Wire(bodies[1..]) + part);
    assert Clear(s)[..|f|] == f;
    FrameClear(s, bodies[0]);
    ReceiveConsumes(s);
    BodiesFirst(s);
    s' := ReceiveFrame(s).1;
    TakeKeeps(s, HEADER_SIZE, bodies, |part|);
    TakeKeeps(Take(s, HEADER_SIZE), |bodies[0]|, bodies, |part|);
    AlignedTail(s', bodies, |part|);
  }

  /** The first frame is interrupted: some of it is lost. */
  lemma BrokenFrame(s: Script, bodies: seq<Bytes>, part: Bytes)
    requires s != [] && s[0].Chunk? && ValidBodies(bodies) && Carries(s, bodies, part)
    requires bodies != [] && 0 < |Clear(s)| < |Frame(bodies[0])|
    ensures !Aligned(s, bodies, |part|) && (part == [] ==> Bodies(s) != bodies)
  {
    hide Bodies, ReceiveFrame, Aligned, AtBoundary, Clear, AfterClear, Pending, EndsLast, Header, Wire, Frame, Carries;
    var left := CutFirst(s, bodies, part);
    InsideFirstFrame(left, bodies, |part|);
    NotAligned(s, bodies, |part|);
    BytesLost(s, bodies[0]);
  }

  /** Where the first frame is cut, and how much is left of the stream. */
  lemma CutFirst(s: Script, bodies: seq<Bytes>, part: Bytes) returns (left: nat)
    requires s != [] && s[0].Chunk? && ValidBodies(bodies) && Carries(s, bodies, part)
    requires bodies != [] && 0 < |Clear(s)| < |Frame(bodies[0])|
    ensures Clear(s) <= Frame(bodies[0])
    ensures AfterClear(s) != [] && AfterClear(s)[0].Timeout? && left == |Pending(AfterClear(s)[1..])|
    ensures |Wire(bodies[1..])| + |part| < left < |Wire(bodies)| + |part|
  {
    hide Bodies, ReceiveFrame, Aligned, AtBoundary, Clear, AfterClear, Pending, EndsLast, Header;
    ClearFirst(s);
    CutIsPrefix(Clear(s), Pending(AfterClear(s)), Frame(bodies[0]), Wire(bodies[1..]), part);
    CutByTimeout(s);
    left := |Pending(AfterClear(s)[1..])|;
  }

  lemma CutIsPrefix(clear: Bytes, after: Bytes, first: Bytes, more: Bytes, part: Bytes)
    requires clear + after == (first + more) + part && |clear| < |first|
    ensures clear <= first
  {
    var whole := clear + after;
    assert whole[..|clear|] == clear;
    assert first[..|clear|] == whole[..|clear|];
  }

  lemma BytesLost(s: Script, body: Bytes)
    requires s != [] && s[0].Chunk? && ValidBody(body) && Clear(s) <= Frame(body) && |Clear(s)| < |Frame(body)|
    requires AfterClear(s) != [] && AfterClear(s)[0].Timeout?
    ensures Bodies(s) == Bodies(AfterClear(s)[1..]) && ValidBodies(Bodies(s))
    ensures |Wire(Bodies(s))| <= |Pending(AfterClear(s)[1..])|
  {
    FrameCut(s, body);
    ReceiveConsumes(s);
    Conservation(AfterClear(s)[1..]);
  }

  lemma NothingLeft(s: Script)
    requires Pending(s) == []
    ensures Bodies(s) == []
  {
    Conservation(s);
    assert |Wire(Bodies(s))| == 0;
  }

  /** A part of a frame that is not interrupted is read up to the end of the connection. */
  lemma LastReceive(s: Script, part: Bytes)
    requires s != [] && s[0].Chunk? && Carries(s, [], part) && CutFrame(part) && Aligned(s, [], |part|)
    ensures ReceiveFrame(s) == (if Fails(s) then Broken else if AfterClear(s) == [] then Interrupted else StreamEnd,
                                if Fails(s) then [] else AfterClear(s))
    ensures Over(AfterClear(s)) || Fails(s)
  {
    hide ReceiveFrame, Header;
    var body :| ValidBody(body) && part <= Frame(body) && |part| < |Frame(body)|;
    ClearFirst(s);
    assert Pending(s) == part;
    if |Clear(s)| < |part| {
      CutByTimeout(s);
      NotAligned(s, [], |part|);
    }
    EndAfterPart(s, |part|);
    FrameCut(s, body);
  }

  /** With no timeout among the last bytes, they are the end but for how the connection ends. */
  lemma {:induction false} EndAfterPart(s: Script, tail: nat)
    requires EndsLast(s) && Aligned(s, [], tail) && |Clear(s)| == |Pending(s)| && |Pending(s)| <= tail && s != []
    requires |Pending(s)| < tail || s[0].Chunk?
    ensures AfterClear(s) == [] || AfterClear(s) == [Closed] || AfterClear(s) == [Failure]
    ensures Fails(s) <==> AfterClear(s) == [Failure]
    decreases s
  {
    if s[0].Chunk? {
      if s[1..] != [] {
        EndAfterPart(s[1..], tail);
        assert s[|s| - 1] == s[1..][|s| - 2];
      }
    } else {
      assert !AtBoundary(|Pending(s[1..])|, [], tail);
      assert s[1..] == [];
    }
  }

  /** Of a frame that did not arrive whole, nothing is received. */
  lemma LastPart(s: Script, part: Bytes)
    requires s != [] && s[0].Chunk? && Carries(s, [], part) && CutFrame(part)
    ensures Aligned(s, [], |part|) ==> Bodies(s) == []
    ensures part != []
  {
    hide Bodies, ReceiveFrame;
    var body :| ValidBody(body) && part <= Frame(body) && |part| < |Frame(body)|;
    ClearFirst(s);
    assert Pending(s) == part;
    if |Clear(s)| < |part| {
      CutByTimeout(s);
      NotAligned(s, [], |part|);
    } else {
      PartLost(s, body);
    }
  }

  lemma PartLost(s: Script, body: Bytes)
    requires s != [] && s[0].Chunk? && ValidBody(body) && Clear(s) <= Frame(body) && |Clear(s)| < |Frame(body)|
    requires Pending(AfterClear(s)) == []
    ensures Bodies(s) == []
  {
    FrameCut(s, body);
    RecvConserves(AfterClear(s), 1);
    ReceiveConsumes(s);
    NothingLeft(Recv(AfterClear(s), 1).1);
  }
}
