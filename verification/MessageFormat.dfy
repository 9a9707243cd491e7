/** The byte form of messages against independent descriptions: UTF-8, the text that `to_bytes` writes, and exactly
    which bytes `from_bytes` accepts, refuses as no JSON, or fails on. */
module MessageFormat {
  import opened Wrappers
  import opened Sequences
  import opened Json
  import opened JsonLaws
  import opened Messages

  // ---------------------------------------------------------------------------------------------
  // UTF-8 (RFC 3629, section 3)
  // ---------------------------------------------------------------------------------------------

  predicate NoSurrogate(t: Text) { forall i :: 0 <= i < |t| ==> !(0xD800 <= t[i] <= 0xDFFF) }

  function Utf8Char(c: CodePoint): Bytes {
    if c < 0x80 then [c]
    else if c < 0x800 then [0xC0 + c / 64, 0x80 + c % 64]
    else if c < 0x10000 then [0xE0 + c / 4096, 0x80 + c / 64 % 64, 0x80 + c % 64]
    else [0xF0 + c / 262144, 0x80 + c / 4096 % 64, 0x80 + c / 64 % 64, 0x80 + c % 64]
  }

  function Utf8(t: Text): Bytes {
    if t == [] then [] else Utf8Char(t[0]) + Utf8(t[1..])
  }

  /** The digits of a code point in base 64, highest first. */
  lemma Base64(w: int, x: int, y: int, z: int)
    requires 0 <= x < 64 && 0 <= y < 64 && 0 <= z < 64
    ensures var c := w * 262144 + x * 4096 + y * 64 + z;
            c / 262144 == w && c / 4096 == w * 64 + x && c / 4096 % 64 == x
            && c / 64 == (w * 64 + x) * 64 + y && c / 64 % 64 == y && c % 64 == z
  {
  }

  lemma DigitsOf(c: CodePoint) returns (w: int, x: int, y: int, z: int)
    ensures 0 <= w <= 4 && 0 <= x < 64 && 0 <= y < 64 && 0 <= z < 64 && c == w * 262144 + x * 4096 + y * 64 + z
    ensures w == c / 262144 && x == c / 4096 % 64 && y == c / 64 % 64 && z == c % 64
  {
    w, x, y, z := c / 262144, c / 4096 % 64, c / 64 % 64, c % 64;
    assert c / 64 / 64 == c / 4096 && c / 4096 / 64 == c / 262144;
  }

  /** `s` decodes to `c` and then what `b` decodes to. */
  ghost predicate Starts(s: Bytes, c: CodePoint, b: Bytes) {
    DecodeUtf8(s) == if DecodeUtf8(b).None? then None else Some([c] + DecodeUtf8(b).value)
  }

  lemma One(c: CodePoint, b: Bytes)
    requires c < 0x80
    ensures Starts([c] + b, c, b)
  {
    assert ([c] + b)[1..] == b;
  }

  lemma Two(y: nat, z: nat, b: Bytes)
    requires 2 <= y < 32 && z < 64
    ensures Starts([0xC0 + y, 0x80 + z] + b, y * 64 + z, b)
  {
    assert ([0xC0 + y, 0x80 + z] + b)[2..] == b;
  }

  lemma Three(x: nat, y: nat, z: nat, b: Bytes)
    requires x < 16 && y < 64 && z < 64
    requires var c := x * 4096 + y * 64 + z; c >= 0x800 && !(0xD800 <= c <= 0xDFFF)
    ensures Starts([0xE0 + x, 0x80 + y, 0x80 + z] + b, x * 4096 + y * 64 + z, b)
  {
    var s := [0xE0 + x, 0x80 + y, 0x80 + z] + b;
    assert s[3..] == b && s[0] as int % 16 == x && s[1] as int % 64 == y && s[2] as int % 64 == z;
  }

  lemma Four(w: nat, x: nat, y: nat, z: nat, b: Bytes)
    requires w <= 4 && x < 64 && y < 64 && z < 64
    requires 0x10000 <= w * 262144 + x * 4096 + y * 64 + z < 0x110000
    ensures Starts([0xF0 + w, 0x80 + x, 0x80 + y, 0x80 + z] + b, w * 262144 + x * 4096 + y * 64 + z, b)
  {
    var s := [0xF0 + w, 0x80 + x, 0x80 + y, 0x80 + z] + b;
    assert s[4..] == b && s[0] as int % 8 == w && s[1] as int % 64 == x;
    assert s[2] as int % 64 == y && s[3] as int % 64 == z;
  }

  /** The first character is decoded first. */
  lemma CharDecodes(c: CodePoint, b: Bytes)
    requires !(0xD800 <= c <= 0xDFFF)
    ensures Starts(Utf8Char(c) + b, c, b)
  {
    hide Starts;
    var w, x, y, z := DigitsOf(c);
    Base64(w, x, y, z);
    if c < 0x80 {
      One(c, b);
    } else if c < 0x800 {
      Two(y, z, b);
    } else if c < 0x10000 {
      Three(x, y, z, b);
    } else {
      Four(w, x, y, z, b);
    }
  }

  lemma {:induction false} TextDecodes(t: Text)
    requires NoSurrogate(t)
    ensures DecodeUtf8(Utf8(t)) == Some(t)
  {
    if t != [] {
      TextDecodes(t[1..]);
      CharDecodes(t[0], Utf8(t[1..]));
      assert t == [t[0]] + t[1..];
    }
  }

  /** The leading byte and the others carry the digits of the character. */
  lemma TwoBytes(a: Byte, b: Byte)
    requires 0xC2 <= a < 0xE0 && IsTrail(b)
    ensures Utf8Char(a as int % 32 * 64 + b as int % 64) == [a, b]
  {
    Base64(0, 0, a - 0xC0, b - 0x80);
    assert a as int % 32 == a - 0xC0 && b as int % 64 == b - 0x80;
  }

  lemma ThreeBytes(a: Byte, b: Byte, c: Byte)
    requires 0xE0 <= a < 0xF0 && IsTrail(b) && IsTrail(c)
    requires a as int % 16 * 4096 + b as int % 64 * 64 + c as int % 64 >= 0x800
    ensures Utf8Char(a as int % 16 * 4096 + b as int % 64 * 64 + c as int % 64) == [a, b, c]
  {
    Base64(0, a - 0xE0, b - 0x80, c - 0x80);
    assert a as int % 16 == a - 0xE0 && b as int % 64 == b - 0x80 && c as int % 64 == c - 0x80;
  }

  lemma FourBytes(a: Byte, b: Byte, c: Byte, d: Byte)
    requires 0xF0 <= a < 0xF5 && IsTrail(b) && IsTrail(c) && IsTrail(d)
    requires 0x10000 <= a as int % 8 * 262144 + b as int % 64 * 4096 + c as int % 64 * 64 + d as int % 64 < 0x110000
    ensures Utf8Char(a as int % 8 * 262144 + b as int % 64 * 4096 + c as int % 64 * 64 + d as int % 64) == [a, b, c, d]
  {
    Base64(a - 0xF0, b - 0x80, c - 0x80, d - 0x80);
    assert a as int % 8 == a - 0xF0 && b as int % 64 == b - 0x80;
    assert c as int % 64 == c - 0x80 && d as int % 64 == d - 0x80;
  }

  /** What one decoding step takes is the encoding of the character it gives. */
  lemma FirstChar(b: Bytes) returns (c: CodePoint, n: nat)
    requires b != [] && DecodeUtf8(b).Some?
    ensures 0 < n <= |b| && b[..n] == Utf8Char(c) && !(0xD800 <= c <= 0xDFFF)
    ensures DecodeUtf8(b[n..]).Some? && DecodeUtf8(b).value == [c] + DecodeUtf8(b[n..]).value
  {
    hide Utf8Char;
    if b[0] < 0x80 {
      c, n := b[0], 1;
      Ascii(c);
    } else if b[0] < 0xE0 {
      c, n := b[0] as int % 32 * 64 + b[1] as int % 64, 2;
      TwoBytes(b[0], b[1]);
    } else if b[0] < 0xF0 {
      c, n := b[0] as int % 16 * 4096 + b[1] as int % 64 * 64 + b[2] as int % 64, 3;
      ThreeBytes(b[0], b[1], b[2]);
    } else {
      c := b[0] as int % 8 * 262144 + b[1] as int % 64 * 4096 + b[2] as int % 64 * 64 + b[3] as int % 64;
      n := 4;
      FourBytes(b[0], b[1], b[2], b[3]);
    }
  }

  lemma Ascii(c: CodePoint)
    ensures c < 0x80 ==> Utf8Char(c) == [c]
  {
  }

  lemma {:induction false} DecodedIsText(b: Bytes)
    requires DecodeUtf8(b).Some?
    ensures NoSurrogate(DecodeUtf8(b).value) && b == Utf8(DecodeUtf8(b).value)
    decreases |b|
  {
    hide DecodeUtf8, Utf8Char;
    if b != [] {
      var c, n := FirstChar(b);
      DecodedIsText(b[n..]);
      var t := DecodeUtf8(b[n..]).value;
      assert ([c] + t)[1..] == t;
      assert b == b[..n] + b[n..];
    } else {
      NothingDecodes();
    }
  }

  lemma NothingDecodes()
    ensures DecodeUtf8([]) == Some([])
  {
  }

  /** UTF-8.  Bytes decode to a text exactly when they encode it and it holds no surrogate. */
  lemma Utf8Iff(b: Bytes, t: Text)
    ensures DecodeUtf8(b) == Some(t) <==> NoSurrogate(t) && b == Utf8(t)
  {
    hide DecodeUtf8, Utf8;
    if DecodeUtf8(b) == Some(t) {
      DecodedIsText(b);
    }
    if NoSurrogate(t) && b == Utf8(t) {
      TextDecodes(t);
    }
  }

  // ---------------------------------------------------------------------------------------------
  // What is accepted
  // ---------------------------------------------------------------------------------------------

  /** The dict has what a message needs, and `m` is what it says. */
  predicate Describes(d: Members, m: Message) {
    && Get(d, Txt("type")) == Some(Str(Txt(Name(m.kind))))
    && Get(d, Txt("id")) == Some(m.id)
    && Get(d, Txt("ts")) == Some(m.ts)
    && m.payload == (if Get(d, Txt("payload")).Some? then Get(d, Txt("payload")).value else Obj(NoMembers))
    && m.replyTo == (if Get(d, Txt("reply_to")).Some? then Get(d, Txt("reply_to")).value else NULL)
    && m.signature.None?
  }

  lemma {:induction false} FindKindIs(name: Text, kinds: seq<MessageType>)
    ensures FindKind(name, kinds).Some? ==> Txt(Name(FindKind(name, kinds).value)) == name
  {
    if kinds != [] {
      FindKindIs(name, kinds[1..]);
    }
  }

  lemma DescribesIff(v: Value, m: Message)
    ensures FromValue(v) == Decoded(m) <==> v.Obj? && Describes(v.members, m)
  {
    hide Get, FindKind, Name;
    if v.Obj? {
      var kind := Get(v.members, Txt("type"));
      if kind.Some? && kind.value.Str? {
        FindKindIs(kind.value.text, ALL_KINDS);
      }
      KindNamed(m.kind);
    }
  }

  /** ACCEPTED.  Bytes decode to a message exactly when they are the UTF-8 of a JSON object that describes it; they are
      refused as no JSON exactly when they are the UTF-8 of a text that is none; anything else raises. */
  lemma DecodesIff(b: Bytes, m: Message)
    ensures FromBytes(b) == Decoded(m) <==>
            exists t, d :: NoSurrogate(t) && b == Utf8(t) && Loads(t) == Some(Obj(d)) && Describes(d, m)
    ensures FromBytes(b) == NotJson <==> exists t :: NoSurrogate(t) && b == Utf8(t) && Loads(t).None?
  {
    hide DecodeUtf8, Utf8, Loads, Describes, FromValue;
    if DecodeUtf8(b).Some? {
      Utf8Iff(b, DecodeUtf8(b).value);
      var v := Loads(DecodeUtf8(b).value);
      if v.Some? {
        DescribesIff(v.value, m);
        NeverNotJson(v.value);
        if v.value.Obj? && Describes(v.value.members, m) {
          assert v == Some(Obj(v.value.members));
        }
      }
    }
    forall t | NoSurrogate(t) && b == Utf8(t) ensures DecodeUtf8(b) == Some(t) {
      Utf8Iff(b, t);
    }
  }

  lemma NeverNotJson(v: Value)
    ensures FromValue(v) != NotJson
  {
  }

  // ---------------------------------------------------------------------------------------------
  // What counts as a reply id
  // ---------------------------------------------------------------------------------------------

  /** A number is not zero exactly when one of the digits before its exponent is not. */
  lemma {:induction false} NonZeroIff(l: Text)
    ensures NonZero(l) <==>
            exists i :: 0 <= i < |l| && l[i] in Txt("123456789") && forall j :: 0 <= j < i ==> l[j] !in Txt("eE")
  {
    if l != [] {
      FirstDigit(l[0]);
      NonZeroIff(l[1..]);
      if i :| 0 <= i < |l[1..]| && l[1..][i] in Txt("123456789") && forall j :: 0 <= j < i ==> l[1..][j] !in Txt("eE") {
        assert l[i + 1] == l[1..][i];
        assert forall j :: 0 < j < i + 1 ==> l[j] == l[1..][j - 1];
      }
      if i :| 0 < i < |l| && l[i] in Txt("123456789") && forall j :: 0 <= j < i ==> l[j] !in Txt("eE") {
        assert l[1..][i - 1] == l[i];
        assert forall j :: 0 <= j < i - 1 ==> l[1..][j] == l[j + 1];
      }
    }
  }

  lemma FirstDigit(c: CodePoint)
    ensures c in Txt("123456789") <==> '1' as int <= c <= '9' as int
    ensures c in Txt("eE") <==> c == 'e' as int || c == 'E' as int
  {
    assert forall i :: 0 <= i < 9 ==> Txt("123456789")[i] == '1' as int + i;
    assert '1' as int <= c <= '9' as int ==> Txt("123456789")[c - '1' as int] == c;
    assert Txt("eE") == ['e' as int, 'E' as int];
  }

  /** A reply id counts unless it is null, false, zero, or empty. */
  lemma FalseIff(v: Value)
    ensures !Truthy(v) <==>
            || v in {Lit(Null), Lit(False), Str([]), Arr(NoItems), Obj(NoMembers)}
            || (v.Num? && forall i :: 0 <= i < |v.literal| && v.literal[i] in Txt("123456789") ==>
                  exists j :: 0 <= j < i && v.literal[j] in Txt("eE"))
  {
    if v.Num? {
      NonZeroIff(v.literal);
    }
  }

  /** A signature in hexadecimal: small letters. */
  lemma HexIff(sig: Text)
    ensures IsHex(sig) <==> forall i :: 0 <= i < |sig| ==> sig[i] in Txt("0123456789abcdef")
  {
    var digits := Txt("0123456789abcdef");
    assert forall k :: 0 <= k < 16 ==> digits[k] == if k < 10 then '0' as int + k else 'a' as int + (k - 10);
    forall i | 0 <= i < |sig| && (IsDigit(sig[i]) || 'a' as int <= sig[i] <= 'f' as int) ensures sig[i] in digits {
      var k := if IsDigit(sig[i]) then sig[i] - '0' as int else sig[i] - 'a' as int + 10;
      assert digits[k] == sig[i];
    }
  }

  // ---------------------------------------------------------------------------------------------
  // What is written
  // ---------------------------------------------------------------------------------------------

  lemma NamePlain(kind: MessageType)
    ensures Printable(Txt(Name(kind))) && QUOTE !in Txt(Name(kind)) && BACKSLASH !in Txt(Name(kind))
  {
    var n := Name(kind);
    assert forall i :: 0 <= i < |n| ==> 'A' <= n[i] <= 'Z' || n[i] == '_';
    assert forall i :: 0 <= i < |n| ==> Txt(n)[i] == n[i] as int;
  }

  lemma KeyPlain(key: string)
    requires forall i :: 0 <= i < |key| ==> 'a' <= key[i] <= 'z' || key[i] == '_'
    ensures EncodeText(Txt(key)) == Txt(key)
  {
    assert forall i :: 0 <= i < |key| ==> Txt(key)[i] == key[i] as int;
    PlainText(Txt(key));
  }

  lemma KeyText(key: Text, v: Value, colon: Text)
    requires EncodeText(key) == key && colon == [QUOTE] + key + [QUOTE, COLON]
    ensures EncodePair(key, v) == colon + Encode(v)
  {
  }

  lemma Literals()
    ensures Txt("\"type\":") == [QUOTE] + Txt("type") + [QUOTE, COLON]
    ensures Txt("\"id\":") == [QUOTE] + Txt("id") + [QUOTE, COLON]
    ensures Txt("\"ts\":") == [QUOTE] + Txt("ts") + [QUOTE, COLON]
    ensures Txt("\"payload\":") == [QUOTE] + Txt("payload") + [QUOTE, COLON]
    ensures Txt("\"reply_to\":") == [QUOTE] + Txt("reply_to") + [QUOTE, COLON]
    ensures Txt("{") == [LBRACE] && Txt("}") == [RBRACE] && Txt(",") == [COMMA] && Txt("\"") == [QUOTE]
  {
  }

  /** THE WIRE.  What `to_bytes` writes, byte for byte: the five entries in this order, the last one only for a true
      reply id, with nothing between the tokens. */
  lemma WireFormat(m: Message)
    requires Sendable(m)
    ensures ToBytes(m) ==
            Txt("{") + (Txt("\"type\":") + (Txt("\"") + Txt(Name(m.kind)) + Txt("\"")))
            + (Txt(",") + (Txt("\"id\":") + Encode(m.id)))
            + (Txt(",") + (Txt("\"ts\":") + Encode(m.ts)))
            + (Txt(",") + (Txt("\"payload\":") + Encode(m.payload)))
            + (if Truthy(m.replyTo) then Txt(",") + (Txt("\"reply_to\":") + Encode(m.replyTo)) else [])
            + Txt("}")
  {
    hide EncodeText, EncodePair, Printable, Name, Truthy, Txt, ToBytes;
    Literals();
    KeyPlain("type");
    KeyPlain("id");
    KeyPlain("ts");
    KeyPlain("payload");
    KeyPlain("reply_to");
    NamePlain(m.kind);
    PlainText(Txt(Name(m.kind)));
    var kind := Str(Txt(Name(m.kind)));
    KeyText(Txt("type"), kind, Txt("\"type\":"));
    KeyText(Txt("id"), m.id, Txt("\"id\":"));
    KeyText(Txt("ts"), m.ts, Txt("\"ts\":"));
    KeyText(Txt("payload"), m.payload, Txt("\"payload\":"));
    KeyText(Txt("reply_to"), m.replyTo, Txt("\"reply_to\":"));
    assert Encode(kind) == [QUOTE] + Txt(Name(m.kind)) + [QUOTE];
    MembersText(m);
    Strung([LBRACE], EncodePair(Txt("type"), kind), [COMMA] + EncodePair(Txt("id"), m.id),
           [COMMA] + EncodePair(Txt("ts"), m.ts), [COMMA] + EncodePair(Txt("payload"), m.payload),
           if Truthy(m.replyTo) then [COMMA] + EncodePair(Txt("reply_to"), m.replyTo) else [], [RBRACE]);
  }

  /** The entries, each after the first with its comma. */
  lemma MembersText(m: Message)
    requires Sendable(m)
    ensures ToBytes(m) ==
            [LBRACE] + (EncodePair(Txt("type"), Str(Txt(Name(m.kind))))
                        + (([COMMA] + EncodePair(Txt("id"), m.id))
                           + (([COMMA] + EncodePair(Txt("ts"), m.ts))
                              + (([COMMA] + EncodePair(Txt("payload"), m.payload))
                                 + (if Truthy(m.replyTo) then [COMMA] + EncodePair(Txt("reply_to"), m.replyTo)
                                    else [])))))
            + [RBRACE]
  {
    hide EncodePair, Truthy, Txt, Name;
    var reply := if Truthy(m.replyTo) then Some(m.replyTo) else None;
    var last := Reply(reply, NoMembers);
    var late := Late(m.ts, m.payload, reply, NoMembers);
    if Truthy(m.replyTo) {
      LonePair(Txt("reply_to"), m.replyTo);
      assert last == Member(Txt("reply_to"), m.replyTo, NoMembers);
    }
    FirstPair(Txt("payload"), m.payload, last);
    FirstPair(Txt("ts"), m.ts, Member(Txt("payload"), m.payload, last));
    FirstPair(Txt("id"), m.id, late);
    FirstPair(Txt("type"), Str(Txt(Name(m.kind))), Member(Txt("id"), m.id, late));
    Regroup([COMMA], EncodePair(Txt("payload"), m.payload), MoreMembers(last));
    Regroup([COMMA], EncodePair(Txt("ts"), m.ts), MoreMembers(Member(Txt("payload"), m.payload, last)));
    Regroup([COMMA], EncodePair(Txt("id"), m.id), MoreMembers(late));
    assert ToBytes(m) == Encode(Obj(Fields(m, NoMembers)));
  }

  lemma FirstPair(key: Text, v: Value, rest: Members)
    ensures EncodeMembers(Member(key, v, rest)) == EncodePair(key, v) + MoreMembers(rest)
  {
  }

  lemma Strung(open: Text, a: Text, b: Text, c: Text, d: Text, e: Text, close: Text)
    requires |open| == 1
    ensures open + (a + (b + (c + (d + e)))) + close == open + a + b + c + d + e + close
  {
  }
}
