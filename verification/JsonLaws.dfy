/** Reading back what was written: `Loads(Encode(v))` is `Canon(v)` for every value, and `Canon(v)` is `v`
    exactly when `v` is clean. */
module JsonLaws {
  import opened Wrappers
  import opened Json

  // ---------------------------------------------------------------------------------------------
  // Strings
  // ---------------------------------------------------------------------------------------------

  lemma HexRoundTrip(d: Nibble)
    ensures HexValue(HexDigit(d)) == Some(d)
  {
  }

  lemma FourNibbles(n: nat)
    requires n < 0x10000
    ensures n / 4096 < 16
    ensures n / 4096 * 4096 + n / 256 % 16 * 256 + n / 16 % 16 * 16 + n % 16 == n
  {
    assert n / 16 == n / 256 * 16 + n / 16 % 16;
    assert n / 256 == n / 4096 * 16 + n / 256 % 16;
  }

  lemma UnitRoundTrip(n: nat, rest: Text)
    requires n < 0x10000
    ensures ReadUnit(UnitEscape(n) + rest) == Some(n)
    ensures (UnitEscape(n) + rest)[6..] == rest
  {
    var s := UnitEscape(n) + rest;
    FourNibbles(n);
    var a, b, c, d := n / 4096, n / 256 % 16, n / 16 % 16, n % 16;
    HexRoundTrip(a);
    HexRoundTrip(b);
    HexRoundTrip(c);
    HexRoundTrip(d);
    assert s[2] == HexDigit(a) && s[3] == HexDigit(b) && s[4] == HexDigit(c) && s[5] == HexDigit(d);
  }

  /** The encoding of `c` opens with a `\u` escape of a low surrogate exactly when `c` is that surrogate. */
  lemma LowChar(c: CodePoint, tail: Text)
    ensures var u := ReadUnit(EncodeChar(c) + tail); u.Some? && IsLow(u.value) <==> IsLow(c)
    ensures IsLow(c) ==> EncodeChar(c) == UnitEscape(c)
  {
    var s := EncodeChar(c) + tail;
    if ShortEscape(c).Some? {
      assert s[1] == ShortEscape(c).value != 'u' as int;
    } else if 0x20 <= c <= 0x7E {
      assert s[0] == c != BACKSLASH;
    } else if c < 0x10000 {
      UnitRoundTrip(c, tail);
    } else {
      var hi, lo := 0xD800 + (c - 0x10000) / 0x400, 0xDC00 + (c - 0x10000) % 0x400;
      assert s == UnitEscape(hi) + (UnitEscape(lo) + tail);
      UnitRoundTrip(hi, UnitEscape(lo) + tail);
    }
  }

  /** An escaped low surrogate at the head of `EncodeText(t) + rest` is a low surrogate at the head of `t`. */
  lemma LowAhead(t: Text, rest: Text)
    requires rest != [] && rest[0] == QUOTE
    ensures var u := ReadUnit(EncodeText(t) + rest);
            (u.Some? && IsLow(u.value)) <==> (t != [] && IsLow(t[0]))
    ensures t != [] && IsLow(t[0]) ==>
              EncodeText(t) + rest == UnitEscape(t[0]) + (EncodeText(t[1..]) + rest)
  {
    if t == [] {
      assert EncodeText(t) + rest == rest;
    } else {
      assert EncodeText(t) + rest == EncodeChar(t[0]) + (EncodeText(t[1..]) + rest);
      LowChar(t[0], EncodeText(t[1..]) + rest);
    }
  }

  /** A scan that finds `c` before what the scan `r` finds. */
  function Push(c: CodePoint, r: Parsed<Text>): Parsed<Text> {
    if r.None? then None else Some(([c] + r.value.0, r.value.1))
  }

  lemma ScanShort(c: CodePoint, tail: Text)
    requires ShortEscape(c).Some? || 0x20 <= c <= 0x7E
    ensures ScanString(EncodeChar(c) + tail) == Push(c, ScanString(tail))
  {
    if ShortEscape(c).Some? {
      assert (EncodeChar(c) + tail)[2..] == tail;
    } else {
      assert (EncodeChar(c) + tail)[1..] == tail;
    }
  }

  lemma ScanUnit(n: nat, tail: Text)
    requires n < 0x10000
    requires !(IsHigh(n) && ReadUnit(tail).Some? && IsLow(ReadUnit(tail).value))
    ensures ScanString(UnitEscape(n) + tail) == Push(n, ScanString(tail))
  {
    UnitRoundTrip(n, tail);
  }

  lemma ScanPair(hi: CodePoint, lo: CodePoint, tail: Text)
    requires IsHigh(hi) && IsLow(lo)
    ensures ScanString(UnitEscape(hi) + (UnitEscape(lo) + tail)) == Push(Combine(hi, lo), ScanString(tail))
  {
    UnitRoundTrip(hi, UnitEscape(lo) + tail);
    UnitRoundTrip(lo, tail);
    var s := UnitEscape(hi) + (UnitEscape(lo) + tail);
    assert s[12..] == s[6..][6..];
  }

  lemma ScanAstral(c: CodePoint, tail: Text)
    requires c >= 0x10000
    ensures ScanString(EncodeChar(c) + tail) == Push(c, ScanString(tail))
  {
    var hi, lo := 0xD800 + (c - 0x10000) / 0x400, 0xDC00 + (c - 0x10000) % 0x400;
    assert EncodeChar(c) + tail == UnitEscape(hi) + (UnitEscape(lo) + tail);
    ScanPair(hi, lo, tail);
  }

  /** Writing a string and scanning it back gives the string with split surrogate pairs joined. */
  lemma {:induction false} StringRoundTrip(t: Text, rest: Text)
    ensures ScanString(EncodeText(t) + ([QUOTE] + rest)) == Some((Join(t), rest))
    decreases |t|
  {
    var end := [QUOTE] + rest;
    if t == [] {
      assert EncodeText(t) + end == end;
    } else {
      var c, tail := t[0], EncodeText(t[1..]) + end;
      assert EncodeText(t) + end == EncodeChar(c) + tail;
      StringRoundTrip(t[1..], rest);
      if ShortEscape(c).Some? || 0x20 <= c <= 0x7E {
        ScanShort(c, tail);
      } else if c >= 0x10000 {
        ScanAstral(c, tail);
      } else {
        LowAhead(t[1..], end);
        if IsHigh(c) && |t| >= 2 && IsLow(t[1]) {
          StringRoundTrip(t[2..], rest);
          assert t[1..][1..] == t[2..];
          ScanPair(c, t[1], EncodeText(t[2..]) + end);
        } else {
          ScanUnit(c, tail);
        }
      }
    }
  }

  /** A string survives unchanged exactly when no high surrogate in it is directly followed by a low one. */
  lemma {:induction false} JoinIdentity(t: Text)
    ensures |Join(t)| <= |t|
    ensures Join(t) == t <==> NoSplitPair(t)
    decreases |t|
  {
    if |t| >= 2 && IsHigh(t[0]) && IsLow(t[1]) {
      JoinIdentity(t[2..]);
    } else if t != [] {
      JoinIdentity(t[1..]);
      assert t == [t[0]] + t[1..];
      if NoSplitPair(t[1..]) {
        forall i | 0 <= i < |t| - 1 ensures !(IsHigh(t[i]) && IsLow(t[i + 1])) {
          assert i > 0 ==> t[i] == t[1..][i - 1] && t[i + 1] == t[1..][i];
        }
      } else {
        var i :| 0 <= i < |t[1..]| - 1 && IsHigh(t[1..][i]) && IsLow(t[1..][i + 1]);
        assert IsHigh(t[i + 1]) && IsLow(t[i + 1 + 1]);
      }
    }
  }

  // ---------------------------------------------------------------------------------------------
  // Numbers and words
  // ---------------------------------------------------------------------------------------------

  lemma StopsNoDigit(rest: Text)
    requires Stops(rest)
    ensures rest == [] || !IsDigit(rest[0])
  {
  }

  lemma {:induction false} DigitsStop(l: Text, rest: Text)
    requires Stops(rest)
    ensures Digits(l + rest) == Digits(l)
  {
    if l == [] {
      assert l + rest == rest;
      StopsNoDigit(rest);
    } else {
      assert (l + rest)[1..] == l[1..] + rest;
      DigitsStop(l[1..], rest);
    }
  }

  lemma IntStop(l: Text, rest: Text)
    requires Stops(rest)
    ensures IntLen(l + rest) == IntLen(l)
  {
    DigitsStop(l, rest);
    if l == [] {
      assert l + rest == rest;
    }
  }

  lemma FracStop(l: Text, rest: Text)
    requires Stops(rest)
    ensures FracLen(l + rest) == FracLen(l)
  {
    if l == [] {
      assert l + rest == rest;
    } else {
      assert (l + rest)[1..] == l[1..] + rest;
      DigitsStop(l[1..], rest);
    }
  }

  lemma ExpStop(l: Text, rest: Text)
    requires Stops(rest)
    ensures ExpLen(l + rest) == ExpLen(l)
  {
    if l == [] {
      assert l + rest == rest;
    } else {
      assert (l + rest)[1..] == l[1..] + rest;
      DigitsStop(l[1..], rest);
      if |l| > 1 {
        assert (l + rest)[2..] == l[2..] + rest;
        DigitsStop(l[2..], rest);
      }
    }
  }

  lemma TailStop(l: Text, rest: Text)
    requires Stops(rest)
    ensures TailLen(l + rest) == TailLen(l)
  {
    FracStop(l, rest);
    var f := FracLen(l);
    assert (l + rest)[f..] == l[f..] + rest;
    ExpStop(l[f..], rest);
  }

  lemma UnsignedStop(l: Text, rest: Text)
    requires Stops(rest)
    ensures UnsignedLen(l + rest) == UnsignedLen(l)
  {
    IntStop(l, rest);
    var b := IntLen(l);
    assert (l + rest)[b..] == l[b..] + rest;
    TailStop(l[b..], rest);
  }

  /** A number literal is read to its end and no further. */
  lemma NumberStop(l: Text, rest: Text)
    requires IsNumber(l) && Stops(rest)
    ensures NumberLen(l + rest) == |l|
  {
    hide UnsignedLen;
    UnsignedStop(l, rest);
    assert (l + rest)[1..] == l[1..] + rest;
    UnsignedStop(l[1..], rest);
  }

  // ---------------------------------------------------------------------------------------------
  // Values
  // ---------------------------------------------------------------------------------------------

  /** The first character of a value: neither white space nor a closing bracket nor a byte order mark. */
  lemma EncodeStart(v: Value)
    requires NumbersOk(v)
    ensures Encode(v) != []
    ensures var c := Encode(v)[0]; !IsWs(c) && c != RBRACKET && c != RBRACE && c != 0xFEFF
  {
  }

  lemma WordRoundTrip(w: Word, rest: Text)
    ensures ParseValue(Spelling(w) + rest) == Some((Lit(w), rest))
  {
    var s := Spelling(w) + rest;
    assert s[|Spelling(w)|..] == rest;
    assert s[0] == Spelling(w)[0];
    if w == MinusInfinity {
      assert s[1] == 'I' as int;
      assert s[1..][0] == 'I' as int;
    }
  }

  lemma ParseNumber(s: Text)
    requires s != [] && (s[0] == '-' as int || IsDigit(s[0])) && NumberLen(s) > 0
    ensures ParseValue(s) == Some((Num(s[..NumberLen(s)]), s[NumberLen(s)..]))
  {
    hide NumberLen, ScanString, ParseObj, ParseArr, Spelling;
  }

  lemma NumRoundTrip(l: Text, rest: Text)
    requires IsNumber(l) && Stops(rest)
    ensures ParseValue(l + rest) == Some((Num(l), rest))
  {
    var s := l + rest;
    NumberStop(l, rest);
    assert s[0] == l[0];
    ParseNumber(s);
  }

  lemma Enclosed(open: CodePoint, body: Text, close: CodePoint, rest: Text)
    ensures var s := [open] + body + [close] + rest; s[0] == open && s[1..] == body + ([close] + rest)
  {
  }

  lemma {:induction false} ValueRoundTrip(v: Value, rest: Text)
    requires NumbersOk(v) && Stops(rest)
    ensures ParseValue(Encode(v) + rest) == Some((Canon(v), rest))
    decreases v, 0
  {
    match v
    case Lit(w) => WordRoundTrip(w, rest);
    case Num(l) => NumRoundTrip(l, rest);
    case Str(t) =>
      StringRoundTrip(t, rest);
      Enclosed(QUOTE, EncodeText(t), QUOTE, rest);
    case Arr(items) =>
      ArrRoundTrip(items, rest);
      Enclosed(LBRACKET, EncodeItems(items), RBRACKET, rest);
    case Obj(members) =>
      ObjRoundTrip(members, rest);
      Enclosed(LBRACE, EncodeMembers(members), RBRACE, rest);
  }

  lemma {:induction false} ArrRoundTrip(items: Items, rest: Text)
    requires ItemsOk(items)
    ensures ParseArr(EncodeItems(items) + ([RBRACKET] + rest)) == Some((Canon(Arr(items)), rest))
    decreases items, 2
  {
    var body := EncodeItems(items) + ([RBRACKET] + rest);
    if items.NoItems? {
      assert body == [RBRACKET] + rest && body[1..] == rest;
    } else {
      ItemsRoundTrip(items, rest);
      ItemsStart(items, [RBRACKET] + rest);
    }
  }

  lemma {:induction false} ObjRoundTrip(ms: Members, rest: Text)
    requires MembersOk(ms)
    ensures ParseObj(EncodeMembers(ms) + ([RBRACE] + rest)) == Some((Canon(Obj(ms)), rest))
    decreases ms, 2
  {
    var body := EncodeMembers(ms) + ([RBRACE] + rest);
    if ms.NoMembers? {
      assert body == [RBRACE] + rest && body[1..] == rest;
    } else {
      MembersRoundTrip(ms, rest);
      MembersStart(ms, [RBRACE] + rest);
    }
  }

  lemma ItemsStart(items: Items, rest: Text)
    requires items.Item? && ItemsOk(items)
    ensures var s := EncodeItems(items) + rest; SkipWs(s) == s && s != [] && s[0] != RBRACKET
  {
    EncodeStart(items.head);
    assert (EncodeItems(items) + rest)[0] == Encode(items.head)[0];
  }

  lemma MembersStart(ms: Members, rest: Text)
    requires ms.Member?
    ensures var s := EncodeMembers(ms) + rest; SkipWs(s) == s && s != [] && s[0] == QUOTE
  {
  }

  lemma {:induction false} ItemsRoundTrip(items: Items, rest: Text)
    requires items.Item? && ItemsOk(items)
    ensures ParseItems(EncodeItems(items) + ([RBRACKET] + rest)) == Some((CanonItems(items), rest))
    decreases items, 1
  {
    var end := [RBRACKET] + rest;
    var after := MoreItems(items.tail) + end;
    ValueRoundTrip(items.head, after);
    assert EncodeItems(items) + end == Encode(items.head) + after;
    assert SkipWs(after) == after;
    if items.tail.NoItems? {
      assert after == end && end[1..] == rest;
    } else {
      assert after[1..] == EncodeItems(items.tail) + end;
      ItemsStart(items.tail, end);
      ItemsRoundTrip(items.tail, rest);
    }
  }

  /** A written pair reads back, whatever follows it. */
  lemma MemberRoundTrip(key: Text, value: Value, after: Text)
    requires ParseValue(Encode(value) + after) == Some((Canon(value), after))
    requires Encode(value) != [] && !IsWs(Encode(value)[0])
    ensures ParseMember(EncodePair(key, value) + after) == Some(((Join(key), Canon(value)), after))
  {
    var fromValue := Encode(value) + after;
    var fromColon := [COLON] + fromValue;
    assert EncodePair(key, value) + after == Quoted(key) + fromColon;
    StringRoundTrip(key, fromColon);
    Enclosed(QUOTE, EncodeText(key), QUOTE, fromColon);
    assert fromColon[1..] == fromValue;
    assert SkipWs(fromColon) == fromColon;
    assert SkipWs(fromValue) == fromValue;
  }

  lemma LastPair(s: Text, k: Text, v: Value, rest: Text)
    requires ParseMember(s) == Some(((k, v), [RBRACE] + rest))
    ensures ParseMembers(s) == Some((Member(k, v, NoMembers), rest))
  {
    assert ([RBRACE] + rest)[1..] == rest;
  }

  lemma PairThenMore(s: Text, k: Text, v: Value, next: Text, tail: Members, rest: Text)
    requires ParseMember(s) == Some(((k, v), [COMMA] + next)) && SkipWs(next) == next
    requires ParseMembers(next) == Some((tail, rest))
    ensures ParseMembers(s) == Some((Member(k, v, tail), rest))
  {
    assert ([COMMA] + next)[1..] == next;
  }

  lemma {:induction false} MembersRoundTrip(ms: Members, rest: Text)
    requires ms.Member? && MembersOk(ms)
    ensures ParseMembers(EncodeMembers(ms) + ([RBRACE] + rest)) == Some((CanonMembers(ms), rest))
    decreases ms, 1
  {
    var end := [RBRACE] + rest;
    var after := MoreMembers(ms.rest) + end;
    var s := EncodePair(ms.key, ms.value) + after;
    EncodeStart(ms.value);
    ValueRoundTrip(ms.value, after);
    MemberRoundTrip(ms.key, ms.value, after);
    assert EncodeMembers(ms) + end == s;
    if ms.rest.NoMembers? {
      assert after == end;
      LastPair(s, Join(ms.key), Canon(ms.value), rest);
    } else {
      var next := EncodeMembers(ms.rest) + end;
      assert after == [COMMA] + next;
      MembersStart(ms.rest, end);
      MembersRoundTrip(ms.rest, rest);
      PairThenMore(s, Join(ms.key), Canon(ms.value), next, CanonMembers(ms.rest), rest);
    }
  }

  /** The law: whatever is dumped loads as its canonical form. */
  lemma LoadsDumps(v: Value)
    requires NumbersOk(v)
    ensures Loads(Encode(v)) == Some(Canon(v))
  {
    ValueRoundTrip(v, []);
    assert Encode(v) + [] == Encode(v);
    EncodeStart(v);
  }

  // ---------------------------------------------------------------------------------------------
  // Canonical values
  // ---------------------------------------------------------------------------------------------

  function Size(ms: Members): nat {
    match ms
    case NoMembers => 0
    case Member(_, _, rest) => 1 + Size(rest)
  }

  function Append(a: Members, b: Members): Members {
    match a
    case NoMembers => b
    case Member(k, v, rest) => Member(k, v, Append(rest, b))
  }

  predicate Disjoint(a: Members, b: Members) {
    b.Member? ==> !HasKey(a, b.key) && Disjoint(a, b.rest)
  }

  lemma PutKeys(d: Members, key: Text, value: Value)
    ensures forall k :: HasKey(Put(d, key, value), k) <==> HasKey(d, k) || k == key
    ensures HasKey(d, key) ==> Size(Put(d, key, value)) == Size(d)
    ensures !HasKey(d, key) ==> Put(d, key, value) == Append(d, Member(key, value, NoMembers))
  {
  }

  lemma AppendAssoc(a: Members, b: Members, c: Members)
    ensures Append(Append(a, b), c) == Append(a, Append(b, c))
    ensures Size(Append(a, b)) == Size(a) + Size(b)
  {
  }

  lemma DisjointPut(d: Members, key: Text, value: Value, ms: Members)
    ensures Disjoint(Put(d, key, value), ms) <==> Disjoint(d, ms) && !HasKey(ms, key)
  {
    if ms.Member? {
      PutKeys(d, key, value);
      DisjointPut(d, key, value, ms.rest);
    }
  }

  /** Inserting pairs one by one is appending them when their keys are distinct and new; otherwise pairs are lost. */
  lemma {:induction false} PutAllAppends(d: Members, ms: Members)
    ensures Size(PutAll(d, ms)) <= Size(d) + Size(ms)
    ensures DistinctKeys(ms) && Disjoint(d, ms) ==> PutAll(d, ms) == Append(d, ms)
    ensures !(DistinctKeys(ms) && Disjoint(d, ms)) ==> Size(PutAll(d, ms)) < Size(d) + Size(ms)
    decreases ms
  {
    match ms
    case NoMembers =>
      AppendNone(d);
    case Member(k, v, rest) =>
      PutKeys(d, k, v);
      PutAllAppends(Put(d, k, v), rest);
      DisjointPut(d, k, v, rest);
      AppendAssoc(d, Member(k, v, NoMembers), rest);
  }

  lemma AppendNone(d: Members)
    ensures Append(d, NoMembers) == d
  {
  }

  lemma NewDict(ms: Members)
    ensures DistinctKeys(ms) ==> PutAll(NoMembers, ms) == ms
    ensures !DistinctKeys(ms) ==> Size(PutAll(NoMembers, ms)) < Size(ms)
  {
    PutAllAppends(NoMembers, ms);
    DisjointNone(ms);
  }

  lemma DisjointNone(ms: Members)
    ensures Disjoint(NoMembers, ms)
  {
  }

  lemma CanonSize(ms: Members)
    ensures Size(CanonMembers(ms)) == Size(ms)
  {
  }

  /** A value comes back unchanged exactly when it is clean. */
  lemma {:induction false} CanonIdentity(v: Value)
    ensures Canon(v) == v <==> Clean(v)
    decreases v, 0
  {
    match v
    case Lit(_) =>
    case Num(_) =>
    case Str(t) =>
      JoinIdentity(t);
    case Arr(items) =>
      CanonItemsIdentity(items);
    case Obj(members) =>
      CanonMembersIdentity(members);
      CanonSize(members);
      NewDict(CanonMembers(members));
  }

  lemma {:induction false} CanonItemsIdentity(items: Items)
    ensures CanonItems(items) == items <==> CleanItems(items)
    decreases items, 1
  {
    if items.Item? {
      CanonIdentity(items.head);
      CanonItemsIdentity(items.tail);
    }
  }

  lemma {:induction false} CanonMembersIdentity(ms: Members)
    ensures CanonMembers(ms) == ms <==> CleanMembers(ms)
    decreases ms, 1
  {
    if ms.Member? {
      JoinIdentity(ms.key);
      CanonIdentity(ms.value);
      CanonMembersIdentity(ms.rest);
    }
  }

  /** Round trip, both directions: dumping and loading is the identity on exactly the clean values. */
  lemma RoundTripIff(v: Value)
    requires NumbersOk(v)
    ensures Loads(Encode(v)) == Some(v) <==> Clean(v)
  {
    LoadsDumps(v);
    CanonIdentity(v);
  }

  predicate Printable(t: Text) {
    forall i :: 0 <= i < |t| ==> 0x20 <= t[i] <= 0x7E
  }

  lemma PrintableConcat(a: Text, b: Text)
    requires Printable(a) && Printable(b)
    ensures Printable(a + b)
  {
  }

  lemma CharAscii(c: CodePoint)
    ensures Printable(EncodeChar(c))
  {
  }

  lemma {:induction false} EncodeTextAscii(t: Text)
    ensures Printable(EncodeText(t))
  {
    hide Printable, EncodeChar;
    if t != [] {
      CharAscii(t[0]);
      EncodeTextAscii(t[1..]);
      PrintableConcat(EncodeChar(t[0]), EncodeText(t[1..]));
    } else {
      NothingPrintable();
    }
  }

  lemma NothingPrintable()
    ensures Printable([])
  {
  }

  lemma EnclosedAscii(open: CodePoint, body: Text, close: CodePoint)
    requires Printable(body) && 0x20 <= open <= 0x7E && 0x20 <= close <= 0x7E
    ensures Printable([open] + body + [close])
  {
  }

  lemma WordAscii(w: Word)
    ensures Printable(Spelling(w))
  {
  }

  predicate PrintableTo(s: Text, n: nat)
    requires n <= |s|
  {
    forall i :: 0 <= i < n ==> 0x20 <= s[i] <= 0x7E
  }

  lemma PrintableOn(s: Text, a: nat, b: nat)
    requires a + b <= |s| && PrintableTo(s, a) && PrintableTo(s[a..], b)
    ensures PrintableTo(s, a + b)
  {
    forall i | a <= i < a + b ensures 0x20 <= s[i] <= 0x7E {
      assert s[i] == s[a..][i - a];
    }
  }

  lemma DigitsPrintable(s: Text)
    ensures PrintableTo(s, Digits(s))
  {
    if s != [] && IsDigit(s[0]) {
      DigitsPrintable(s[1..]);
      PrintableOn(s, 1, Digits(s[1..]));
    }
  }

  lemma FracPrintable(s: Text)
    ensures PrintableTo(s, FracLen(s))
  {
    if FracLen(s) > 0 {
      DigitsPrintable(s[1..]);
      PrintableOn(s, 1, Digits(s[1..]));
    }
  }

  lemma ExpPrintable(s: Text)
    ensures PrintableTo(s, ExpLen(s))
  {
    if ExpLen(s) > 0 {
      var sign := if s[1] in {'+' as int, '-' as int} then 2 else 1;
      DigitsPrintable(s[sign..]);
      PrintableOn(s, sign, Digits(s[sign..]));
    }
  }

  lemma UnsignedPrintable(s: Text)
    ensures PrintableTo(s, UnsignedLen(s))
  {
    if UnsignedLen(s) > 0 {
      var a := IntLen(s);
      var t := s[a..];
      DigitsPrintable(s);
      FracPrintable(t);
      ExpPrintable(t[FracLen(t)..]);
      PrintableOn(t, FracLen(t), ExpLen(t[FracLen(t)..]));
      PrintableOn(s, a, TailLen(t));
    }
  }

  lemma NumberAscii(l: Text)
    requires IsNumber(l)
    ensures Printable(l)
  {
    UnsignedPrintable(l);
    UnsignedPrintable(l[1..]);
    if l[0] == '-' as int {
      PrintableOn(l, 1, UnsignedLen(l[1..]));
    }
  }

  /** What `json.dumps` writes is printable ASCII. */
  lemma {:induction false} EncodeAscii(v: Value)
    requires NumbersOk(v)
    ensures Printable(Encode(v))
    decreases v, 0
  {
    hide Printable, Spelling;
    match v
    case Lit(w) => WordAscii(w);
    case Num(l) => NumberAscii(l);
    case Str(t) =>
      EncodeTextAscii(t);
      EnclosedAscii(QUOTE, EncodeText(t), QUOTE);
    case Arr(items) =>
      ItemsAscii(items);
      EnclosedAscii(LBRACKET, EncodeItems(items), RBRACKET);
    case Obj(members) =>
      MembersAscii(members);
      EnclosedAscii(LBRACE, EncodeMembers(members), RBRACE);
  }

  lemma {:induction false} ItemsAscii(items: Items)
    requires ItemsOk(items)
    ensures Printable(EncodeItems(items)) && Printable(MoreItems(items))
    decreases items, 1
  {
    hide Printable, Encode;
    NothingPrintable();
    if items.Item? {
      EncodeAscii(items.head);
      ItemsAscii(items.tail);
      PrintableConcat(Encode(items.head), MoreItems(items.tail));
      CommaAscii(EncodeItems(items));
    }
  }

  lemma CommaAscii(t: Text)
    requires Printable(t)
    ensures Printable([COMMA] + t) && Printable([COLON] + t)
  {
  }

  lemma {:induction false} MembersAscii(ms: Members)
    requires MembersOk(ms)
    ensures Printable(EncodeMembers(ms)) && Printable(MoreMembers(ms))
    decreases ms, 1
  {
    hide Printable, Encode;
    NothingPrintable();
    if ms.Member? {
      EncodeTextAscii(ms.key);
      EnclosedAscii(QUOTE, EncodeText(ms.key), QUOTE);
      EncodeAscii(ms.value);
      CommaAscii(Encode(ms.value));
      PrintableConcat(Quoted(ms.key), [COLON] + Encode(ms.value));
      MembersAscii(ms.rest);
      PrintableConcat(EncodePair(ms.key, ms.value), MoreMembers(ms.rest));
      CommaAscii(EncodeMembers(ms));
    }
  }
}
