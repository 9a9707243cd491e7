/** The grammar of RFC 8259 as trees with their spelling, and the theorem that the reader of the JSON text layer accepts
    exactly its texts and reads them as what they mean. */
module JsonGrammar {
  import opened Wrappers
  import opened Sequences
  import opened Json
  import opened JsonLaws

  // ---------------------------------------------------------------------------------------------
  // Numbers (section 6)
  // ---------------------------------------------------------------------------------------------

  predicate AllDigits(t: Text) { t != [] && forall i :: 0 <= i < |t| ==> '0' as int <= t[i] <= '9' as int }

  predicate IntPart(t: Text) { AllDigits(t) && (t[0] == '0' as int ==> t == Txt("0")) }

  predicate FracPart(t: Text) { t == [] || (t[0] == '.' as int && AllDigits(t[1..])) }

  predicate ExpPart(t: Text) {
    t == [] ||
    (t[0] in {'e' as int, 'E' as int} &&
     (AllDigits(t[1..]) || (|t| > 1 && t[1] in {'+' as int, '-' as int} && AllDigits(t[2..]))))
  }

  predicate NumberParts(l: Text, sign: Text, whole: Text, frac: Text, exp: Text) {
    && l == sign + (whole + (frac + exp)) && (sign == [] || sign == Txt("-"))
    && IntPart(whole) && FracPart(frac) && ExpPart(exp)
  }

  lemma {:induction false} DigitsRun(t: Text, rest: Text)
    requires AllDigits(t) && (rest == [] || !IsDigit(rest[0]))
    ensures Digits(t + rest) == |t|
  {
    assert (t + rest)[1..] == t[1..] + rest;
    if |t| > 1 {
      DigitsRun(t[1..], rest);
    } else {
      assert t[1..] + rest == rest;
    }
  }

  lemma {:induction false} DigitsAre(s: Text)
    ensures Digits(s) > 0 ==> AllDigits(s[..Digits(s)])
  {
    if s != [] && IsDigit(s[0]) {
      DigitsAre(s[1..]);
      assert forall i :: 0 < i < Digits(s) ==> s[i] == s[1..][..Digits(s[1..])][i - 1];
    }
  }

  /** What can follow the integer part, the fraction and the exponent of a literal that ends there. */
  predicate NoDigit(t: Text) { t == [] || !IsDigit(t[0]) }

  lemma ExpRead(exp: Text)
    requires ExpPart(exp)
    ensures ExpLen(exp) == |exp| && NoDigit(exp) && FracLen(exp) == 0
  {
    if exp != [] {
      var k := if AllDigits(exp[1..]) then 1 else 2;
      DigitsRun(exp[k..], []);
      assert exp[k..] + [] == exp[k..];
      assert exp[1..] != [] ==> exp[1..][0] == exp[1];
    }
  }

  lemma FracRead(frac: Text, exp: Text)
    requires FracPart(frac) && ExpPart(exp)
    ensures FracLen(frac + exp) == |frac| && (frac + exp)[|frac|..] == exp && NoDigit(frac + exp)
  {
    ExpRead(exp);
    if frac == [] {
      assert frac + exp == exp;
    } else {
      assert (frac + exp)[1..] == frac[1..] + exp;
      DigitsRun(frac[1..], exp);
    }
  }

  lemma UnsignedRead(whole: Text, frac: Text, exp: Text)
    requires IntPart(whole) && FracPart(frac) && ExpPart(exp)
    ensures UnsignedLen(whole + (frac + exp)) == |whole| + |frac| + |exp|
  {
    FracRead(frac, exp);
    ExpRead(exp);
    var tail := frac + exp;
    var all := whole + tail;
    assert all[|whole|..] == tail && all[0] == whole[0];
    if whole[0] != '0' as int {
      DigitsRun(whole, tail);
    }
  }

  lemma FracSplits(s: Text)
    ensures FracPart(s[..FracLen(s)])
  {
    var f := FracLen(s);
    if f > 0 {
      DigitsAre(s[1..]);
      assert s[..f][1..] == s[1..][..f - 1];
    }
  }

  lemma ExpSplits(s: Text)
    ensures ExpPart(s[..ExpLen(s)])
  {
    var e := ExpLen(s);
    if e > 0 {
      var k := if |s| > 1 && s[1] in {'+' as int, '-' as int} then 2 else 1;
      DigitsAre(s[k..]);
      assert s[..e][k..] == s[k..][..e - k];
    }
  }

  lemma UnsignedSplits(s: Text) returns (whole: Text, frac: Text, exp: Text)
    requires UnsignedLen(s) > 0
    ensures IntPart(whole) && FracPart(frac) && ExpPart(exp) && s[..UnsignedLen(s)] == whole + (frac + exp)
  {
    hide FracPart, ExpPart, FracLen, ExpLen;
    var a := IntLen(s);
    var t := s[a..];
    var f := FracLen(t);
    var u := t[f..];
    var e := ExpLen(u);
    whole, frac, exp := s[..a], t[..f], u[..e];
    DigitsAre(s);
    FracSplits(t);
    ExpSplits(u);
    assert s[..a + f + e] == s[..a] + (t[..f] + u[..e]);
  }

  /** NUMBERS.  The literals the reader takes for numbers are exactly those of the grammar. */
  lemma NumberIff(l: Text)
    ensures IsNumber(l) <==> exists sign, whole, frac, exp :: NumberParts(l, sign, whole, frac, exp)
  {
    hide IntPart, FracPart, ExpPart, UnsignedLen;
    var minus := '-' as int;
    assert Txt("-") == [minus];
    if IsNumber(l) {
      var sign := if l[0] == minus then [minus] else [];
      var u := l[|sign|..];
      var whole, frac, exp := UnsignedSplits(u);
      assert u[..UnsignedLen(u)] == u && l == sign + u;
      assert NumberParts(l, sign, whole, frac, exp);
    }
    if sign, whole, frac, exp :| NumberParts(l, sign, whole, frac, exp) {
      UnsignedRead(whole, frac, exp);
      IntStart(whole);
      var u := whole + (frac + exp);
      assert u[0] == whole[0];
      if sign == [] {
        assert l == u;
      } else {
        assert l[0] == minus && l[1..] == u;
      }
    }
  }

  lemma IntStart(whole: Text)
    requires IntPart(whole)
    ensures whole != [] && whole[0] != '-' as int
  {
  }

  // ---------------------------------------------------------------------------------------------
  // Strings (section 7)
  // ---------------------------------------------------------------------------------------------

  /** One character of a string as it is spelled: itself, a two-character escape, or `\u` and four hex digits. */
  datatype Piece = Raw(c: CodePoint) | Short(letter: CodePoint) | Unit(digits: Text)

  predicate GoodPiece(p: Piece) {
    match p
    case Raw(c) => c >= 0x20 && c != QUOTE && c != BACKSLASH
    case Short(e) => exists i :: 0 <= i < 8 && e == Txt("\"\\/bfnrt")[i]
    case Unit(d) => |d| == 4 && forall i :: 0 <= i < 4 ==> HexValue(d[i]).Some?
  }

  predicate GoodPieces(ps: seq<Piece>) { forall i :: 0 <= i < |ps| ==> GoodPiece(ps[i]) }

  function Spelled(p: Piece): Text {
    match p
    case Raw(c) => [c]
    case Short(e) => [BACKSLASH, e]
    case Unit(d) => [BACKSLASH, 'u' as int] + d
  }

  function AllSpelled(ps: seq<Piece>): Text {
    if ps == [] then [] else Spelled(ps[0]) + AllSpelled(ps[1..])
  }

  /** What the eight two-character escapes stand for, in the order of `"\/bfnrt`. */
  const ESCAPED: Text := [0x22, 0x5C, 0x2F, 0x08, 0x0C, 0x0A, 0x0D, 0x09]

  function UnitValue(d: Text): CodePoint
    requires GoodPiece(Unit(d))
  {
    HexValue(d[0]).value * 4096 + HexValue(d[1]).value * 256 + HexValue(d[2]).value * 16 + HexValue(d[3]).value
  }

  ghost function Meaning(p: Piece): CodePoint
    requires GoodPiece(p)
  {
    match p
    case Raw(c) => c
    case Short(e) =>
      var i :| 0 <= i < 8 && e == Txt("\"\\/bfnrt")[i];
      ESCAPED[i]
    case Unit(d) => UnitValue(d)
  }

  predicate IsPair(ps: seq<Piece>)
    requires GoodPieces(ps)
  {
    && |ps| >= 2 && ps[0].Unit? && ps[1].Unit?
    && IsHigh(UnitValue(ps[0].digits)) && IsLow(UnitValue(ps[1].digits))
  }

  /** The string the pieces mean: an escaped high surrogate followed by an escaped low one is one character. */
  ghost function StringOf(ps: seq<Piece>): Text
    requires GoodPieces(ps)
  {
    if ps == [] then []
    else if IsPair(ps) then [Combine(UnitValue(ps[0].digits), UnitValue(ps[1].digits))] + StringOf(ps[2..])
    else [Meaning(ps[0])] + StringOf(ps[1..])
  }

  /** Hex digits, in small letters or capitals, and their values. */
  lemma HexIs(c: CodePoint, n: Nibble)
    ensures HexValue(c) == Some(n) <==> c == Txt("0123456789abcdef")[n] || c == Txt("0123456789ABCDEF")[n]
  {
    var small, capital := "0123456789abcdef", "0123456789ABCDEF";
    assert forall i: Nibble :: small[i] as int == (if i < 10 then '0' as int + i else 'a' as int + (i - 10));
    assert forall i: Nibble :: capital[i] as int == (if i < 10 then '0' as int + i else 'A' as int + (i - 10));
    assert Txt(small)[n] == small[n] as int && Txt(capital)[n] == capital[n] as int;
  }

  /** The writer's own spelling: the short escape where there is one but for the slash, printable ASCII as it is, and
      the rest in UTF-16 units with small hex digits. */
  lemma WriterSpells(c: CodePoint)
    ensures c == 0x22 ==> EncodeChar(c) == Txt("\\\"")
    ensures c == 0x5C ==> EncodeChar(c) == Txt("\\\\")
    ensures c == 0x08 ==> EncodeChar(c) == Txt("\\b")
    ensures c == 0x0C ==> EncodeChar(c) == Txt("\\f")
    ensures c == 0x0A ==> EncodeChar(c) == Txt("\\n")
    ensures c == 0x0D ==> EncodeChar(c) == Txt("\\r")
    ensures c == 0x09 ==> EncodeChar(c) == Txt("\\t")
    ensures ' ' as int <= c <= '~' as int && c != 0x22 && c != 0x5C ==> EncodeChar(c) == [c]
    ensures (c < 0x20 && c !in [0x08, 0x0C, 0x0A, 0x0D, 0x09]) || c > '~' as int ==>
              |EncodeChar(c)| == (if c < 0x10000 then 6 else 12) && EncodeChar(c)[..2] == Txt("\\u")
  {
  }

  lemma ShortRead(e: CodePoint)
    ensures Unescape(e).Some? <==> GoodPiece(Short(e))
    ensures GoodPiece(Short(e)) ==> Unescape(e) == Some(Meaning(Short(e))) && e != 'u' as int
  {
    var letters := Txt("\"\\/bfnrt");
    assert letters == [0x22, 0x5C, 0x2F, 0x62, 0x66, 0x6E, 0x72, 0x74];
    assert letters[0] == 0x22 && letters[1] == 0x5C && letters[2] == 0x2F && letters[3] == 0x62;
    assert letters[4] == 0x66 && letters[5] == 0x6E && letters[6] == 0x72 && letters[7] == 0x74;
  }

  lemma UnitRead(s: Text)
    ensures ReadUnit(s).Some? <==>
            |s| >= 6 && s[0] == BACKSLASH && s[1] == 'u' as int && GoodPiece(Unit(s[2..6]))
    ensures ReadUnit(s).Some? ==> ReadUnit(s).value == UnitValue(s[2..6])
  {
    if |s| >= 6 {
      var d := s[2..6];
      assert d[0] == s[2] && d[1] == s[3] && d[2] == s[4] && d[3] == s[5];
    }
  }

  lemma UnitFirst(d: Text, more: Text)
    requires GoodPiece(Unit(d))
    ensures ReadUnit(Spelled(Unit(d)) + more) == Some(UnitValue(d)) && (Spelled(Unit(d)) + more)[6..] == more
  {
    hide ReadUnit, HexValue, UnitValue;
    var s := Spelled(Unit(d)) + more;
    assert s[2..6] == d && s[0] == BACKSLASH && s[1] == 'u' as int;
    UnitRead(s);
  }

  lemma NoUnitFirst(p: Piece, more: Text)
    requires GoodPiece(p) && !p.Unit?
    ensures ReadUnit(Spelled(p) + more).None?
  {
    hide HexValue;
    var s := Spelled(p) + more;
    assert s[0] == Spelled(p)[0];
    if p.Short? {
      ShortRead(p.letter);
      assert s[1] == p.letter;
    }
  }

  /** What a well-spelled string starts with decides whether a low surrogate's escape comes next. */
  lemma UnitAhead(ps: seq<Piece>, rest: Text)
    requires GoodPieces(ps)
    ensures var s := AllSpelled(ps) + ([QUOTE] + rest);
            if ps != [] && ps[0].Unit? then
              ReadUnit(s) == Some(UnitValue(ps[0].digits)) && s[6..] == AllSpelled(ps[1..]) + ([QUOTE] + rest)
            else ReadUnit(s).None?
  {
    hide HexValue, UnitValue, Spelled, GoodPiece;
    var end := [QUOTE] + rest;
    if ps == [] {
      assert AllSpelled(ps) + end == end;
    } else {
      hide ReadUnit;
      var p, more := ps[0], AllSpelled(ps[1..]) + end;
      assert GoodPiece(p);
      Regroup(Spelled(p), AllSpelled(ps[1..]), end);
      if p.Unit? {
        UnitFirst(p.digits, more);
      } else {
        NoUnitFirst(p, more);
      }
    }
  }

  /** One piece, or an escaped pair, is scanned first. */
  ghost predicate ScansTo(s: Text, c: CodePoint, more: Text) {
    ScanString(s) == (if ScanString(more).None? then None
                      else Some(([c] + ScanString(more).value.0, ScanString(more).value.1)))
  }

  lemma ScanRaw(c: CodePoint, more: Text)
    requires GoodPiece(Raw(c))
    ensures ScansTo(Spelled(Raw(c)) + more, c, more)
  {
    var s := [c] + more;
    assert s[0] == c && s[1..] == more;
  }

  lemma ScanLetter(e: CodePoint, more: Text)
    requires GoodPiece(Short(e))
    ensures ScansTo(Spelled(Short(e)) + more, Meaning(Short(e)), more)
  {
    hide Unescape;
    ShortRead(e);
    var s := [BACKSLASH, e] + more;
    assert s[0] == BACKSLASH && s[1] == e && s[2..] == more;
  }

  lemma ScanLone(d: Text, more: Text)
    requires GoodPiece(Unit(d))
    requires IsHigh(UnitValue(d)) ==> ReadUnit(more).None? || !IsLow(ReadUnit(more).value)
    ensures ScansTo(Spelled(Unit(d)) + more, UnitValue(d), more)
  {
    hide ReadUnit, HexValue, UnitValue;
    var s := Spelled(Unit(d)) + more;
    assert s[2..6] == d && s[0] == BACKSLASH && s[1] == 'u' as int && s[6..] == more;
    UnitRead(s);
  }

  lemma ScanTwo(d: Text, e: Text, more: Text)
    requires GoodPiece(Unit(d)) && GoodPiece(Unit(e)) && IsHigh(UnitValue(d)) && IsLow(UnitValue(e))
    ensures ScansTo(Spelled(Unit(d)) + (Spelled(Unit(e)) + more), Combine(UnitValue(d), UnitValue(e)), more)
  {
    hide ReadUnit, HexValue, UnitValue;
    var t := Spelled(Unit(e)) + more;
    var s := Spelled(Unit(d)) + t;
    assert s[2..6] == d && s[0] == BACKSLASH && s[1] == 'u' as int && s[6..] == t;
    assert t[2..6] == e && t[0] == BACKSLASH && t[1] == 'u' as int && t[6..] == more;
    UnitRead(s);
    UnitRead(t);
    assert s[12..] == more;
  }

  lemma ScanPieces(ps: seq<Piece>, rest: Text)
    requires GoodPieces(ps) && ps != []
    ensures var k := if IsPair(ps) then 2 else 1;
            var c := if IsPair(ps) then Combine(UnitValue(ps[0].digits), UnitValue(ps[1].digits)) else Meaning(ps[0]);
            ScansTo(AllSpelled(ps) + ([QUOTE] + rest), c, AllSpelled(ps[k..]) + ([QUOTE] + rest))
  {
    hide ReadUnit, HexValue, UnitValue, ScansTo, Spelled, ScanString, GoodPiece;
    var end := [QUOTE] + rest;
    var p, more := ps[0], AllSpelled(ps[1..]) + end;
    assert GoodPiece(p);
    Regroup(Spelled(p), AllSpelled(ps[1..]), end);
    match p
    case Raw(c) => ScanRaw(c, more);
    case Short(e) => ScanLetter(e, more);
    case Unit(d) =>
      UnitAhead(ps[1..], rest);
      if IsPair(ps) {
        assert GoodPiece(ps[1]);
        assert ps[1..][0] == ps[1] && ps[1..][1..] == ps[2..];
        Regroup(Spelled(ps[1]), AllSpelled(ps[2..]), end);
        ScanTwo(d, ps[1].digits, AllSpelled(ps[2..]) + end);
      } else {
        assert |ps| >= 2 ==> ps[1..][0] == ps[1];
        ScanLone(d, more);
      }
  }

  /** STRINGS, read.  Any spelling of a string is scanned to what it means. */
  lemma {:induction false} ScanSpelled(ps: seq<Piece>, rest: Text)
    requires GoodPieces(ps)
    ensures ScanString(AllSpelled(ps) + ([QUOTE] + rest)) == Some((StringOf(ps), rest))
    decreases |ps|
  {
    hide Meaning, UnitValue, GoodPiece;
    var end := [QUOTE] + rest;
    if ps == [] {
      assert AllSpelled(ps) + end == end && end[1..] == rest;
      EndScans(rest);
    } else {
      ScanPieces(ps, rest);
      ScanSpelled(ps[if IsPair(ps) then 2 else 1..], rest);
    }
  }

  lemma EndScans(rest: Text)
    ensures ScanString([QUOTE] + rest) == Some(([], rest))
  {
    assert ([QUOTE] + rest)[1..] == rest;
  }

  /** STRINGS, accepted.  Whatever is scanned as a string is the spelling of one. */
  lemma {:induction false} ScannedIsSpelled(s: Text) returns (ps: seq<Piece>)
    requires ScanString(s).Some?
    ensures GoodPieces(ps)
    ensures s == AllSpelled(ps) + ([QUOTE] + ScanString(s).value.1) && StringOf(ps) == ScanString(s).value.0
    decreases |s|
  {
    hide ReadUnit, HexValue, UnitValue, Unescape, Meaning, GoodPiece;
    var rest := ScanString(s).value.1;
    var end := [QUOTE] + rest;
    if s[0] == QUOTE {
      ps := [];
      assert AllSpelled(ps) + end == s;
    } else if s[0] != BACKSLASH {
      var more := ScannedIsSpelled(s[1..]);
      RawPiece(s[0]);
      ps := Prepended(Raw(s[0]), more, s, s[1..], end);
    } else if s[1] != 'u' as int {
      ShortRead(s[1]);
      var more := ScannedIsSpelled(s[2..]);
      ps := Prepended(Short(s[1]), more, s, s[2..], end);
    } else {
      UnitRead(s);
      UnitRead(s[6..]);
      var d := s[2..6];
      var hi, lo := ReadUnit(s).value, ReadUnit(s[6..]);
      if IsHigh(hi) && lo.Some? && IsLow(lo.value) {
        var e := s[6..][2..6];
        assert s[12..] == s[6..][6..];
        var more := ScannedIsSpelled(s[12..]);
        var tail := Prepended(Unit(e), more, s[6..], s[12..], end);
        ps := Prepended(Unit(d), tail, s, s[6..], end);
        assert ps[0] == Unit(d) && ps[1] == Unit(e) && ps[2..] == more;
      } else {
        var more := ScannedIsSpelled(s[6..]);
        UnitAhead(more, rest);
        ps := Prepended(Unit(d), more, s, s[6..], end);
        assert ps[0] == Unit(d) && ps[1..] == more;
        UnitMeaning(d);
      }
    }
  }

  lemma RawPiece(c: CodePoint)
    ensures GoodPiece(Raw(c)) <==> c >= 0x20 && c != QUOTE && c != BACKSLASH
    ensures GoodPiece(Raw(c)) ==> Meaning(Raw(c)) == c
  {
  }

  lemma UnitMeaning(d: Text)
    ensures GoodPiece(Unit(d)) ==> Meaning(Unit(d)) == UnitValue(d)
  {
  }

  /** One piece before others. */
  lemma Prepended(p: Piece, more: seq<Piece>, s: Text, tail: Text, end: Text) returns (ps: seq<Piece>)
    requires GoodPiece(p) && GoodPieces(more) && s == Spelled(p) + tail && tail == AllSpelled(more) + end
    ensures ps == [p] + more && GoodPieces(ps) && s == AllSpelled(ps) + end
    ensures !IsPair(ps) ==> StringOf(ps) == [Meaning(p)] + StringOf(more)
    ensures IsPair(ps) ==>
              StringOf(ps) == [Combine(UnitValue(ps[0].digits), UnitValue(ps[1].digits))] + StringOf(ps[2..])
  {
    hide GoodPiece, Meaning, UnitValue, Spelled;
    ps := [p] + more;
    assert ps[1..] == more;
  }

  // ---------------------------------------------------------------------------------------------
  // Values (sections 3 to 5)
  // ---------------------------------------------------------------------------------------------

  /** A text with its tokens and the white space between them. */
  datatype Doc =
    | Word(word: Word)
    | Number(literal: Text)
    | String(pieces: seq<Piece>)
    | EmptyArray(space: Text)
    | Array(elements: Elements)
    | EmptyObject(space: Text)
    | Object(entries: Entries)

  datatype Elements =
    | LastElement(before: Text, doc: Doc, after: Text)
    | Element(before: Text, doc: Doc, after: Text, rest: Elements)

  datatype Entries =
    | LastEntry(before: Text, key: seq<Piece>, colon: Text, value: Text, doc: Doc, after: Text)
    | Entry(before: Text, key: seq<Piece>, colon: Text, value: Text, doc: Doc, after: Text, rest: Entries)

  /** White space (section 2): space, tab, line feed and carriage return. */
  predicate Blank(c: CodePoint) { c == ' ' as int || c == '\t' as int || c == '\n' as int || c == '\r' as int }

  predicate AllWs(w: Text) { forall i :: 0 <= i < |w| ==> Blank(w[i]) }

  predicate Good(d: Doc) {
    match d
    case Word(_) => true
    case Number(l) => IsNumber(l)
    case String(ps) => GoodPieces(ps)
    case EmptyArray(w) => AllWs(w)
    case Array(es) => GoodElements(es)
    case EmptyObject(w) => AllWs(w)
    case Object(es) => GoodEntries(es)
  }

  predicate GoodElements(es: Elements) {
    AllWs(es.before) && Good(es.doc) && AllWs(es.after) && (es.Element? ==> GoodElements(es.rest))
  }

  predicate GoodEntries(es: Entries) {
    && AllWs(es.before) && GoodPieces(es.key) && AllWs(es.colon) && AllWs(es.value) && Good(es.doc) && AllWs(es.after)
    && (es.Entry? ==> GoodEntries(es.rest))
  }

  /** The text of `d` followed by `k`. */
  function Render(d: Doc, k: Text): Text
    decreases d, 0
  {
    match d
    case Word(w) => Spelling(w) + k
    case Number(l) => l + k
    case String(ps) => [QUOTE] + (AllSpelled(ps) + ([QUOTE] + k))
    case EmptyArray(w) => [LBRACKET] + (w + ([RBRACKET] + k))
    case Array(es) => [LBRACKET] + RenderElements(es, [RBRACKET] + k)
    case EmptyObject(w) => [LBRACE] + (w + ([RBRACE] + k))
    case Object(es) => [LBRACE] + RenderEntries(es, [RBRACE] + k)
  }

  function RenderElements(es: Elements, k: Text): Text
    decreases es, 1
  {
    es.before + Render(es.doc, es.after + (if es.Element? then [COMMA] + RenderElements(es.rest, k) else k))
  }

  function RenderEntries(es: Entries, k: Text): Text
    decreases es, 1
  {
    es.before + RenderEntry(es, es.after + (if es.Entry? then [COMMA] + RenderEntries(es.rest, k) else k))
  }

  /** A key and its value. */
  function RenderEntry(es: Entries, k: Text): Text
    decreases es, 0
  {
    [QUOTE] + (AllSpelled(es.key) + ([QUOTE] + (es.colon + ([COLON] + (es.value + Render(es.doc, k))))))
  }

  /** What the text means. */
  ghost function ValueOf(d: Doc): Value
    requires Good(d)
  {
    match d
    case Word(w) => Lit(w)
    case Number(l) => Num(l)
    case String(ps) => Str(StringOf(ps))
    case EmptyArray(_) => Arr(NoItems)
    case Array(es) => Arr(ItemsOf(es))
    case EmptyObject(_) => Obj(NoMembers)
    case Object(es) => Obj(PutAll(NoMembers, PairsOf(es)))
  }

  ghost function ItemsOf(es: Elements): Items
    requires GoodElements(es)
  {
    Item(ValueOf(es.doc), if es.Element? then ItemsOf(es.rest) else NoItems)
  }

  ghost function PairsOf(es: Entries): Members
    requires GoodEntries(es)
  {
    Member(StringOf(es.key), ValueOf(es.doc), if es.Entry? then PairsOf(es.rest) else NoMembers)
  }

  lemma {:induction false} SkipsWs(w: Text, t: Text)
    requires AllWs(w) && (t == [] || !IsWs(t[0]))
    ensures SkipWs(w + t) == t
  {
    if w == [] {
      assert w + t == t;
    } else {
      assert (w + t)[1..] == w[1..] + t;
      SkipsWs(w[1..], t);
    }
  }

  lemma {:induction false} SkippedWs(s: Text) returns (w: Text)
    ensures AllWs(w) && s == w + SkipWs(s) && (SkipWs(s) == [] || !IsWs(SkipWs(s)[0]))
  {
    if s != [] && IsWs(s[0]) {
      w := SkippedWs(s[1..]);
      w := [s[0]] + w;
      assert s == [s[0]] + s[1..];
    } else {
      w := [];
      assert s == w + s;
    }
  }

  /** No text starts with white space, a closing bracket, or a byte order mark. */
  lemma RenderStart(d: Doc, k: Text)
    requires Good(d)
    ensures var t := Render(d, k); t != [] && !IsWs(t[0]) && t[0] != RBRACKET && t[0] != RBRACE && t[0] != 0xFEFF
  {
    match d
    case Word(w) => assert (Spelling(w) + k)[0] == Spelling(w)[0];
    case Number(l) => assert (l + k)[0] == l[0];
    case _ =>
  }

  lemma StopsAfter(w: Text, t: Text)
    requires AllWs(w) && Stops(t)
    ensures Stops(w + t)
  {
    if w == [] {
      assert w + t == t;
    }
  }

  // ---------------------------------------------------------------------------------------------
  // Every text of the grammar is read as what it means
  // ---------------------------------------------------------------------------------------------

  lemma {:induction false} ReadsDoc(d: Doc, k: Text)
    requires Good(d) && Stops(k)
    ensures ParseValue(Render(d, k)) == Some((ValueOf(d), k))
    decreases d, 2
  {
    hide StringOf, AllSpelled, ParseArr, ParseObj, ScanString, ParseWord;
    var s := Render(d, k);
    match d
    case Word(w) => WordRoundTrip(w, k);
    case Number(l) => NumRoundTrip(l, k);
    case String(ps) =>
      ScanSpelled(ps, k);
      assert s[1..] == AllSpelled(ps) + ([QUOTE] + k);
    case EmptyArray(w) =>
      assert s[1..] == w + ([RBRACKET] + k);
      ReadsEmptyArray(w, k);
    case Array(es) =>
      assert s[1..] == RenderElements(es, [RBRACKET] + k);
      ReadsElements(es, k);
      ReadsArray(es, k);
    case EmptyObject(w) =>
      assert s[1..] == w + ([RBRACE] + k);
      ReadsEmptyObject(w, k);
    case Object(es) =>
      assert s[1..] == RenderEntries(es, [RBRACE] + k);
      ReadsEntries(es, k);
      ReadsObject(es, k);
  }

  lemma ReadsEmptyArray(w: Text, k: Text)
    requires AllWs(w)
    ensures ParseArr(w + ([RBRACKET] + k)) == Some((Arr(NoItems), k))
  {
    SkipsWs(w, [RBRACKET] + k);
    assert ([RBRACKET] + k)[1..] == k;
  }

  lemma ReadsEmptyObject(w: Text, k: Text)
    requires AllWs(w)
    ensures ParseObj(w + ([RBRACE] + k)) == Some((Obj(NoMembers), k))
  {
    SkipsWs(w, [RBRACE] + k);
    assert ([RBRACE] + k)[1..] == k;
  }

  lemma ReadsArray(es: Elements, k: Text)
    requires GoodElements(es)
    requires ParseItems(SkipWs(RenderElements(es, [RBRACKET] + k))) == Some((ItemsOf(es), k))
    ensures ParseArr(RenderElements(es, [RBRACKET] + k)) == Some((Arr(ItemsOf(es)), k))
  {
    hide Render, ItemsOf, ParseItems;
    var more := es.after + (if es.Element? then [COMMA] + RenderElements(es.rest, [RBRACKET] + k) else [RBRACKET] + k);
    RenderStart(es.doc, more);
    SkipsWs(es.before, Render(es.doc, more));
  }

  lemma ReadsObject(es: Entries, k: Text)
    requires GoodEntries(es)
    requires ParseMembers(SkipWs(RenderEntries(es, [RBRACE] + k))) == Some((PairsOf(es), k))
    ensures ParseObj(RenderEntries(es, [RBRACE] + k)) == Some((Obj(PutAll(NoMembers, PairsOf(es))), k))
  {
    hide RenderEntry, PairsOf, ParseMembers, PutAll;
    var more := es.after + (if es.Entry? then [COMMA] + RenderEntries(es.rest, [RBRACE] + k) else [RBRACE] + k);
    EntryStart(es, more);
    SkipsWs(es.before, RenderEntry(es, more));
  }

  lemma EntryStart(es: Entries, k: Text)
    ensures RenderEntry(es, k) != [] && RenderEntry(es, k)[0] == QUOTE && !IsWs(RenderEntry(es, k)[0])
  {
  }

  lemma {:induction false} ReadsElements(es: Elements, k: Text)
    requires GoodElements(es)
    ensures ParseItems(SkipWs(RenderElements(es, [RBRACKET] + k))) == Some((ItemsOf(es), k))
    decreases es, 1
  {
    hide Render, ValueOf, ParseValue, SkipWs;
    var end := if es.Element? then [COMMA] + RenderElements(es.rest, [RBRACKET] + k) else [RBRACKET] + k;
    var s := Render(es.doc, es.after + end);
    RenderStart(es.doc, es.after + end);
    SkipsWs(es.before, s);
    StopsAfter(es.after, end);
    ReadsDoc(es.doc, es.after + end);
    SkipsWs(es.after, end);
    assert end[1..] == if es.Element? then RenderElements(es.rest, [RBRACKET] + k) else k;
    if es.Element? {
      ReadsElements(es.rest, k);
    }
  }

  lemma {:induction false} ReadsEntries(es: Entries, k: Text)
    requires GoodEntries(es)
    ensures ParseMembers(SkipWs(RenderEntries(es, [RBRACE] + k))) == Some((PairsOf(es), k))
    decreases es, 1
  {
    hide Render, RenderEntry, ValueOf, ParseMember, SkipWs, StringOf;
    var end := if es.Entry? then [COMMA] + RenderEntries(es.rest, [RBRACE] + k) else [RBRACE] + k;
    EntryStart(es, es.after + end);
    SkipsWs(es.before, RenderEntry(es, es.after + end));
    StopsAfter(es.after, end);
    ReadsDoc(es.doc, es.after + end);
    ReadsEntry(es, es.after + end);
    SkipsWs(es.after, end);
    assert end[1..] == if es.Entry? then RenderEntries(es.rest, [RBRACE] + k) else k;
    if es.Entry? {
      ReadsEntries(es.rest, k);
    }
  }

  lemma ReadsEntry(es: Entries, k: Text)
    requires GoodEntries(es) && ParseValue(Render(es.doc, k)) == Some((ValueOf(es.doc), k))
    ensures ParseMember(RenderEntry(es, k)) == Some(((StringOf(es.key), ValueOf(es.doc)), k))
  {
    hide Render, ValueOf, ParseValue, SkipWs, StringOf, AllSpelled, ScanString;
    var value := Render(es.doc, k);
    var colon := [COLON] + (es.value + value);
    var s := RenderEntry(es, k);
    assert s[1..] == AllSpelled(es.key) + ([QUOTE] + (es.colon + colon));
    ScanSpelled(es.key, es.colon + colon);
    SkipsWs(es.colon, colon);
    RenderStart(es.doc, k);
    SkipsWs(es.value, value);
    assert colon[1..] == es.value + value;
  }

  // ---------------------------------------------------------------------------------------------
  // Whatever is read is a text of the grammar
  // ---------------------------------------------------------------------------------------------

  lemma NumberPrefix(s: Text)
    requires NumberLen(s) > 0
    ensures IsNumber(s[..NumberLen(s)])
  {
    hide IntPart, FracPart, ExpPart, UnsignedLen;
    var n := NumberLen(s);
    var minus := '-' as int;
    assert Txt("-") == [minus];
    var sign := if s[0] == minus then [minus] else [];
    var u := s[|sign|..];
    assert UnsignedLen(u) > 0 && n == |sign| + UnsignedLen(u);
    var whole, frac, exp := UnsignedSplits(u);
    assert s[..n] == sign + u[..UnsignedLen(u)];
    assert NumberParts(s[..n], sign, whole, frac, exp);
    NumberIff(s[..n]);
  }

  lemma ReadWord(s: Text) returns (d: Doc)
    requires s != [] && s[0] != QUOTE && s[0] != LBRACE && s[0] != LBRACKET && ParseWord(s).Some?
    ensures Good(d) && s == Render(d, ParseWord(s).value.1) && ValueOf(d) == ParseWord(s).value.0
  {
    hide NumberLen, IsNumber, Spelling, Render, Good, ValueOf;
    match ParseWord(s).value.0
    case Lit(w) =>
      WordLengths();
      d := Word(w);
      WordDoc(w, s);
    case Num(l) =>
      d := Number(l);
      NumberDoc(s);
  }

  lemma WordDoc(w: Word, s: Text)
    requires Spelling(w) <= s
    ensures Good(Word(w)) && ValueOf(Word(w)) == Lit(w) && s == Render(Word(w), s[|Spelling(w)|..])
  {
    hide Spelling;
    assert s == s[..|Spelling(w)|] + s[|Spelling(w)|..];
  }

  lemma NumberDoc(s: Text)
    requires NumberLen(s) > 0
    ensures var l := s[..NumberLen(s)];
            Good(Number(l)) && ValueOf(Number(l)) == Num(l) && s == Render(Number(l), s[NumberLen(s)..])
  {
    hide NumberLen, IsNumber;
    NumberPrefix(s);
    assert s == s[..NumberLen(s)] + s[NumberLen(s)..];
  }

  lemma WordLengths()
    ensures |Spelling(Null)| == |Spelling(True)| == 4 && |Spelling(False)| == 5 && |Spelling(NaN)| == 3
    ensures |Spelling(Infinity)| == 8 && |Spelling(MinusInfinity)| == 9
  {
  }

  lemma {:induction false} ReadIsDoc(s: Text) returns (d: Doc)
    requires ParseValue(s).Some?
    ensures Good(d) && s == Render(d, ParseValue(s).value.1) && ValueOf(d) == ParseValue(s).value.0
    decreases |s|, 0
  {
    hide StringOf, AllSpelled, GoodPieces, ParseWord, ScanString;
    var rest := ParseValue(s).value.1;
    if s[0] == QUOTE {
      var ps := ScannedIsSpelled(s[1..]);
      assert s == [QUOTE] + s[1..];
      d := String(ps);
    } else if s[0] == LBRACE {
      d := ReadIsObject(s[1..]);
      assert s == [LBRACE] + s[1..];
    } else if s[0] == LBRACKET {
      d := ReadIsArray(s[1..]);
      assert s == [LBRACKET] + s[1..];
    } else {
      d := ReadWord(s);
    }
  }

  lemma {:induction false} ReadIsArray(s: Text) returns (d: Doc)
    requires ParseArr(s).Some?
    ensures Good(d) && [LBRACKET] + s == Render(d, ParseArr(s).value.1) && ValueOf(d) == ParseArr(s).value.0
    decreases |s|, 3
  {
    hide ParseItems, SkipWs;
    var rest := ParseArr(s).value.1;
    var w := SkippedWs(s);
    var s1 := SkipWs(s);
    if s1 != [] && s1[0] == RBRACKET {
      assert s1 == [RBRACKET] + s1[1..];
      d := EmptyArray(w);
    } else {
      var es := ReadIsElements(w, s1);
      d := Array(es);
    }
  }

  lemma {:induction false} ReadIsElements(w: Text, s: Text) returns (es: Elements)
    requires AllWs(w) && ParseItems(s).Some?
    ensures GoodElements(es) && ItemsOf(es) == ParseItems(s).value.0
    ensures w + s == RenderElements(es, [RBRACKET] + ParseItems(s).value.1)
    decreases |s|, 1
  {
    hide ParseValue, SkipWs, Render, ValueOf;
    var d := ReadIsDoc(s);
    var s1 := ParseValue(s).value.1;
    var after := SkippedWs(s1);
    var s2 := SkipWs(s1);
    assert s2 == [s2[0]] + s2[1..];
    if s2[0] == RBRACKET {
      es := LastElement(w, d, after);
    } else {
      var w2 := SkippedWs(s2[1..]);
      var rest := ReadIsElements(w2, SkipWs(s2[1..]));
      es := Element(w, d, after, rest);
    }
  }

  lemma ObjectDoc(es: Entries, k: Text)
    requires GoodEntries(es)
    ensures Good(Object(es)) && ValueOf(Object(es)) == Obj(PutAll(NoMembers, PairsOf(es)))
    ensures Render(Object(es), k) == [LBRACE] + RenderEntries(es, [RBRACE] + k)
  {
  }

  lemma EmptyObjectDoc(w: Text, k: Text)
    requires AllWs(w)
    ensures Good(EmptyObject(w)) && ValueOf(EmptyObject(w)) == Obj(NoMembers)
    ensures Render(EmptyObject(w), k) == [LBRACE] + (w + ([RBRACE] + k))
  {
  }

  lemma {:induction false} ReadIsObject(s: Text) returns (d: Doc)
    requires ParseObj(s).Some?
    ensures Good(d) && [LBRACE] + s == Render(d, ParseObj(s).value.1) && ValueOf(d) == ParseObj(s).value.0
    decreases |s|, 3
  {
    hide ParseMembers, SkipWs, PutAll, Render, RenderEntries, Good, GoodEntries, ValueOf, PairsOf, AllWs;
    var rest := ParseObj(s).value.1;
    var w := SkippedWs(s);
    var s1 := SkipWs(s);
    if s1 != [] && s1[0] == RBRACE {
      assert s1 == [RBRACE] + s1[1..];
      d := EmptyObject(w);
      EmptyObjectDoc(w, rest);
    } else {
      var es := ReadIsEntries(w, s1);
      d := Object(es);
      ObjectDoc(es, rest);
    }
  }

  lemma {:induction false} ReadIsEntries(w: Text, s: Text) returns (es: Entries)
    requires AllWs(w) && ParseMembers(s).Some?
    ensures GoodEntries(es) && PairsOf(es) == ParseMembers(s).value.0
    ensures w + s == RenderEntries(es, [RBRACE] + ParseMembers(s).value.1)
    decreases |s|, 2
  {
    hide ParseMember, SkipWs, Render, ValueOf, RenderEntry, StringOf;
    var key, colon, value, d := ReadIsEntry(s);
    var s1 := ParseMember(s).value.1;
    var after := SkippedWs(s1);
    var s2 := SkipWs(s1);
    assert s2 == [s2[0]] + s2[1..];
    var lone := LastEntry(w, key, colon, value, d, after);
    if s2[0] == RBRACE {
      es := lone;
    } else {
      var w2 := SkippedWs(s2[1..]);
      var rest := ReadIsEntries(w2, SkipWs(s2[1..]));
      es := Entry(w, key, colon, value, d, after, rest);
      SameEntry(lone, es, s1);
    }
  }

  lemma SameEntry(a: Entries, b: Entries, k: Text)
    requires a.key == b.key && a.colon == b.colon && a.value == b.value && a.doc == b.doc
    ensures RenderEntry(a, k) == RenderEntry(b, k)
  {
  }

  lemma {:induction false} ReadIsEntry(s: Text) returns (key: seq<Piece>, colon: Text, value: Text, d: Doc)
    requires ParseMember(s).Some?
    ensures GoodPieces(key) && AllWs(colon) && AllWs(value) && Good(d)
    ensures s == RenderEntry(LastEntry([], key, colon, value, d, []), ParseMember(s).value.1)
    ensures forall w, after :: RenderEntry(LastEntry(w, key, colon, value, d, after), ParseMember(s).value.1) == s
    ensures ParseMember(s).value.0 == (StringOf(key), ValueOf(d))
    decreases |s|, 1
  {
    hide ParseValue, SkipWs, Render, ValueOf, StringOf, AllSpelled, ScanString, GoodPieces;
    key := ScannedIsSpelled(s[1..]);
    var s1 := ScanString(s[1..]).value.1;
    colon := SkippedWs(s1);
    var s2 := SkipWs(s1);
    value := SkippedWs(s2[1..]);
    d := ReadIsDoc(SkipWs(s2[1..]));
    assert s == [QUOTE] + s[1..] && s2 == [COLON] + s2[1..];
  }

  /** JSON.  A text loads to a value exactly when the grammar spells that value so, with white space around it. */
  lemma LoadsIff(t: Text, v: Value)
    ensures Loads(t) == Some(v) <==>
            exists w, d, k :: AllWs(w) && AllWs(k) && Good(d) && t == w + Render(d, k) && ValueOf(d) == v
  {
    hide ParseValue, Render, ValueOf, Good;
    if Loads(t) == Some(v) {
      var w := SkippedWs(t);
      var d := ReadIsDoc(SkipWs(t));
      var k := ParseValue(SkipWs(t)).value.1;
      var k' := SkippedWs(k);
      assert k == k';
      assert AllWs(w) && AllWs(k) && Good(d) && t == w + Render(d, k) && ValueOf(d) == v;
    }
    if w, d, k :| AllWs(w) && AllWs(k) && Good(d) && t == w + Render(d, k) && ValueOf(d) == v {
      RenderStart(d, k);
      SkipsWs(w, Render(d, k));
      assert k + [] == k;
      StopsAfter(k, []);
      ReadsDoc(d, k);
      SkipsWs(k, []);
      assert w != [] ==> t[0] == w[0];
    }
  }
}
