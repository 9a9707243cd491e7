/** The JSON text layer under the agent protocol: what `json.dumps(..., separators=(",", ":"))` writes and
    what `json.loads` reads back, on Python strings (sequences of code points, lone surrogates included).

    The grammar is that of RFC 8259: section 4 (objects), 5 (arrays), 6 (numbers) and 7 (strings), plus the
    three words NaN, Infinity and -Infinity that Python adds.  A number is kept as its literal. */
module Json {
  import opened Wrappers

  type CodePoint = x: int | 0 <= x < 0x110000

  /** A Python `str`. */
  type Text = seq<CodePoint>

  /** The code points of an ASCII literal. */
  function Txt(s: string): Text {
    seq(|s|, i requires 0 <= i < |s| => s[i] as int)
  }

  const QUOTE: CodePoint := '\"' as int
  const BACKSLASH: CodePoint := '\\' as int
  const COMMA: CodePoint := ',' as int
  const COLON: CodePoint := ':' as int
  const LBRACKET: CodePoint := '[' as int
  const RBRACKET: CodePoint := ']' as int
  const LBRACE: CodePoint := '{' as int
  const RBRACE: CodePoint := '}' as int

  // ---------------------------------------------------------------------------------------------
  // Values
  // ---------------------------------------------------------------------------------------------

  datatype Word = Null | True | False | NaN | Infinity | MinusInfinity

  datatype Value =
    | Lit(word: Word)
    | Num(literal: Text)
    | Str(text: Text)
    | Arr(items: Items)
    | Obj(members: Members)

  datatype Items = NoItems | Item(head: Value, tail: Items)

  /** A Python dict: keys in insertion order. */
  datatype Members = NoMembers | Member(key: Text, value: Value, rest: Members)

  function Spelling(w: Word): (t: Text)
    ensures t != []
  {
    match w
    case Null => Txt("null")
    case True => Txt("true")
    case False => Txt("false")
    case NaN => Txt("NaN")
    case Infinity => Txt("Infinity")
    case MinusInfinity => Txt("-Infinity")
  }

  /** Every number literal in `v` is one: the only demand on a value that Python can hold. */
  predicate NumbersOk(v: Value) {
    match v
    case Lit(_) => true
    case Num(l) => IsNumber(l)
    case Str(_) => true
    case Arr(items) => ItemsOk(items)
    case Obj(members) => MembersOk(members)
  }

  predicate ItemsOk(items: Items) {
    items.Item? ==> NumbersOk(items.head) && ItemsOk(items.tail)
  }

  predicate MembersOk(ms: Members) {
    ms.Member? ==> NumbersOk(ms.value) && MembersOk(ms.rest)
  }

  // ---------------------------------------------------------------------------------------------
  // Numbers: -? (0 | [1-9] digits) ( . digits )? ( [eE] [+-]? digits )?
  // ---------------------------------------------------------------------------------------------

  predicate IsDigit(c: CodePoint) { '0' as int <= c <= '9' as int }

  /** Length of the run of digits `s` starts with. */
  function Digits(s: Text): (n: nat)
    ensures n <= |s|
  {
    if s != [] && IsDigit(s[0]) then 1 + Digits(s[1..]) else 0
  }

  function IntLen(s: Text): (n: nat)
    ensures n <= |s|
  {
    if s == [] then 0 else if s[0] == '0' as int then 1 else Digits(s)
  }

  function FracLen(s: Text): (n: nat)
    ensures n <= |s|
  {
    if s != [] && s[0] == '.' as int && Digits(s[1..]) > 0 then 1 + Digits(s[1..]) else 0
  }

  function ExpLen(s: Text): (n: nat)
    ensures n <= |s|
  {
    if s == [] || s[0] !in {'e' as int, 'E' as int} then 0
    else
      var sign := if |s| > 1 && s[1] in {'+' as int, '-' as int} then 2 else 1;
      if Digits(s[sign..]) > 0 then sign + Digits(s[sign..]) else 0
  }

  function TailLen(s: Text): (n: nat)
    ensures n <= |s|
  {
    FracLen(s) + ExpLen(s[FracLen(s)..])
  }

  function UnsignedLen(s: Text): (n: nat)
    ensures n <= |s|
  {
    if IntLen(s) == 0 then 0 else IntLen(s) + TailLen(s[IntLen(s)..])
  }

  /** Length of the longest number literal `s` starts with; 0 when there is none. */
  function NumberLen(s: Text): (n: nat)
    ensures n <= |s|
  {
    if s == [] || s[0] != '-' as int then UnsignedLen(s)
    else if UnsignedLen(s[1..]) == 0 then 0
    else 1 + UnsignedLen(s[1..])
  }

  predicate IsNumber(l: Text) { l != [] && NumberLen(l) == |l| }

  predicate IsWs(c: CodePoint) { c == 0x20 || c == 9 || c == 10 || c == 13 }

  /** What can follow a value; it cannot prolong a number. */
  predicate Stops(rest: Text) {
    rest == [] || rest[0] == COMMA || rest[0] == RBRACKET || rest[0] == RBRACE || IsWs(rest[0])
  }

  // ---------------------------------------------------------------------------------------------
  // Strings
  // ---------------------------------------------------------------------------------------------

  predicate IsHigh(c: CodePoint) { 0xD800 <= c <= 0xDBFF }
  predicate IsLow(c: CodePoint) { 0xDC00 <= c <= 0xDFFF }

  function Combine(hi: CodePoint, lo: CodePoint): CodePoint
    requires IsHigh(hi) && IsLow(lo)
  {
    0x10000 + (hi - 0xD800) * 0x400 + (lo - 0xDC00)
  }

  type Nibble = x: int | 0 <= x < 16

  function HexDigit(d: Nibble): CodePoint {
    if d < 10 then '0' as int + d else 'a' as int + (d - 10)
  }

  function HexValue(c: CodePoint): Option<Nibble> {
    if IsDigit(c) then Some(c - '0' as int)
    else if 'a' as int <= c <= 'f' as int then Some(c - 'a' as int + 10)
    else if 'A' as int <= c <= 'F' as int then Some(c - 'A' as int + 10)
    else None
  }

  /** The escape of one UTF-16 unit: backslash, u, four lower-case hex digits. */
  function UnitEscape(n: nat): Text
    requires n < 0x10000
  {
    [BACKSLASH, 'u' as int, HexDigit(n / 4096), HexDigit(n / 256 % 16), HexDigit(n / 16 % 16), HexDigit(n % 16)]
  }

  /** The unit a `\uXXXX` escape at the head of `s` denotes. */
  function ReadUnit(s: Text): Option<CodePoint> {
    if |s| < 6 || s[0] != BACKSLASH || s[1] != 'u' as int then None
    else
      var a :- HexValue(s[2]);
      var b :- HexValue(s[3]);
      var c :- HexValue(s[4]);
      var d :- HexValue(s[5]);
      Some(a * 4096 + b * 256 + c * 16 + d)
  }

  /** The letter after the backslash of a two-character escape. */
  function ShortEscape(c: CodePoint): Option<CodePoint> {
    if c == QUOTE || c == BACKSLASH then Some(c)
    else if c == 10 then Some('n' as int)
    else if c == 13 then Some('r' as int)
    else if c == 9 then Some('t' as int)
    else if c == 12 then Some('f' as int)
    else if c == 8 then Some('b' as int)
    else None
  }

  function EncodeChar(c: CodePoint): Text {
    if ShortEscape(c).Some? then [BACKSLASH, ShortEscape(c).value]
    else if 0x20 <= c <= 0x7E then [c]
    else if c < 0x10000 then UnitEscape(c)
    else UnitEscape(0xD800 + (c - 0x10000) / 0x400) + UnitEscape(0xDC00 + (c - 0x10000) % 0x400)
  }

  function EncodeText(t: Text): Text {
    if t == [] then [] else EncodeChar(t[0]) + EncodeText(t[1..])
  }

  function Unescape(e: CodePoint): Option<CodePoint> {
    if e == QUOTE || e == BACKSLASH || e == '/' as int then Some(e)
    else if e == 'n' as int then Some(10)
    else if e == 'r' as int then Some(13)
    else if e == 't' as int then Some(9)
    else if e == 'f' as int then Some(12)
    else if e == 'b' as int then Some(8)
    else None
  }

  /** A parsed thing and the text after it. */
  type Parsed<T> = Option<(T, Text)>

  /** Read string characters up to the closing quote (strict mode: no raw control characters). */
  function ScanString(s: Text): (r: Parsed<Text>)
    ensures r.Some? ==> |r.value.1| < |s|
  {
    if s == [] then None
    else if s[0] == QUOTE then Some(([], s[1..]))
    else if s[0] < 0x20 then None
    else if s[0] != BACKSLASH then
      var (t, rest) :- ScanString(s[1..]);
      Some(([s[0]] + t, rest))
    else if |s| < 2 then None
    else if s[1] != 'u' as int then
      var c :- Unescape(s[1]);
      var (t, rest) :- ScanString(s[2..]);
      Some(([c] + t, rest))
    else
      var hi :- ReadUnit(s);
      var lo := ReadUnit(s[6..]);
      if IsHigh(hi) && lo.Some? && IsLow(lo.value) then
        var (t, rest) :- ScanString(s[12..]);
        Some(([Combine(hi, lo.value)] + t, rest))
      else
        var (t, rest) :- ScanString(s[6..]);
        Some(([hi] + t, rest))
  }

  /** What a string becomes when written and read back: each high surrogate directly followed by a low one
      is read as the one code point the two encode. */
  function Join(t: Text): Text {
    if |t| >= 2 && IsHigh(t[0]) && IsLow(t[1]) then [Combine(t[0], t[1])] + Join(t[2..])
    else if t == [] then []
    else [t[0]] + Join(t[1..])
  }

  predicate NoSplitPair(t: Text) {
    forall i :: 0 <= i < |t| - 1 ==> !(IsHigh(t[i]) && IsLow(t[i + 1]))
  }

  // ---------------------------------------------------------------------------------------------
  // Writing
  // ---------------------------------------------------------------------------------------------

  function Quoted(t: Text): Text { [QUOTE] + EncodeText(t) + [QUOTE] }

  function Encode(v: Value): Text
    decreases v, 0
  {
    match v
    case Lit(w) => Spelling(w)
    case Num(l) => l
    case Str(t) => Quoted(t)
    case Arr(items) => [LBRACKET] + EncodeItems(items) + [RBRACKET]
    case Obj(members) => [LBRACE] + EncodeMembers(members) + [RBRACE]
  }

  function EncodeItems(items: Items): Text
    decreases items, 1
  {
    if items.NoItems? then [] else Encode(items.head) + MoreItems(items.tail)
  }

  function MoreItems(items: Items): Text
    decreases items, 2
  {
    if items.NoItems? then [] else [COMMA] + EncodeItems(items)
  }

  function EncodeMembers(ms: Members): Text
    decreases ms, 1
  {
    if ms.NoMembers? then [] else EncodePair(ms.key, ms.value) + MoreMembers(ms.rest)
  }

  function MoreMembers(ms: Members): Text
    decreases ms, 2
  {
    if ms.NoMembers? then [] else [COMMA] + EncodeMembers(ms)
  }

  function EncodePair(k: Text, v: Value): Text
    decreases v, 1
  {
    Quoted(k) + ([COLON] + Encode(v))
  }

  // ---------------------------------------------------------------------------------------------
  // Reading
  // ---------------------------------------------------------------------------------------------

  function SkipWs(s: Text): (r: Text)
    ensures |r| <= |s|
  {
    if s != [] && IsWs(s[0]) then SkipWs(s[1..]) else s
  }

  /** `d[key] = value`: replace in place, or append. */
  function Put(d: Members, key: Text, value: Value): Members {
    match d
    case NoMembers => Member(key, value, NoMembers)
    case Member(k, v, rest) =>
      if k == key then Member(k, value, rest) else Member(k, v, Put(rest, key, value))
  }

  /** The dict that inserting `ms` pair by pair into `d` gives. */
  function PutAll(d: Members, ms: Members): Members
    decreases ms
  {
    match ms
    case NoMembers => d
    case Member(k, v, rest) => PutAll(Put(d, k, v), rest)
  }

  /** `d.get(key)` */
  function Get(d: Members, key: Text): Option<Value> {
    match d
    case NoMembers => None
    case Member(k, v, rest) => if k == key then Some(v) else Get(rest, key)
  }

  /** Does `s` start with the word `w`, looking at its first character first? */
  predicate StartsWith(s: Text, w: Word) {
    s != [] && s[0] == Initial(w) && Spelling(w) <= s
  }

  function Initial(w: Word): CodePoint {
    match w
    case Null => 'n' as int
    case True => 't' as int
    case False => 'f' as int
    case NaN => 'N' as int
    case Infinity => 'I' as int
    case MinusInfinity => '-' as int
  }

  function ParseWord(s: Text): (r: Parsed<Value>)
    ensures r.Some? ==> |r.value.1| < |s|
  {
    if StartsWith(s, Null) then Some((Lit(Null), s[4..]))
    else if StartsWith(s, True) then Some((Lit(True), s[4..]))
    else if StartsWith(s, False) then Some((Lit(False), s[5..]))
    else if NumberLen(s) > 0 then Some((Num(s[..NumberLen(s)]), s[NumberLen(s)..]))
    else if StartsWith(s, NaN) then Some((Lit(NaN), s[3..]))
    else if StartsWith(s, Infinity) then Some((Lit(Infinity), s[8..]))
    else if StartsWith(s, MinusInfinity) then Some((Lit(MinusInfinity), s[9..]))
    else None
  }

  function ParseValue(s: Text): (r: Parsed<Value>)
    ensures r.Some? ==> |r.value.1| < |s|
    decreases |s|, 0
  {
    if s == [] then None
    else if s[0] == QUOTE then
      var (t, rest) :- ScanString(s[1..]);
      Some((Str(t), rest))
    else if s[0] == LBRACE then ParseObj(s[1..])
    else if s[0] == LBRACKET then ParseArr(s[1..])
    else ParseWord(s)
  }

  /** An array, after its opening bracket. */
  function ParseArr(s: Text): (r: Parsed<Value>)
    ensures r.Some? ==> |r.value.1| < |s|
    decreases |s|, 3
  {
    var s1 := SkipWs(s);
    if s1 != [] && s1[0] == RBRACKET then Some((Arr(NoItems), s1[1..]))
    else
      var (items, rest) :- ParseItems(s1);
      Some((Arr(items), rest))
  }

  /** An object, after its opening brace. */
  function ParseObj(s: Text): (r: Parsed<Value>)
    ensures r.Some? ==> |r.value.1| < |s|
    decreases |s|, 3
  {
    var s1 := SkipWs(s);
    if s1 != [] && s1[0] == RBRACE then Some((Obj(NoMembers), s1[1..]))
    else
      var (pairs, rest) :- ParseMembers(s1);
      Some((Obj(PutAll(NoMembers, pairs)), rest))
  }

  function ParseItems(s: Text): (r: Parsed<Items>)
    ensures r.Some? ==> |r.value.1| < |s|
    decreases |s|, 1
  {
    var (v, s1) :- ParseValue(s);
    var s2 := SkipWs(s1);
    if s2 == [] then None
    else if s2[0] == RBRACKET then Some((Item(v, NoItems), s2[1..]))
    else if s2[0] != COMMA then None
    else
      var (tail, rest) :- ParseItems(SkipWs(s2[1..]));
      Some((Item(v, tail), rest))
  }

  /** One `"key": value` pair. */
  function ParseMember(s: Text): (r: Parsed<(Text, Value)>)
    ensures r.Some? ==> |r.value.1| < |s|
    decreases |s|, 1
  {
    if s == [] || s[0] != QUOTE then None
    else
      var (k, s1) :- ScanString(s[1..]);
      var s2 := SkipWs(s1);
      if s2 == [] || s2[0] != COLON then None
      else
        var (v, s3) :- ParseValue(SkipWs(s2[1..]));
        Some(((k, v), s3))
  }

  function ParseMembers(s: Text): (r: Parsed<Members>)
    ensures r.Some? ==> |r.value.1| < |s|
    decreases |s|, 2
  {
    var (kv, s1) :- ParseMember(s);
    var s2 := SkipWs(s1);
    if s2 == [] then None
    else if s2[0] == RBRACE then Some((Member(kv.0, kv.1, NoMembers), s2[1..]))
    else if s2[0] != COMMA then None
    else
      var (tail, rest) :- ParseMembers(SkipWs(s2[1..]));
      Some((Member(kv.0, kv.1, tail), rest))
  }

  /** `json.loads`: one value, white space around it, nothing else; a leading byte order mark is refused. */
  function Loads(s: Text): Option<Value> {
    if s != [] && s[0] == 0xFEFF then None
    else
      var (v, rest) :- ParseValue(SkipWs(s));
      if SkipWs(rest) == [] then Some(v) else None
  }

  // ---------------------------------------------------------------------------------------------
  // What survives a round trip
  // ---------------------------------------------------------------------------------------------

  function Canon(v: Value): Value {
    match v
    case Lit(_) => v
    case Num(_) => v
    case Str(t) => Str(Join(t))
    case Arr(items) => Arr(CanonItems(items))
    case Obj(members) => Obj(PutAll(NoMembers, CanonMembers(members)))
  }

  function CanonItems(items: Items): Items {
    match items
    case NoItems => NoItems
    case Item(v, tail) => Item(Canon(v), CanonItems(tail))
  }

  function CanonMembers(ms: Members): Members {
    match ms
    case NoMembers => NoMembers
    case Member(k, v, rest) => Member(Join(k), Canon(v), CanonMembers(rest))
  }

  predicate HasKey(ms: Members, key: Text) {
    ms.Member? && (ms.key == key || HasKey(ms.rest, key))
  }

  predicate DistinctKeys(ms: Members) {
    ms.Member? ==> !HasKey(ms.rest, ms.key) && DistinctKeys(ms.rest)
  }

  /** No string in `v` splits a surrogate pair, and every dict in `v` has distinct keys (as Python dicts do). */
  predicate Clean(v: Value) {
    match v
    case Lit(_) => true
    case Num(_) => true
    case Str(t) => NoSplitPair(t)
    case Arr(items) => CleanItems(items)
    case Obj(members) => DistinctKeys(members) && CleanMembers(members)
  }

  predicate CleanItems(items: Items) {
    items.Item? ==> Clean(items.head) && CleanItems(items.tail)
  }

  predicate CleanMembers(ms: Members) {
    ms.Member? ==> NoSplitPair(ms.key) && Clean(ms.value) && CleanMembers(ms.rest)
  }
}
