/** The Maidenhead locator codec of `CallsignManager`, over exact reals. */
module Maidenhead {
  import opened Wrappers
  import opened Strings

  datatype Point = Point(lat: real, lon: real)

  predicate InRange(p: Point) { -90.0 <= p.lat <= 90.0 && -180.0 <= p.lon <= 180.0 }

  /** Python's `x % m` for `x >= 0`. */
  function Mod(x: real, m: real): real
    requires m > 0.0
  {
    x - m * (x / m).Floor as real
  }

  // ---------------------------------------------------------------------------------------------
  // One axis: field, square and subsquare of a normalised coordinate, in units of a square
  // ---------------------------------------------------------------------------------------------

  datatype Indices = Indices(field: int, square: int, sub: int)

  /** `size` is the width of a square (2 degrees of longitude, 1 of latitude); a field is ten squares, a
      subsquare the 24th part of one. */
  function Split(x: real, size: real): Indices
    requires size > 0.0
  {
    var field := (x / (10.0 * size)).Floor;
    var square := (Mod(x, 10.0 * size) / size).Floor;
    var sub := ((x - field as real * 10.0 * size - square as real * size) * (24.0 / size)).Floor;
    Indices(field, square, sub)
  }

  function Centre(i: Indices, size: real): real {
    i.field as real * 10.0 * size + i.square as real * size + i.sub as real * size / 24.0 + size / 48.0
  }

  predicate Bounded(i: Indices) { 0 <= i.square < 10 && 0 <= i.sub < 24 }

  /** Splitting finds the subsquare that holds the coordinate. */
  lemma SplitLon(x: real)
    requires 0.0 <= x
    ensures var i := Split(x, 2.0);
            && Bounded(i) && i.field >= 0
            && Centre(i, 2.0) - 1.0 / 24.0 <= x < Centre(i, 2.0) + 1.0 / 24.0
  {
  }

  lemma SplitLat(y: real)
    requires 0.0 <= y
    ensures var i := Split(y, 1.0);
            && Bounded(i) && i.field >= 0
            && Centre(i, 1.0) - 1.0 / 48.0 <= y < Centre(i, 1.0) + 1.0 / 48.0
  {
  }

  lemma SplitCentreLon(i: Indices)
    requires Bounded(i) && 0 <= i.field
    ensures Split(Centre(i, 2.0), 2.0) == i
  {
    var x := Centre(i, 2.0);
    assert x / 20.0 == i.field as real + (i.square as real * 2.0 + i.sub as real / 12.0 + 1.0 / 24.0) / 20.0;
    assert (x / 20.0).Floor == i.field;
    assert Mod(x, 20.0) / 2.0 == i.square as real + (i.sub as real / 12.0 + 1.0 / 24.0) / 2.0;
  }

  lemma SplitCentreLat(i: Indices)
    requires Bounded(i) && 0 <= i.field
    ensures Split(Centre(i, 1.0), 1.0) == i
  {
    var y := Centre(i, 1.0);
    assert y / 10.0 == i.field as real + (i.square as real + i.sub as real / 24.0 + 1.0 / 48.0) / 10.0;
    assert (y / 10.0).Floor == i.field;
  }

  // ---------------------------------------------------------------------------------------------
  // Locators
  // ---------------------------------------------------------------------------------------------

  function Upper(c: char): char { if 'a' <= c <= 'z' then (c as int - 32) as char else c }

  function Lower(c: char): char { if 'A' <= c <= 'Z' then (c as int + 32) as char else c }

  function Letter(base: char, n: int): char
    requires 0 <= n < 1000 && base <= 'z'
  {
    (base as int + n) as char
  }

  /** `coords_to_grid` */
  function CoordsToGrid(p: Point): string {
    if !InRange(p) then ""
    else
      SplitLon(p.lon + 180.0);
      SplitLat(p.lat + 90.0);
      var x, y := Split(p.lon + 180.0, 2.0), Split(p.lat + 90.0, 1.0);
      [Letter('A', x.field), Letter('A', y.field), Letter('0', x.square), Letter('0', y.square),
       Letter('a', x.sub), Letter('a', y.sub)]
  }

  function Strip(s: string): string
    decreases |s|
  {
    if s != "" && IsSpace(s[0]) then Strip(s[1..])
    else if s != "" && IsSpace(s[|s| - 1]) then Strip(s[..|s| - 1])
    else s
  }

  function Index(c: char): int { Upper(c) as int - 'A' as int }

  /** `grid_to_coords`; `None` is the ValueError of a square that is no digit. */
  function GridToCoords(grid: string): Option<Point> {
    var g := Strip(grid);
    if |g| < 4 then Some(Point(0.0, 0.0))
    else if !('0' <= g[2] <= '9') || !('0' <= g[3] <= '9') then None
    else
      var lon := Index(g[0]) as real * 20.0 - 180.0 + (g[2] as int - '0' as int) as real * 2.0;
      var lat := Index(g[1]) as real * 10.0 - 90.0 + (g[3] as int - '0' as int) as real;
      if |g| >= 6 then
        Some(Point(lat + Index(g[5]) as real / 24.0 + 1.0 / 48.0, lon + Index(g[4]) as real / 12.0 + 1.0 / 24.0))
      else Some(Point(lat + 0.5, lon + 1.0))
  }

  /** Six symbols in their alphabets: A to R, A to R, two digits, A to X, A to X, in either case. */
  predicate ValidLocator(g: string) {
    && |g| == 6 && 'A' <= Upper(g[0]) <= 'R' && 'A' <= Upper(g[1]) <= 'R'
    && '0' <= g[2] <= '9' && '0' <= g[3] <= '9' && 'A' <= Upper(g[4]) <= 'X' && 'A' <= Upper(g[5]) <= 'X'
  }

  /** The usual writing of a locator: field in capitals, subsquare in small letters. */
  function Canonical(g: string): string
    requires |g| == 6
  {
    [Upper(g[0]), Upper(g[1]), g[2], g[3], Lower(g[4]), Lower(g[5])]
  }

  /** Encoding the centre of a locator gives the locator back, up to case. */
  lemma LocatorRoundTrip(g: string)
    requires ValidLocator(g)
    ensures GridToCoords(g).Some? && CoordsToGrid(GridToCoords(g).value) == Canonical(g)
  {
    var x := Indices(Index(g[0]), g[2] as int - '0' as int, Index(g[4]));
    var y := Indices(Index(g[1]), g[3] as int - '0' as int, Index(g[5]));
    var p := GridToCoords(g).value;
    assert p.lon + 180.0 == Centre(x, 2.0) && p.lat + 90.0 == Centre(y, 1.0);
    SplitCentreLon(x);
    SplitCentreLat(y);
  }

  /** Decoding the encoding of any point in range lands within half a subsquare of it. */
  lemma PointRoundTrip(p: Point)
    requires InRange(p)
    ensures var q := GridToCoords(CoordsToGrid(p));
            && q.Some?
            && -1.0 / 24.0 <= p.lon - q.value.lon < 1.0 / 24.0
            && -1.0 / 48.0 <= p.lat - q.value.lat < 1.0 / 48.0
  {
    var x, y := Split(p.lon + 180.0, 2.0), Split(p.lat + 90.0, 1.0);
    SplitLon(p.lon + 180.0);
    SplitLat(p.lat + 90.0);
    var q := GridToCoords(CoordsToGrid(p)).value;
    assert q.lon == Centre(x, 2.0) - 180.0 && q.lat == Centre(y, 1.0) - 90.0;
  }

  /** All six symbols are in their alphabets exactly when the point is off the north pole and the antimeridian's
      eastern side: at 90 and 180 degrees the field letter is S. */
  lemma SymbolsIff(p: Point)
    requires InRange(p)
    ensures ValidLocator(CoordsToGrid(p)) <==> p.lat < 90.0 && p.lon < 180.0
  {
    SplitLon(p.lon + 180.0);
    SplitLat(p.lat + 90.0);
  }

  /** NUMBERING.  A locator numbers the subsquares from the south-west corner of the map: eastwards in steps of a
      twelfth of a degree, northwards in steps of a 24th, its three pairs being the digits of that number in the mixed
      base 10 and 24. */
  lemma LocatorNumbers(p: Point)
    requires InRange(p)
    ensures var g := CoordsToGrid(p);
            && |g| == 6 && '0' <= g[2] <= '9' && '0' <= g[3] <= '9' && 'a' <= g[4] <= 'x' && 'a' <= g[5] <= 'x'
            && Number(g[0], g[2], g[4]) == ((p.lon + 180.0) * 12.0).Floor
            && Number(g[1], g[3], g[5]) == ((p.lat + 90.0) * 24.0).Floor
  {
    SplitLon(p.lon + 180.0);
    SplitLat(p.lat + 90.0);
    var x, y := Split(p.lon + 180.0, 2.0), Split(p.lat + 90.0, 1.0);
    WholeAbove(x.field * 240 + x.square * 24 + x.sub, (p.lon + 180.0) * 12.0);
    WholeAbove(y.field * 240 + y.square * 24 + y.sub, (p.lat + 90.0) * 24.0);
  }

  function Number(field: char, square: char, sub: char): int {
    (field as int - 'A' as int) * 240 + (square as int - '0' as int) * 24 + (sub as int - 'a' as int)
  }

  lemma WholeAbove(n: int, x: real)
    ensures n as real <= x < n as real + 1.0 ==> x.Floor == n
  {
  }

  /** A locator that names a square: two letters, two digits, in either case. */
  predicate ValidSquare(g: string) {
    |g| == 4 && 'A' <= Upper(g[0]) <= 'R' && 'A' <= Upper(g[1]) <= 'R' && '0' <= g[2] <= '9' && '0' <= g[3] <= '9'
  }

  /** A four-character locator is decoded to the centre of its square: encoding that gives the square back, with the
      subsquare in its middle, and no point of the square is further off than half a square. */
  lemma SquareRoundTrip(g: string, q: Point)
    requires ValidSquare(g)
    ensures GridToCoords(g).Some?
    ensures var p, square := GridToCoords(g).value, [Upper(g[0]), Upper(g[1]), g[2], g[3]];
            && CoordsToGrid(p) == square + "mm"
            && (InRange(q) && square <= CoordsToGrid(q) ==>
                  -1.0 <= q.lon - p.lon <= 1.0 && -0.5 <= q.lat - p.lat <= 0.5)
  {
    var p, square := GridToCoords(g).value, [Upper(g[0]), Upper(g[1]), g[2], g[3]];
    var x := Indices(Index(g[0]), g[2] as int - '0' as int, 12);
    var y := Indices(Index(g[1]), g[3] as int - '0' as int, 12);
    SplitMiddle(x, y, p);
    if InRange(q) && square <= CoordsToGrid(q) {
      LocatorNumbers(q);
      var h := CoordsToGrid(q);
      assert h[0] == square[0] && h[1] == square[1] && h[2] == square[2] && h[3] == square[3];
    }
  }

  /** The centre of a square is the south-west corner of its middle subsquare. */
  lemma SplitMiddle(x: Indices, y: Indices, p: Point)
    requires x.sub == y.sub == 12 && 0 <= x.square < 10 && 0 <= y.square < 10 && 0 <= x.field < 18 && 0 <= y.field < 18
    requires p.lon + 180.0 == x.field as real * 20.0 + x.square as real * 2.0 + 1.0
    requires p.lat + 90.0 == y.field as real * 10.0 + y.square as real + 0.5
    ensures InRange(p) && Split(p.lon + 180.0, 2.0) == x && Split(p.lat + 90.0, 1.0) == y
  {
    var u, v := p.lon + 180.0, p.lat + 90.0;
    assert u / 20.0 == x.field as real + (x.square as real * 2.0 + 1.0) / 20.0;
    assert (u / 20.0).Floor == x.field;
    assert Mod(u, 20.0) / 2.0 == x.square as real + 0.5;
    assert v / 10.0 == y.field as real + (y.square as real + 0.5) / 10.0;
    assert (v / 10.0).Floor == y.field;
  }

  // ---------------------------------------------------------------------------------------------
  // The other inputs
  // ---------------------------------------------------------------------------------------------

  /** No locator is given for a point outside the map, and only then. */
  lemma NoLocatorIff(lat: real, lon: real)
    ensures CoordsToGrid(Point(lat, lon)) == "" <==> lat < -90.0 || lat > 90.0 || lon < -180.0 || lon > 180.0
  {
  }

  predicate White(w: string) { forall i :: 0 <= i < |w| ==> IsSpace(w[i]) }

  predicate Trimmed(t: string) { t != "" ==> !IsSpace(t[0]) && !IsSpace(t[|t| - 1]) }

  lemma WhiteMore(w: string, c: char)
    requires White(w) && IsSpace(c)
    ensures White([c] + w) && White(w + [c])
  {
  }

  lemma {:induction false} StripIs(s: string) returns (before: string, after: string)
    ensures s == before + Strip(s) + after && White(before) && White(after) && Trimmed(Strip(s))
    decreases |s|
  {
    hide IsSpace, White;
    if s != "" && IsSpace(s[0]) {
      var w;
      w, after := StripIs(s[1..]);
      WhiteMore(w, s[0]);
      before := [s[0]] + w;
      assert s == [s[0]] + s[1..];
    } else if s != "" && IsSpace(s[|s| - 1]) {
      var w;
      before, w := StripIs(s[..|s| - 1]);
      WhiteMore(w, s[|s| - 1]);
      after := w + [s[|s| - 1]];
      assert s == s[..|s| - 1] + [s[|s| - 1]];
    } else {
      before, after := "", "";
      NothingWhite();
    }
  }

  lemma NothingWhite()
    ensures White("")
  {
  }

  /** Small letters count as capitals and the other way round; every other character stands for itself. */
  lemma CaseIs(n: int, c: char)
    requires 0 <= n < 26
    ensures Upper(Letter('a', n)) == Letter('A', n) && Lower(Letter('A', n)) == Letter('a', n)
    ensures (forall k :: 0 <= k < 26 ==> c != Letter('a', k)) ==> Upper(c) == c
  {
    if 'a' <= c <= 'z' {
      assert c == Letter('a', c as int - 'a' as int);
    }
  }

  /** White space around a locator does not count. */
  lemma StripOnce(g: string)
    ensures GridToCoords(g) == GridToCoords(Strip(g))
  {
    hide IsSpace;
    var before, after := StripIs(g);
    StripDone(Strip(g));
  }

  lemma StripDone(t: string)
    ensures Trimmed(t) ==> Strip(t) == t
  {
  }

  /** What has fewer than four characters is the origin, and a square that is no digit raises. */
  lemma DecodeCases(g: string)
    requires Strip(g) == g
    ensures |g| < 4 ==> GridToCoords(g) == Some(Point(0.0, 0.0))
    ensures |g| >= 4 ==> (GridToCoords(g).None? <==> g[2] < '0' || g[2] > '9' || g[3] < '0' || g[3] > '9')
  {
    hide Strip;
  }

  /** A fifth character alone, and anything after the sixth, does not count. */
  lemma DecodePrefix(g: string, n: nat)
    requires Strip(g) == g && ((n == 4 && |g| == 5) || (n == 6 && |g| > 6)) && Strip(g[..n]) == g[..n]
    ensures GridToCoords(g) == GridToCoords(g[..n])
  {
    hide Strip;
    assert forall i :: 0 <= i < n ==> g[..n][i] == g[i];
  }
}
