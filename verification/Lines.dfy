/** Python's `str.splitlines`, and what it makes of texts put one after another. */
module Lines {

  /** Where `str.splitlines` breaks. */
  predicate IsBreak(c: char) {
    var n := c as int;
    10 <= n <= 13 || 28 <= n <= 30 || n == 0x85 || n == 0x2028 || n == 0x2029
  }

  /** The ten line boundaries: line feed, vertical tab, form feed, carriage return, the file, group and record
      separators, next line, and the line and paragraph separators of Unicode. */
  lemma BreaksAre(c: char)
    ensures IsBreak(c) <==> c as int in [0x0A, 0x0B, 0x0C, 0x0D, 0x1C, 0x1D, 0x1E, 0x85, 0x2028, 0x2029]
  {
  }

  predicate NoBreak(s: string) { forall i :: 0 <= i < |s| ==> !IsBreak(s[i]) }

  /** Length of the first line of a non-empty text, with its line break ("\r\n" is one break). */
  function LineLength(s: string): (n: nat)
    requires s != ""
    ensures 0 < n <= |s|
  {
    if IsBreak(s[0]) then (if |s| > 1 && s[0] == '\r' && s[1] == '\n' then 2 else 1)
    else if |s| == 1 then 1
    else 1 + LineLength(s[1..])
  }

  /** `splitlines(keepends=True)` */
  function SplitLines(s: string): seq<string>
    decreases |s|
  {
    if s == "" then [] else [s[..LineLength(s)]] + SplitLines(s[LineLength(s)..])
  }

  function Join(lines: seq<string>): string {
    if lines == [] then "" else lines[0] + Join(lines[1..])
  }

  /** A line without its line break, as `splitlines()` gives it. */
  function Bare(line: string): string {
    if |line| >= 2 && line[|line| - 2..] == "\r\n" then line[..|line| - 2]
    else if line != "" && IsBreak(line[|line| - 1]) then line[..|line| - 1]
    else line
  }

  /** `splitlines()` */
  function TextLines(text: string): seq<string> { AllBare(SplitLines(text)) }

  function AllBare(lines: seq<string>): (r: seq<string>)
    ensures |r| == |lines|
  {
    if lines == [] then [] else [Bare(lines[0])] + AllBare(lines[1..])
  }

  // ---------------------------------------------------------------------------------------------
  // The shape of lines
  // ---------------------------------------------------------------------------------------------

  /** What ends a line: nothing, one break, or "\r\n". */
  predicate IsEnd(t: string) {
    t == "" || (|t| == 1 && IsBreak(t[0])) || t == "\r\n"
  }

  /** `u + t` is a line of a text in which `rest` follows. */
  predicate LineBefore(u: string, t: string, rest: string) {
    && NoBreak(u) && IsEnd(t) && u + t != ""
    && (t == "" ==> rest == "")
    && (t == "\r" && rest != "" ==> rest[0] != '\n')
  }

  lemma {:induction false} LineOf(u: string, t: string, rest: string)
    requires LineBefore(u, t, rest)
    ensures LineLength(u + t + rest) == |u + t|
    decreases |u|
  {
    var s := u + t + rest;
    if u == "" {
      assert s == t + rest;
      assert t == "\r\n" ==> s[0] == '\r' && s[1] == '\n';
    } else {
      assert s[0] == u[0];
      assert s[1..] == u[1..] + t + rest;
      if |u + t| > 1 {
        LineOf(u[1..], t, rest);
      }
    }
  }

  /** Every non-empty text starts with a line of that shape. */
  lemma {:induction false} FirstLine(s: string) returns (u: string, t: string)
    requires s != ""
    ensures s[..LineLength(s)] == u + t && LineBefore(u, t, s[LineLength(s)..])
    decreases |s|
  {
    if IsBreak(s[0]) {
      u, t := "", s[..LineLength(s)];
    } else if |s| == 1 {
      u, t := s, "";
    } else {
      u, t := FirstLine(s[1..]);
      assert s[LineLength(s)..] == s[1..][LineLength(s[1..])..];
      assert s[..LineLength(s)] == [s[0]] + s[1..][..LineLength(s[1..])];
      u := [s[0]] + u;
      assert s[..LineLength(s)] == u + t;
    }
  }

  lemma BareOf(u: string, t: string)
    requires NoBreak(u) && IsEnd(t)
    ensures Bare(u + t) == u
  {
    var l := u + t;
    if t != "" {
      assert l[|l| - 1] == t[|t| - 1];
      if |l| >= 2 {
        assert l[|l| - 2..] == [l[|l| - 2], l[|l| - 1]];
      }
    } else {
      assert l == u;
    }
  }

  /** Line `l` of a text that goes on with `rest`. */
  ghost predicate IsLine(l: string, rest: string) {
    exists u, t :: l == u + t && LineBefore(u, t, rest)
  }

  /** SPLITTING.  The lines of a text put together are the text, and each is some text without break and then one break,
      which only the last line may lack. */
  lemma {:induction false} LinesAre(s: string)
    ensures Join(SplitLines(s)) == s
    ensures forall i :: 0 <= i < |SplitLines(s)| ==> IsLine(SplitLines(s)[i], Join(SplitLines(s)[i + 1..]))
    decreases |s|
  {
    hide LineBefore, IsLine, LineLength, SplitLines;
    if s != "" {
      var n := LineLength(s);
      var u, t := FirstLine(s);
      LinesAre(s[n..]);
      assert s == s[..n] + s[n..];
      FirstCut(s[..n], s[n..]);
      LinesPrepend(u, t, SplitLines(s[n..]));
    } else {
      NoLines();
    }
  }

  lemma LinesPrepend(u: string, t: string, more: seq<string>)
    requires LineBefore(u, t, Join(more))
    requires forall i :: 0 <= i < |more| ==> IsLine(more[i], Join(more[i + 1..]))
    ensures var lines := [u + t] + more;
            && Join(lines) == u + t + Join(more)
            && forall i :: 0 <= i < |lines| ==> IsLine(lines[i], Join(lines[i + 1..]))
  {
    hide LineBefore;
    var lines := [u + t] + more;
    assert lines[1..] == more;
    forall i | 0 <= i < |lines| ensures IsLine(lines[i], Join(lines[i + 1..])) {
      if i > 0 {
        assert lines[i] == more[i - 1] && lines[i + 1..] == more[i..];
      }
    }
  }

  // ---------------------------------------------------------------------------------------------
  // One text after another
  // ---------------------------------------------------------------------------------------------

  /** `b` put after `a` starts a new line: one of them is empty, or `a` ends with a line break that the start of `b`
      does not extend. */
  predicate Joins(a: string, b: string) {
    a == "" || b == "" || (IsBreak(a[|a| - 1]) && !(a[|a| - 1] == '\r' && b[0] == '\n'))
  }

  lemma FirstCut(line: string, rest: string)
    requires line + rest != "" && LineLength(line + rest) == |line|
    ensures SplitLines(line + rest) == [line] + SplitLines(rest)
  {
    assert (line + rest)[..|line|] == line && (line + rest)[|line|..] == rest;
  }

  /** The first line of a text is that of the text and more when more lines follow it. */
  lemma {:induction false} FirstStays(u: string, t: string, rest: string, b: string)
    requires LineBefore(u, t, rest) && (rest != "" || (Joins(u + t, b) && (t == "" ==> b == "")))
    ensures SplitLines(u + t + rest + b) == [u + t] + SplitLines(rest + b)
    ensures SplitLines(u + t + rest) == [u + t] + SplitLines(rest)
  {
    hide NoBreak, LineLength, SplitLines;
    var line := u + t;
    assert t != "" ==> line[|line| - 1] == t[|t| - 1];
    LineOf(u, t, rest);
    FirstCut(line, rest);
    LineOf(u, t, rest + b);
    FirstCut(line, rest + b);
    assert line + rest + b == line + (rest + b);
  }

  lemma JoinsRest(u: string, t: string, rest: string, b: string)
    requires LineBefore(u, t, rest)
    ensures rest != "" ==> (Joins(u + t + rest, b) <==> Joins(rest, b))
    ensures rest == "" ==> (Joins(u + t + rest, b) <==> (b == "" || (t != "" && !(t == "\r" && b[0] == '\n'))))
  {
    var a := u + t + rest;
    assert a[..|u|] == u;
    if rest != "" {
      assert a[|a| - 1] == rest[|rest| - 1];
    } else if t != "" {
      assert a[|a| - 1] == t[|t| - 1];
    } else {
      assert a[|a| - 1] == u[|u| - 1];
    }
  }

  lemma {:induction false} SplitConcat(a: string, b: string)
    requires Joins(a, b)
    ensures SplitLines(a + b) == SplitLines(a) + SplitLines(b)
    decreases |a|
  {
    hide NoBreak, IsEnd, LineLength, SplitLines;
    if a == "" {
      assert a + b == b;
      NoLines();
    } else {
      var u, t := FirstLine(a);
      var rest := a[LineLength(a)..];
      assert a == u + t + rest;
      JoinsRest(u, t, rest, b);
      FirstStays(u, t, rest, b);
      SplitConcat(rest, b);
    }
  }

  lemma NoLines()
    ensures SplitLines("") == []
  {
  }

  /** A last line that is not ended, or a break that is extended, takes the first line of the next text in. */
  lemma LinesMerge(u: string, t: string, b: string)
    requires LineBefore(u, t, "") && !Joins(u + t, b)
    ensures |SplitLines(u + t + b)| == |SplitLines(b)|
  {
    hide NoBreak, LineLength, SplitLines;
    JoinsRest(u, t, "", b);
    assert u + t + "" == u + t;
    var v, x := FirstLine(b);
    var rest := b[LineLength(b)..];
    assert b == v + x + rest;
    FirstCut(v + x, rest);
    if t == "" {
      BreaksApart(u, v);
      LineOf(u + v, x, rest);
      FirstCut(u + v + x, rest);
      assert u + t + b == (u + v + x) + rest;
    } else {
      assert t == "\r" && b[0] == '\n';
      FirstIsFeed(v, x, rest);
      LineOf(u, "\r\n", rest);
      FirstCut(u + "\r\n", rest);
      assert u + t + b == (u + "\r\n") + rest;
    }
  }

  lemma BreaksApart(u: string, v: string)
    requires NoBreak(u) && NoBreak(v)
    ensures NoBreak(u + v)
  {
  }

  lemma FirstIsFeed(v: string, x: string, rest: string)
    requires LineBefore(v, x, rest) && (v + x + rest)[0] == '\n'
    ensures v == "" && x == "\n"
  {
    var line := v + x;
    assert (line + rest)[0] == line[0];
  }

  /** Otherwise there is one line less. */
  lemma {:induction false} SplitMerged(a: string, b: string)
    requires !Joins(a, b)
    ensures |SplitLines(a + b)| == |SplitLines(a)| + |SplitLines(b)| - 1
    decreases |a|
  {
    hide NoBreak, IsEnd, LineLength, SplitLines;
    var u, t := FirstLine(a);
    var rest := a[LineLength(a)..];
    assert a == u + t + rest;
    JoinsRest(u, t, rest, b);
    LineOf(u, t, rest);
    FirstCut(u + t, rest);
    if rest == "" {
      assert a == u + t;
      NoLines();
      LinesMerge(u, t, b);
    } else {
      FirstStays(u, t, rest, b);
      SplitMerged(rest, b);
    }
  }

  lemma {:induction false} BareConcat(a: seq<string>, b: seq<string>)
    ensures AllBare(a + b) == AllBare(a) + AllBare(b)
  {
    if a == [] {
      assert a + b == b;
    } else {
      assert (a + b)[1..] == a[1..] + b;
      BareConcat(a[1..], b);
    }
  }

  /** The lines of two texts put together are the lines of both exactly when the second starts a new line; otherwise
      there is one less. */
  lemma LinesConcatIff(a: string, b: string)
    ensures TextLines(a + b) == TextLines(a) + TextLines(b) <==> Joins(a, b)
    ensures !Joins(a, b) ==> |TextLines(a + b)| == |TextLines(a)| + |TextLines(b)| - 1
  {
    hide SplitLines, Joins, AllBare;
    if Joins(a, b) {
      SplitConcat(a, b);
      BareConcat(SplitLines(a), SplitLines(b));
    } else {
      SplitMerged(a, b);
    }
  }
}
