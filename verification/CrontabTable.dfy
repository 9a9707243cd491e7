/** Rewriting a whole crontab: the loop of `main`, on the text of the table. */
module CrontabTable {
  import opened Lines
  import opened CrontabWire

  // ---------------------------------------------------------------------------------------------
  // The rewriting
  // ---------------------------------------------------------------------------------------------

  /** `line.rstrip("\n")` */
  function Body(line: string): string {
    if line != "" && line[|line| - 1] == '\n' then Body(line[..|line| - 1]) else line
  }

  function RewriteLine(line: string, outDir: string): string {
    match PlanLine(Body(line), outDir)
    case Wire(wired) => if line != "" && line[|line| - 1] == '\n' then wired + "\n" else wired
    case _ => line
  }

  function RewriteAll(lines: seq<string>, outDir: string): (r: seq<string>)
    ensures |r| == |lines|
  {
    if lines == [] then [] else [RewriteLine(lines[0], outDir)] + RewriteAll(lines[1..], outDir)
  }

  /** The text `main` installs. */
  function Rewrite(text: string, outDir: string): string { Join(RewriteAll(SplitLines(text), outDir)) }

  /** Lines that plan to be wired. */
  function ToWire(lines: seq<string>, outDir: string): nat {
    if lines == [] then 0
    else (if PlanLine(Body(lines[0]), outDir).Wire? then 1 else 0) + ToWire(lines[1..], outDir)
  }

  /** The lines that plan to be wired. */
  function OnlyWire(lines: seq<string>, outDir: string): seq<string> {
    if lines == [] then []
    else (if PlanLine(Body(lines[0]), outDir).Wire? then [lines[0]] else []) + OnlyWire(lines[1..], outDir)
  }

  lemma {:induction false} ToWireCounts(lines: seq<string>, outDir: string)
    ensures ToWire(lines, outDir) == |OnlyWire(lines, outDir)|
  {
    hide PlanLine, Body;
    if lines != [] {
      ToWireCounts(lines[1..], outDir);
    }
  }

  /** The loop of `main`: the new lines and how many changed. */
  method RewriteLoop(text: string, outDir: string) returns (out: seq<string>, changed: nat)
    ensures out == RewriteAll(SplitLines(text), outDir) && changed == ToWire(SplitLines(text), outDir)
  {
    hide PlanLine, Body, SplitLines;
    var lines := SplitLines(text);
    out, changed := [], 0;
    for i := 0 to |lines|
      invariant out + RewriteAll(lines[i..], outDir) == RewriteAll(lines, outDir)
      invariant changed + ToWire(lines[i..], outDir) == ToWire(lines, outDir)
    {
      var line := lines[i];
      assert lines[i..][1..] == lines[i + 1..];
      var plan := PlanLine(Body(line), outDir);
      if plan.Wire? {
        changed := changed + 1;
        out := out + [if line != "" && line[|line| - 1] == '\n' then plan.line + "\n" else plan.line];
      } else {
        out := out + [line];
      }
    }
  }

  // ---------------------------------------------------------------------------------------------
  // A rewritten line is a line
  // ---------------------------------------------------------------------------------------------

  lemma BodyOf(u: string, t: string)
    requires NoBreak(u) && IsEnd(t)
    ensures Body(u + t) == u + (if t == "\n" then "" else if t == "\r\n" then "\r" else t)
  {
    var l := u + t;
    if t == "\n" || t == "\r\n" {
      assert l[..|l| - 1] == u + t[..|t| - 1];
    }
  }

  lemma NameNoBreak(c: char)
    requires NameChar(c)
    ensures !IsBreak(c)
  {
  }

  lemma SpaceEnds(t: string)
    requires IsEnd(t)
    ensures 'c' !in t
  {
  }

  /** A call starts before the break that ends its line. */
  lemma CallBeforeEnd(u: string, t: string)
    requires IsEnd(t) && FirstCall(u + t).Some?
    ensures FirstCall(u + t).value < |u|
  {
    var at := FirstCall(u + t).value;
    var here := (u + t)[at..];
    assert here[0] == (u + t)[at] && CALL[0] == 'c';
    SpaceEnds(t);
    forall j | |u| <= j < |u + t| ensures (u + t)[j] != 'c' {
      assert (u + t)[j] == t[j - |u|];
    }
  }

  lemma CaptureNoBreak(outDir: string, name: string)
    requires NoBreak(outDir) && AllNames(name)
    ensures NoBreak(Capture(outDir, name)) && NoBreak(" " + Capture(outDir, name))
  {
    forall i | 0 <= i < |name| ensures !IsBreak(name[i]) {
      NameNoBreak(name[i]);
    }
    assert NoBreak(name + ".out");
    assert NoBreak(Target(outDir, name));
  }

  /** The directory can stand in a crontab: it holds no verdict call and no line break. */
  predicate GoodDir(outDir: string) { FirstCall(outDir).None? && NoBreak(outDir) }

  /** Wiring `u + e`, where `e` is what is left of the line's end, changes only `u`, and puts no break in. */
  lemma WireKeepsShape(u: string, e: string, outDir: string) returns (w: string)
    requires NoBreak(u) && IsEnd(e) && GoodDir(outDir) && PlanLine(u + e, outDir).Wire?
    ensures PlanLine(u + e, outDir).line == w + e && NoBreak(w) && w != ""
    ensures u != "" && (w[0] == u[0] || w[0] == '>' || w[0] == ' ')
  {
    hide PlanLine, FirstCall, Comment, Barrier, CallHere, CommandStart, NoBreak, IsEnd, Target;
    var line := u + e;
    var s, start := WireParts(line, outDir);
    var call := FirstCall(line).value;
    CallBeforeEnd(u, e);
    CallName(line[call..]);
    CaptureNoBreak(outDir, NameAt(line, call));
    Recut(u, e, s.a, s.d, s.c + line[start..]);
    w := s.a + s.i + u[|s.a + s.d|..];
    assert s.i[0] == '>' || s.i[0] == ' ';
    Pieces(u, |s.a|, |s.a + s.d|, s.i);
  }

  /** Cutting `u + e` inside `u`. */
  lemma Recut(u: string, e: string, a: string, d: string, c: string)
    requires u + e == a + d + c && |a + d| <= |u|
    ensures a == u[..|a|] && c == u[|a + d|..] + e
  {
    var line := u + e;
    assert line[..|a|] == a && line[|a + d|..] == c;
  }

  lemma Pieces(u: string, a: nat, k: nat, i: string)
    requires NoBreak(u) && a <= k <= |u| && u != "" && NoBreak(i) && i != ""
    ensures var w := u[..a] + i + u[k..];
            NoBreak(w) && (w[0] == u[0] || w[0] == i[0])
  {
  }

  /** Any line, rewritten, has the same end, and can stand before any text the old one could. */
  lemma RewrittenLine(u: string, t: string, outDir: string) returns (w: string)
    requires NoBreak(u) && IsEnd(t) && GoodDir(outDir) && u + t != ""
    ensures RewriteLine(u + t, outDir) == w + t && NoBreak(w) && (w == "" <==> u == "")
    ensures u != "" ==> w[0] == u[0] || w[0] == '>' || w[0] == ' '
    ensures !PlanLine(Body(w + t), outDir).Wire?
  {
    hide PlanLine, GoodDir;
    BodyOf(u, t);
    var e := if t == "\n" then "" else if t == "\r\n" then "\r" else t;
    if PlanLine(u + e, outDir).Wire? {
      w := WireKeepsShape(u, e, outDir);
      BodyOf(w, t);
      Rewired(u + e, outDir);
      Endings(w, u, t);
    } else {
      w := u;
    }
  }

  lemma Rewired(line: string, outDir: string)
    requires GoodDir(outDir) && PlanLine(line, outDir).Wire?
    ensures PlanLine(PlanLine(line, outDir).line, outDir) == Wired
  {
    WireBecomesWired(line, outDir);
  }

  lemma Endings(w: string, u: string, t: string)
    requires IsEnd(t) && NoBreak(u)
    ensures var l := u + t; var e := if t == "\n" then "" else if t == "\r\n" then "\r" else t;
            if l != "" && l[|l| - 1] == '\n' then w + e + "\n" == w + t else w + e == w + t
  {
    var l := u + t;
    if t == "" {
      assert l == u;
    } else {
      assert l[|l| - 1] == t[|t| - 1];
    }
  }

  lemma SameTail(a: string, b: string, t: string)
    ensures a + t == b + t <==> a == b
  {
    if a + t == b + t {
      assert a == (a + t)[..|a|] && b == (b + t)[..|b|];
    }
  }

  /** A line changes exactly when it plans to be rewritten: what is written is planned as wired, which the line was
      not. */
  lemma ChangedIff(u: string, t: string, outDir: string)
    requires NoBreak(u) && IsEnd(t) && GoodDir(outDir)
    ensures RewriteLine(u + t, outDir) != u + t <==> PlanLine(Body(u + t), outDir).Wire?
  {
    hide PlanLine, FirstCall;
    BodyOf(u, t);
    var line, body := u + t, Body(u + t);
    if PlanLine(body, outDir).Wire? {
      Rewired(body, outDir);
      var wired := PlanLine(body, outDir).line;
      assert wired != body;
      assert line != "" && line[|line| - 1] == '\n' ==> line == body + "\n";
      SameTail(wired, body, "\n");
    }
  }

  // ---------------------------------------------------------------------------------------------
  // The table
  // ---------------------------------------------------------------------------------------------

  /** `\n` cannot be the first character of a rewritten text unless it was that of the old one. */
  lemma RewrittenStart(text: string, outDir: string)
    requires GoodDir(outDir)
    ensures Rewrite(text, outDir) == "" <==> text == ""
    ensures text != "" && text[0] != '\n' ==> Rewrite(text, outDir)[0] != '\n'
  {
    if text != "" {
      var n := LineLength(text);
      var u, t := FirstLine(text);
      var w := RewrittenLine(u, t, outDir);
      assert SplitLines(text)[0] == u + t;
      assert Rewrite(text, outDir) == (w + t) + Join(RewriteAll(SplitLines(text)[1..], outDir));
      assert text[0] == (u + t)[0];
    }
  }

  /** THE TABLE.  The rewritten text splits into exactly the rewritten lines: the line count is the same. */
  lemma {:induction false} RewriteSplits(text: string, outDir: string)
    requires GoodDir(outDir)
    ensures SplitLines(Rewrite(text, outDir)) == RewriteAll(SplitLines(text), outDir)
    decreases |text|
  {
    if text != "" {
      var n := LineLength(text);
      var rest := text[n..];
      var u, t := FirstLine(text);
      var w := RewrittenLine(u, t, outDir);
      RewriteSplits(rest, outDir);
      RewrittenStart(rest, outDir);
      var more := Rewrite(rest, outDir);
      assert SplitLines(text)[1..] == SplitLines(rest);
      assert Rewrite(text, outDir) == w + t + more;
      LineOf(w, t, more);
      assert (w + t + more)[..|w + t|] == w + t && (w + t + more)[|w + t|..] == more;
    }
  }

  lemma {:induction false} NothingLeft(text: string, outDir: string)
    requires GoodDir(outDir)
    ensures ToWire(RewriteAll(SplitLines(text), outDir), outDir) == 0
    ensures RewriteAll(RewriteAll(SplitLines(text), outDir), outDir) == RewriteAll(SplitLines(text), outDir)
    decreases |text|
  {
    if text != "" {
      var n := LineLength(text);
      var u, t := FirstLine(text);
      var w := RewrittenLine(u, t, outDir);
      assert SplitLines(text)[1..] == SplitLines(text[n..]);
      NothingLeft(text[n..], outDir);
    }
  }

  /** IDEMPOTENT.  Rewriting a rewritten table changes nothing, and finds nothing to wire. */
  lemma RewriteIdempotent(text: string, outDir: string)
    requires GoodDir(outDir)
    ensures Rewrite(Rewrite(text, outDir), outDir) == Rewrite(text, outDir)
    ensures ToWire(SplitLines(Rewrite(text, outDir)), outDir) == 0
    ensures |SplitLines(Rewrite(text, outDir))| == |SplitLines(text)|
  {
    RewriteSplits(text, outDir);
    NothingLeft(text, outDir);
  }
}
