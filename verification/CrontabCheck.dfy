/** What `main` checks after it has installed the new crontab, and why the table it wrote passes. */
module CrontabCheck {
  import opened Strings
  import opened Lines
  import opened CrontabWire
  import opened CrontabTable

  /** `text.count("\n")` */
  function Newlines(text: string): nat {
    if text == "" then 0 else (if text[0] == '\n' then 1 else 0) + Newlines(text[1..])
  }

  function Unwired(lines: seq<string>, outDir: string): nat {
    if lines == [] then 0 else (if PlanLine(lines[0], outDir).Wire? then 1 else 0) + Unwired(lines[1..], outDir)
  }

  /** The exit code of an apply that found `current` and reads back `installed`. */
  function Verdict(current: string, installed: string, outDir: string): int {
    if Newlines(installed) != Newlines(current) then 1
    else if Unwired(TextLines(installed), outDir) > 0 then 1
    else 0
  }

  /** The check passes exactly when there are as many line feeds and no line of the table is left to wire. */
  lemma VerdictIff(current: string, installed: string, outDir: string)
    ensures Verdict(current, installed, outDir) in {0, 1}
    ensures Verdict(current, installed, outDir) == 0 <==>
            && multiset(installed)['\n'] == multiset(current)['\n']
            && forall i :: 0 <= i < |TextLines(installed)| ==> !PlanLine(TextLines(installed)[i], outDir).Wire?
  {
    hide PlanLine, TextLines;
    NewlinesAre(installed);
    NewlinesAre(current);
    UnwiredIff(TextLines(installed), outDir);
  }

  lemma {:induction false} NewlinesAre(text: string)
    ensures Newlines(text) == multiset(text)['\n']
  {
    if text != "" {
      NewlinesAre(text[1..]);
      assert text == [text[0]] + text[1..];
    }
  }

  lemma {:induction false} UnwiredIff(lines: seq<string>, outDir: string)
    ensures Unwired(lines, outDir) == 0 <==> forall i :: 0 <= i < |lines| ==> !PlanLine(lines[i], outDir).Wire?
  {
    hide PlanLine;
    if lines != [] {
      UnwiredIff(lines[1..], outDir);
      assert forall i :: 0 < i < |lines| ==> lines[i] == lines[1..][i - 1];
      assert forall i :: 0 <= i < |lines[1..]| ==> lines[1..][i] == lines[i + 1];
    }
  }

  // ---------------------------------------------------------------------------------------------
  // The end of a line does not matter to its plan
  // ---------------------------------------------------------------------------------------------

  lemma {:induction false} AllSpace(e: string)
    requires forall i :: 0 <= i < |e| ==> IsBreak(e[i])
    ensures Spaces(e) == |e|
  {
    if e != "" {
      AllSpace(e[1..]);
    }
  }

  lemma EndIsSpace(e: string)
    requires IsEnd(e)
    ensures forall i :: 0 <= i < |e| ==> IsBreak(e[i])
    ensures Spaces(e) == |e| && Barrier(e)
  {
    AllSpace(e);
  }

  lemma CommentEnd(u: string, e: string)
    requires Spaces(e) == |e|
    ensures Comment(u + e) <==> Comment(u)
  {
    SpacesInto(u, e);
    var n := Spaces(u);
    if n < |u| {
      assert (u + e)[n..][0] == u[n] && u[n..][0] == u[n];
    }
  }

  lemma {:induction false} FirstCallEnd(u: string, e: string)
    requires IsEnd(e)
    ensures FirstCall(u + e) == FirstCall(u)
    decreases |u|
  {
    hide CallHere, Barrier;
    EndIsSpace(e);
    if u == "" {
      assert u + e == e;
      SpaceEnds(e);
      QuietNoC(e, "");
      assert e + "" == e;
      QuietFirst(e, "");
      NoCallInName("");
    } else {
      CallStops(u, e);
      assert (u + e)[1..] == u[1..] + e;
      FirstCallEnd(u[1..], e);
    }
  }

  lemma {:induction false} CommandStartEnd(u: string, e: string, pos: nat)
    requires pos <= |u|
    ensures CommandStart(u + e, pos) == CommandStart(u, pos)
    decreases pos
  {
    if pos > 0 {
      assert (u + e)[pos - 1] == u[pos - 1];
      CommandStartEnd(u, e, pos - 1);
    }
  }

  lemma ContainsEnd(u: string, e: string, t: string)
    requires t != "" && NoBreak(t) && forall i :: 0 <= i < |e| ==> IsBreak(e[i])
    ensures Contains(u + e, t) <==> Contains(u, t)
  {
    if i :| 0 <= i <= |u + e| && t <= (u + e)[i..] {
      var last := i + |t| - 1;
      assert (u + e)[last] == t[|t| - 1];
      assert last < |u|;
      assert u[i..][..|t|] == (u + e)[i..][..|t|] == t;
    }
    if i :| 0 <= i <= |u| && t <= u[i..] {
      assert (u + e)[i..] == u[i..] + e;
    }
  }

  lemma TargetNoBreak(outDir: string, name: string)
    requires NoBreak(outDir) && AllNames(name)
    ensures NoBreak(Target(outDir, name)) && Target(outDir, name) != ""
  {
    forall i | 0 <= i < |name| ensures !IsBreak(name[i]) {
      NameNoBreak(name[i]);
    }
  }

  /** The end of a line is no part of its plan: a line with it is planned as the line without it, and keeps it. */
  lemma EndKept(u: string, e: string, outDir: string)
    requires IsEnd(e) && NoBreak(outDir)
    ensures PlanLine(u + e, outDir) ==
            (match PlanLine(u, outDir)
             case Wire(line) => Wire(line + e)
             case p => p)
  {
    hide CallHere, Barrier, Comment, FirstCall, CommandStart, Contains, JobSplice, Target, NoBreak, IsEnd;
    EndIsSpace(e);
    CommentEnd(u, e);
    FirstCallEnd(u, e);
    if FirstCall(u).Some? {
      var call := FirstCall(u).value;
      assert (u + e)[call..] == u[call..] + e;
      CallStops(u[call..], e);
      var name := NameAt(u, call);
      CallName(u[call..]);
      TargetNoBreak(outDir, name);
      ContainsEnd(u, e, Target(outDir, name));
      CommandStartEnd(u, e, call);
      var start := CommandStart(u, call);
      assert (u + e)[..start] == u[..start] && (u + e)[start..] == u[start..] + e;
      var splice := JobSplice(u[..start], Capture(outDir, name));
      if splice.Some? {
        var s := splice.value;
        assert s.a + s.i + s.c + (u[start..] + e) == s.a + s.i + s.c + u[start..] + e;
      }
    }
  }

  // ---------------------------------------------------------------------------------------------
  // The check
  // ---------------------------------------------------------------------------------------------

  lemma {:induction false} NewlinesConcat(a: string, b: string)
    ensures Newlines(a + b) == Newlines(a) + Newlines(b)
  {
    if a == "" {
      assert a + b == b;
    } else {
      assert (a + b)[1..] == a[1..] + b;
      NewlinesConcat(a[1..], b);
    }
  }

  lemma {:induction false} NoNewlines(u: string)
    requires NoBreak(u)
    ensures Newlines(u) == 0
  {
    if u != "" {
      NoNewlines(u[1..]);
    }
  }

  /** What holds of one line of the new table. */
  lemma CheckedLine(u: string, t: string, outDir: string) returns (w: string)
    requires NoBreak(u) && IsEnd(t) && GoodDir(outDir) && u + t != ""
    ensures RewriteLine(u + t, outDir) == w + t
    ensures Newlines(w + t) == Newlines(u + t) && !PlanLine(Bare(w + t), outDir).Wire?
  {
    hide PlanLine, RewriteLine, FirstCall;
    w := RewrittenLine(u, t, outDir);
    NewlinesConcat(w, t);
    NewlinesConcat(u, t);
    NoNewlines(w);
    NoNewlines(u);
    BareOf(w, t);
    BodyOf(w, t);
    EndKept(w, if t == "\n" then "" else if t == "\r\n" then "\r" else t, outDir);
  }

  lemma {:induction false} CheckedLines(text: string, outDir: string)
    requires GoodDir(outDir)
    ensures Newlines(Rewrite(text, outDir)) == Newlines(text)
    ensures Unwired(AllBare(RewriteAll(SplitLines(text), outDir)), outDir) == 0
    decreases |text|
  {
    hide PlanLine, GoodDir, RewriteLine, Bare, NoBreak, IsEnd, LineLength;
    if text != "" {
      var n := LineLength(text);
      var u, t := FirstLine(text);
      var w := CheckedLine(u, t, outDir);
      var rest := text[n..];
      CheckedLines(rest, outDir);
      assert text == (u + t) + rest && SplitLines(text)[1..] == SplitLines(rest);
      NewlinesConcat(u + t, rest);
      NewlinesConcat(w + t, Rewrite(rest, outDir));
      assert Rewrite(text, outDir) == (w + t) + Rewrite(rest, outDir);
    }
  }

  /** INSTALLED.  When the table is read back as it was written, the check after the installation finds the
      same number of line feeds and no line left to wire. */
  lemma InstalledPasses(text: string, outDir: string)
    requires GoodDir(outDir)
    ensures Verdict(text, Rewrite(text, outDir), outDir) == 0
  {
    CheckedLines(text, outDir);
    RewriteSplits(text, outDir);
  }
}
