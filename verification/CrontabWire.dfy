/** Wiring crontab lines to capture their output: `plan_line` and the rewriting of a whole table. */
module CrontabWire {
  import opened Wrappers
  import opened Strings

  // ---------------------------------------------------------------------------------------------
  // The patterns
  // ---------------------------------------------------------------------------------------------

  const CALL := "cron_verdict.sh"

  /** `[A-Za-z0-9_.-]` */
  predicate NameChar(c: char) { IsAlnum(c) || c == '_' || c == '.' || c == '-' }

  /** Length of the white space `s` starts with, and of the name characters. */
  function Spaces(s: string): (n: nat)
    ensures n <= |s|
  {
    if s != "" && IsSpace(s[0]) then 1 + Spaces(s[1..]) else 0
  }

  function Names(s: string): (n: nat)
    ensures n <= |s|
  {
    if s != "" && NameChar(s[0]) then 1 + Names(s[1..]) else 0
  }

  /** `cron_verdict\.sh\s+([A-Za-z0-9_.-]+)` matching at the start of `s`: the name. */
  function CallHere(s: string): Option<string> {
    if CALL <= s then NameAfter(s[|CALL|..]) else None
  }

  function NameAfter(t: string): Option<string> {
    var n := Spaces(t);
    if n > 0 && Names(t[n..]) > 0 then Some(t[n..n + Names(t[n..])]) else None
  }

  /** Where the leftmost call starts. */
  function FirstCall(s: string): (r: Option<nat>)
    ensures r.Some? ==> r.value < |s| && CallHere(s[r.value..]).Some?
  {
    if CallHere(s).Some? then Some(0)
    else if s == "" then None
    else
      var r := FirstCall(s[1..]);
      if r.None? then None else Some(r.value + 1)
  }

  /** `s.rfind(" ", 0, pos) + 1` */
  function CommandStart(s: string, pos: nat): (r: nat)
    requires pos <= |s|
    ensures r <= pos
  {
    if pos == 0 || s[pos - 1] == ' ' then pos else CommandStart(s, pos - 1)
  }

  // `>\s*/dev/null\s+2>&1` matching at the start of `s`: its length, or 0.
  function DiscardHere(s: string): (n: nat)
    ensures n <= |s|
    ensures n > 0 ==> s[0] == '>'
  {
    if s == "" || s[0] != '>' then 0
    else
      var a := 1 + Spaces(s[1..]);
      if !("/dev/null" <= s[a..]) then 0
      else
        var b := a + 9;
        var c := b + Spaces(s[b..]);
        if c > b && "2>&1" <= s[c..] then c + 4 else 0
  }

  function FirstDiscard(s: string): (r: Option<nat>)
    ensures r.Some? ==> r.value < |s| && DiscardHere(s[r.value..]) > 0
  {
    if DiscardHere(s) > 0 then Some(0)
    else if s == "" then None
    else
      var r := FirstDiscard(s[1..]);
      if r.None? then None else Some(r.value + 1)
  }

  /** `>\s*\S` somewhere in `s` (which covers `>>`). */
  predicate Redirects(s: string) {
    exists i :: 0 <= i < |s| && s[i] == '>' && Spaces(s[i + 1..]) < |s| - i - 1
  }

  /** `\s*(?:;|\|\|)\s*$` matching at the start of `s`. */
  predicate SeparatorHere(s: string) {
    var t := s[Spaces(s)..];
    || (";" <= t && Spaces(t[1..]) == |t| - 1)
    || ("||" <= t && Spaces(t[2..]) == |t| - 2)
  }

  function FirstSeparator(s: string): (r: Option<nat>)
    ensures r.Some? ==> r.value < |s| && SeparatorHere(s[r.value..])
  {
    if SeparatorHere(s) then Some(0)
    else if s == "" then None
    else
      var r := FirstSeparator(s[1..]);
      if r.None? then None else Some(r.value + 1)
  }

  // ---------------------------------------------------------------------------------------------
  // One line
  // ---------------------------------------------------------------------------------------------

  datatype Plan = Skip | Wired | Wire(line: string)

  function Target(outDir: string, name: string): string { outDir + ("/" + name + ".out") }

  /** The redirection that captures. */
  function Capture(outDir: string, name: string): string { ">\"" + Target(outDir, name) + "\" 2>&1" }

  predicate Comment(line: string) {
    var t := line[Spaces(line)..];
    t == "" || t[0] == '#'
  }

  /** A rewriting: the line is `a + d + c`, the new line `a + i + c`. */
  datatype Splice = Splice(a: string, d: string, i: string, c: string)

  /** The part before the verdict command: its first discard is replaced; without any redirection, a capture is
      put before the separator at its end. */
  function JobSplice(job: string, capture: string): Option<Splice> {
    var discard := FirstDiscard(job);
    if discard.Some? then
      var after := discard.value + DiscardHere(job[discard.value..]);
      Some(Splice(job[..discard.value], job[discard.value..after], capture, job[after..]))
    else if Redirects(job) || FirstSeparator(job).None? then None
    else
      var sep := FirstSeparator(job).value;
      Some(Splice(job[..sep], "", " " + capture, job[sep..]))
  }

  function NameAt(line: string, call: nat): string
    requires call <= |line| && CallHere(line[call..]).Some?
  {
    CallHere(line[call..]).value
  }

  /** `plan_line` */
  function PlanLine(line: string, outDir: string): Plan {
    if Comment(line) || FirstCall(line).None? then Skip
    else
      var call := FirstCall(line).value;
      var name := NameAt(line, call);
      if Contains(line, Target(outDir, name)) then Wired
      else
        var start := CommandStart(line, call);
        match JobSplice(line[..start], Capture(outDir, name))
        case None => Skip
        case Some(s) => Wire(s.a + s.i + s.c + line[start..])
  }

  // ---------------------------------------------------------------------------------------------
  // What the patterns match
  // ---------------------------------------------------------------------------------------------

  predicate AllSpaces(w: string) { forall i :: 0 <= i < |w| ==> IsSpace(w[i]) }

  predicate AllNames(t: string) { forall i :: 0 <= i < |t| ==> NameChar(t[i]) }

  lemma {:induction false} SpacesRun(w: string, t: string)
    requires AllSpaces(w) && (t == "" || !IsSpace(t[0]))
    ensures Spaces(w + t) == |w| && (w + t)[|w|..] == t
  {
    if w == "" {
      assert w + t == t;
    } else {
      assert (w + t)[1..] == w[1..] + t;
      SpacesRun(w[1..], t);
    }
  }

  lemma {:induction false} SpacesAre(s: string)
    ensures AllSpaces(s[..Spaces(s)]) && (Spaces(s) < |s| ==> !IsSpace(s[Spaces(s)]))
  {
    if s != "" && IsSpace(s[0]) {
      SpacesAre(s[1..]);
      assert forall i :: 0 < i < Spaces(s) ==> s[i] == s[1..][..Spaces(s[1..])][i - 1];
    }
  }

  lemma {:induction false} NamesRun(n: string, t: string)
    requires AllNames(n) && (t == "" || !NameChar(t[0]))
    ensures Names(n + t) == |n| && (n + t)[..|n|] == n
  {
    if n == "" {
      assert n + t == t;
    } else {
      assert (n + t)[1..] == n[1..] + t;
      NamesRun(n[1..], t);
    }
  }

  lemma {:induction false} NamesAreNames(s: string)
    ensures AllNames(s[..Names(s)]) && (Names(s) < |s| ==> !NameChar(s[Names(s)]))
  {
    if s != "" && NameChar(s[0]) {
      NamesAreNames(s[1..]);
      assert forall i :: 0 < i < Names(s) ==> s[i] == s[1..][..Names(s[1..])][i - 1];
    }
  }

  /** A call with its name: the script, white space, and all name characters that follow. */
  predicate IsCall(s: string, w: string, name: string, t: string) {
    && s == CALL + (w + (name + t)) && w != "" && AllSpaces(w)
    && name != "" && AllNames(name) && (t == "" || !NameChar(t[0]))
  }

  lemma CallFound(s: string)
    requires CallHere(s).Some?
    ensures exists w, t :: IsCall(s, w, CallHere(s).value, t)
  {
    hide IsSpace, NameChar, Spaces, Names;
    var u := s[|CALL|..];
    var n := Spaces(u);
    var v := u[n..];
    var k := Names(v);
    SpacesAre(u);
    NamesAreNames(v);
    assert u[n..n + k] == v[..k];
    CallParts(s, u[..n], v[..k], v[k..]);
  }

  lemma CallParts(s: string, w: string, name: string, t: string)
    requires CALL <= s && s[|CALL|..] == w + (name + t) && w != "" && AllSpaces(w)
    requires name != "" && AllNames(name) && (t == "" || !NameChar(t[0]))
    ensures IsCall(s, w, name, t)
  {
    assert s == CALL + s[|CALL|..];
  }

  lemma CallMatched(s: string, w: string, name: string, t: string)
    requires IsCall(s, w, name, t)
    ensures CallHere(s) == Some(name)
  {
    hide IsSpace, NameChar;
    var u := w + (name + t);
    assert s[|CALL|..] == u;
    SpaceIsNoName(name[0]);
    SpacesRun(w, name + t);
    NamesRun(name, t);
    assert u[|w|..|w| + |name|] == name;
  }

  lemma CallHereIff(s: string, name: string)
    ensures CallHere(s) == Some(name) <==> exists w, t :: IsCall(s, w, name, t)
  {
    hide CallHere, IsCall;
    if CallHere(s) == Some(name) {
      CallFound(s);
    }
    if w, t :| IsCall(s, w, name, t) {
      CallMatched(s, w, name, t);
    }
  }

  /** The first call is the leftmost. */
  lemma {:induction false} FirstCallIs(s: string)
    ensures FirstCall(s).Some? ==> forall i :: 0 <= i < FirstCall(s).value ==> CallHere(s[i..]).None?
    ensures FirstCall(s).None? ==> forall i :: 0 <= i <= |s| ==> CallHere(s[i..]).None?
  {
    hide CallHere;
    assert s[0..] == s;
    if CallHere(s).None? && s != "" {
      FirstCallIs(s[1..]);
      assert forall i :: 0 < i <= |s| ==> s[1..][i - 1..] == s[i..];
    }
  }

  /** `start` is where the word begins in which position `pos` is. */
  lemma {:induction false} CommandStartIs(s: string, pos: nat)
    requires pos <= |s|
    ensures var start := CommandStart(s, pos);
            && (start == 0 || s[start - 1] == ' ')
            && forall i :: start <= i < pos ==> s[i] != ' '
    decreases pos
  {
    if pos > 0 && s[pos - 1] != ' ' {
      CommandStartIs(s, pos - 1);
    }
  }

  /** A discard: `>`, white space, `/dev/null`, at least one white space, `2>&1`. */
  predicate IsDiscard(d: string, w: string, v: string) {
    d == ">" + (w + ("/dev/null" + (v + "2>&1"))) && AllSpaces(w) && v != "" && AllSpaces(v)
  }

  lemma DiscardFound(s: string, n: nat)
    requires 0 < n <= |s| && DiscardHere(s) == n
    ensures exists w, v :: IsDiscard(s[..n], w, v)
  {
    hide IsSpace, Spaces;
    var a := 1 + Spaces(s[1..]);
    SpacesAre(s[1..]);
    var b := a + 9;
    SpacesAre(s[b..]);
    var c := b + Spaces(s[b..]);
    var w, v := s[1..a], s[b..c];
    assert s[1..][..a - 1] == w && s[b..][..c - b] == v;
    PrefixAt(s, a, "/dev/null");
    PrefixAt(s, c, "2>&1");
    CutInFive(s, 1, a, b, c, n);
    assert IsDiscard(s[..n], w, v);
  }

  lemma PrefixAt(s: string, i: nat, p: string)
    requires i <= |s| && p <= s[i..]
    ensures i + |p| <= |s| && s[i..i + |p|] == p
  {
    assert s[i..][..|p|] == s[i..i + |p|];
  }

  lemma CutInFive(s: string, i: nat, j: nat, k: nat, l: nat, n: nat)
    requires i <= j <= k <= l <= n <= |s|
    ensures s[..n] == s[..i] + (s[i..j] + (s[j..k] + (s[k..l] + s[l..n])))
  {
  }

  lemma DiscardMatched(s: string, w: string, v: string, t: string)
    requires s == ">" + (w + ("/dev/null" + (v + ("2>&1" + t)))) && AllSpaces(w) && v != "" && AllSpaces(v)
    ensures DiscardHere(s) == 14 + |w| + |v|
  {
    hide IsSpace;
    var afterV := "2>&1" + t;
    var afterW := "/dev/null" + (v + afterV);
    NoSpaceStart();
    assert s[1..] == w + afterW;
    SpacesRun(w, afterW);
    var a := 1 + |w|;
    assert s[a..] == afterW;
    assert s[a + 9..] == afterW[9..] == v + afterV;
    SpacesRun(v, afterV);
    assert s[a + 9 + |v|..] == afterV;
  }

  lemma NoSpaceStart()
    ensures !IsSpace('/') && !IsSpace('2')
  {
  }

  lemma DiscardHereIff(s: string, n: nat)
    requires 0 < n <= |s|
    ensures DiscardHere(s) == n <==> exists w, v :: IsDiscard(s[..n], w, v)
  {
    hide DiscardHere, AllSpaces;
    if DiscardHere(s) == n {
      DiscardFound(s, n);
    }
    if w, v :| IsDiscard(s[..n], w, v) {
      var t := s[n..];
      assert s == s[..n] + t;
      assert s == ">" + (w + ("/dev/null" + (v + ("2>&1" + t))));
      DiscardMatched(s, w, v, t);
    }
  }

  lemma {:induction false} FirstDiscardIs(s: string)
    ensures FirstDiscard(s).Some? ==> forall i :: 0 <= i < FirstDiscard(s).value ==> DiscardHere(s[i..]) == 0
    ensures FirstDiscard(s).None? ==> forall i :: 0 <= i <= |s| ==> DiscardHere(s[i..]) == 0
  {
    hide DiscardHere;
    assert s[0..] == s;
    if DiscardHere(s) == 0 && s != "" {
      FirstDiscardIs(s[1..]);
      assert forall i :: 0 < i <= |s| ==> s[1..][i - 1..] == s[i..];
    }
  }

  /** A separator: `;` or `||`, with white space around. */
  predicate IsSeparator(s: string, w: string, v: string) {
    (s == w + (";" + v) || s == w + ("||" + v)) && AllSpaces(w) && AllSpaces(v)
  }

  lemma SeparatorFound(s: string)
    requires SeparatorHere(s)
    ensures exists w, v :: IsSeparator(s, w, v)
  {
    hide IsSpace;
    var n := Spaces(s);
    var t := s[n..];
    SpacesAre(s);
    var k := if ";" <= t && Spaces(t[1..]) == |t| - 1 then 1 else 2;
    SpacesAre(t[k..]);
    assert t[k..][..|t| - k] == t[k..];
    assert t == t[..k] + t[k..] && (k == 1 ==> t[..k] == ";") && (k == 2 ==> t[..k] == "||");
    assert s == s[..n] + (t[..k] + t[k..]);
    assert IsSeparator(s, s[..n], t[k..]);
  }

  lemma SeparatorMatched(s: string, w: string, v: string)
    requires IsSeparator(s, w, v)
    ensures SeparatorHere(s)
  {
    hide IsSpace;
    SymbolsNoSpace();
    SpacesRun(v, "");
    assert v + "" == v;
    var mark := if s == w + (";" + v) then ";" else "||";
    SpacesRun(w, mark + v);
    assert (mark + v)[|mark|..] == v;
  }

  lemma SymbolsNoSpace()
    ensures !IsSpace(';') && !IsSpace('|')
  {
  }

  lemma SeparatorHereIff(s: string)
    ensures SeparatorHere(s) <==> exists w, v :: IsSeparator(s, w, v)
  {
    hide SeparatorHere, IsSeparator;
    if SeparatorHere(s) {
      SeparatorFound(s);
    }
    if w, v :| IsSeparator(s, w, v) {
      SeparatorMatched(s, w, v);
    }
  }

  lemma {:induction false} FirstSeparatorIs(s: string)
    ensures FirstSeparator(s).Some? ==> forall i :: 0 <= i < FirstSeparator(s).value ==> !SeparatorHere(s[i..])
    ensures FirstSeparator(s).None? ==> forall i :: 0 <= i <= |s| ==> !SeparatorHere(s[i..])
  {
    hide SeparatorHere;
    assert s[0..] == s;
    if !SeparatorHere(s) && s != "" {
      FirstSeparatorIs(s[1..]);
      assert forall i :: 0 < i <= |s| ==> s[1..][i - 1..] == s[i..];
    }
  }

  /** A redirection: `>` with a character that is no white space somewhere after it, across white space only. */
  lemma RedirectsIff(s: string)
    ensures Redirects(s) <==>
            exists i, j :: 0 <= i < j < |s| && s[i] == '>' && !IsSpace(s[j]) && AllSpaces(s[i + 1..j])
  {
    hide IsSpace;
    if i :| 0 <= i < |s| && s[i] == '>' && Spaces(s[i + 1..]) < |s| - i - 1 {
      SpacesAre(s[i + 1..]);
      var j := i + 1 + Spaces(s[i + 1..]);
      assert s[i + 1..][..j - i - 1] == s[i + 1..j];
      assert !IsSpace(s[j]) && AllSpaces(s[i + 1..j]);
    }
    if i, j :| 0 <= i < j < |s| && s[i] == '>' && !IsSpace(s[j]) && AllSpaces(s[i + 1..j]) {
      SpacesRun(s[i + 1..j], s[j..]);
      assert s[i + 1..] == s[i + 1..j] + s[j..];
      assert Spaces(s[i + 1..]) == j - i - 1;
    }
  }

  /** A comment is blank, or its first character that is no white space is `#`. */
  lemma CommentIff(line: string)
    ensures Comment(line) <==>
            AllSpaces(line) || exists i :: 0 <= i < |line| && line[i] == '#' && AllSpaces(line[..i])
  {
    var n := Spaces(line);
    SpacesAre(line);
    if i :| 0 <= i < |line| && line[i] == '#' && AllSpaces(line[..i]) {
      SpacesRun(line[..i], line[i..]);
      assert line == line[..i] + line[i..];
    }
    if AllSpaces(line) {
      SpacesRun(line, "");
      assert line + "" == line;
    }
    if n < |line| && line[n] == '#' {
      assert AllSpaces(line[..n]);
    } else if n == |line| {
      assert line[..n] == line;
    }
  }

  // ---------------------------------------------------------------------------------------------
  // Which lines are rewritten
  // ---------------------------------------------------------------------------------------------

  /** The part of a line before its verdict command. */
  function JobOf(line: string): string
    requires FirstCall(line).Some?
  {
    line[..CommandStart(line, FirstCall(line).value)]
  }

  /** The line is no comment and its first call is for `name`. */
  predicate Calls(line: string, name: string) {
    !Comment(line) && FirstCall(line).Some? && NameAt(line, FirstCall(line).value) == name
  }

  /** WIRED.  A line plans as wired exactly when it calls for a name whose target it contains. */
  lemma WiredIff(line: string, outDir: string)
    ensures PlanLine(line, outDir) == Wired <==>
            exists name :: Calls(line, name) && Contains(line, outDir + "/" + name + ".out")
  {
    hide Comment, CallHere, Contains, JobSplice;
    if Calls(line, NameAtFirst(line)) {
      assert Target(outDir, NameAtFirst(line)) == outDir + "/" + NameAtFirst(line) + ".out";
    }
  }

  function NameAtFirst(line: string): string {
    if FirstCall(line).Some? then NameAt(line, FirstCall(line).value) else ""
  }

  /** WIRE.  A line is rewritten exactly when it calls for a name, lacks its target, and its job either discards its
      output or has no redirection at all and ends in a separator.  A job with its own log is left alone. */
  lemma WireIff(line: string, outDir: string)
    ensures PlanLine(line, outDir).Wire? <==>
            exists name :: Calls(line, name) && !Contains(line, outDir + "/" + name + ".out")
                           && Rewritable(JobOf(line))
  {
    hide Comment, CallHere, Contains, DiscardHere, Redirects, SeparatorHere;
    if Calls(line, NameAtFirst(line)) {
      assert Target(outDir, NameAtFirst(line)) == outDir + "/" + NameAtFirst(line) + ".out";
      RewritableIff(JobOf(line), Capture(outDir, NameAtFirst(line)));
    }
  }

  predicate Discards(job: string) { exists i :: 0 <= i <= |job| && DiscardHere(job[i..]) > 0 }

  predicate Separated(job: string) { exists i :: 0 <= i <= |job| && SeparatorHere(job[i..]) }

  predicate Rewritable(job: string) { Discards(job) || (!Redirects(job) && Separated(job)) }

  lemma RewritableIff(job: string, capture: string)
    ensures JobSplice(job, capture).Some? <==> Rewritable(job)
  {
    hide DiscardHere, Redirects, SeparatorHere;
    FirstDiscardIs(job);
    FirstSeparatorIs(job);
  }

  /** What is written: the first discard replaced by the capture, or the capture put before the first separator that
      ends the job.  Everything else is kept. */
  lemma WireWrites(line: string, outDir: string)
    requires PlanLine(line, outDir).Wire?
    ensures FirstCall(line).Some?
    ensures var job, command := JobOf(line), line[|JobOf(line)|..];
            var capture := ">\"" + outDir + "/" + NameAtFirst(line) + ".out\" 2>&1";
            PlanLine(line, outDir).line ==
              if Discards(job) then
                var i := FirstDiscard(job).value;
                job[..i] + capture + job[i + DiscardHere(job[i..])..] + command
              else
                var i := FirstSeparator(job).value;
                job[..i] + (" " + capture) + job[i..] + command
  {
    hide PlanLine, JobSplice, FirstDiscard, FirstSeparator, Discards, Capture, NameAtFirst, JobOf, FirstCall;
    WirePlan(line, outDir);
    var name, job := NameAtFirst(line), JobOf(line);
    CaptureText(outDir, name);
    SpliceWrites(job, Capture(outDir, name));
  }

  lemma WirePlan(line: string, outDir: string)
    requires PlanLine(line, outDir).Wire?
    ensures !Comment(line) && FirstCall(line).Some? && |JobOf(line)| <= |line|
    ensures var s := JobSplice(JobOf(line), Capture(outDir, NameAtFirst(line)));
            s.Some? && PlanLine(line, outDir).line == s.value.a + s.value.i + s.value.c + line[|JobOf(line)|..]
  {
    hide Comment, CallHere, Contains, JobSplice, Capture, CommandStart;
  }

  lemma CaptureText(outDir: string, name: string)
    ensures Capture(outDir, name) == ">\"" + outDir + "/" + name + ".out\" 2>&1"
  {
    assert ".out" + "\" 2>&1" == ".out\" 2>&1";
  }

  lemma SpliceWrites(job: string, capture: string)
    requires JobSplice(job, capture).Some?
    ensures FirstDiscard(job).Some? <==> Discards(job)
    ensures !Discards(job) ==> FirstSeparator(job).Some?
    ensures var s := JobSplice(job, capture).value;
            if Discards(job) then
              var i := FirstDiscard(job).value;
              s.a == job[..i] && s.i == capture && s.c == job[i + DiscardHere(job[i..])..]
            else
              var i := FirstSeparator(job).value;
              s.a == job[..i] && s.i == " " + capture && s.c == job[i..]
  {
    hide DiscardHere, Redirects, SeparatorHere;
    FirstDiscardIs(job);
  }

  // ---------------------------------------------------------------------------------------------
  // Where a call can and cannot start
  // ---------------------------------------------------------------------------------------------

  /** Whatever comes before `x`, no call reaches into it: white space, if any, and then no name character. */
  predicate Barrier(x: string) {
    var n := Spaces(x);
    n < |x| ==> !NameChar(x[n])
  }

  lemma {:induction false} SpacesInto(u: string, x: string)
    ensures Spaces(u + x) == if Spaces(u) == |u| then |u| + Spaces(x) else Spaces(u)
  {
    if u == "" {
      assert u + x == x;
    } else if IsSpace(u[0]) {
      assert (u + x)[1..] == u[1..] + x;
      SpacesInto(u[1..], x);
    }
  }

  lemma {:induction false} NamesInto(u: string, x: string)
    requires x != "" && !NameChar(x[0])
    ensures Names(u + x) == Names(u)
  {
    if u == "" {
      assert u + x == x;
    } else if NameChar(u[0]) {
      assert (u + x)[1..] == u[1..] + x;
      NamesInto(u[1..], x);
    }
  }

  lemma SpaceIsNoName(c: char)
    ensures IsSpace(c) ==> !NameChar(c)
  {
  }

  lemma BarrierStart(x: string)
    requires Barrier(x)
    ensures x != "" ==> !NameChar(x[0])
  {
    if Spaces(x) > 0 {
      SpaceIsNoName(x[0]);
    }
  }

  lemma NoName(s: string)
    requires s == "" || !NameChar(s[0])
    ensures Names(s) == 0
  {
  }

  lemma NoNameYet(u: string, x: string)
    requires Barrier(x) && Spaces(u) == |u|
    ensures NameAfter(u + x).None? && NameAfter(u).None?
  {
    hide NameChar, IsSpace, Spaces, Names;
    SpacesInto(u, x);
    var m := |u| + Spaces(x);
    assert (u + x)[m..] == x[Spaces(x)..];
    NoName((u + x)[m..]);
    NoName(u[|u|..]);
  }

  lemma NameStops(u: string, x: string)
    requires Barrier(x)
    ensures NameAfter(u + x) == NameAfter(u)
  {
    hide NameChar, IsSpace, Spaces, Names, Barrier;
    var n := Spaces(u);
    if n == |u| {
      NoNameYet(u, x);
    } else if x == "" {
      assert u + x == u;
    } else {
      SpacesInto(u, x);
      BarrierStart(x);
      assert (u + x)[n..] == u[n..] + x;
      NamesInto(u[n..], x);
      var k := Names(u[n..]);
      assert (u + x)[n..n + k] == u[n..n + k];
    }
  }

  /** A call that starts in `t` lies in `t` when a barrier follows. */
  lemma CallStops(t: string, x: string)
    requires Barrier(x)
    ensures CallHere(t + x) == CallHere(t)
  {
    BarrierStart(x);
    var n := |CALL|;
    if CALL <= t {
      assert (t + x)[n..] == t[n..] + x;
      assert CALL <= t + x;
      NameStops(t[n..], x);
    } else if x == "" {
      assert t + x == t;
    } else if |t| < n {
      assert (t + x)[|t|] == x[0] && NameChar(CALL[|t|]);
    } else {
      assert (t + x)[..n] == t[..n];
    }
  }

  /** No call starts inside `t` when `x` follows it. */
  predicate Quiet(t: string, x: string) {
    forall i :: 0 <= i < |t| ==> CallHere(t[i..] + x).None?
  }

  lemma {:induction false} QuietFirst(t: string, x: string)
    requires Quiet(t, x)
    ensures FirstCall(t + x) == if FirstCall(x).None? then None else Some(|t| + FirstCall(x).value)
    decreases |t|
  {
    hide CallHere;
    if t == "" {
      assert t + x == x;
    } else {
      assert t[0..] + x == t + x && (t + x)[1..] == t[1..] + x;
      forall i | 0 <= i < |t[1..]| ensures CallHere(t[1..][i..] + x).None? {
        assert t[1..][i..] == t[i + 1..];
      }
      QuietFirst(t[1..], x);
    }
  }

  lemma QuietConcat(a: string, b: string, x: string)
    requires Quiet(a, b + x) && Quiet(b, x)
    ensures Quiet(a + b, x)
  {
    forall i | 0 <= i < |a + b| ensures CallHere((a + b)[i..] + x).None? {
      if i < |a| {
        assert (a + b)[i..] + x == a[i..] + (b + x);
      } else {
        assert (a + b)[i..] == b[i - |a|..];
      }
    }
  }

  /** Text without the first letter of a call is quiet. */
  lemma QuietNoC(t: string, x: string)
    requires 'c' !in t
    ensures Quiet(t, x)
  {
    forall i | 0 <= i < |t| ensures CallHere(t[i..] + x).None? {
      assert (t[i..] + x)[0] == t[i] && t[i] in t && CALL[0] == 'c';
    }
  }

  /** Text without a call of its own is quiet before a barrier. */
  lemma QuietBarrier(t: string, x: string)
    requires Barrier(x) && forall i :: 0 <= i < |t| ==> CallHere(t[i..]).None?
    ensures Quiet(t, x)
  {
    forall i | 0 <= i < |t| ensures CallHere(t[i..] + x).None? {
      CallStops(t[i..], x);
    }
  }

  lemma NoCallInName(t: string)
    requires AllNames(t)
    ensures CallHere(t).None?
  {
    if CALL <= t && |t| > |CALL| {
      assert t[|CALL|..][0] == t[|CALL|];
    }
  }

  lemma CallName(s: string)
    requires CallHere(s).Some?
    ensures AllNames(CallHere(s).value)
  {
    var t := s[|CALL|..];
    NamesAreNames(t[Spaces(t)..]);
    assert t[Spaces(t)..Spaces(t) + Names(t[Spaces(t)..])] == t[Spaces(t)..][..Names(t[Spaces(t)..])];
  }

  lemma FileQuiet(file: string, x: string)
    requires AllNames(file) && Barrier(x)
    ensures Quiet(file, x)
  {
    hide CallHere;
    forall i | 0 <= i < |file| ensures CallHere(file[i..]).None? {
      NoCallInName(file[i..]);
    }
    QuietBarrier(file, x);
  }

  lemma DirQuiet(outDir: string, x: string)
    requires FirstCall(outDir).None? && Barrier(x)
    ensures Quiet(outDir, x)
  {
    hide CallHere;
    forall i | 0 <= i < |outDir| ensures CallHere(outDir[i..]).None? {
      FirstCallIs(outDir);
    }
    QuietBarrier(outDir, x);
  }

  lemma SymbolBarrier(x: string)
    requires x != "" && (x[0] == '>' || x[0] == '\"' || x[0] == '/')
    ensures Barrier(x)
  {
  }

  /** The inserted redirection contains no call. */
  lemma CaptureQuiet(outDir: string, name: string, rest: string)
    requires FirstCall(outDir).None? && AllNames(name)
    ensures Quiet(Capture(outDir, name), rest)
  {
    hide CallHere, FirstCall, Quiet, Barrier;
    var open, slash, file, close := ">\"", "/", name + ".out", "\" 2>&1";
    var fromFile := file + (close + rest);
    QuietNoC(close, rest);
    SymbolBarrier(close + rest);
    FileQuiet(file, close + rest);
    QuietConcat(file, close, rest);
    assert file + close + rest == fromFile;
    QuietNoC(slash, fromFile);
    QuietConcat(slash, file + close, rest);
    assert slash + (file + close) + rest == slash + fromFile;
    SymbolBarrier(slash + fromFile);
    DirQuiet(outDir, slash + fromFile);
    QuietConcat(outDir, slash + (file + close), rest);
    QuietNoC(open, outDir + (slash + (file + close)) + rest);
    QuietConcat(open, outDir + (slash + (file + close)), rest);
    assert Capture(outDir, name) == open + (outDir + (slash + (file + close)));
  }

  // ---------------------------------------------------------------------------------------------
  // A wired line stays wired
  // ---------------------------------------------------------------------------------------------

  lemma SeparatorBarrier(s: string, c: string)
    requires SeparatorHere(s)
    ensures Barrier(s + c)
  {
    SpacesInto(s, c);
    var n := Spaces(s);
    assert s[n..][0] == s[n];
    assert (s + c)[n] == s[n];
    SpacesAre(s);
  }

  lemma DiscardFacts(job: string, capture: string, command: string)
    requires FirstDiscard(job).Some?
    ensures var s := JobSplice(job, capture).value;
            job == s.a + s.d + s.c && s.i == capture && Barrier(s.d + (s.c + command))
  {
    hide DiscardHere, FirstDiscard, Barrier;
    var at := FirstDiscard(job).value;
    var n := DiscardHere(job[at..]);
    var d, rest := job[at..at + n], job[at + n..];
    assert d[0] == job[at..][0] == '>';
    SymbolBarrier(d + (rest + command));
    assert job == job[..at] + d + rest;
  }

  /** A splice takes its job apart, and what it puts its capture in front of is a barrier. */
  lemma SpliceFacts(job: string, capture: string, command: string)
    requires JobSplice(job, capture).Some?
    ensures var s := JobSplice(job, capture).value;
            && job == s.a + s.d + s.c && (s.i == capture || s.i == " " + capture)
            && Barrier(s.d + (s.c + command))
  {
    hide Barrier, SeparatorHere;
    if FirstDiscard(job).Some? {
      DiscardFacts(job, capture, command);
    } else {
      var at := FirstSeparator(job).value;
      var sep := job[at..];
      SeparatorBarrier(sep, command);
      assert "" + (sep + command) == sep + command;
      assert job == job[..at] + "" + sep;
    }
  }

  lemma CaptureBarrier(outDir: string, name: string, rest: string)
    ensures Barrier(Capture(outDir, name) + rest)
    ensures Barrier((" " + Capture(outDir, name)) + rest)
  {
    var t := Capture(outDir, name) + rest;
    assert t[0] == '>';
    var u := (" " + Capture(outDir, name)) + rest;
    assert u[0] == ' ' && u[1..] == t;
  }

  /** The text before the first call is quiet. */
  lemma QuietBefore(t: string, x: string)
    requires FirstCall(t + x).Some? && |t| <= FirstCall(t + x).value
    ensures Quiet(t, x)
  {
    hide CallHere;
    forall k | 0 <= k < |t| ensures CallHere(t[k..] + x).None? {
      FirstCallIs(t + x);
      assert t[k..] + x == (t + x)[k..];
    }
  }

  /** Quiet before one barrier is quiet before any. */
  lemma QuietSwap(t: string, x: string, y: string)
    requires Quiet(t, x) && Barrier(x) && Barrier(y)
    ensures Quiet(t, y)
  {
    hide CallHere, Barrier;
    forall k | 0 <= k < |t| ensures CallHere(t[k..] + y).None? {
      CallStops(t[k..], x);
      CallStops(t[k..], y);
    }
  }

  /** Replacing text before the first call by quiet text keeps that call the first. */
  lemma CallStays(a: string, d: string, i: string, c: string)
    requires FirstCall(a + d + c).Some? && |a + d| <= FirstCall(a + d + c).value
    requires Barrier(d + c) && Barrier(i + c) && Quiet(i, c)
    ensures FirstCall(a + i + c) == Some(FirstCall(a + d + c).value - |a + d| + |a + i|)
    ensures (a + i + c)[FirstCall(a + i + c).value..] == (a + d + c)[FirstCall(a + d + c).value..]
  {
    hide CallHere, Barrier, FirstCall, Quiet;
    QuietBefore(a + d, c);
    QuietFirst(a + d, c);
    assert a + (d + c) == a + d + c;
    QuietBefore(a, d + c);
    QuietSwap(a, d + c, i + c);
    QuietConcat(a, i, c);
    QuietFirst(a + i, c);
  }

  /** The inserted text is a barrier without call. */
  lemma InsertQuiet(i: string, outDir: string, name: string, rest: string)
    requires FirstCall(outDir).None? && AllNames(name)
    requires i == Capture(outDir, name) || i == " " + Capture(outDir, name)
    ensures Barrier(i + rest) && Quiet(i, rest)
  {
    CaptureBarrier(outDir, name, rest);
    CaptureQuiet(outDir, name, rest);
    QuietNoC(" ", Capture(outDir, name) + rest);
    QuietConcat(" ", Capture(outDir, name), rest);
  }

  /** A line that is no comment is none after text is replaced that starts with neither. */
  lemma {:induction false} NoComment(a: string, x: string, y: string)
    requires !Comment(a + x) && !Comment(y)
    ensures !Comment(a + y)
  {
    SpacesInto(a, x);
    SpacesInto(a, y);
    var n := Spaces(a);
    if n == |a| {
      assert (a + y)[n + Spaces(y)..] == y[Spaces(y)..];
    } else {
      assert (a + y)[n..][0] == a[n] && (a + x)[n..][0] == a[n];
    }
  }

  lemma InsertNoComment(i: string, outDir: string, name: string, rest: string)
    requires i == Capture(outDir, name) || i == " " + Capture(outDir, name)
    ensures !Comment(i + rest)
  {
    var t := Capture(outDir, name) + rest;
    assert t[0] == '>';
    if i != Capture(outDir, name) {
      var u := i + rest;
      assert u[0] == ' ' && u[1..] == t;
      assert Spaces(u) == 1;
    }
  }

  lemma HoldsTarget(a: string, i: string, c: string, outDir: string, name: string)
    requires i == Capture(outDir, name) || i == " " + Capture(outDir, name)
    ensures Contains(a + i + c, Target(outDir, name))
  {
    hide Contains;
    var t := Target(outDir, name);
    var p := if i == Capture(outDir, name) then ">\"" else " >\"";
    assert i == p + t + "\" 2>&1";
    ContainsMiddle(a + p, t, "\" 2>&1" + c);
    assert (a + p) + t + ("\" 2>&1" + c) == a + i + c;
  }

  /** What the new text has: no comment, the same call in the same place of `c`, and the target. */
  lemma SplicedIsWired(a: string, d: string, i: string, c: string, outDir: string, name: string)
    requires FirstCall(outDir).None? && AllNames(name)
    requires i == Capture(outDir, name) || i == " " + Capture(outDir, name)
    requires !Comment(a + d + c) && Barrier(d + c)
    requires FirstCall(a + d + c).Some? && |a + d| <= FirstCall(a + d + c).value
    ensures !Comment(a + i + c) && Contains(a + i + c, Target(outDir, name))
    ensures var line, wired := a + d + c, a + i + c;
            && FirstCall(wired).Some?
            && wired[FirstCall(wired).value..] == line[FirstCall(line).value..]
  {
    hide CallHere, Comment, Contains, Barrier, Capture, FirstCall, Target;
    InsertQuiet(i, outDir, name, c);
    CallStays(a, d, i, c);
    InsertNoComment(i, outDir, name, c);
    assert a + (d + c) == a + d + c && a + (i + c) == a + i + c;
    NoComment(a, d + c, i + c);
    HoldsTarget(a, i, c, outDir, name);
  }

  /** WIRED AFTER WIRING.  With a capture directory that holds no verdict call, a line that plans to be wired
      becomes a line that plans as wired; everything from the verdict command on is kept. */
  lemma WireBecomesWired(line: string, outDir: string)
    requires FirstCall(outDir).None? && PlanLine(line, outDir).Wire?
    ensures var wired := PlanLine(line, outDir).line;
            var command := line[CommandStart(line, FirstCall(line).value)..];
            && PlanLine(wired, outDir) == Wired
            && |wired| >= |command| && wired[|wired| - |command|..] == command
  {
    hide CallHere, Comment, Contains, PlanLine, Barrier, Capture, CommandStart, FirstCall, Target;
    var s, start := WireParts(line, outDir);
    var call := FirstCall(line).value;
    var name, c := NameAt(line, call), s.c + line[start..];
    CallName(line[call..]);
    SplicedIsWired(s.a, s.d, s.i, c, outDir, name);
    var wired := s.a + s.i + c;
    PlanWired(wired, outDir);
    assert wired == (s.a + s.i + s.c) + line[start..];
  }

  /** How a line that plans to be wired comes apart. */
  lemma WireParts(line: string, outDir: string) returns (s: Splice, start: nat)
    requires PlanLine(line, outDir).Wire?
    ensures !Comment(line) && FirstCall(line).Some?
    ensures var name := NameAt(line, FirstCall(line).value);
            && start == CommandStart(line, FirstCall(line).value)
            && line == s.a + s.d + (s.c + line[start..])
            && PlanLine(line, outDir).line == s.a + s.i + (s.c + line[start..])
            && |s.a + s.d| <= start && Barrier(s.d + (s.c + line[start..]))
            && (s.i == Capture(outDir, name) || s.i == " " + Capture(outDir, name))
  {
    hide PlanLine, FirstCall, Comment, CallHere, CommandStart, Barrier, JobSplice, Capture;
    WirePlan(line, outDir);
    var call := FirstCall(line).value;
    start := CommandStart(line, call);
    var capture := Capture(outDir, NameAt(line, call));
    SpliceFacts(line[..start], capture, line[start..]);
    s := JobSplice(line[..start], capture).value;
    assert line == line[..start] + line[start..];
    assert s.a + s.d + s.c + line[start..] == s.a + s.d + (s.c + line[start..]);
    assert s.a + s.i + s.c + line[start..] == s.a + s.i + (s.c + line[start..]);
  }

  lemma PlanWired(line: string, outDir: string)
    requires !Comment(line) && FirstCall(line).Some?
    requires Contains(line, Target(outDir, NameAt(line, FirstCall(line).value)))
    ensures PlanLine(line, outDir) == Wired
  {
  }

  lemma ContainsMiddle(a: string, t: string, c: string)
    ensures Contains(a + t + c, t)
  {
    assert (a + t + c)[|a|..] == t + c;
  }
}
