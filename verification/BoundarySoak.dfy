/** Boundary soak reports: `parse_journal` aggregates one host's log, `aggregate` rolls the hosts up.  Seconds are
    exact reals. */
module BoundarySoak {
  import opened Wrappers
  import opened Lines

  type Seconds = r: real | r >= 0.0

  datatype Kind = Slow | Raised

  /** What a matching log line says. */
  datatype Sample = Sample(tag: string, kind: Kind, secs: Seconds)

  /** One label's record. */
  datatype Record = Record(slow: nat, raised: nat, maxS: Seconds, sumS: Seconds)

  type Journal = map<string, Record>

  const ZERO := Record(0, 0, 0.0, 0.0)

  function Max(a: Seconds, b: Seconds): Seconds { if a < b then b else a }

  function Plus(a: Record, b: Record): Record {
    Record(a.slow + b.slow, a.raised + b.raised, Max(a.maxS, b.maxS), a.sumS + b.sumS)
  }

  function One(s: Sample): Record {
    match s.kind
    case Slow => Record(1, 0, s.secs, s.secs)
    case Raised => Record(0, 1, s.secs, s.secs)
  }

  /** The lines that match, in order.  `read` is the regular expression with its number conversion. */
  function Samples(lines: seq<string>, read: string -> Option<Sample>): seq<Sample> {
    if lines == [] then []
    else (match read(lines[0]) case None => [] case Some(s) => [s]) + Samples(lines[1..], read)
  }

  /** The record of `label` over the samples. */
  function RecordOf(samples: seq<Sample>, tag: string): Record {
    if samples == [] then ZERO
    else Plus(if samples[0].tag == tag then One(samples[0]) else ZERO, RecordOf(samples[1..], tag))
  }

  function Labels(samples: seq<Sample>): set<string> { set s <- samples :: s.tag }

  function JournalOf(samples: seq<Sample>): Journal {
    map tag <- Labels(samples) :: RecordOf(samples, tag)
  }

  function Merge(a: Journal, b: Journal): Journal {
    map tag <- a.Keys + b.Keys :: Plus(Entry(a, tag), Entry(b, tag))
  }

  /** What a parse of lines reports, and of a text. */
  function ParseLines(lines: seq<string>, read: string -> Option<Sample>): Journal { JournalOf(Samples(lines, read)) }

  function Parse(text: string, read: string -> Option<Sample>): Journal { ParseLines(TextLines(text), read) }

  function Entry(j: Journal, tag: string): Record { if tag in j then j[tag] else ZERO }

  /** The three updates that a matching line makes to its record. */
  function Added(rec: Record, s: Sample): (r: Record)
    ensures r == Plus(rec, One(s))
  {
    var counted := match s.kind
      case Slow => rec.(slow := rec.slow + 1)
      case Raised => rec.(raised := rec.raised + 1);
    counted.(maxS := Max(rec.maxS, s.secs), sumS := rec.sumS + s.secs)
  }

  // ---------------------------------------------------------------------------------------------
  // One host
  // ---------------------------------------------------------------------------------------------

  /** `parse_journal` */
  method ParseJournal(text: string, read: string -> Option<Sample>) returns (out: Journal)
    ensures out == Parse(text, read)
  {
    hide Plus, One, RecordOf, JournalOf, Samples, Added, TextLines;
    var lines := TextLines(text);
    out := map[];
    EmptyJournal(read);
    for i := 0 to |lines|
      invariant out == JournalOf(Samples(lines[..i], read))
    {
      SamplesSnoc(lines, i, read);
      var m := read(lines[i]);
      if m.Some? {
        OneMore(Samples(lines[..i], read), m.value);
        out := out[m.value.tag := Added(Entry(out, m.value.tag), m.value)];
      }
    }
    assert lines[..|lines|] == lines;
  }

  lemma SamplesSnoc(lines: seq<string>, i: nat, read: string -> Option<Sample>)
    requires i < |lines|
    ensures Samples(lines[..i + 1], read) ==
            (if read(lines[i]).Some? then Samples(lines[..i], read) + [read(lines[i]).value]
             else Samples(lines[..i], read))
  {
    assert lines[..i + 1] == lines[..i] + [lines[i]];
    SamplesConcat(lines[..i], [lines[i]], read);
    assert [lines[i]][1..] == [];
  }

  lemma EmptyJournal(read: string -> Option<Sample>)
    ensures JournalOf(Samples([], read)) == map[]
  {
  }

  lemma PlusLaws(a: Record, b: Record, c: Record)
    ensures Plus(a, Plus(b, c)) == Plus(Plus(a, b), c)
    ensures Plus(a, b) == Plus(b, a)
    ensures Plus(a, ZERO) == a
  {
  }

  /** What one sample adds to the record of a label. */
  function Share(s: Sample, tag: string): Record { if s.tag == tag then One(s) else ZERO }

  lemma RecordCons(samples: seq<Sample>, tag: string)
    requires samples != []
    ensures RecordOf(samples, tag) == Plus(Share(samples[0], tag), RecordOf(samples[1..], tag))
  {
  }

  lemma RecordNone(tag: string)
    ensures RecordOf([], tag) == ZERO
  {
  }

  lemma {:induction false} RecordConcat(a: seq<Sample>, b: seq<Sample>, tag: string)
    ensures RecordOf(a + b, tag) == Plus(RecordOf(a, tag), RecordOf(b, tag))
  {
    hide Plus, Share, RecordOf;
    if a == [] {
      assert a + b == b;
      RecordNone(tag);
      PlusLaws(RecordOf(b, tag), ZERO, ZERO);
    } else {
      assert (a + b)[0] == a[0] && (a + b)[1..] == a[1..] + b;
      RecordConcat(a[1..], b, tag);
      RecordCons(a + b, tag);
      RecordCons(a, tag);
      PlusLaws(Share(a[0], tag), RecordOf(a[1..], tag), RecordOf(b, tag));
    }
  }

  lemma RecordOfOne(s: Sample, tag: string)
    ensures RecordOf([s], tag) == Share(s, tag)
  {
    hide Plus, Share, RecordOf;
    RecordCons([s], tag);
    assert [s][1..] == [];
    RecordNone(tag);
    PlusLaws(Share(s, tag), ZERO, ZERO);
  }

  lemma RecordSnoc(done: seq<Sample>, s: Sample, tag: string)
    ensures RecordOf(done + [s], tag) == Plus(RecordOf(done, tag), Share(s, tag))
    ensures s.tag != tag ==> RecordOf(done + [s], tag) == RecordOf(done, tag)
  {
    hide Plus, RecordOf;
    RecordConcat(done, [s], tag);
    RecordOfOne(s, tag);
    PlusLaws(RecordOf(done, tag), ZERO, ZERO);
  }

  lemma OneMore(done: seq<Sample>, s: Sample)
    ensures JournalOf(done + [s]) == JournalOf(done)[s.tag := Plus(Entry(JournalOf(done), s.tag), One(s))]
  {
    hide Plus, RecordOf;
    assert Labels(done + [s]) == Labels(done) + {s.tag};
    forall tag ensures s.tag != tag ==> RecordOf(done + [s], tag) == RecordOf(done, tag) {
      RecordSnoc(done, s, tag);
    }
    RecordSnoc(done, s, s.tag);
    EntryIs(done, s.tag);
  }

  lemma {:induction false} AbsentIsZero(samples: seq<Sample>, tag: string)
    ensures tag !in Labels(samples) ==> RecordOf(samples, tag) == ZERO
  {
    if samples != [] {
      AbsentIsZero(samples[1..], tag);
      assert samples[0] in samples && forall s <- samples[1..] :: s in samples;
    }
  }

  /** A record's entry, whether or not the label occurs. */
  lemma EntryIs(samples: seq<Sample>, tag: string)
    ensures Entry(JournalOf(samples), tag) == RecordOf(samples, tag)
  {
    AbsentIsZero(samples, tag);
  }

  /** The samples of a label, and those of one kind. */
  function OfLabel(samples: seq<Sample>, tag: string): seq<Sample> {
    if samples == [] then []
    else (if samples[0].tag == tag then [samples[0]] else []) + OfLabel(samples[1..], tag)
  }

  function OfKind(samples: seq<Sample>, kind: Kind): seq<Sample> {
    if samples == [] then []
    else (if samples[0].kind == kind then [samples[0]] else []) + OfKind(samples[1..], kind)
  }

  function TotalSeconds(samples: seq<Sample>): real {
    if samples == [] then 0.0 else samples[0].secs + TotalSeconds(samples[1..])
  }

  /** COUNTS.  A label's record counts the slow samples and the raised ones of the label, and sums the seconds of
      all. */
  lemma {:induction false} RecordCounts(samples: seq<Sample>, tag: string)
    ensures RecordOf(samples, tag).slow == |OfKind(OfLabel(samples, tag), Slow)|
    ensures RecordOf(samples, tag).raised == |OfKind(OfLabel(samples, tag), Raised)|
    ensures RecordOf(samples, tag).sumS == TotalSeconds(OfLabel(samples, tag))
  {
    if samples != [] {
      RecordCounts(samples[1..], tag);
      var first, rest := samples[0], OfLabel(samples[1..], tag);
      if first.tag == tag {
        assert OfLabel(samples, tag) == [first] + rest && ([first] + rest)[1..] == rest;
      } else {
        assert OfLabel(samples, tag) == rest;
      }
    }
  }

  /** A parse reports exactly the labels that have a sample. */
  lemma ParseLabels(text: string, read: string -> Option<Sample>, tag: string)
    ensures tag in Parse(text, read) <==> OfLabel(Samples(TextLines(text), read), tag) != []
  {
    LabelSeen(Samples(TextLines(text), read), tag);
  }

  lemma {:induction false} LabelSeen(samples: seq<Sample>, tag: string)
    ensures tag in Labels(samples) <==> OfLabel(samples, tag) != []
  {
    if samples != [] {
      LabelSeen(samples[1..], tag);
      assert forall s :: s in samples <==> s == samples[0] || s in samples[1..];
    }
  }

  /** The maximum of a record is what it should be: no sample of the label takes longer, and one takes as long
      unless there is none. */
  lemma {:induction false} MaximumIs(samples: seq<Sample>, tag: string)
    ensures forall s <- samples :: s.tag == tag ==> s.secs <= RecordOf(samples, tag).maxS
    ensures tag in Labels(samples) ==>
              exists s :: s in samples && s.tag == tag && s.secs == RecordOf(samples, tag).maxS
  {
    if samples != [] {
      var first, rest := samples[0], samples[1..];
      MaximumIs(rest, tag);
      AbsentIsZero(rest, tag);
      assert RecordOf(samples, tag).maxS == Max(Share(first, tag).maxS, RecordOf(rest, tag).maxS);
      forall s <- samples | s.tag == tag ensures s.secs <= RecordOf(samples, tag).maxS {
        assert s == first || s in rest;
      }
      if first.tag == tag && first.secs >= RecordOf(rest, tag).maxS {
        assert first in samples && first.secs == RecordOf(samples, tag).maxS;
      } else if tag in Labels(rest) {
        var s :| s in rest && s.tag == tag && s.secs == RecordOf(rest, tag).maxS;
        assert s in samples;
      }
    }
  }

  lemma {:induction false} SamplesConcat(a: seq<string>, b: seq<string>, read: string -> Option<Sample>)
    ensures Samples(a + b, read) == Samples(a, read) + Samples(b, read)
  {
    if a == [] {
      assert a + b == b;
    } else {
      assert (a + b)[1..] == a[1..] + b;
      SamplesConcat(a[1..], b, read);
    }
  }

  lemma JournalConcat(a: seq<Sample>, b: seq<Sample>)
    ensures JournalOf(a + b) == Merge(JournalOf(a), JournalOf(b))
  {
    hide Plus, RecordOf;
    LabelsConcat(a, b);
    forall tag ensures RecordOf(a + b, tag) == Plus(Entry(JournalOf(a), tag), Entry(JournalOf(b), tag)) {
      RecordConcat(a, b, tag);
      EntryIs(a, tag);
      EntryIs(b, tag);
    }
  }

  lemma LabelsConcat(a: seq<Sample>, b: seq<Sample>)
    ensures Labels(a + b) == Labels(a) + Labels(b)
  {
  }

  /** Parsing two logs one after the other is merging their parses, when the second starts a new line. */
  lemma ParseConcat(a: string, b: string, read: string -> Option<Sample>)
    requires Joins(a, b)
    ensures Parse(a + b, read) == Merge(Parse(a, read), Parse(b, read))
  {
    hide JournalOf, Merge, TextLines, Samples;
    LinesConcatIff(a, b);
    SamplesConcat(TextLines(a), TextLines(b), read);
    JournalConcat(Samples(TextLines(a), read), Samples(TextLines(b), read));
  }

  /** A reader that takes every line for one sample. */
  function CountsLines(line: string): Option<Sample> { Some(Sample("", Slow, 0.0)) }

  lemma {:induction false} LinesCounted(lines: seq<string>)
    ensures RecordOf(Samples(lines, CountsLines), "").slow == |lines|
  {
    hide Plus, Share, RecordOf;
    RecordNone("");
    if lines != [] {
      LinesCounted(lines[1..]);
      var s, rest := Sample("", Slow, 0.0), Samples(lines[1..], CountsLines);
      assert Samples(lines, CountsLines) == [s] + rest;
      assert ([s] + rest)[1..] == rest;
      RecordCons([s] + rest, "");
      OneMoreSlow(RecordOf(rest, ""));
    }
  }

  lemma OneMoreSlow(r: Record)
    ensures Plus(Share(Sample("", Slow, 0.0), ""), r).slow == r.slow + 1
  {
  }

  lemma ParseCounts(text: string)
    ensures Entry(Parse(text, CountsLines), "").slow == |TextLines(text)|
  {
    LinesCounted(TextLines(text));
    EntryIs(Samples(TextLines(text), CountsLines), "");
  }

  lemma MergedEntry(a: Journal, b: Journal, tag: string)
    ensures Entry(Merge(a, b), tag) == Plus(Entry(a, tag), Entry(b, tag))
  {
    hide Plus;
    PlusLaws(ZERO, ZERO, ZERO);
  }

  /** HOMOMORPHISM.  Whatever the lines mean, parsing two logs one after the other is merging their parses: exactly
      when the second starts a new line. */
  lemma ParseConcatIff(a: string, b: string)
    ensures (forall read: string -> Option<Sample> :: Parse(a + b, read) == Merge(Parse(a, read), Parse(b, read)))
       <==> Joins(a, b)
  {
    hide Parse, Merge, Entry, TextLines, Joins;
    if Joins(a, b) {
      forall read: string -> Option<Sample> ensures Parse(a + b, read) == Merge(Parse(a, read), Parse(b, read)) {
        ParseConcat(a, b, read);
      }
    } else {
      LinesConcatIff(a, b);
      ParseCounts(a + b);
      ParseCounts(a);
      ParseCounts(b);
      MergedEntry(Parse(a, CountsLines), Parse(b, CountsLines), "");
    }
  }

  /** The order of the lines does not matter. */
  lemma {:induction false} OrderFree(a: seq<Sample>, b: seq<Sample>, tag: string)
    requires multiset(a) == multiset(b)
    ensures RecordOf(a, tag) == RecordOf(b, tag)
    decreases |a|
  {
    hide Plus, Share, RecordOf;
    if a == [] {
      assert |multiset(b)| == 0;
    } else {
      var j := Find(a, b);
      RecordCons(a, tag);
      var front, back := b[..j], b[j + 1..];
      Remove(a, b, j);
      OrderFree(a[1..], front + back, tag);
      var x, rf, rb := Share(a[0], tag), RecordOf(front, tag), RecordOf(back, tag);
      assert b == front + ([a[0]] + back);
      RecordConcat(front, [a[0]] + back, tag);
      RecordConcat(front, back, tag);
      RecordCons([a[0]] + back, tag);
      assert ([a[0]] + back)[1..] == back;
      PlusLaws(rf, x, rb);
      PlusLaws(x, rf, rb);
    }
  }

  lemma Find<T>(a: seq<T>, b: seq<T>) returns (j: nat)
    requires a != [] && multiset(a) == multiset(b)
    ensures j < |b| && b[j] == a[0]
  {
    assert a[0] in multiset(b);
    j :| 0 <= j < |b| && b[j] == a[0];
  }

  lemma Remove<T>(a: seq<T>, b: seq<T>, j: nat)
    requires a != [] && multiset(a) == multiset(b) && j < |b| && b[j] == a[0]
    ensures multiset(b[..j] + b[j + 1..]) == multiset(a[1..])
  {
    assert a == [a[0]] + a[1..];
    assert b == b[..j] + [b[j]] + b[j + 1..];
    assert multiset(b[..j] + b[j + 1..]) == multiset(b) - multiset{a[0]};
  }

  lemma JournalOrderFree(a: seq<Sample>, b: seq<Sample>)
    requires multiset(a) == multiset(b)
    ensures JournalOf(a) == JournalOf(b)
  {
    assert forall s :: s in a <==> s in multiset(a);
    assert forall s :: s in b <==> s in multiset(b);
    forall tag ensures RecordOf(a, tag) == RecordOf(b, tag) {
      OrderFree(a, b, tag);
    }
    assert Labels(a) == Labels(b);
  }

  lemma {:induction false} SamplesOrderFree(a: seq<string>, b: seq<string>, read: string -> Option<Sample>)
    requires multiset(a) == multiset(b)
    ensures multiset(Samples(a, read)) == multiset(Samples(b, read))
    decreases |a|
  {
    hide Samples;
    if a == [] {
      assert |multiset(b)| == 0;
      assert b == [];
    } else {
      var j := Find(a, b);
      var front, back := b[..j], b[j + 1..];
      Remove(a, b, j);
      SamplesOrderFree(a[1..], front + back, read);
      var x, f, k := Samples([a[0]], read), Samples(front, read), Samples(back, read);
      assert [a[0]] + a[1..] == a && b == front + ([a[0]] + back);
      SamplesConcat([a[0]], a[1..], read);
      SamplesConcat(front, [a[0]] + back, read);
      SamplesConcat(front, back, read);
      SamplesConcat([a[0]], back, read);
      SameBag(x, Samples(a[1..], read), f, k);
    }
  }

  lemma SameBag(x: seq<Sample>, rest: seq<Sample>, f: seq<Sample>, k: seq<Sample>)
    requires multiset(rest) == multiset(f + k)
    ensures multiset(x + rest) == multiset(f + (x + k))
  {
    assert multiset(f + k) == multiset(f) + multiset(k);
    assert multiset(f + (x + k)) == multiset(f) + (multiset(x) + multiset(k));
  }

  /** Reordering the lines of a log changes no count, no maximum and no sum. */
  lemma ParseOrderFree(a: string, b: string, read: string -> Option<Sample>)
    requires multiset(TextLines(a)) == multiset(TextLines(b))
    ensures Parse(a, read) == Parse(b, read)
  {
    hide JournalOf, TextLines, Samples;
    SamplesOrderFree(TextLines(a), TextLines(b), read);
    JournalOrderFree(Samples(TextLines(a), read), Samples(TextLines(b), read));
  }

  // ---------------------------------------------------------------------------------------------
  // The fleet
  // ---------------------------------------------------------------------------------------------

  /** A host and its report, if there is one. */
  datatype HostReport = HostReport(host: string, labels: Option<Journal>)

  datatype FleetRecord = FleetRecord(totalSlow: nat, totalRaised: nat, maxS: Seconds, hosts: seq<string>)

  type Rollup = map<string, FleetRecord>

  /** Does the host report the label? */
  predicate Reports(h: HostReport, tag: string) { h.labels.Some? && tag in h.labels.value }

  const NOTHING := FleetRecord(0, 0, 0.0, [])

  /** What one host's record does to the label's aggregate. */
  function Extended(agg: FleetRecord, h: HostReport, tag: string): FleetRecord
    requires Reports(h, tag)
  {
    var rec := h.labels.value[tag];
    FleetRecord(agg.totalSlow + rec.slow, agg.totalRaised + rec.raised, Max(agg.maxS, rec.maxS),
                if h.host in agg.hosts then agg.hosts else agg.hosts + [h.host])
  }

  /** The aggregate of a label over the hosts, in order. */
  function Folded(fleet: seq<HostReport>, tag: string): FleetRecord {
    if fleet == [] then NOTHING
    else
      var h, before := fleet[|fleet| - 1], Folded(fleet[..|fleet| - 1], tag);
      if Reports(h, tag) then Extended(before, h, tag) else before
  }

  ghost function FleetLabels(fleet: seq<HostReport>): set<string> {
    if fleet == [] then {}
    else FleetLabels(fleet[..|fleet| - 1]) + ReportLabels(fleet[|fleet| - 1])
  }

  function ReportLabels(h: HostReport): set<string> { if h.labels.Some? then h.labels.value.Keys else {} }

  predicate DistinctHosts(fleet: seq<HostReport>) {
    forall i, j :: 0 <= i < j < |fleet| ==> fleet[i].host != fleet[j].host
  }

  /** The rollup of the hosts so far. */
  ghost predicate RolledUp(rollup: Rollup, fleet: seq<HostReport>) {
    rollup.Keys == FleetLabels(fleet) && forall tag <- rollup :: rollup[tag] == Folded(fleet, tag)
  }

  lemma {:induction false} Unreported(fleet: seq<HostReport>, tag: string)
    requires tag !in FleetLabels(fleet)
    ensures Folded(fleet, tag) == NOTHING
    decreases |fleet|
  {
    if fleet != [] {
      Unreported(fleet[..|fleet| - 1], tag);
    }
  }

  lemma FoldSnoc(before: seq<HostReport>, h: HostReport, tag: string)
    ensures Folded(before + [h], tag)
         == if Reports(h, tag) then Extended(Folded(before, tag), h, tag) else Folded(before, tag)
    ensures FleetLabels(before + [h]) == FleetLabels(before) + ReportLabels(h)
  {
    assert (before + [h])[..|before|] == before;
  }

  /** The inner loop of `aggregate`: one host's labels, in any order. */
  method AddHost(rollup: Rollup, h: HostReport, ghost before: seq<HostReport>) returns (out: Rollup)
    requires h.labels.Some? && RolledUp(rollup, before)
    ensures RolledUp(out, before + [h])
  {
    hide Folded, FleetLabels, Extended;
    out := rollup;
    var todo := h.labels.value.Keys;
    while todo != {}
      invariant todo <= h.labels.value.Keys
      invariant out.Keys == rollup.Keys + (h.labels.value.Keys - todo)
      invariant forall tag <- out ::
                  out[tag] == Folded(if tag in h.labels.value.Keys - todo then before + [h] else before, tag)
    {
      var tag :| tag in todo;
      FoldSnoc(before, h, tag);
      if tag !in out {
        Unreported(before, tag);
      }
      out := out[tag := Extended(if tag in out then out[tag] else NOTHING, h, tag)];
      todo := todo - {tag};
    }
    forall tag <- out ensures out[tag] == Folded(before + [h], tag) {
      FoldSnoc(before, h, tag);
    }
    FoldSnoc(before, h, "");
  }

  /** `aggregate` over the hosts' reports. */
  method Aggregate(fleet: seq<HostReport>) returns (rollup: Rollup)
    ensures RolledUp(rollup, fleet)
  {
    rollup := map[];
    for i := 0 to |fleet|
      invariant RolledUp(rollup, fleet[..i])
    {
      var h := fleet[i];
      assert fleet[..i + 1] == fleet[..i] + [h];
      if h.labels.Some? {
        rollup := AddHost(rollup, h, fleet[..i]);
      } else {
        forall tag ensures Folded(fleet[..i + 1], tag) == Folded(fleet[..i], tag) {
          FoldSnoc(fleet[..i], h, tag);
        }
        FoldSnoc(fleet[..i], h, "");
      }
    }
    assert fleet[..|fleet|] == fleet;
  }

  /** The hosts that report the label, in order. */
  function Contributors(fleet: seq<HostReport>, tag: string): seq<string> {
    if fleet == [] then []
    else
      var h := fleet[|fleet| - 1];
      Contributors(fleet[..|fleet| - 1], tag) + (if Reports(h, tag) then [h.host] else [])
  }

  lemma {:induction false} ContributorIs(fleet: seq<HostReport>, tag: string, host: string)
    ensures host in Contributors(fleet, tag)
       <==> exists i :: 0 <= i < |fleet| && fleet[i].host == host && Reports(fleet[i], tag)
    decreases |fleet|
  {
    if fleet != [] {
      var n := |fleet| - 1;
      var front := fleet[..n];
      ContributorIs(front, tag, host);
      if i :| 0 <= i < |front| && front[i].host == host && Reports(front[i], tag) {
        assert fleet[i] == front[i];
      }
      if i :| 0 <= i < |fleet| && fleet[i].host == host && Reports(fleet[i], tag) {
        assert i < n ==> front[i] == fleet[i];
      }
    }
  }

  /** `hosts` lists exactly the hosts that report the label, in their order and, their names being distinct, once
      each. */
  lemma {:induction false} HostsAreContributors(fleet: seq<HostReport>, tag: string)
    requires DistinctHosts(fleet)
    ensures Folded(fleet, tag).hosts == Contributors(fleet, tag)
    decreases |fleet|
  {
    if fleet != [] {
      var n := |fleet| - 1;
      var front := fleet[..n];
      assert forall i :: 0 <= i < n ==> front[i] == fleet[i];
      HostsAreContributors(front, tag);
      ContributorIs(front, tag, fleet[n].host);
    }
  }

  /** Every report present is the parse of that host's log; a host without report contributes no line. */
  ghost predicate ParsedFrom(fleet: seq<HostReport>, logs: seq<string>, read: string -> Option<Sample>) {
    |fleet| == |logs| && forall i :: 0 <= i < |fleet| ==> LogOf(fleet[i], logs[i], read)
  }

  predicate LogOf(h: HostReport, text: string, read: string -> Option<Sample>) {
    if h.labels.Some? then h.labels.value == Parse(text, read) else text == ""
  }

  /** The lines of all hosts' logs. */
  function AllLines(logs: seq<string>): seq<string> {
    if logs == [] then [] else AllLines(logs[..|logs| - 1]) + TextLines(logs[|logs| - 1])
  }

  /** FLEET ROLLUP.  The rollup of the hosts' parses has the labels, counts and maxima of one parse over all hosts'
      lines. */
  lemma {:induction false} RollupIsOneParse(fleet: seq<HostReport>, logs: seq<string>,
                                            read: string -> Option<Sample>, tag: string)
    requires ParsedFrom(fleet, logs, read)
    ensures var f, r := Folded(fleet, tag), Entry(ParseLines(AllLines(logs), read), tag);
            f.totalSlow == r.slow && f.totalRaised == r.raised && f.maxS == r.maxS
    ensures tag in FleetLabels(fleet) <==> tag in ParseLines(AllLines(logs), read)
    decreases |fleet|
  {
    hide TextLines, Samples, JournalOf;
    if fleet == [] {
      EmptyJournal(read);
    } else {
      var n := |fleet| - 1;
      assert forall i :: 0 <= i < n ==> LogOf(fleet[..n][i], logs[..n][i], read) by {
        assert forall i :: 0 <= i < n ==> LogOf(fleet[i], logs[i], read);
      }
      RollupIsOneParse(fleet[..n], logs[..n], read, tag);
      assert LogOf(fleet[n], logs[n], read);
      var before, more := AllLines(logs[..n]), TextLines(logs[n]);
      SamplesConcat(before, more, read);
      JournalConcat(Samples(before, read), Samples(more, read));
      if fleet[n].labels.None? {
        NoText();
        EmptyJournal(read);
      }
    }
  }

  lemma NoText()
    ensures TextLines("") == []
  {
  }

  /** The logs of all hosts, one after another. */
  function Together(logs: seq<string>): string {
    if logs == [] then "" else Together(logs[..|logs| - 1]) + logs[|logs| - 1]
  }

  /** Each log starts a new line after those before it. */
  predicate AllJoin(logs: seq<string>) {
    logs != [] ==> AllJoin(logs[..|logs| - 1]) && Joins(Together(logs[..|logs| - 1]), logs[|logs| - 1])
  }

  /** Then the lines of all logs are those of the one text they make, and the rollup is the parse of that text. */
  lemma {:induction false} TogetherLines(logs: seq<string>, read: string -> Option<Sample>)
    requires AllJoin(logs)
    ensures TextLines(Together(logs)) == AllLines(logs)
    ensures ParseLines(AllLines(logs), read) == Parse(Together(logs), read)
    decreases |logs|
  {
    hide TextLines, Joins;
    if logs == [] {
      NoText();
    } else {
      TogetherLines(logs[..|logs| - 1], read);
      LinesConcatIff(Together(logs[..|logs| - 1]), logs[|logs| - 1]);
    }
  }
}
