/** The bounded walk of the process tree: `descendants`. */
module ProcessTree {
  import opened Wrappers
  import opened Sequences

  /** What one reading of /proc gives: each process with its parent. */
  datatype Process = Process(pid: int, parent: int)

  predicate DistinctPids(procs: seq<Process>) {
    forall i, j :: 0 <= i < j < |procs| ==> procs[i].pid != procs[j].pid
  }

  predicate Distinct(s: seq<int>) {
    forall i, j :: 0 <= i < j < |s| ==> s[i] != s[j]
  }

  lemma DistinctConcat(a: seq<int>, b: seq<int>)
    ensures Distinct(a + b) <==> Distinct(a) && Distinct(b) && forall x <- a :: x !in b
  {
    var s := a + b;
    if Distinct(s) {
      assert forall i :: 0 <= i < |a| ==> a[i] == s[i];
      assert forall i :: 0 <= i < |b| ==> b[i] == s[|a| + i];
      forall i, j | 0 <= i < |a| && 0 <= j < |b| ensures a[i] != b[j] {
        assert s[i] == a[i] && s[|a| + j] == b[j];
      }
    }
    if Distinct(a) && Distinct(b) && forall x <- a :: x !in b {
      forall i, j | 0 <= i < j < |s| ensures s[i] != s[j] {
        if i < |a| <= j {
          assert a[i] in a && b[j - |a|] in b;
        } else if j < |a| {
          assert a[i] != a[j];
        } else {
          assert b[i - |a|] != b[j - |a|];
        }
      }
    }
  }

  function ParentOf(procs: seq<Process>, pid: int): Option<int> {
    if procs == [] then None
    else if procs[0].pid == pid then Some(procs[0].parent)
    else ParentOf(procs[1..], pid)
  }

  /** The ancestor `k` steps up. */
  function Ancestor(procs: seq<Process>, pid: int, k: nat): Option<int>
    decreases k
  {
    if k == 0 then Some(pid)
    else
      match ParentOf(procs, pid)
      case None => None
      case Some(parent) => Ancestor(procs, parent, k - 1)
  }

  /** `kids[parent]`: the children of a process, in the order read. */
  function Kids(procs: seq<Process>, parent: int): seq<int> {
    if procs == [] then []
    else (if procs[0].parent == parent then [procs[0].pid] else []) + Kids(procs[1..], parent)
  }

  function NextLevel(procs: seq<Process>, level: seq<int>): seq<int> {
    if level == [] then [] else Kids(procs, level[0]) + NextLevel(procs, level[1..])
  }

  function Level(procs: seq<Process>, root: int, k: nat): seq<int> {
    if k == 0 then [root] else NextLevel(procs, Level(procs, root, k - 1))
  }

  /** The levels 0 to `depth`, one after another. */
  function Walk(procs: seq<Process>, root: int, depth: nat): seq<int> {
    if depth == 0 then [root] else Walk(procs, root, depth - 1) + Level(procs, root, depth)
  }

  lemma DistinctTail(procs: seq<Process>)
    requires DistinctPids(procs) && procs != []
    ensures DistinctPids(procs[1..]) && ParentOf(procs[1..], procs[0].pid).None?
  {
    forall i, j | 0 <= i < j < |procs[1..]| ensures procs[1..][i].pid != procs[1..][j].pid {
      assert procs[1..][i] == procs[i + 1] && procs[1..][j] == procs[j + 1];
    }
    forall i | 0 <= i < |procs[1..]| ensures procs[1..][i].pid != procs[0].pid {
      assert procs[1..][i] == procs[i + 1];
    }
    NoParent(procs[1..], procs[0].pid);
  }

  lemma {:induction false} NoParent(procs: seq<Process>, pid: int)
    ensures (forall i :: 0 <= i < |procs| ==> procs[i].pid != pid) ==> ParentOf(procs, pid).None?
  {
    if procs != [] {
      NoParent(procs[1..], pid);
    }
  }

  lemma {:induction false} KidsAre(procs: seq<Process>, parent: int)
    requires DistinctPids(procs)
    ensures Distinct(Kids(procs, parent))
    ensures forall c :: c in Kids(procs, parent) <==> ParentOf(procs, c) == Some(parent)
    decreases procs
  {
    if procs != [] {
      DistinctTail(procs);
      KidsAre(procs[1..], parent);
    }
  }

  lemma {:induction false} NextLevelIs(procs: seq<Process>, level: seq<int>)
    requires DistinctPids(procs)
    ensures forall c :: c in NextLevel(procs, level) <==> ParentOf(procs, c).Some? && ParentOf(procs, c).value in level
    ensures Distinct(level) ==> Distinct(NextLevel(procs, level))
    decreases level
  {
    if level != [] {
      KidsAre(procs, level[0]);
      NextLevelIs(procs, level[1..]);
      DistinctConcat([level[0]], level[1..]);
      assert [level[0]] + level[1..] == level;
      DistinctConcat(Kids(procs, level[0]), NextLevel(procs, level[1..]));
    }
  }

  /** Level `k` holds, once each, the processes whose k-th ancestor is the root. */
  lemma {:induction false} LevelIs(procs: seq<Process>, root: int, k: nat)
    requires DistinctPids(procs)
    ensures Distinct(Level(procs, root, k))
    ensures forall p :: p in Level(procs, root, k) <==> Ancestor(procs, p, k) == Some(root)
    decreases k
  {
    if k > 0 {
      LevelIs(procs, root, k - 1);
      NextLevelIs(procs, Level(procs, root, k - 1));
    }
  }

  /** `p` is within `depth` child steps of the root. */
  predicate Within(procs: seq<Process>, root: int, depth: nat, p: int) {
    exists k :: 0 <= k <= depth && Ancestor(procs, p, k) == Some(root)
  }

  lemma WithinStep(procs: seq<Process>, root: int, depth: nat, p: int)
    ensures Within(procs, root, depth + 1, p) <==>
            Within(procs, root, depth, p) || Ancestor(procs, p, depth + 1) == Some(root)
    ensures Within(procs, root, 0, p) <==> p == root
  {
    assert Ancestor(procs, p, 0) == Some(p);
  }

  /** The walk holds the root and exactly the processes within `depth` child steps of it. */
  lemma {:induction false} WalkIs(procs: seq<Process>, root: int, depth: nat, p: int)
    requires DistinctPids(procs)
    ensures p in Walk(procs, root, depth) <==> Within(procs, root, depth, p)
    decreases depth
  {
    hide Within;
    LevelIs(procs, root, depth);
    if depth > 0 {
      WalkIs(procs, root, depth - 1, p);
      WithinStep(procs, root, depth - 1, p);
    } else {
      WithinStep(procs, root, 0, p);
    }
  }

  lemma {:induction false} AncestorAdds(procs: seq<Process>, pid: int, j: nat, k: nat)
    requires Ancestor(procs, pid, j).Some?
    ensures Ancestor(procs, pid, j + k) == Ancestor(procs, Ancestor(procs, pid, j).value, k)
    decreases j
  {
    if j > 0 {
      AncestorAdds(procs, ParentOf(procs, pid).value, j - 1, k);
    }
  }

  /** The root is its own ancestor within `depth` steps. */
  predicate RootOnCycle(procs: seq<Process>, root: int, depth: nat) {
    exists k :: 1 <= k <= depth && Ancestor(procs, root, k) == Some(root)
  }

  lemma CycleStep(procs: seq<Process>, root: int, depth: nat)
    ensures RootOnCycle(procs, root, depth + 1) <==>
            RootOnCycle(procs, root, depth) || Ancestor(procs, root, depth + 1) == Some(root)
  {
  }

  /** The walk lists each process once exactly when the root is not on a short cycle of parents. */
  lemma {:induction false} OnceIff(procs: seq<Process>, root: int, depth: nat)
    requires DistinctPids(procs)
    ensures Distinct(Walk(procs, root, depth)) <==> !RootOnCycle(procs, root, depth)
    decreases depth
  {
    hide RootOnCycle, Ancestor, Level;
    if depth > 0 {
      var before, level := Walk(procs, root, depth - 1), Level(procs, root, depth);
      OnceIff(procs, root, depth - 1);
      LevelIs(procs, root, depth);
      DistinctConcat(before, level);
      CycleStep(procs, root, depth - 1);
      RootInWalk(procs, root, depth - 1);
      if p :| p in before && p in level {
        TwoLevels(procs, root, depth, p);
      }
    } else {
      NoCycle(procs, root);
    }
  }

  lemma NoCycle(procs: seq<Process>, root: int)
    ensures !RootOnCycle(procs, root, 0)
  {
  }

  lemma {:induction false} RootInWalk(procs: seq<Process>, root: int, depth: nat)
    ensures root in Walk(procs, root, depth)
    decreases depth
  {
    if depth > 0 {
      RootInWalk(procs, root, depth - 1);
    }
  }

  /** A process on the last level and on an earlier one puts the root on a cycle. */
  lemma TwoLevels(procs: seq<Process>, root: int, depth: nat, p: int)
    requires DistinctPids(procs) && depth > 0
    requires p in Walk(procs, root, depth - 1) && p in Level(procs, root, depth)
    ensures RootOnCycle(procs, root, depth)
  {
    hide Walk, Level;
    WalkIs(procs, root, depth - 1, p);
    LevelIs(procs, root, depth);
    var k :| 0 <= k <= depth - 1 && Ancestor(procs, p, k) == Some(root);
    AncestorAdds(procs, p, k, depth - k);
    assert Ancestor(procs, root, depth - k) == Some(root);
  }

  method CollectKids(procs: seq<Process>) returns (kids: map<int, seq<int>>)
    ensures forall q :: Kids(procs, q) == (if q in kids then kids[q] else [])
  {
    kids := map[];
    for i := 0 to |procs|
      invariant forall q :: Kids(procs, q) == (if q in kids then kids[q] else []) + Kids(procs[i..], q)
    {
      var p := procs[i];
      ghost var before := kids;
      assert procs[i..][1..] == procs[i + 1..];
      kids := kids[p.parent := (if p.parent in kids then kids[p.parent] else []) + [p.pid]];
      forall q ensures Kids(procs, q) == (if q in kids then kids[q] else []) + Kids(procs[i + 1..], q) {
        assert Kids(procs, q) == (if q in before then before[q] else []) + Kids(procs[i..], q);
        Regroup(if q in before then before[q] else [], if q == p.parent then [p.pid] else [], Kids(procs[i + 1..], q));
      }
    }
  }

  method CollectLevel(procs: seq<Process>, kids: map<int, seq<int>>, level: seq<int>) returns (next: seq<int>)
    requires forall q :: Kids(procs, q) == (if q in kids then kids[q] else [])
    ensures next == NextLevel(procs, level)
  {
    next := [];
    for j := 0 to |level|
      invariant next + NextLevel(procs, level[j..]) == NextLevel(procs, level)
    {
      var more := if level[j] in kids then kids[level[j]] else [];
      assert level[j..][1..] == level[j + 1..];
      Regroup(next, more, NextLevel(procs, level[j + 1..]));
      next := next + more;
    }
  }

  /** `descendants(pid, depth)`: the root and exactly the processes within `depth` child steps; each once if and
      only if the root is not its own ancestor within as many steps. */
  method Descendants(procs: seq<Process>, pid: int, depth: nat := 3) returns (out: seq<int>)
    requires DistinctPids(procs)
    ensures forall p :: p in out <==> Within(procs, pid, depth, p)
    ensures Distinct(out) <==> !RootOnCycle(procs, pid, depth)
  {
    var kids := CollectKids(procs);
    out := [pid];
    var level := [pid];
    for d := 0 to depth
      invariant level == Level(procs, pid, d) && out == Walk(procs, pid, d)
    {
      level := CollectLevel(procs, kids, level);
      out := out + level;
    }
    OnceIff(procs, pid, depth);
    forall p ensures p in out <==> Within(procs, pid, depth, p) {
      WalkIs(procs, pid, depth, p);
    }
  }
}
