/** The requirement closure of the substrate probe: a worklist over a requirement graph that may have cycles. */
module Closure {

  datatype Requirement = Requirement(name: string, extra: bool)

  /** The requirements of each installed distribution; a name without entry has no distribution. */
  type Graph = map<string, seq<Requirement>>

  /** The names `n` requires, leaving out requirements of extras, in order. */
  function Needs(g: Graph, n: string): seq<string> {
    if n in g then Plain(g[n]) else []
  }

  function Plain(rs: seq<Requirement>): seq<string> {
    if rs == [] then [] else (if rs[0].extra then [] else [rs[0].name]) + Plain(rs[1..])
  }

  /** The distribution `n` lists a requirement of `m` that is not for an extra. */
  predicate Requires(g: Graph, n: string, m: string) { n in g && Requirement(m, false) in g[n] }

  lemma NeedsIff(g: Graph, n: string, m: string)
    ensures m in Needs(g, n) <==> Requires(g, n, m)
  {
    if n in g {
      PlainIff(g[n], m);
    }
  }

  lemma {:induction false} PlainIff(rs: seq<Requirement>, m: string)
    ensures m in Plain(rs) <==> Requirement(m, false) in rs
  {
    if rs != [] {
      PlainIff(rs[1..], m);
    }
  }

  /** `path` leads from a seed to its last name along requirements. */
  predicate IsPath(g: Graph, seeds: seq<string>, path: seq<string>) {
    && path != [] && path[0] in seeds
    && forall i :: 0 <= i < |path| - 1 ==> Requires(g, path[i], path[i + 1])
  }

  ghost predicate Reachable(g: Graph, seeds: seq<string>, n: string) {
    exists path :: IsPath(g, seeds, path) && path[|path| - 1] == n
  }

  /** Every name the closure could meet. */
  ghost function Universe(g: Graph, seeds: seq<string>): set<string> {
    (set n <- seeds) + (set d, n | d in g && n in Needs(g, d) :: n)
  }

  lemma SeedReachable(g: Graph, seeds: seq<string>, n: string)
    requires n in seeds
    ensures Reachable(g, seeds, n)
  {
    assert IsPath(g, seeds, [n]);
  }

  lemma NeedReachable(g: Graph, seeds: seq<string>, n: string, m: string)
    requires Reachable(g, seeds, n) && m in Needs(g, n)
    ensures Reachable(g, seeds, m)
  {
    NeedsIff(g, n, m);
    var path :| IsPath(g, seeds, path) && path[|path| - 1] == n;
    assert IsPath(g, seeds, path + [m]);
  }

  /** A set with the seeds that is closed under requirements holds everything reachable. */
  lemma {:induction false} ClosedHoldsPath(g: Graph, seeds: seq<string>, closed: set<string>, path: seq<string>)
    requires (forall n <- seeds :: n in closed) && (forall n <- closed, m :: Requires(g, n, m) ==> m in closed)
    requires IsPath(g, seeds, path)
    ensures path[|path| - 1] in closed
    decreases |path|
  {
    if |path| > 1 {
      var front := path[..|path| - 1];
      assert IsPath(g, seeds, front);
      ClosedHoldsPath(g, seeds, closed, front);
      assert Requires(g, path[|path| - 2], path[|path| - 2 + 1]);
    }
  }

  /** The inner loop of `clos`: push the requirements of one distribution. */
  method Push(todo: seq<string>, needs: seq<Requirement>) returns (more: seq<string>)
    ensures more == todo + Plain(needs)
  {
    more := todo;
    for i := 0 to |needs|
      invariant more == todo + Plain(needs[..i])
    {
      PlainSnoc(needs, i);
      if !needs[i].extra {
        more := more + [needs[i].name];
      }
    }
    assert needs[..|needs|] == needs;
  }

  /** What holds between two turns of the loop of `clos`, with the names of the worklist as a set. */
  ghost predicate Searching(g: Graph, names: seq<string>, seen: set<string>, open: set<string>) {
    && seen + open <= Universe(g, names)
    && (forall n <- seen + open :: Reachable(g, names, n))
    && (forall n <- names :: n in seen + open)
    && (forall n <- seen :: Fresh(g, n) <= seen + open)
  }

  function Fresh(g: Graph, n: string): set<string> { set m <- Needs(g, n) }

  lemma Start(g: Graph, names: seq<string>)
    ensures Searching(g, names, {}, set n <- names)
  {
    forall n <- names ensures Reachable(g, names, n) {
      SeedReachable(g, names, n);
    }
  }

  lemma Visit(g: Graph, names: seq<string>, seen: set<string>, open: set<string>, n: string)
    requires Searching(g, names, seen, open) && n in open
    ensures Searching(g, names, seen + {n}, open - {n} + Fresh(g, n))
    ensures n in Universe(g, names)
  {
    hide Reachable, Universe, Needs;
    forall m <- Fresh(g, n) ensures Reachable(g, names, m) && m in Universe(g, names) {
      NeedReachable(g, names, n, m);
      NeedInUniverse(g, names, n, m);
    }
  }

  lemma NeedInUniverse(g: Graph, names: seq<string>, n: string, m: string)
    requires m in Needs(g, n)
    ensures m in Universe(g, names)
  {
  }

  lemma Finish(g: Graph, names: seq<string>, seen: set<string>)
    requires Searching(g, names, seen, {})
    ensures forall n :: n in seen <==> Reachable(g, names, n)
  {
    forall n <- seen, m | Requires(g, n, m) ensures m in seen {
      NeedsIff(g, n, m);
      assert m in Fresh(g, n);
    }
    forall n | Reachable(g, names, n) ensures n in seen {
      var path :| IsPath(g, names, path) && path[|path| - 1] == n;
      ClosedHoldsPath(g, names, seen, path);
    }
  }

  /** `clos`: exactly the names reachable from the seeds, those without a distribution included. */
  method Clos(g: Graph, names: seq<string>) returns (seen: set<string>)
    ensures forall n :: n in seen <==> Reachable(g, names, n)
  {
    hide Searching, Universe, Reachable, Fresh;
    seen := {};
    var todo := names;
    ghost var open := set n <- names;
    Start(g, names);
    while todo != []
      invariant open == set n <- todo
      invariant Searching(g, names, seen, open)
      decreases Universe(g, names) - seen, |todo|
    {
      ghost var before := todo;
      var n := todo[|todo| - 1];
      todo := todo[..|todo| - 1];
      assert before == todo + [n];
      ghost var rest := set m <- todo;
      assert open == rest + {n};
      Visit(g, names, seen, open, n);
      if n in seen {
        StillOpen(g, names, seen, open, rest, n);
        open := rest;
        continue;
      }
      seen := seen + {n};
      if n in g {
        todo := Push(todo, g[n]);
      }
      FreshIs(g, n);
      StillOpen(g, names, seen, open - {n} + Fresh(g, n), rest + Fresh(g, n), n);
      open := rest + Fresh(g, n);
    }
    assert open == {};
    Finish(g, names, seen);
  }

  lemma FreshIs(g: Graph, n: string)
    ensures forall m :: m in Fresh(g, n) <==> n in g && m in Plain(g[n])
  {
  }

  /** A name left on the worklist although it has been seen does no harm. */
  lemma StillOpen(g: Graph, names: seq<string>, seen: set<string>, open: set<string>, more: set<string>, n: string)
    requires Searching(g, names, seen, open) && n in seen && open - {n} <= more <= open + {n}
    ensures Searching(g, names, seen, more)
  {
    hide Reachable, Universe, Needs;
  }

  lemma {:induction false} PlainConcat(a: seq<Requirement>, b: seq<Requirement>)
    ensures Plain(a + b) == Plain(a) + Plain(b)
  {
    if a == [] {
      assert a + b == b;
    } else {
      assert (a + b)[1..] == a[1..] + b;
      PlainConcat(a[1..], b);
    }
  }

  lemma PlainSnoc(rs: seq<Requirement>, i: nat)
    requires i < |rs|
    ensures Plain(rs[..i + 1]) == Plain(rs[..i]) + (if rs[i].extra then [] else [rs[i].name])
  {
    assert rs[..i + 1] == rs[..i] + [rs[i]];
    PlainConcat(rs[..i], [rs[i]]);
  }
}
