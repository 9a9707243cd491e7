/** Role inheritance: `resolve_role`. */
module Roles {
  import opened Wrappers

  datatype Role = Role(
    inherits: Option<string>,
    services: map<string, string>,
    userTimers: map<string, string>,
    singleton: bool,
    provisionedBy: Option<string>)

  type Catalog = map<string, Role>

  /** An empty `inherits` is none. */
  predicate HasParent(r: Role) { r.inherits.Some? && r.inherits.value != "" }

  /** `Endless`: the recursion of `resolve_role` never ends. */
  datatype Resolution = Resolved(role: Role) | UnknownRole(name: string) | Endless

  /** `resolve_role`; `seen` are the roles whose resolution asked for this one. */
  function Resolve(catalog: Catalog, name: string, seen: set<string>): Resolution
    decreases catalog.Keys - seen
  {
    if name !in catalog then UnknownRole(name)
    else if name in seen then Endless
    else
      var node := catalog[name];
      if !HasParent(node) then Resolved(node)
      else
        var parent := Resolve(catalog, node.inherits.value, seen + {name});
        if !parent.Resolved? then parent
        else Resolved(node.(services := parent.role.services + node.services,
                            userTimers := parent.role.userTimers + node.userTimers))
  }

  /** `chain` leads from `name` along `inherits` to a role without parent, all of it in the catalog. */
  predicate IsChain(catalog: Catalog, name: string, chain: seq<string>)
    decreases |chain|
  {
    && chain != [] && chain[0] == name && name in catalog
    && if HasParent(catalog[name]) then IsChain(catalog, catalog[name].inherits.value, chain[1..]) else chain[1..] == []
  }

  /** The declaration for `unit` nearest to the start of the chain. */
  function NearestService(catalog: Catalog, chain: seq<string>, unit: string): Option<string>
    requires forall n <- chain :: n in catalog
  {
    if chain == [] then None
    else if unit in catalog[chain[0]].services then Some(catalog[chain[0]].services[unit])
    else NearestService(catalog, chain[1..], unit)
  }

  function NearestTimer(catalog: Catalog, chain: seq<string>, unit: string): Option<string>
    requires forall n <- chain :: n in catalog
  {
    if chain == [] then None
    else if unit in catalog[chain[0]].userTimers then Some(catalog[chain[0]].userTimers[unit])
    else NearestTimer(catalog, chain[1..], unit)
  }

  lemma {:induction false} ChainKnown(catalog: Catalog, name: string, chain: seq<string>)
    requires IsChain(catalog, name, chain)
    ensures forall n <- chain :: n in catalog
    decreases |chain|
  {
    if HasParent(catalog[name]) {
      ChainKnown(catalog, catalog[name].inherits.value, chain[1..]);
      assert forall n <- chain :: n == chain[0] || n in chain[1..];
    }
  }

  /** A role has at most one chain. */
  lemma {:induction false} ChainUnique(catalog: Catalog, name: string, a: seq<string>, b: seq<string>)
    requires IsChain(catalog, name, a) && IsChain(catalog, name, b)
    ensures a == b
    decreases |a|
  {
    if HasParent(catalog[name]) {
      ChainUnique(catalog, catalog[name].inherits.value, a[1..], b[1..]);
    }
    assert a == [a[0]] + a[1..] && b == [b[0]] + b[1..];
  }

  lemma {:induction false} ChainSuffix(catalog: Catalog, name: string, chain: seq<string>, i: nat)
    requires IsChain(catalog, name, chain) && i < |chain|
    ensures IsChain(catalog, chain[i], chain[i..])
    decreases i
  {
    if i > 0 {
      ChainSuffix(catalog, catalog[name].inherits.value, chain[1..], i - 1);
      assert chain[1..][i - 1..] == chain[i..];
    } else {
      assert chain[0..] == chain;
    }
  }

  /** No role comes twice on a chain. */
  lemma ChainDistinct(catalog: Catalog, name: string, chain: seq<string>, i: nat, j: nat)
    requires IsChain(catalog, name, chain) && i < j < |chain|
    ensures chain[i] != chain[j]
  {
    ChainSuffix(catalog, name, chain, i);
    ChainSuffix(catalog, name, chain, j);
    if chain[i] == chain[j] {
      ChainUnique(catalog, chain[i], chain[i..], chain[j..]);
    }
  }

  /** Along a chain, every unit and every timer gets what the nearest role that names it declares; what is not a
      map (singleton, provisioned_by) comes from the role itself alone. */
  lemma {:induction false} ResolveChain(catalog: Catalog, name: string, chain: seq<string>, seen: set<string>)
    requires IsChain(catalog, name, chain) && forall n <- chain :: n in catalog && n !in seen
    ensures var r := Resolve(catalog, name, seen);
            && r.Resolved?
            && (forall u :: NearestService(catalog, chain, u)
                         == if u in r.role.services then Some(r.role.services[u]) else None)
            && (forall u :: NearestTimer(catalog, chain, u)
                         == if u in r.role.userTimers then Some(r.role.userTimers[u]) else None)
            && r.role.singleton == catalog[name].singleton && r.role.provisionedBy == catalog[name].provisionedBy
    decreases |chain|
  {
    var rest := chain[1..];
    if HasParent(catalog[name]) {
      forall n <- rest ensures n in catalog && n !in seen + {name} {
        var j :| 0 <= j < |rest| && rest[j] == n;
        ChainDistinct(catalog, name, chain, 0, j + 1);
      }
      ResolveChain(catalog, catalog[name].inherits.value, rest, seen + {name});
    } else {
      assert forall u :: NearestService(catalog, rest, u).None? && NearestTimer(catalog, rest, u).None?;
    }
  }

  /** Resolution that succeeds has followed a chain. */
  lemma {:induction false} ResolvedHasChain(catalog: Catalog, name: string, seen: set<string>)
    returns (chain: seq<string>)
    requires Resolve(catalog, name, seen).Resolved?
    ensures IsChain(catalog, name, chain)
    decreases catalog.Keys - seen
  {
    if HasParent(catalog[name]) {
      var rest := ResolvedHasChain(catalog, catalog[name].inherits.value, seen + {name});
      chain := [name] + rest;
      assert chain[1..] == rest;
    } else {
      chain := [name];
    }
  }

  /** A role resolves exactly when its inherits chain ends inside the catalog. */
  lemma ResolvesIff(catalog: Catalog, name: string)
    ensures Resolve(catalog, name, {}).Resolved? <==> exists chain :: IsChain(catalog, name, chain)
  {
    hide IsChain;
    if Resolve(catalog, name, {}).Resolved? {
      var chain := ResolvedHasChain(catalog, name, {});
      assert exists c :: IsChain(catalog, name, c);
    } else if chain :| IsChain(catalog, name, chain) {
      NearestWins(catalog, name, chain);
    }
  }

  /** A role without `inherits`, or with an empty one, is what it says itself. */
  lemma NothingInherited(catalog: Catalog, name: string)
    requires name in catalog && (catalog[name].inherits.None? || catalog[name].inherits == Some(""))
    ensures Resolve(catalog, name, {}) == Resolved(catalog[name])
  {
  }

  /** `n` steps can be taken along `inherits` from `name`. */
  predicate Climbs(catalog: Catalog, name: string, n: nat)
    decreases n
  {
    n > 0 ==> Inherits(catalog, name) && Climbs(catalog, catalog[name].inherits.value, n - 1)
  }

  predicate Inherits(catalog: Catalog, name: string) { name in catalog && HasParent(catalog[name]) }

  /** Every role of `loop` inherits from a role of `loop`, or from `last`. */
  predicate Closed(catalog: Catalog, loop: set<string>, last: string) {
    forall n <- loop :: Inherits(catalog, n) && (catalog[n].inherits.value in loop || catalog[n].inherits.value == last)
  }

  lemma {:induction false} LoopClimbs(catalog: Catalog, loop: set<string>, name: string, n: nat)
    requires Closed(catalog, loop, name) && name in loop
    ensures forall m <- loop :: Climbs(catalog, m, n)
    decreases n
  {
    if n > 0 {
      LoopClimbs(catalog, loop, name, n - 1);
    }
  }

  lemma {:induction false} EndlessLoops(catalog: Catalog, name: string, seen: set<string>)
    returns (loop: set<string>, last: string)
    requires Resolve(catalog, name, seen).Endless? && Closed(catalog, seen, name)
    ensures seen + {name} <= loop && last in loop && Closed(catalog, loop, last)
    decreases catalog.Keys - seen
  {
    if name in seen {
      loop, last := seen, name;
    } else {
      loop, last := EndlessLoops(catalog, catalog[name].inherits.value, seen + {name});
    }
  }

  lemma {:induction false} OtherwiseStops(catalog: Catalog, name: string, seen: set<string>) returns (n: nat)
    requires !Resolve(catalog, name, seen).Endless?
    ensures !Climbs(catalog, name, n)
    decreases catalog.Keys - seen
  {
    if Inherits(catalog, name) {
      var m := OtherwiseStops(catalog, catalog[name].inherits.value, seen + {name});
      n := m + 1;
    } else {
      n := 1;
    }
  }

  /** Resolution never ends exactly when `inherits` can be followed for ever; so it ends on every catalog whose
      inheritance has no cycle, and a role that fails to resolve otherwise names an unknown role. */
  lemma EndlessIff(catalog: Catalog, name: string)
    ensures Resolve(catalog, name, {}).Endless? <==> forall n: nat :: Climbs(catalog, name, n)
  {
    if Resolve(catalog, name, {}).Endless? {
      var loop, last := EndlessLoops(catalog, name, {});
      forall n: nat ensures Climbs(catalog, name, n) {
        LoopClimbs(catalog, loop, last, n);
      }
    } else {
      var n := OtherwiseStops(catalog, name, {});
    }
  }

  /** ROLE RESOLUTION.  Every service and every timer gets the declaration of the nearest role on the chain that
      names it, and nothing else is declared. */
  lemma NearestWins(catalog: Catalog, name: string, chain: seq<string>)
    requires IsChain(catalog, name, chain)
    ensures forall n <- chain :: n in catalog
    ensures var r := Resolve(catalog, name, {});
            && r.Resolved?
            && (forall u :: NearestService(catalog, chain, u)
                         == if u in r.role.services then Some(r.role.services[u]) else None)
            && (forall u :: NearestTimer(catalog, chain, u)
                         == if u in r.role.userTimers then Some(r.role.userTimers[u]) else None)
            && r.role.singleton == catalog[name].singleton && r.role.provisionedBy == catalog[name].provisionedBy
  {
    ChainKnown(catalog, name, chain);
    ResolveChain(catalog, name, chain, {});
  }
}
