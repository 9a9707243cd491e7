/** From the role catalog to the box: what a clean dry run says in terms of the inherits chain, and when a converge
    from the catalog settles. */
module RoleConformance {
  import opened Wrappers
  import opened Roles
  import opened Convergence
  import opened ConvergenceLaws

  /** The dictionary's items in some order. */
  predicate ItemsOf(items: seq<(string, string)>, d: map<string, string>) {
    && DistinctServices(items)
    && (forall i :: 0 <= i < |items| ==> items[i].0 in d && d[items[i].0] == items[i].1)
    && (forall k <- d :: (k, d[k]) in items)
  }

  /** The request is for this role: its services, its timers and its singleton flag. */
  predicate RequestFor(r: Request, role: Role) {
    ItemsOf(r.services, role.services) && ItemsOf(r.timers, role.userTimers) && r.singleton == role.singleton
  }

  /** The box is as the nearest declarations on the chain want it, or excused. */
  ghost predicate ConformsToChain(catalog: Catalog, chain: seq<string>, r: Request, units: Units)
    requires forall n <- chain :: n in catalog
  {
    && (forall u :: NearestService(catalog, chain, u).Some? ==>
          UnitConforms(NearestService(catalog, chain, u).value, Lookup(r.overrides, u), At(units, u)))
    && (forall u :: NearestTimer(catalog, chain, u).Some? ==>
          TimerConforms(NearestTimer(catalog, chain, u).value, Lookup(r.enrolled, u)))
    && (NearestService(catalog, chain, "rnsd") == Some("enabled") ==>
          forall i :: 0 <= i < |r.rivals| ==> At(units, r.rivals[i]).masked || !At(units, r.rivals[i]).installed)
    && !r.audit.Drift?
  }

  lemma {:induction false} DesiredIs(services: seq<(string, string)>, u: string)
    requires DistinctServices(services)
    ensures forall v :: Desired(services, u) == Some(v) <==> (u, v) in services
    decreases services
  {
    if services != [] {
      DistinctTail(services);
      DesiredIs(services[1..], u);
      NotDeclared(services[1..], u);
      assert forall v :: (u, v) in services <==> (u, v) == services[0] || (u, v) in services[1..];
    }
  }

  lemma DesiredOfItems(items: seq<(string, string)>, d: map<string, string>, u: string)
    requires ItemsOf(items, d)
    ensures Desired(items, u) == if u in d then Some(d[u]) else None
  {
    DesiredIs(items, u);
    if Desired(items, u).Some? {
      assert (u, Desired(items, u).value) in items;
    }
  }

  /** What the request declares is what the nearest role on the chain declares. */
  lemma DeclaredIsNearest(catalog: Catalog, name: string, chain: seq<string>, r: Request, u: string)
    requires IsChain(catalog, name, chain) && forall n <- chain :: n in catalog
    requires Resolve(catalog, name, {}).Resolved? && RequestFor(r, Resolve(catalog, name, {}).role)
    ensures Desired(r.services, u) == NearestService(catalog, chain, u)
    ensures Desired(r.timers, u) == NearestTimer(catalog, chain, u)
  {
    hide Resolve, IsChain, NearestService, NearestTimer;
    NearestWins(catalog, name, chain);
    var role := Resolve(catalog, name, {}).role;
    DesiredOfItems(r.services, role.services, u);
    DesiredOfItems(r.timers, role.userTimers, u);
  }

  /** FROM CATALOG TO BOX.  A role whose inherits chain ends resolves, and a dry run for it exits 0 exactly when every
      unit and every timer is as the nearest role on the chain declares it. */
  lemma DryRunZeroIffChain(catalog: Catalog, name: string, chain: seq<string>, s: System, r: Request)
    requires IsChain(catalog, name, chain)
    requires Resolve(catalog, name, {}).Resolved? ==> RequestFor(r, Resolve(catalog, name, {}).role)
    ensures Resolve(catalog, name, {}).Resolved? && forall n <- chain :: n in catalog
    ensures Main(s, r, false).0 == 0 <==> ConformsToChain(catalog, chain, r, s.units)
  {
    hide Resolve, IsChain, NearestService, NearestTimer, Main, UnitConforms, TimerConforms, At, Lookup, Desired;
    NearestWins(catalog, name, chain);
    DryRunZeroMeansConforms(s, r);
    forall u
      ensures Desired(r.services, u) == NearestService(catalog, chain, u)
      ensures Desired(r.timers, u) == NearestTimer(catalog, chain, u)
      ensures forall v :: Desired(r.services, u) == Some(v) <==> (u, v) in r.services
      ensures forall v :: Desired(r.timers, u) == Some(v) <==> (u, v) in r.timers
    {
      DeclaredIsNearest(catalog, name, chain, r, u);
      DesiredIs(r.services, u);
      DesiredIs(r.timers, u);
    }
    assert OwnsRnsd(r.services) <==> NearestService(catalog, chain, "rnsd") == Some("enabled");
    ByName(r.services, r.timers, r, s.units);
  }

  /** A rival of rnsd that the chain wants enabled on a box that it wants to run rnsd. */
  predicate ChainConflict(catalog: Catalog, chain: seq<string>, r: Request, units: Units, name: string)
    requires forall n <- chain :: n in catalog
  {
    var x := At(units, name);
    && NearestService(catalog, chain, "rnsd") == Some("enabled") && name in r.rivals && name !in r.overrides
    && NearestService(catalog, chain, name) == Some("enabled")
    && Present(x) && !(x.masked && x.running && x.enabled)
  }

  /** SETTLING.  After an apply for the role in which everything succeeds, planning again asks for a unit change
      exactly when the nearest declarations on the chain are in such a conflict. */
  lemma SettlesIffChain(catalog: Catalog, name: string, chain: seq<string>, s: System, r: Request)
    requires IsChain(catalog, name, chain) && forall n <- chain :: n in catalog
    requires Resolve(catalog, name, {}).Resolved? && RequestFor(r, Resolve(catalog, name, {}).role)
    requires AppliedAll(s, FullPlan(r, s.units)).0
    ensures ChangesUnits(FullPlan(r, Main(s, r, true).1.units)) <==>
            exists u :: ChainConflict(catalog, chain, r, s.units, u)
  {
    hide Resolve, IsChain, NearestService, NearestTimer, Main, AppliedAll, FullPlan, ChangesUnits, Desired;
    ConvergesIff(s, r);
    forall u
      ensures Desired(r.services, u) == NearestService(catalog, chain, u)
      ensures Desired(r.services, u) == Some("enabled") <==> (u, "enabled") in r.services
    {
      DeclaredIsNearest(catalog, name, chain, r, u);
      DesiredIs(r.services, u);
    }
    assert forall u :: ChainConflict(catalog, chain, r, s.units, u) <==> Conflict(r, s.units, u);
  }

  /** Conformance pair by pair is conformance name by name. */
  lemma ByName(services: seq<(string, string)>, timers: seq<(string, string)>, r: Request, units: Units)
    requires DistinctServices(services) && DistinctServices(timers)
    ensures (forall i :: 0 <= i < |services| ==>
               UnitConforms(services[i].1, Lookup(r.overrides, services[i].0), At(units, services[i].0)))
       <==> (forall u :: Desired(services, u).Some? ==>
               UnitConforms(Desired(services, u).value, Lookup(r.overrides, u), At(units, u)))
    ensures (forall i :: 0 <= i < |timers| ==> TimerConforms(timers[i].1, Lookup(r.enrolled, timers[i].0)))
       <==> (forall u :: Desired(timers, u).Some? ==> TimerConforms(Desired(timers, u).value, Lookup(r.enrolled, u)))
  {
    hide UnitConforms, TimerConforms, At, Lookup, Desired;
    forall u
      ensures forall v :: Desired(services, u) == Some(v) <==> (u, v) in services
      ensures forall v :: Desired(timers, u) == Some(v) <==> (u, v) in timers
    {
      DesiredIs(services, u);
      DesiredIs(timers, u);
    }
    forall i | 0 <= i < |services| ensures Desired(services, services[i].0) == Some(services[i].1) {
      assert (services[i].0, services[i].1) in services;
    }
    forall i | 0 <= i < |timers| ensures Desired(timers, timers[i].0) == Some(timers[i].1) {
      assert (timers[i].0, timers[i].1) in timers;
    }
  }
}
