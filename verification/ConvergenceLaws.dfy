/** What a converge touches, when it is done, and what a clean dry run promises. */
module ConvergenceLaws {
  import opened Wrappers
  import opened Sequences
  import opened Strings
  import opened Convergence

  // ---------------------------------------------------------------------------------------------
  // What is in a plan
  // ---------------------------------------------------------------------------------------------

  /** What `services` declares for a unit. */
  function Desired(services: seq<(string, string)>, name: string): Option<string> {
    if services == [] then None
    else if services[0].0 == name then Some(services[0].1)
    else Desired(services[1..], name)
  }

  /** The planned action for a declared unit. */
  function ActionFor(r: Request, units: Units, name: string): Action
    requires Desired(r.services, name).Some?
  {
    UnitAction(name, Desired(r.services, name).value, Lookup(r.overrides, name), At(units, name))
  }

  lemma DistinctTail(services: seq<(string, string)>)
    requires DistinctServices(services) && services != []
    ensures DistinctServices(services[1..]) && Desired(services[1..], services[0].0).None?
  {
    forall i, j | 0 <= i < j < |services[1..]| ensures services[1..][i].0 != services[1..][j].0 {
      assert services[1..][i] == services[i + 1] && services[1..][j] == services[j + 1];
    }
    forall i | 0 <= i < |services[1..]| ensures services[1..][i].0 != services[0].0 {
      assert services[1..][i] == services[i + 1];
    }
    NotDeclared(services[1..], services[0].0);
  }

  lemma {:induction false} NotDeclared(services: seq<(string, string)>, name: string)
    ensures (forall i :: 0 <= i < |services| ==> services[i].0 != name) ==> Desired(services, name).None?
  {
    if services != [] {
      NotDeclared(services[1..], name);
    }
  }

  /** The service actions are one for each declared unit. */
  lemma {:induction false} ServicePlanIs(services: seq<(string, string)>, overrides: map<string, Override>,
                                         units: Units, a: Action)
    requires DistinctServices(services)
    ensures a in ServicePlan(services, overrides, units) <==>
            Desired(services, a.item).Some? &&
            a == UnitAction(a.item, Desired(services, a.item).value, Lookup(overrides, a.item), At(units, a.item))
    decreases services
  {
    if services != [] {
      DistinctTail(services);
      ServicePlanIs(services[1..], overrides, units, a);
    }
  }

  lemma {:induction false} TimerPlanSafe(timers: seq<(string, string)>, enrolled: map<string, bool>, a: Action)
    requires a in TimerPlan(timers, enrolled)
    ensures !IsChange(a)
  {
    if a in TimerPlan(timers[1..], enrolled) {
      TimerPlanSafe(timers[1..], enrolled, a);
    }
  }

  lemma {:induction false} RivalPlanIs(rivals: seq<string>, units: Units, a: Action)
    ensures a in RivalPlan(rivals, units) <==> a.item in rivals && a in RivalActions(a.item, At(units, a.item))
  {
    if rivals != [] {
      RivalPlanIs(rivals[1..], units, a);
    }
  }

  /** The units an apply may touch: declared enabled or disabled without an exception, or rivals on an rnsd box;
      and present. */
  predicate Touchable(r: Request, units: Units, name: string) {
    Present(At(units, name)) &&
    (|| (Desired(r.services, name) in {Some("enabled"), Some("disabled")} && name !in r.overrides)
     || (OwnsRnsd(r.services) && name in r.rivals))
  }

  lemma ChangesTouchable(r: Request, units: Units, a: Action)
    requires DistinctServices(r.services) && a in FullPlan(r, units) && IsChange(a) && !a.verb.Foundation?
    ensures Touchable(r, units, a.item)
  {
    hide ServicePlan, TimerPlan, RivalPlan, DistinctServices, Desired;
    ServicePlanIs(r.services, r.overrides, units, a);
    if a in TimerPlan(r.timers, r.enrolled) {
      TimerPlanSafe(r.timers, r.enrolled, a);
    }
    RivalPlanIs(r.rivals, units, a);
  }

  // ---------------------------------------------------------------------------------------------
  // What one action does
  // ---------------------------------------------------------------------------------------------

  /** The operations of an action.  A unit to be disabled is stopped first. */
  function OperationsOf(a: Action): seq<Operation> {
    match a.verb
    case Enable => [EnableNow(a.item)]
    case Disable => [Stop(a.item), DisableUnit(a.item)]
    case Mask => [MaskUnit(a.item)]
    case Foundation => [FixPermissions]
    case _ => []
  }

  /** How the k-th of the coming operations will go. */
  function ResultAt(s: System, k: nat): Result { if k < |s.results| then s.results[k] else Succeeds }

  /** An action performs exactly its operations, all of them even when the first fails; it reports success exactly
      when all succeed, and then its unit is as the action wants it; no other unit changes. */
  lemma AppliedEffect(s: System, a: Action)
    ensures var (ok, s') := Applied(s, a);
            && s'.log == s.log + OperationsOf(a)
            && (forall k: nat :: ResultAt(s', k) == ResultAt(s, k + |OperationsOf(a)|))
            && (ok <==> forall k :: 0 <= k < |OperationsOf(a)| ==> ResultAt(s, k).Succeeds?)
            && (forall name :: name != a.item ==> At(s'.units, name) == At(s.units, name))
            && (!IsChange(a) || a.verb.Foundation? ==> s'.units == s.units)
            && (ok && a.verb.Enable? ==> At(s'.units, a.item) == Unit(true, false, true, true))
            && (ok && a.verb.Disable? ==>
                  At(s'.units, a.item) == At(s.units, a.item).(running := false, enabled := false))
            && (ok && a.verb.Mask? ==> At(s'.units, a.item) == At(s.units, a.item).(masked := true, enabled := false))
  {
    hide Perform, ResultAt;
    var name, u, n := a.item, At(s.units, a.item), |OperationsOf(a)|;
    assert (forall k :: 0 <= k < n ==> ResultAt(s, k).Succeeds?) <==>
           (n > 0 ==> ResultAt(s, 0).Succeeds?) && (n > 1 ==> ResultAt(s, 1).Succeeds?);
    match a.verb
    case Enable => PerformIs(s, EnableNow(name), name, Changed(Enable, u));
    case Disable =>
      PerformIs(s, Stop(name), name, u.(running := false));
      var s1 := Perform(s, Stop(name), name, u.(running := false)).1;
      PerformIs(s1, DisableUnit(name), name, At(s1.units, name).(enabled := false));
      assert s.log + [Stop(name)] + [DisableUnit(name)] == s.log + [Stop(name), DisableUnit(name)];
    case Mask => PerformIs(s, MaskUnit(name), name, Changed(Mask, u));
    case Foundation => LoggedIs(s, FixPermissions);
    case _ => assert s.log + [] == s.log;
  }

  lemma LoggedIs(s: System, op: Operation)
    ensures NextResult(s) == ResultAt(s, 0)
    ensures Logged(s, op).log == s.log + [op] && Logged(s, op).units == s.units
    ensures forall k: nat :: ResultAt(Logged(s, op), k) == ResultAt(s, k + 1)
  {
  }

  lemma PerformIs(s: System, op: Operation, name: string, done: Unit)
    ensures var (ok, t) := Perform(s, op, name, done);
            && (ok <==> ResultAt(s, 0).Succeeds?) && t.log == s.log + [op]
            && (forall k: nat :: ResultAt(t, k) == ResultAt(s, k + 1))
            && (forall other :: other != name ==> At(t.units, other) == At(s.units, other))
            && (ok ==> At(t.units, name) == done)
  {
    LoggedIs(s, op);
  }

  // ---------------------------------------------------------------------------------------------
  // What an apply leaves alone
  // ---------------------------------------------------------------------------------------------

  lemma {:induction false} OthersUntouched(s: System, plan: seq<Action>, name: string)
    requires forall a <- plan :: IsChange(a) && !a.verb.Foundation? ==> a.item != name
    ensures At(AppliedAll(s, plan).1.units, name) == At(s.units, name)
    decreases |plan|
  {
    if plan != [] {
      var s1 := if IsChange(plan[0]) then Applied(s, plan[0]).1 else s;
      assert plan[0] in plan;
      OthersUntouched(s1, plan[1..], name);
    }
  }

  /** UNTOUCHED.  Whatever fails during an apply, a unit with an exception, one declared absent or with an unknown
      state, one not declared at all (such as a user timer), and one that is not installed keep their state,
      unless the unit is a rival. */
  lemma Untouched(s: System, r: Request, name: string)
    requires DistinctServices(r.services) && name !in r.rivals
    requires || name in r.overrides
             || Desired(r.services, name) !in {Some("enabled"), Some("disabled")}
             || !Present(At(s.units, name))
    ensures At(Main(s, r, true).1.units, name) == At(s.units, name)
  {
    var plan := FullPlan(r, s.units);
    forall a <- plan | IsChange(a) && !a.verb.Foundation? ensures a.item != name {
      ChangesTouchable(r, s.units, a);
    }
    OthersUntouched(s, plan, name);
  }

  // ---------------------------------------------------------------------------------------------
  // Dry runs
  // ---------------------------------------------------------------------------------------------

  lemma {:induction false} LogGrows(s: System, plan: seq<Action>)
    ensures |AppliedAll(s, plan).1.log| >= |s.log|
    ensures (exists a :: a in plan && IsChange(a)) ==> |AppliedAll(s, plan).1.log| > |s.log|
    ensures !(exists a :: a in plan && IsChange(a)) ==> AppliedAll(s, plan) == (true, s)
    decreases |plan|
  {
    if plan != [] {
      var s1 := if IsChange(plan[0]) then Applied(s, plan[0]).1 else s;
      LogGrows(s1, plan[1..]);
      assert plan[0] in plan;
      assert forall a :: a in plan <==> a == plan[0] || a in plan[1..];
    }
  }

  /** A dry run exits 0 exactly when an apply from the same state performs no operation and exits 0. */
  lemma DryRunZeroIff(s: System, r: Request)
    ensures Main(s, r, false).0 == 0 <==> Main(s, r, true) == (0, s)
  {
    LogGrows(s, FullPlan(r, s.units));
  }

  // ---------------------------------------------------------------------------------------------
  // What a clean dry run says about the box
  // ---------------------------------------------------------------------------------------------

  /** The exception says why, in more than white space. */
  predicate HasReason(o: Override) { o.Entry? && exists i :: 0 <= i < |o.reason| && !IsSpace(o.reason[i]) }

  /** The unit is as the role declares it, or an exception with a reason excuses it.  That a unit declared absent is
      there, and a state the tool does not know, are no drift. */
  predicate UnitConforms(desired: string, override: Option<Override>, u: Unit) {
    && (override.Some? ==> HasReason(override.value))
    && (override.None? && desired == "enabled" ==> Present(u) && u.running && u.enabled)
    && (override.None? && desired == "disabled" && Present(u) ==> !u.running && !u.enabled)
  }

  /** The timer is enrolled exactly when it should be, as far as that can be read. */
  predicate TimerConforms(desired: string, enrolled: Option<bool>) {
    && (desired == "enabled" ==> enrolled != Some(false))
    && (desired == "disabled" || desired == "absent" ==> enrolled != Some(true))
  }

  predicate Conforms(r: Request, units: Units) {
    && (forall i :: 0 <= i < |r.services| ==>
          UnitConforms(r.services[i].1, Lookup(r.overrides, r.services[i].0), At(units, r.services[i].0)))
    && (forall i :: 0 <= i < |r.timers| ==> TimerConforms(r.timers[i].1, Lookup(r.enrolled, r.timers[i].0)))
    && (OwnsRnsd(r.services) ==> forall i :: 0 <= i < |r.rivals| ==>
          At(units, r.rivals[i]).masked || !At(units, r.rivals[i]).installed)
    && !r.audit.Drift?
  }

  predicate Quiet(a: Action) { !IsChange(a) && !IsBlocking(a) }

  predicate AllQuiet(plan: seq<Action>) { forall a <- plan :: Quiet(a) }

  lemma {:induction false} ServicesQuiet(services: seq<(string, string)>, overrides: map<string, Override>,
                                         units: Units)
    ensures AllQuiet(ServicePlan(services, overrides, units)) <==>
            forall i :: 0 <= i < |services| ==>
              UnitConforms(services[i].1, Lookup(overrides, services[i].0), At(units, services[i].0))
    decreases services
  {
    hide UnitAction, UnitConforms, At, Lookup, Quiet;
    if services != [] {
      var (name, desired) := services[0];
      UnitQuiet(name, desired, Lookup(overrides, name), At(units, name));
      var rest := services[1..];
      ServicesQuiet(rest, overrides, units);
      assert forall i :: 0 < i < |services| ==> services[i] == rest[i - 1];
      assert forall i :: 0 <= i < |rest| ==> rest[i] == services[i + 1];
    }
  }

  lemma UnitQuiet(name: string, desired: string, override: Option<Override>, u: Unit)
    ensures Quiet(UnitAction(name, desired, override, u)) <==> UnitConforms(desired, override, u)
  {
  }

  lemma {:induction false} TimersQuiet(timers: seq<(string, string)>, enrolled: map<string, bool>)
    ensures AllQuiet(TimerPlan(timers, enrolled)) <==>
            forall i :: 0 <= i < |timers| ==> TimerConforms(timers[i].1, Lookup(enrolled, timers[i].0))
    decreases timers
  {
    hide TimerAction, TimerConforms, Lookup, Quiet;
    if timers != [] {
      var (name, desired) := timers[0];
      TimerQuiet(name, desired, Lookup(enrolled, name));
      var rest := timers[1..];
      TimersQuiet(rest, enrolled);
      assert forall i :: 0 < i < |timers| ==> timers[i] == rest[i - 1];
      assert forall i :: 0 <= i < |rest| ==> rest[i] == timers[i + 1];
    }
  }

  lemma TimerQuiet(name: string, desired: string, enrolled: Option<bool>)
    ensures Quiet(TimerAction(name, desired, enrolled)) <==> TimerConforms(desired, enrolled)
  {
  }

  lemma {:induction false} RivalsQuiet(rivals: seq<string>, units: Units)
    ensures AllQuiet(RivalPlan(rivals, units)) <==>
            forall i :: 0 <= i < |rivals| ==> At(units, rivals[i]).masked || !At(units, rivals[i]).installed
    decreases rivals
  {
    hide At;
    if rivals != [] {
      var rest := rivals[1..];
      RivalsQuiet(rest, units);
      assert forall i :: 0 < i < |rivals| ==> rivals[i] == rest[i - 1];
      assert forall i :: 0 <= i < |rest| ==> rest[i] == rivals[i + 1];
      var head := RivalActions(rivals[0], At(units, rivals[0]));
      assert AllQuiet(head) <==> At(units, rivals[0]).masked || !At(units, rivals[0]).installed by {
        if head != [] {
          assert head[0] in head;
        }
      }
    }
  }

  /** A dry run exits 0 exactly when the box is what its role declares. */
  lemma DryRunZeroMeansConforms(s: System, r: Request)
    ensures Main(s, r, false).0 == 0 <==> Conforms(r, s.units)
  {
    hide ServicePlan, TimerPlan, RivalPlan, UnitConforms, TimerConforms, At;
    ServicesQuiet(r.services, r.overrides, s.units);
    TimersQuiet(r.timers, r.enrolled);
    RivalsQuiet(r.rivals, s.units);
    FoundationQuiet(r.audit);
    assert Main(s, r, false).0 == 0 <==> AllQuiet(FullPlan(r, s.units));
  }

  lemma FoundationQuiet(audit: Audit)
    ensures AllQuiet(FoundationPlan(audit)) <==> !audit.Drift?
  {
    assert FoundationPlan(audit)[0] in FoundationPlan(audit);
  }

  // ---------------------------------------------------------------------------------------------
  // Convergence
  // ---------------------------------------------------------------------------------------------

  /** What a unit in state `u` becomes when the changes of `plan` to it all succeed. */
  function Final(plan: seq<Action>, name: string, u: Unit): Unit {
    if plan == [] then u
    else Final(plan[1..], name, Moved(plan[0], name, u))
  }

  function Moved(a: Action, name: string, u: Unit): Unit {
    if a.item == name && IsChange(a) then Changed(a.verb, u) else u
  }

  lemma {:induction false} AllSucceed(s: System, plan: seq<Action>, name: string)
    requires AppliedAll(s, plan).0
    ensures At(AppliedAll(s, plan).1.units, name) == Final(plan, name, At(s.units, name))
    decreases |plan|
  {
    if plan != [] {
      var s1 := if IsChange(plan[0]) then Applied(s, plan[0]).1 else s;
      assert At(s1.units, name) == Moved(plan[0], name, At(s.units, name));
      AllSucceed(s1, plan[1..], name);
    }
  }

  lemma {:induction false} FinalConcat(a: seq<Action>, b: seq<Action>, name: string, u: Unit)
    ensures Final(a + b, name, u) == Final(b, name, Final(a, name, u))
    decreases |a|
  {
    if a == [] {
      assert a + b == b;
    } else {
      assert (a + b)[1..] == a[1..] + b;
      FinalConcat(a[1..], b, name, Moved(a[0], name, u));
    }
  }

  lemma {:induction false} FinalIdle(plan: seq<Action>, name: string, u: Unit)
    requires forall a <- plan :: !IsChange(a) || a.verb.Foundation?
    ensures Final(plan, name, u) == u
    decreases |plan|
  {
    if plan != [] {
      assert plan[0] in plan;
      FinalIdle(plan[1..], name, u);
    }
  }

  lemma {:induction false} FinalServices(services: seq<(string, string)>, overrides: map<string, Override>,
                                         units: Units, name: string, u: Unit)
    requires DistinctServices(services)
    ensures Final(ServicePlan(services, overrides, units), name, u) ==
            (if Desired(services, name).None? then u
             else Moved(UnitAction(name, Desired(services, name).value, Lookup(overrides, name), At(units, name)),
                        name, u))
    decreases services
  {
    if services != [] {
      DistinctTail(services);
      var a := UnitAction(services[0].0, services[0].1, Lookup(overrides, services[0].0), At(units, services[0].0));
      FinalServices(services[1..], overrides, units, name, Moved(a, name, u));
    }
  }

  lemma {:induction false} FinalRivals(rivals: seq<string>, units: Units, name: string, u: Unit)
    ensures var x := At(units, name);
            Final(RivalPlan(rivals, units), name, u) ==
            (if name in rivals && x.installed && !x.masked then Changed(Mask, u) else u)
    decreases rivals
  {
    if rivals != [] {
      var head := RivalActions(rivals[0], At(units, rivals[0]));
      FinalConcat(head, RivalPlan(rivals[1..], units), name, u);
      var v := Final(head, name, u);
      var x := At(units, name);
      assert v == (if rivals[0] == name && x.installed && !x.masked then Changed(Mask, u) else u);
      FinalRivals(rivals[1..], units, name, v);
    }
  }

  /** The state of a unit after an apply in which everything succeeded. */
  function Converged(r: Request, units: Units, name: string): Unit {
    var x := At(units, name);
    var y := if Desired(r.services, name).None? then x else Moved(ActionFor(r, units, name), name, x);
    if OwnsRnsd(r.services) && name in r.rivals && x.installed && !x.masked then Changed(Mask, y) else y
  }

  /** The invariant's advisory and the foundation change no unit. */
  lemma PlainActions(r: Request)
    ensures forall a <- FoundationPlan(r.audit) :: !IsChange(a) || a.verb.Foundation?
    ensures !IsChange(Action("invariant:singleton", Warn, false))
  {
  }

  lemma FinalPlan(r: Request, units: Units, name: string)
    requires DistinctServices(r.services)
    ensures Final(FullPlan(r, units), name, At(units, name)) == Converged(r, units, name)
  {
    hide Final, At, ServicePlan, TimerPlan, RivalPlan, IsChange, UnitAction, DistinctServices;
    var x := At(units, name);
    var a, b, c := ServicePlan(r.services, r.overrides, units), TimerPlan(r.timers, r.enrolled), MaskPlan(r, units);
    var d := if r.singleton then [Action("invariant:singleton", Warn, false)] else [];
    var e := FoundationPlan(r.audit);
    FinalConcat(a + b + c + d, e, name, x);
    FinalConcat(a + b + c, d, name, x);
    FinalConcat(a + b, c, name, x);
    FinalConcat(a, b, name, x);
    FinalServices(r.services, r.overrides, units, name, x);
    var y := Final(a, name, x);
    forall t <- b ensures !IsChange(t) {
      TimerPlanSafe(r.timers, r.enrolled, t);
    }
    FinalIdle(b, name, y);
    FinalRivals(r.rivals, units, name, y);
    FinalIdle([], name, y);
    var z := Final(a + b + c, name, x);
    PlainActions(r);
    FinalIdle(d, name, z);
    FinalIdle(e, name, z);
  }

  /** A rival of rnsd that the role itself wants enabled. */
  predicate Conflict(r: Request, units: Units, name: string) {
    var x := At(units, name);
    && OwnsRnsd(r.services) && name in r.rivals && name !in r.overrides
    && Desired(r.services, name) == Some("enabled")
    && Present(x) && !(x.masked && x.running && x.enabled)
  }

  /** Unit by unit: after a successful apply, planning again changes this unit exactly in a conflict. */
  lemma SettledIff(r: Request, units: Units, name: string)
    ensures var z := Converged(r, units, name);
            Conflict(r, units, name) <==>
              || (Desired(r.services, name).Some?
                  && IsChange(UnitAction(name, Desired(r.services, name).value, Lookup(r.overrides, name), z)))
              || (OwnsRnsd(r.services) && name in r.rivals && z.installed && !z.masked)
  {
  }

  lemma NoNewWarning(r: Request, units: Units, name: string)
    requires Desired(r.services, name).Some?
    ensures var z := Converged(r, units, name);
            IsBlocking(UnitAction(name, Desired(r.services, name).value, Lookup(r.overrides, name), z))
            ==> IsBlocking(ActionFor(r, units, name))
  {
  }

  lemma AfterApply(s: System, r: Request, name: string)
    requires DistinctServices(r.services) && AppliedAll(s, FullPlan(r, s.units)).0
    ensures At(Main(s, r, true).1.units, name) == Converged(r, s.units, name)
  {
    AllSucceed(s, FullPlan(r, s.units), name);
    FinalPlan(r, s.units, name);
  }

  // ---------------------------------------------------------------------------------------------
  // What an apply does and reaches
  // ---------------------------------------------------------------------------------------------

  /** The operations of all changes of a plan. */
  function AllOperations(plan: seq<Action>): seq<Operation> {
    if plan == [] then [] else (if IsChange(plan[0]) then OperationsOf(plan[0]) else []) + AllOperations(plan[1..])
  }

  lemma {:induction false} AppliedLog(s: System, plan: seq<Action>)
    ensures AppliedAll(s, plan).1.log == s.log + AllOperations(plan)
    decreases |plan|
  {
    if plan != [] {
      var s1 := if IsChange(plan[0]) then Applied(s, plan[0]).1 else s;
      AppliedEffect(s, plan[0]);
      var ops := if IsChange(plan[0]) then OperationsOf(plan[0]) else [];
      assert s1.log == s.log + ops;
      AppliedLog(s1, plan[1..]);
      Regroup(s.log, ops, AllOperations(plan[1..]));
    }
  }

  /** An apply reports no failure exactly when every operation it performs succeeds. */
  lemma {:induction false} AppliedOkIff(s: System, plan: seq<Action>)
    ensures AppliedAll(s, plan).0 <==> forall k :: 0 <= k < |AllOperations(plan)| ==> ResultAt(s, k).Succeeds?
    decreases |plan|
  {
    hide Applied, ResultAt, OperationsOf;
    if plan != [] {
      var ops, more := if IsChange(plan[0]) then OperationsOf(plan[0]) else [], AllOperations(plan[1..]);
      var s1 := if IsChange(plan[0]) then Applied(s, plan[0]).1 else s;
      AppliedEffect(s, plan[0]);
      AppliedOkIff(s1, plan[1..]);
      ResultsShift(s, s1, |ops|, |more|);
    }
  }

  lemma ResultsShift(s: System, s1: System, a: nat, b: nat)
    requires forall k: nat :: ResultAt(s1, k) == ResultAt(s, k + a)
    ensures (forall k :: 0 <= k < b ==> ResultAt(s1, k).Succeeds?) <==>
            (forall k :: a <= k < a + b ==> ResultAt(s, k).Succeeds?)
  {
    hide ResultAt;
    assert forall k :: a <= k ==> ResultAt(s, k) == ResultAt(s1, k - a);
  }

  lemma {:induction false} OperationIn(plan: seq<Action>, op: Operation)
    ensures op in AllOperations(plan) <==> exists a :: a in plan && IsChange(a) && op in OperationsOf(a)
  {
    if plan != [] {
      OperationIn(plan[1..], op);
      assert plan[0] in plan && forall a <- plan :: a == plan[0] || a in plan[1..];
    }
  }

  /** The changes of the full plan, unit by unit. */
  lemma ChangeIn(r: Request, units: Units, a: Action)
    requires DistinctServices(r.services)
    ensures a in FullPlan(r, units) && IsChange(a) <==>
              || (a == Action(a.item, Enable, true) && Wants(r, units, a.item, "enabled"))
              || (a == Action(a.item, Disable, true) && Wants(r, units, a.item, "disabled"))
              || (a == Action(a.item, Mask, true) && OwnsRnsd(r.services) && a.item in r.rivals
                  && At(units, a.item).installed && !At(units, a.item).masked)
              || (a == Action("foundation:perms", Foundation, true) && r.audit.Drift?)
  {
    hide ServicePlan, TimerPlan, RivalPlan, Desired;
    ServicePlanIs(r.services, r.overrides, units, a);
    RivalPlanIs(r.rivals, units, a);
    if a in TimerPlan(r.timers, r.enrolled) {
      TimerPlanSafe(r.timers, r.enrolled, a);
    }
  }

  /** The present unit is declared `desired`, without exception, and is not so. */
  predicate Wants(r: Request, units: Units, name: string, desired: string) {
    var x := At(units, name);
    && Desired(r.services, name) == Some(desired) && name !in r.overrides && Present(x)
    && (desired == "enabled" ==> !(x.running && x.enabled))
    && (desired == "disabled" ==> x.running || x.enabled)
  }

  /** OPERATIONS.  Whatever fails, an apply performs exactly these operations: it enables and starts the present units
      declared enabled that do not run or are not enabled, stops and disables those declared disabled that do, masks the
      installed rivals on an rnsd box, and fixes the permissions when they drift. */
  lemma OperationsIff(s: System, r: Request, name: string)
    requires DistinctServices(r.services) && s.log == []
    ensures var log := Main(s, r, true).1.log;
            && (EnableNow(name) in log <==> Wants(r, s.units, name, "enabled"))
            && (Stop(name) in log <==> Wants(r, s.units, name, "disabled"))
            && (DisableUnit(name) in log <==> Wants(r, s.units, name, "disabled"))
            && (MaskUnit(name) in log <==>
                  OwnsRnsd(r.services) && name in r.rivals && At(s.units, name).installed && !At(s.units, name).masked)
            && (FixPermissions in log <==> r.audit.Drift?)
  {
    hide FullPlan, Wants, OwnsRnsd, AppliedAll, At, Main;
    var e, d, m := Action(name, Enable, true), Action(name, Disable, true), Action(name, Mask, true);
    var f := Action("foundation:perms", Foundation, true);
    forall a ensures a in FullPlan(r, s.units) && IsChange(a) ==> a.required && (a.verb.Foundation? ==> a == f) {
      ChangeIn(r, s.units, a);
    }
    InLog(s, r, EnableNow(name), e);
    InLog(s, r, Stop(name), d);
    InLog(s, r, DisableUnit(name), d);
    InLog(s, r, MaskUnit(name), m);
    InLog(s, r, FixPermissions, f);
    ChangeIn(r, s.units, e);
    ChangeIn(r, s.units, d);
    ChangeIn(r, s.units, m);
    ChangeIn(r, s.units, f);
  }

  /** An operation that one action only can ask for is performed exactly when that is planned. */
  lemma InLog(s: System, r: Request, op: Operation, a: Action)
    requires s.log == [] && IsChange(a) && op in OperationsOf(a)
    requires forall b :: b in FullPlan(r, s.units) && IsChange(b) && op in OperationsOf(b) ==> b == a
    ensures op in Main(s, r, true).1.log <==> a in FullPlan(r, s.units)
  {
    hide FullPlan, AppliedAll, AllOperations, OperationsOf, IsChange;
    AppliedLog(s, FullPlan(r, s.units));
    OperationIn(FullPlan(r, s.units), op);
  }

  /** REACHED.  After an apply in which everything succeeds, a present unit declared enabled without exception runs and
      is enabled, one declared disabled neither, and a present rival on an rnsd box that the role does not want is
      masked. */
  lemma ReachesDeclaration(s: System, r: Request, name: string)
    requires DistinctServices(r.services) && AppliedAll(s, FullPlan(r, s.units)).0 && Present(At(s.units, name))
    ensures var z := At(Main(s, r, true).1.units, name);
            && (name !in r.rivals && name !in r.overrides && Desired(r.services, name) == Some("enabled") ==>
                  Present(z) && z.running && z.enabled)
            && (name !in r.overrides && Desired(r.services, name) == Some("disabled") ==> !z.running && !z.enabled)
            && (OwnsRnsd(r.services) && name in r.rivals && !Conflict(r, s.units, name) ==> z.masked || !z.installed)
  {
    hide Main, FullPlan, AppliedAll;
    AfterApply(s, r, name);
  }

  /** What keeps an exit code of 1 whatever an apply does: an exception without reason, a unit declared enabled that is
      not there, and a timer that is not enrolled as declared. */
  predicate Blocks(r: Request, units: Units) {
    || (exists i :: 0 <= i < |r.services| && UnitBlocks(r, units, r.services[i].0, r.services[i].1))
    || (exists i :: 0 <= i < |r.timers| && !TimerConforms(r.timers[i].1, Lookup(r.enrolled, r.timers[i].0)))
  }

  predicate UnitBlocks(r: Request, units: Units, name: string, desired: string) {
    if name in r.overrides then !HasReason(r.overrides[name]) else desired == "enabled" && !Present(At(units, name))
  }

  lemma {:induction false} ServiceBlocks(r: Request, services: seq<(string, string)>, units: Units)
    ensures Blocked(ServicePlan(services, r.overrides, units)) <==>
            exists i :: 0 <= i < |services| && UnitBlocks(r, units, services[i].0, services[i].1)
    decreases services
  {
    hide UnitAction, UnitBlocks, At, IsBlocking;
    if services != [] {
      var (name, desired) := services[0];
      var rest := services[1..];
      var a := UnitAction(name, desired, Lookup(r.overrides, name), At(units, name));
      UnitBlocksIs(r, units, name, desired);
      ServiceBlocks(r, rest, units);
      BlockedFirst(a, ServicePlan(rest, r.overrides, units));
      assert forall i :: 0 < i < |services| ==> services[i] == rest[i - 1];
      assert forall i :: 0 <= i < |rest| ==> rest[i] == services[i + 1];
      assert services[0] == (name, desired);
    }
  }

  lemma UnitBlocksIs(r: Request, units: Units, name: string, desired: string)
    ensures IsBlocking(UnitAction(name, desired, Lookup(r.overrides, name), At(units, name)))
       <==> UnitBlocks(r, units, name, desired)
  {
  }

  lemma BlockedFirst(a: Action, rest: seq<Action>)
    ensures Blocked([a] + rest) <==> IsBlocking(a) || Blocked(rest)
  {
    var all := [a] + rest;
    assert a in all && forall b :: b in all <==> b == a || b in rest;
  }

  lemma {:induction false} TimerBlocks(timers: seq<(string, string)>, enrolled: map<string, bool>)
    ensures Blocked(TimerPlan(timers, enrolled)) <==>
            exists i :: 0 <= i < |timers| && !TimerConforms(timers[i].1, Lookup(enrolled, timers[i].0))
    decreases timers
  {
    hide TimerAction, TimerConforms, Lookup, IsBlocking;
    if timers != [] {
      var (name, desired) := timers[0];
      var rest := timers[1..];
      TimerBlocksIs(name, desired, Lookup(enrolled, name));
      TimerBlocks(rest, enrolled);
      BlockedFirst(TimerAction(name, desired, Lookup(enrolled, name)), TimerPlan(rest, enrolled));
      assert forall i :: 0 < i < |timers| ==> timers[i] == rest[i - 1];
      assert forall i :: 0 <= i < |rest| ==> rest[i] == timers[i + 1];
      assert timers[0] == (name, desired);
    }
  }

  lemma TimerBlocksIs(name: string, desired: string, enrolled: Option<bool>)
    ensures IsBlocking(TimerAction(name, desired, enrolled)) <==> !TimerConforms(desired, enrolled)
  {
  }

  lemma {:induction false} RivalsBlockNot(rivals: seq<string>, units: Units)
    ensures !Blocked(RivalPlan(rivals, units))
  {
    if rivals != [] {
      RivalsBlockNot(rivals[1..], units);
    }
  }

  lemma BlockedConcat(a: seq<Action>, b: seq<Action>)
    ensures Blocked(a + b) <==> Blocked(a) || Blocked(b)
  {
    assert forall x :: x in a + b <==> x in a || x in b;
  }

  /** ADVICE.  What is only reported, in the action for a unit, for a timer and for the foundation: an exception with a
      reason, a unit that is there although declared absent, a state the tool does not know, a timer that cannot be
      read, a foundation that cannot be audited. */
  lemma AdviceIff(name: string, desired: string, override: Option<Override>, u: Unit, enrolled: Option<bool>,
                  audit: Audit)
    ensures Advises(UnitAction(name, desired, override, u)) <==>
              if override.Some? then HasReason(override.value)
              else if desired == "absent" then Present(u) else desired != "enabled" && desired != "disabled"
    ensures Advises(TimerAction(name, desired, enrolled)) <==>
              enrolled.None? || (desired != "enabled" && desired != "disabled" && desired != "absent")
    ensures (exists a :: a in FoundationPlan(audit) && Advises(a)) <==> audit.AuditRaises?
    ensures UnitAction(name, desired, override, u).item == name && TimerAction(name, desired, enrolled).item == name
    ensures forall act :: act == UnitAction(name, desired, override, u) || act == TimerAction(name, desired, enrolled)
                          || act in RivalActions(name, u) || act in FoundationPlan(audit) ==>
              (act.required <==> !Advises(act))
  {
    assert FoundationPlan(audit)[0] in FoundationPlan(audit);
  }

  predicate Advises(a: Action) { a.verb.Warn? && !a.required }

  /** EXIT CODE.  An apply exits 0 exactly when every operation succeeds and nothing blocks; the exit code is 0 or 1. */
  lemma ApplyZeroIff(s: System, r: Request)
    ensures Main(s, r, true).0 == 0 <==> AppliedAll(s, FullPlan(r, s.units)).0 && !Blocks(r, s.units)
    ensures Main(s, r, true).0 in {0, 1} && Main(s, r, false).0 in {0, 1}
  {
    hide ServicePlan, TimerPlan, RivalPlan, UnitBlocks, TimerConforms, At, AppliedAll, Blocked;
    var a, b, c := ServicePlan(r.services, r.overrides, s.units), TimerPlan(r.timers, r.enrolled), MaskPlan(r, s.units);
    var d := if r.singleton then [Action("invariant:singleton", Warn, false)] else [];
    var e := FoundationPlan(r.audit);
    ServiceBlocks(r, r.services, s.units);
    TimerBlocks(r.timers, r.enrolled);
    RivalsBlockNot(r.rivals, s.units);
    PlainBlockNot(r);
    BlockedConcat(a + b + c + d, e);
    BlockedConcat(a + b + c, d);
    BlockedConcat(a + b, c);
    BlockedConcat(a, b);
  }

  lemma PlainBlockNot(r: Request)
    ensures !Blocked(FoundationPlan(r.audit)) && !Blocked([]) && !Blocked([Action("invariant:singleton", Warn, false)])
  {
  }

  predicate ChangesUnits(plan: seq<Action>) {
    exists a :: a in plan && (a.verb.Enable? || a.verb.Disable? || a.verb.Mask?)
  }

  /** CONVERGENCE.  If every change of an apply succeeds, planning again asks for no enable, disable or mask,
      exactly when the role does not want a present rival of rnsd enabled. */
  lemma ConvergesIff(s: System, r: Request)
    requires DistinctServices(r.services) && AppliedAll(s, FullPlan(r, s.units)).0
    ensures var after := Main(s, r, true).1.units;
            ChangesUnits(FullPlan(r, after)) <==> exists name :: Conflict(r, s.units, name)
  {
    var after := Main(s, r, true).1.units;
    var plan := FullPlan(r, after);
    if ChangesUnits(plan) {
      var a :| a in plan && (a.verb.Enable? || a.verb.Disable? || a.verb.Mask?);
      ChangeMeansConflict(s, r, a);
    }
    if name :| Conflict(r, s.units, name) {
      ConflictPersists(s, r, name);
      ConflictChanges(after, r, name);
    }
  }

  /** Without rivals, as in the source, every apply in which everything succeeds converges. */
  lemma ConvergesWithoutRivals(s: System, r: Request)
    requires DistinctServices(r.services) && r.rivals == [] && AppliedAll(s, FullPlan(r, s.units)).0
    ensures !ChangesUnits(FullPlan(r, Main(s, r, true).1.units))
  {
    hide Main, FullPlan, AppliedAll, ChangesUnits;
    ConvergesIff(s, r);
  }

  /** The system after `n` applies of the same request. */
  function Applies(s: System, r: Request, n: nat): System {
    if n == 0 then s else Main(Applies(s, r, n - 1), r, true).1
  }

  /** Everything succeeds in the first `n` applies. */
  predicate AllApply(s: System, r: Request, n: nat) {
    n > 0 ==> AllApply(s, r, n - 1) && AppliedAll(Applies(s, r, n - 1), FullPlan(r, Applies(s, r, n - 1).units)).0
  }

  /** NEVER.  A conflict stays through any number of applies in which everything succeeds, so that each plan asks for
      another unit change. */
  lemma {:induction false} ConflictStays(s: System, r: Request, name: string, n: nat)
    requires DistinctServices(r.services) && Conflict(r, s.units, name) && AllApply(s, r, n + 1)
    ensures Conflict(r, Applies(s, r, n + 1).units, name)
    ensures ChangesUnits(FullPlan(r, Applies(s, r, n).units)) && ChangesUnits(FullPlan(r, Applies(s, r, n + 1).units))
    decreases n
  {
    hide Main, FullPlan, AppliedAll, ChangesUnits, Conflict;
    if n > 0 {
      ConflictStays(s, r, name, n - 1);
    }
    var t := Applies(s, r, n);
    assert Applies(s, r, n + 1) == Main(t, r, true).1;
    ConflictPersists(t, r, name);
    ConvergesIff(t, r);
    ConflictChanges(t.units, r, name);
  }

  lemma ConflictPersists(s: System, r: Request, name: string)
    requires DistinctServices(r.services) && Conflict(r, s.units, name) && AppliedAll(s, FullPlan(r, s.units)).0
    ensures Conflict(r, Main(s, r, true).1.units, name)
  {
    hide Main, FullPlan, AppliedAll;
    AfterApply(s, r, name);
  }

  /** A unit in conflict is planned to change. */
  lemma ConflictChanges(units: Units, r: Request, name: string)
    requires DistinctServices(r.services) && Conflict(r, units, name)
    ensures ChangesUnits(FullPlan(r, units))
  {
    var a := ActionFor(r, units, name);
    if IsChange(a) {
      ServicePlanIs(r.services, r.overrides, units, a);
      assert a in FullPlan(r, units);
    } else {
      var m := Action(name, Mask, true);
      RivalPlanIs(r.rivals, units, m);
      assert m in FullPlan(r, units);
    }
  }

  lemma ChangeMeansConflict(s: System, r: Request, a: Action)
    requires DistinctServices(r.services) && AppliedAll(s, FullPlan(r, s.units)).0
    requires a in FullPlan(r, Main(s, r, true).1.units) && (a.verb.Enable? || a.verb.Disable? || a.verb.Mask?)
    ensures Conflict(r, s.units, a.item)
  {
    hide Main, AppliedAll, Converged, Conflict, UnitAction, ServicePlan, TimerPlan, RivalPlan;
    var after := Main(s, r, true).1.units;
    AfterApply(s, r, a.item);
    SettledIff(r, s.units, a.item);
    ServicePlanIs(r.services, r.overrides, after, a);
    RivalPlanIs(r.rivals, after, a);
    if a in TimerPlan(r.timers, r.enrolled) {
      TimerPlanSafe(r.timers, r.enrolled, a);
    }
  }

  /** CONVERGED.  After an apply that exits 0, and with no such rival, a dry run exits 0 once the foundation audit
      finds nothing. */
  lemma ConvergedIsClean(s: System, r: Request)
    requires DistinctServices(r.services) && Main(s, r, true).0 == 0
    requires forall name :: !Conflict(r, s.units, name)
    ensures Main(Main(s, r, true).1, r.(audit := NoDrift), false).0 == 0
  {
    var s' := Main(s, r, true).1;
    var r' := r.(audit := NoDrift);
    var plan := FullPlan(r', s'.units);
    forall a <- plan ensures !IsChange(a) && !IsBlocking(a) {
      CleanAction(s, r, a);
    }
  }

  lemma CleanService(s: System, r: Request, a: Action)
    requires DistinctServices(r.services) && Main(s, r, true).0 == 0 && !Conflict(r, s.units, a.item)
    requires a in ServicePlan(r.services, r.overrides, Main(s, r, true).1.units)
    ensures !IsChange(a) && !IsBlocking(a)
  {
    ServicePlanIs(r.services, r.overrides, Main(s, r, true).1.units, a);
    AfterApply(s, r, a.item);
    SettledIff(r, s.units, a.item);
    var b := ActionFor(r, s.units, a.item);
    ServicePlanIs(r.services, r.overrides, s.units, b);
    assert b in FullPlan(r, s.units);
    NoNewWarning(r, s.units, a.item);
  }

  lemma CleanTimer(s: System, r: Request, a: Action)
    requires Main(s, r, true).0 == 0 && a in TimerPlan(r.timers, r.enrolled)
    ensures !IsChange(a) && !IsBlocking(a)
  {
    TimerPlanSafe(r.timers, r.enrolled, a);
    assert a in FullPlan(r, s.units);
  }

  lemma CleanRival(s: System, r: Request, a: Action)
    requires DistinctServices(r.services) && Main(s, r, true).0 == 0 && !Conflict(r, s.units, a.item)
    requires a in MaskPlan(r, Main(s, r, true).1.units)
    ensures !IsChange(a) && !IsBlocking(a)
  {
    RivalPlanIs(r.rivals, Main(s, r, true).1.units, a);
    AfterApply(s, r, a.item);
    SettledIff(r, s.units, a.item);
  }

  lemma CleanAction(s: System, r: Request, a: Action)
    requires DistinctServices(r.services) && Main(s, r, true).0 == 0
    requires forall name :: !Conflict(r, s.units, name)
    requires a in FullPlan(r.(audit := NoDrift), Main(s, r, true).1.units)
    ensures !IsChange(a) && !IsBlocking(a)
  {
    hide Main, ServicePlan, TimerPlan, Conflict;
    var after := Main(s, r, true).1.units;
    if a in ServicePlan(r.services, r.overrides, after) {
      CleanService(s, r, a);
    } else if a in TimerPlan(r.timers, r.enrolled) {
      CleanTimer(s, r, a);
    } else if a in MaskPlan(r, after) {
      CleanRival(s, r, a);
    }
  }
}
