/** Converging a box to its role: `plan`, `_user_timer_actions`, `apply_action` and the apply/dry-run tail of
    `main`.  A failed operation may leave its own unit, and no other, in any state. */
module Convergence {
  import opened Wrappers
  import opened Sequences
  import opened Strings

  // ---------------------------------------------------------------------------------------------
  // What is observed
  // ---------------------------------------------------------------------------------------------

  datatype Unit = Unit(installed: bool, masked: bool, running: bool, enabled: bool)

  const ABSENT := Unit(false, false, false, false)

  type Units = map<string, Unit>

  function At(units: Units, name: string): Unit { if name in units then units[name] else ABSENT }

  /** `installed` of `plan`: a masked unit counts. */
  predicate Present(u: Unit) { u.installed || u.masked }

  /** An entry of `service_overrides`: a dict with its reason, or something else. */
  datatype Override = Entry(reason: string) | NotADict

  /** Only a waiver with a reason is honoured. */
  predicate Honoured(o: Override) { o.Entry? && !Blank(o.reason) }

  /** What `audit_foundation` says: it raises, finds nothing, or finds drift. */
  datatype Audit = AuditRaises | NoDrift | Drift

  // ---------------------------------------------------------------------------------------------
  // The plan
  // ---------------------------------------------------------------------------------------------

  datatype Verb = Noop | Enable | Disable | Mask | Warn | Foundation

  datatype Action = Action(item: string, verb: Verb, required: bool)

  predicate IsChange(a: Action) { a.verb.Enable? || a.verb.Disable? || a.verb.Mask? || a.verb.Foundation? }

  predicate IsBlocking(a: Action) { a.verb.Warn? && a.required }

  function UnitAction(name: string, desired: string, override: Option<Override>, u: Unit): Action {
    if override.Some? then Action(name, Warn, !Honoured(override.value))
    else if desired == "enabled" then
      if !Present(u) then Action(name, Warn, true)
      else if u.running && u.enabled then Action(name, Noop, true)
      else Action(name, Enable, true)
    else if desired == "disabled" then
      if Present(u) && (u.running || u.enabled) then Action(name, Disable, true) else Action(name, Noop, true)
    else if desired == "absent" then
      if Present(u) then Action(name, Warn, false) else Action(name, Noop, true)
    else Action(name, Warn, false)
  }

  /** A user timer is only ever compared; `enrolled` is `None` when it cannot be read. */
  function TimerAction(name: string, desired: string, enrolled: Option<bool>): Action {
    if desired !in {"enabled", "disabled", "absent"} || enrolled.None? then Action(name, Warn, false)
    else if enrolled.value == (desired == "enabled") then Action(name, Noop, true)
    else Action(name, Warn, true)
  }

  function RivalActions(name: string, u: Unit): seq<Action> {
    if u.masked then [Action(name, Noop, true)]
    else if u.installed then [Action(name, Mask, true)]
    else []
  }

  /** What a run of the provisioner is given: the resolved role (its services in their order, its timers in the
      order of their names), the box's exceptions, the timers it can read, the rivals of rnsd and the foundation
      audit. */
  datatype Request = Request(
    services: seq<(string, string)>,
    timers: seq<(string, string)>,
    singleton: bool,
    overrides: map<string, Override>,
    enrolled: map<string, bool>,
    rivals: seq<string>,
    audit: Audit)

  /** A dictionary names each unit once. */
  predicate DistinctServices(services: seq<(string, string)>) {
    forall i, j :: 0 <= i < j < |services| ==> services[i].0 != services[j].0
  }

  function Lookup<V>(m: map<string, V>, name: string): Option<V> { if name in m then Some(m[name]) else None }

  function ServicePlan(services: seq<(string, string)>, overrides: map<string, Override>, units: Units): seq<Action> {
    if services == [] then []
    else
      var (name, desired) := services[0];
      [UnitAction(name, desired, Lookup(overrides, name), At(units, name))]
      + ServicePlan(services[1..], overrides, units)
  }

  function TimerPlan(timers: seq<(string, string)>, enrolled: map<string, bool>): seq<Action> {
    if timers == [] then []
    else
      var (name, desired) := timers[0];
      [TimerAction(name, desired, Lookup(enrolled, name))] + TimerPlan(timers[1..], enrolled)
  }

  function RivalPlan(rivals: seq<string>, units: Units): seq<Action> {
    if rivals == [] then [] else RivalActions(rivals[0], At(units, rivals[0])) + RivalPlan(rivals[1..], units)
  }

  /** `foundation_actions` */
  function FoundationPlan(audit: Audit): seq<Action> {
    match audit
    case AuditRaises => [Action("foundation:perms", Warn, false)]
    case NoDrift => [Action("foundation:perms", Noop, true)]
    case Drift => [Action("foundation:perms", Foundation, true)]
  }

  predicate OwnsRnsd(services: seq<(string, string)>) { ("rnsd", "enabled") in services }

  function MaskPlan(r: Request, units: Units): seq<Action> {
    if OwnsRnsd(r.services) then RivalPlan(r.rivals, units) else []
  }

  /** What `main` acts on: the plan, then the foundation. */
  function FullPlan(r: Request, units: Units): seq<Action> {
    ServicePlan(r.services, r.overrides, units) + TimerPlan(r.timers, r.enrolled) + MaskPlan(r, units)
    + (if r.singleton then [Action("invariant:singleton", Warn, false)] else []) + FoundationPlan(r.audit)
  }

  predicate Dirty(plan: seq<Action>) { exists a :: a in plan && (IsChange(a) || IsBlocking(a)) }

  // ---------------------------------------------------------------------------------------------
  // Applying
  // ---------------------------------------------------------------------------------------------

  datatype Operation =
    | EnableNow(name: string)
    | Stop(name: string)
    | DisableUnit(name: string)
    | MaskUnit(name: string)
    | FixPermissions

  /** How an operation goes: it does its work, or fails and leaves its unit in some state. */
  datatype Result = Succeeds | FailsLeaving(u: Unit)

  /** The units, the results of the coming operations, and the operations performed so far. */
  datatype System = System(units: Units, results: seq<Result>, log: seq<Operation>)

  function NextResult(s: System): Result { if s.results == [] then Succeeds else s.results[0] }

  function Logged(s: System, op: Operation): System {
    s.(results := if s.results == [] then [] else s.results[1..], log := s.log + [op])
  }

  /** Perform `op` on unit `name`, whose state becomes `done` if it succeeds. */
  function Perform(s: System, op: Operation, name: string, done: Unit): (bool, System) {
    match NextResult(s)
    case Succeeds => (true, Logged(s, op).(units := s.units[name := done]))
    case FailsLeaving(u) => (false, Logged(s, op).(units := s.units[name := u]))
  }

  /** What a change does to its unit when every operation in it succeeds. */
  function Changed(verb: Verb, u: Unit): Unit {
    match verb
    case Enable => Unit(true, false, true, true)
    case Disable => u.(running := false, enabled := false)
    case Mask => u.(masked := true, enabled := false)
    case _ => u
  }

  function Applied(s: System, a: Action): (bool, System) {
    var name, u := a.item, At(s.units, a.item);
    match a.verb
    case Noop => (true, s)
    case Warn => (true, s)
    case Enable => Perform(s, EnableNow(name), name, Changed(Enable, u))
    case Disable =>
      var (stopped, s1) := Perform(s, Stop(name), name, u.(running := false));
      var (disabled, s2) := Perform(s1, DisableUnit(name), name, At(s1.units, name).(enabled := false));
      (stopped && disabled, s2)
    case Mask => Perform(s, MaskUnit(name), name, Changed(Mask, u))
    case Foundation => (NextResult(s).Succeeds?, Logged(s, FixPermissions))
  }

  /** Apply the changes of the plan in order, whatever fails; true when none did. */
  function AppliedAll(s: System, plan: seq<Action>): (bool, System)
    decreases |plan|
  {
    if plan == [] then (true, s)
    else
      var (ok, s1) := if IsChange(plan[0]) then Applied(s, plan[0]) else (true, s);
      var (allOk, s2) := AppliedAll(s1, plan[1..]);
      (ok && allOk, s2)
  }

  predicate Blocked(plan: seq<Action>) { exists a :: a in plan && IsBlocking(a) }

  /** Exit code and final system of `main`. */
  function Main(s: System, r: Request, apply: bool): (int, System) {
    var plan := FullPlan(r, s.units);
    if apply then
      var (ok, s') := AppliedAll(s, plan);
      (if !ok || Blocked(plan) then 1 else 0, s')
    else (if Dirty(plan) then 1 else 0, s)
  }

  // ---------------------------------------------------------------------------------------------
  // The code
  // ---------------------------------------------------------------------------------------------

  class Provisioner {
    var system: System

    constructor (s: System)
      ensures system == s
    {
      system := s;
    }

    /** `plan` and `foundation_actions` */
    method Plan(r: Request) returns (actions: seq<Action>)
      ensures actions == FullPlan(r, system.units)
    {
      var services := ServiceActions(r.services, r.overrides);
      var timers := UserTimerActions(r.timers, r.enrolled);
      var masks := [];
      if OwnsRnsd(r.services) {
        masks := MaskActions(r.rivals);
      }
      actions := services + timers + masks;
      if r.singleton {
        actions := actions + [Action("invariant:singleton", Warn, false)];
      }
      actions := actions + FoundationPlan(r.audit);
    }

    method ServiceActions(services: seq<(string, string)>, overrides: map<string, Override>)
      returns (actions: seq<Action>)
      ensures actions == ServicePlan(services, overrides, system.units)
    {
      hide UnitAction, At, Lookup;
      actions := [];
      for i := 0 to |services|
        invariant actions + ServicePlan(services[i..], overrides, system.units)
               == ServicePlan(services, overrides, system.units)
      {
        var (name, desired) := services[i];
        var a := UnitAction(name, desired, Lookup(overrides, name), At(system.units, name));
        assert services[i..][1..] == services[i + 1..];
        Regroup(actions, [a], ServicePlan(services[i + 1..], overrides, system.units));
        actions := actions + [a];
      }
    }

    method MaskActions(rivals: seq<string>) returns (actions: seq<Action>)
      ensures actions == RivalPlan(rivals, system.units)
    {
      hide RivalActions, At;
      actions := [];
      for i := 0 to |rivals|
        invariant actions + RivalPlan(rivals[i..], system.units) == RivalPlan(rivals, system.units)
      {
        var more := RivalActions(rivals[i], At(system.units, rivals[i]));
        assert rivals[i..][1..] == rivals[i + 1..];
        Regroup(actions, more, RivalPlan(rivals[i + 1..], system.units));
        actions := actions + more;
      }
    }

    /** `_user_timer_actions` */
    method UserTimerActions(timers: seq<(string, string)>, enrolled: map<string, bool>) returns (actions: seq<Action>)
      ensures actions == TimerPlan(timers, enrolled)
    {
      hide TimerAction, Lookup;
      actions := [];
      for i := 0 to |timers|
        invariant actions + TimerPlan(timers[i..], enrolled) == TimerPlan(timers, enrolled)
      {
        var (name, desired) := timers[i];
        var a := TimerAction(name, desired, Lookup(enrolled, name));
        assert timers[i..][1..] == timers[i + 1..];
        Regroup(actions, [a], TimerPlan(timers[i + 1..], enrolled));
        actions := actions + [a];
      }
    }

    /** `apply_action` */
    method ApplyAction(a: Action) returns (ok: bool)
      modifies this
      ensures (ok, system) == Applied(old(system), a)
    {
      match a.verb {
        case Noop => return true;
        case Warn => return true;
        case Enable =>
          var done := Perform(system, EnableNow(a.item), a.item, Unit(true, false, true, true));
          system := done.1;
          return done.0;
        case Disable =>
          var stopped := Perform(system, Stop(a.item), a.item, At(system.units, a.item).(running := false));
          system := stopped.1;
          var disabled := Perform(system, DisableUnit(a.item), a.item, At(system.units, a.item).(enabled := false));
          system := disabled.1;
          return stopped.0 && disabled.0;
        case Mask =>
          var u := At(system.units, a.item);
          var done := Perform(system, MaskUnit(a.item), a.item, u.(masked := true, enabled := false));
          system := done.1;
          return done.0;
        case Foundation =>
          ok := NextResult(system).Succeeds?;
          system := Logged(system, FixPermissions);
      }
    }

    /** The tail of `main`. */
    method Run(r: Request, apply: bool) returns (exit: int)
      modifies this
      ensures (exit, system) == Main(old(system), r, apply)
    {
      var actions := Plan(r);
      if !apply {
        return if Dirty(actions) then 1 else 0;
      }
      var failed := false;
      var i := 0;
      while i < |actions|
        invariant 0 <= i <= |actions|
        invariant AppliedAll(old(system), actions)
               == (!failed && AppliedAll(system, actions[i..]).0, AppliedAll(system, actions[i..]).1)
      {
        assert actions[i..][1..] == actions[i + 1..];
        if IsChange(actions[i]) {
          var ok := ApplyAction(actions[i]);
          failed := failed || !ok;
        }
        i := i + 1;
      }
      return if failed || Blocked(actions) then 1 else 0;
    }
  }
}
