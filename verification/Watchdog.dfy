/** `ThreadWatchdog._check_services`: per-service restart counters, exponential backoff and giving up, over a
    snapshot of every service's status.  Times are exact reals. */
module Watchdog {
  import opened Wrappers
  import opened Powers

  // ---------------------------------------------------------------------------------------------
  // One service
  // ---------------------------------------------------------------------------------------------

  datatype Watch = Watch(count: nat, backoffUntil: real)

  /** What one check sees of a service: the time, its alive flag, and how a restart would go. */
  datatype Sight = Sight(now: real, alive: bool, restartOk: bool)

  datatype Effect = SeenAlive | GaveUp | Silent | BackingOff | Attempted(ok: bool)

  function Backoff(count: nat): int { if 10 * Pow2(count) < 300 then 10 * Pow2(count) else 300 }

  function Check(w: Watch, max: int, s: Sight): (Watch, Effect) {
    if s.alive then (w.(count := 0), SeenAlive)
    else if w.count == max then (w.(count := w.count + 1), GaveUp)
    else if w.count > max then (w, Silent)
    else if s.now < w.backoffUntil then (w, BackingOff)
    else if s.restartOk then (w.(count := 0), Attempted(true))
    else (Watch(w.count + 1, s.now + Backoff(w.count) as real), Attempted(false))
  }

  /** The state after a history of checks, and the effect of each. */
  function After(w: Watch, max: int, history: seq<Sight>): Watch
    decreases |history|
  {
    if history == [] then w else After(Check(w, max, history[0]).0, max, history[1..])
  }

  function Effects(w: Watch, max: int, history: seq<Sight>): (e: seq<Effect>)
    ensures |e| == |history|
    decreases |history|
  {
    if history == [] then []
    else [Check(w, max, history[0]).1] + Effects(Check(w, max, history[0]).0, max, history[1..])
  }

  // ---------------------------------------------------------------------------------------------
  // All services
  // ---------------------------------------------------------------------------------------------

  /** The inputs of one pass over all services: the time, the `alive` entries that `get_all_status` finds, if a status
      has one, and what `restart_service` would return for each service. */
  datatype Tick = Tick(now: real, statuses: map<string, Option<bool>>, restarts: map<string, bool>)

  function SightOf(t: Tick, name: string): Sight {
    Sight(t.now, Lookup(t.statuses, name) == Some(Some(true)), Lookup(t.restarts, name) == Some(true))
  }

  /** Only an `alive` entry that is true makes a service alive, and only a true result a restart that worked. */
  lemma SightIff(t: Tick, name: string)
    ensures SightOf(t, name).now == t.now
    ensures SightOf(t, name).alive <==>
            name in t.statuses && t.statuses[name].Some? && t.statuses[name].value
    ensures SightOf(t, name).restartOk <==> name in t.restarts && t.restarts[name]
  {
  }

  function Lookup<V>(m: map<string, V>, name: string): Option<V> { if name in m then Some(m[name]) else None }

  /** What one service shows over a run of ticks. */
  function History(ticks: seq<Tick>, name: string): (h: seq<Sight>)
    ensures |h| == |ticks|
  {
    if ticks == [] then [] else [SightOf(ticks[0], name)] + History(ticks[1..], name)
  }

  class ThreadWatchdog {
    const services: seq<string>   // the registry's names, in registration order
    const maxRestarts: int
    var restartCounts: map<string, nat>
    var backoffUntil: map<string, real>

    constructor (services: seq<string>, maxRestarts: int)
      ensures this.services == services && this.maxRestarts == maxRestarts
      ensures restartCounts == map[] && backoffUntil == map[]
    {
      this.services, this.maxRestarts := services, maxRestarts;
      restartCounts, backoffUntil := map[], map[];
    }

    /** A dictionary is keyed by name, so the names are distinct. */
    ghost predicate Valid() {
      forall i, j :: 0 <= i < j < |services| ==> services[i] != services[j]
    }

    function View(name: string): Watch
      reads this
    {
      Watch(if name in restartCounts then restartCounts[name] else 0,
            if name in backoffUntil then backoffUntil[name] else 0.0)
    }

    /** The body of the loop of `_check_services`. */
    method CheckService(name: string, t: Tick) returns (effect: Effect)
      modifies this
      ensures (View(name), effect) == Check(old(View(name)), maxRestarts, SightOf(t, name))
      ensures forall other :: other != name ==> View(other) == old(View(other))
    {
      var alive := if name in t.statuses && t.statuses[name].Some? then t.statuses[name].value else false;
      if alive {
        if name in restartCounts {
          restartCounts := restartCounts[name := 0];
        }
        return SeenAlive;
      }
      var count := if name in restartCounts then restartCounts[name] else 0;
      if count >= maxRestarts {
        if count == maxRestarts {
          restartCounts := restartCounts[name := count + 1];
          return GaveUp;
        }
        return Silent;
      }
      var backoffEnd := if name in backoffUntil then backoffUntil[name] else 0.0;
      if t.now < backoffEnd {
        return BackingOff;
      }
      var success := name in t.restarts && t.restarts[name];
      if success {
        restartCounts := restartCounts[name := 0];
      } else {
        restartCounts := restartCounts[name := count + 1];
        backoffUntil := backoffUntil[name := t.now + Backoff(count) as real];
      }
      return Attempted(success);
    }

    /** `_check_services`.  Each service moves as its own one-service machine does, and no other moves. */
    method CheckServices(t: Tick) returns (effects: map<string, Effect>)
      requires Valid()
      modifies this
      ensures effects.Keys == set name <- services
      ensures forall name <- services ::
                (View(name), effects[name]) == Check(old(View(name)), maxRestarts, SightOf(t, name))
      ensures forall name :: name !in services ==> View(name) == old(View(name))
    {
      effects := map[];
      for i := 0 to |services|
        invariant effects.Keys == set name <- services[..i]
        invariant forall name <- effects ::
                    (View(name), effects[name]) == Check(old(View(name)), maxRestarts, SightOf(t, name))
        invariant forall name :: name !in effects ==> View(name) == old(View(name))
      {
        var name := services[i];
        assert name !in services[..i];
        var effect := CheckService(name, t);
        effects := effects[name := effect];
        assert services[..i + 1] == services[..i] + [name];
      }
      assert services[..|services|] == services;
    }

    /** The watchdog's loop.  Over any run of ticks, each service's counter, backoff and effects are those of its own
        one-service machine fed with its own history: services never influence one another. */
    method Loop(ticks: seq<Tick>) returns (effects: seq<map<string, Effect>>)
      requires Valid()
      modifies this
      ensures |effects| == |ticks| && forall i :: 0 <= i < |ticks| ==> effects[i].Keys == set name <- services
      ensures forall name <- services :: Follows(old(View(name)), View(name), maxRestarts, ticks, effects, name)
      ensures forall name :: name !in services ==> View(name) == old(View(name))
    {
      hide Follows;
      effects := [];
      forall name <- services ensures Follows(View(name), View(name), maxRestarts, [], [], name) {
        FollowsNothing(View(name), maxRestarts, name);
      }
      assert ticks[..0] == [];
      for i := 0 to |ticks|
        invariant |effects| == i && forall j :: 0 <= j < i ==> effects[j].Keys == set name <- services
        invariant forall name <- services ::
                    Follows(old(View(name)), View(name), maxRestarts, ticks[..i], effects, name)
        invariant forall name :: name !in services ==> View(name) == old(View(name))
      {
        label before:
        var now := CheckServices(ticks[i]);
        forall name <- services
          ensures Follows(old(View(name)), View(name), maxRestarts, ticks[..i + 1], effects + [now], name)
        {
          assert ticks[..i + 1] == ticks[..i] + [ticks[i]];
          FollowsMore(old(View(name)), old@before(View(name)), View(name), maxRestarts, ticks[..i], ticks[i],
                      effects, now, name);
        }
        effects := effects + [now];
      }
      assert ticks[..|ticks|] == ticks;
    }
  }

  /** The effects on one service. */
  function Seen(effects: seq<map<string, Effect>>, name: string): (e: seq<Effect>)
    requires forall i :: 0 <= i < |effects| ==> name in effects[i]
    ensures |e| == |effects| && forall i :: 0 <= i < |e| ==> e[i] == effects[i][name]
  {
    if effects == [] then [] else [effects[0][name]] + Seen(effects[1..], name)
  }

  /** Over the run, the service goes from `w` to `v` and shows its effects as its own machine does. */
  predicate Follows(w: Watch, v: Watch, max: int, ticks: seq<Tick>, effects: seq<map<string, Effect>>, name: string) {
    && v == After(w, max, History(ticks, name))
    && (forall i :: 0 <= i < |effects| ==> name in effects[i])
    && Seen(effects, name) == Effects(w, max, History(ticks, name))
  }

  lemma FollowsNothing(w: Watch, max: int, name: string)
    ensures Follows(w, w, max, [], [], name)
  {
  }

  lemma FollowsMore(w: Watch, v: Watch, v': Watch, max: int, ticks: seq<Tick>, t: Tick,
                    effects: seq<map<string, Effect>>, now: map<string, Effect>, name: string)
    requires Follows(w, v, max, ticks, effects, name)
    requires name in now && (v', now[name]) == Check(v, max, SightOf(t, name))
    ensures Follows(w, v', max, ticks + [t], effects + [now], name)
  {
    hide Check, SightOf;
    HistorySnoc(ticks, t, name);
    AfterSnoc(w, max, History(ticks, name), SightOf(t, name));
    EffectsSnoc(w, max, History(ticks, name), SightOf(t, name));
    var more := effects + [now];
    assert forall i :: 0 <= i < |more| ==> name in more[i];
    assert Seen(more, name) == Seen(effects, name) + [now[name]];
  }

  lemma {:induction false} HistorySnoc(ticks: seq<Tick>, t: Tick, name: string)
    ensures History(ticks + [t], name) == History(ticks, name) + [SightOf(t, name)]
  {
    if ticks == [] {
      assert ticks + [t] == [t] && [t][1..] == ticks;
    } else {
      HistorySnoc(ticks[1..], t, name);
      assert (ticks + [t])[1..] == ticks[1..] + [t];
    }
  }

  lemma {:induction false} AfterSnoc(w: Watch, max: int, history: seq<Sight>, s: Sight)
    ensures After(w, max, history + [s]) == Check(After(w, max, history), max, s).0
    decreases |history|
  {
    if history == [] {
      assert history + [s] == [s] && [s][1..] == history;
    } else {
      AfterSnoc(Check(w, max, history[0]).0, max, history[1..], s);
      assert (history + [s])[1..] == history[1..] + [s];
    }
  }

  // ---------------------------------------------------------------------------------------------
  // A failing stretch
  // ---------------------------------------------------------------------------------------------

  /** The service is never seen alive and no restart that is attempted succeeds. */
  predicate Failing(w: Watch, max: int, history: seq<Sight>)
    decreases |history|
  {
    history != [] ==>
      var (w', e) := Check(w, max, history[0]);
      !history[0].alive && e != Attempted(true) && Failing(w', max, history[1..])
  }

  /** The time of each restart attempt, and the counter it found. */
  datatype Attempt = Attempt(at: real, count: nat)

  function Attempts(w: Watch, max: int, history: seq<Sight>): seq<Attempt>
    decreases |history|
  {
    if history == [] then []
    else
      var (w', e) := Check(w, max, history[0]);
      (if e.Attempted? then [Attempt(history[0].now, w.count)] else []) + Attempts(w', max, history[1..])
  }

  function GiveUps(w: Watch, max: int, history: seq<Sight>): nat
    decreases |history|
  {
    if history == [] then 0
    else
      var (w', e) := Check(w, max, history[0]);
      (if e.GaveUp? then 1 else 0) + GiveUps(w', max, history[1..])
  }

  function AtLeastZero(n: int): nat { if n < 0 then 0 else n }

  /** Attempts and the one give-up report are exactly what moves the counter, so a stretch has at most
      `max - count` attempts and at most one report, and the report comes only after all of them. */
  lemma {:induction false} RestartBound(w: Watch, max: int, history: seq<Sight>)
    requires Failing(w, max, history)
    ensures After(w, max, history).count == w.count + |Attempts(w, max, history)| + GiveUps(w, max, history)
    ensures |Attempts(w, max, history)| <= AtLeastZero(max - w.count)
    ensures GiveUps(w, max, history) <= (if w.count <= max then 1 else 0)
    ensures GiveUps(w, max, history) == 1 ==> |Attempts(w, max, history)| == max - w.count
    decreases |history|
  {
    if history != [] {
      RestartBound(Check(w, max, history[0]).0, max, history[1..]);
    }
  }

  function CountAttempts(effects: seq<Effect>): nat {
    if effects == [] then 0 else (if effects[0].Attempted? then 1 else 0) + CountAttempts(effects[1..])
  }

  function CountGiveUps(effects: seq<Effect>): nat {
    if effects == [] then 0 else (if effects[0].GaveUp? then 1 else 0) + CountGiveUps(effects[1..])
  }

  lemma {:induction false} EffectsCount(w: Watch, max: int, history: seq<Sight>)
    ensures CountAttempts(Effects(w, max, history)) == |Attempts(w, max, history)|
    ensures CountGiveUps(Effects(w, max, history)) == GiveUps(w, max, history)
    decreases |history|
  {
    hide Check;
    if history != [] {
      var (w', e) := Check(w, max, history[0]);
      EffectsCount(w', max, history[1..]);
      assert Effects(w, max, history)[1..] == Effects(w', max, history[1..]);
    }
  }

  /** The bound for a watchdog's run: a service that fails throughout is restarted at most as often as its counter
      allows, is given up at most once, and only after all attempts; the counter tells them all. */
  lemma WatchedBound(w: Watch, v: Watch, max: int, ticks: seq<Tick>, effects: seq<map<string, Effect>>, name: string)
    requires Follows(w, v, max, ticks, effects, name) && Failing(w, max, History(ticks, name))
    ensures var attempts, reports := CountAttempts(Seen(effects, name)), CountGiveUps(Seen(effects, name));
            && v.count == w.count + attempts + reports
            && attempts <= AtLeastZero(max - w.count)
            && reports <= (if w.count <= max then 1 else 0)
            && (reports == 1 ==> attempts == max - w.count)
  {
    hide Check, Effects, Attempts, GiveUps, Failing, CountAttempts, CountGiveUps;
    RestartBound(w, max, History(ticks, name));
    EffectsCount(w, max, History(ticks, name));
  }

  /** The first attempt finds the counter as it was, after the backoff set earlier. */
  lemma {:induction false} FirstAttempt(w: Watch, max: int, history: seq<Sight>)
    requires Failing(w, max, history) && Attempts(w, max, history) != []
    ensures Attempts(w, max, history)[0].count == w.count
    ensures Attempts(w, max, history)[0].at >= w.backoffUntil
    decreases |history|
  {
    var (w', e) := Check(w, max, history[0]);
    if !e.Attempted? {
      RestartBound(w', max, history[1..]);
      FirstAttempt(w', max, history[1..]);
    }
  }

  /** The other attempts are those of the stretch that follows the first, whose failure sets the backoff. */
  lemma {:induction false} LaterAttempts(w: Watch, max: int, history: seq<Sight>) returns (w1: Watch, later: seq<Sight>)
    requires Failing(w, max, history) && Attempts(w, max, history) != []
    ensures |later| < |history| && Failing(w1, max, later)
    ensures Attempts(w, max, history)[1..] == Attempts(w1, max, later)
    ensures w1 == Watch(w.count + 1, Attempts(w, max, history)[0].at + Backoff(w.count) as real)
    decreases |history|
  {
    var (w', e) := Check(w, max, history[0]);
    if e.Attempted? {
      w1, later := w', history[1..];
    } else {
      RestartBound(w', max, history[1..]);
      w1, later := LaterAttempts(w', max, history[1..]);
    }
  }

  /** Attempt `i` finds the counter `i` higher, and the next one keeps at least its backoff from it. */
  lemma {:induction false} AttemptGaps(w: Watch, max: int, history: seq<Sight>, i: nat)
    requires Failing(w, max, history) && i < |Attempts(w, max, history)|
    ensures var a := Attempts(w, max, history);
            && a[i].count == w.count + i
            && (i + 1 < |a| ==> a[i + 1].at - a[i].at >= Backoff(w.count + i) as real)
    decreases i
  {
    hide Attempts, Failing, Check, Backoff;
    var a := Attempts(w, max, history);
    FirstAttempt(w, max, history);
    var w1, later := LaterAttempts(w, max, history);
    assert forall j :: 0 <= j < |a| - 1 ==> a[1..][j] == a[j + 1];
    if i > 0 {
      AttemptGaps(w1, max, later, i - 1);
      assert a[i] == a[1..][i - 1];
    } else if |a| > 1 {
      FirstAttempt(w1, max, later);
      assert a[1] == a[1..][0];
    }
  }

  /** The backoffs of the first `m` failures in a row, in closed form. */
  function BackoffSum(m: nat): int {
    if m <= 5 then 10 * (Pow2(m) - 1) else 310 + 300 * (m - 5)
  }

  lemma {:induction false} BackoffGrows(m: nat)
    ensures BackoffSum(m + 1) == BackoffSum(m) + Backoff(m)
    ensures Pow2(m) >= 1 && (m >= 5 ==> Pow2(m) >= 32)
  {
    if m > 0 {
      BackoffGrows(m - 1);
    }
    SmallPowers();
  }

  /** From a zero counter, attempt `i` comes at least the first `i` backoffs after the first attempt. */
  lemma {:induction false} AttemptSpan(w: Watch, max: int, history: seq<Sight>, i: nat)
    requires w.count == 0 && Failing(w, max, history) && i < |Attempts(w, max, history)|
    ensures var a := Attempts(w, max, history); a[i].at - a[0].at >= BackoffSum(i) as real
    decreases i
  {
    if i > 0 {
      AttemptSpan(w, max, history, i - 1);
      AttemptGaps(w, max, history, i - 1);
      BackoffGrows(i - 1);
    }
  }

  lemma BackoffBounded(n: nat)
    ensures 10 <= Backoff(n) <= 300
  {
    BackoffGrows(n);
  }

  /** Checks 300 seconds apart are never held back: every one attempts a restart until the attempts are used up,
      the next one reports giving up, and the rest are silent. */
  lemma {:induction false} FarApart(w: Watch, max: int, history: seq<Sight>)
    requires Failing(w, max, history) && w.count <= max
    requires history != [] ==> w.backoffUntil <= history[0].now
    requires forall i :: 0 <= i < |history| - 1 ==> history[i + 1].now >= history[i].now + 300.0
    ensures |Attempts(w, max, history)| == (if |history| < max - w.count then |history| else max - w.count)
    ensures GiveUps(w, max, history) == (if |history| > max - w.count then 1 else 0)
    decreases |history|
  {
    if history != [] {
      var w' := Check(w, max, history[0]).0;
      if w.count < max {
        BackoffBounded(w.count);
        assert history[1..] != [] ==> history[1..][0] == history[0 + 1];
        FarApart(w', max, history[1..]);
      } else {
        RestartBound(w', max, history[1..]);
      }
    }
  }

  /** A backoff is never cleared: a service that came back, stayed for any number of checks and died again is
      restarted at once exactly when the old backoff is over, although its counter is zero. */
  lemma {:induction false} StaleBackoff(w: Watch, max: int, up: seq<Sight>, dead: Sight)
    requires max > 0 && up != [] && (forall i :: 0 <= i < |up| ==> up[i].alive) && !dead.alive
    ensures After(w, max, up) == Watch(0, w.backoffUntil)
    ensures Check(After(w, max, up), max, dead).1.Attempted? <==> dead.now >= w.backoffUntil
    decreases |up|
  {
    if |up| > 1 {
      StaleBackoff(Check(w, max, up[0]).0, max, up[1..], dead);
    }
  }

  // ---------------------------------------------------------------------------------------------
  // Any run
  // ---------------------------------------------------------------------------------------------

  predicate Resets(e: Effect) { e.SeenAlive? || e == Attempted(true) }

  predicate Moves(e: Effect) { e.GaveUp? || e == Attempted(false) }

  /** The failed attempts and give-up reports since the service was last seen alive or restarted, counted on from
      `n` when it never was. */
  function SinceReset(n: nat, effects: seq<Effect>): nat {
    if effects == [] then n
    else
      var front, e := effects[..|effects| - 1], effects[|effects| - 1];
      if Resets(e) then 0 else SinceReset(n, front) + if Moves(e) then 1 else 0
  }

  lemma {:induction false} EffectsSnoc(w: Watch, max: int, history: seq<Sight>, s: Sight)
    ensures Effects(w, max, history + [s]) == Effects(w, max, history) + [Check(After(w, max, history), max, s).1]
    decreases |history|
  {
    if history == [] {
      assert history + [s] == [s] && [s][1..] == history;
    } else {
      EffectsSnoc(Check(w, max, history[0]).0, max, history[1..], s);
      assert (history + [s])[1..] == history[1..] + [s];
    }
  }

  /** The counter is what it should be in every run: the failed attempts, and the report of giving up, since the
      service was last seen alive or restarted; and it stops one above the limit. */
  lemma {:induction false} CounterCounts(w: Watch, max: int, history: seq<Sight>)
    ensures After(w, max, history).count == SinceReset(w.count, Effects(w, max, history))
    ensures 0 <= max && w.count <= max + 1 ==> After(w, max, history).count <= max + 1
    decreases |history|
  {
    if history != [] {
      var n := |history| - 1;
      var front, s := history[..n], history[n];
      assert history == front + [s];
      CounterCounts(w, max, front);
      AfterSnoc(w, max, front, s);
      EffectsSnoc(w, max, front, s);
    }
  }

  /** The time until which the service is left alone: that of the latest failed attempt, plus the backoff for the
      failures since the last reset before it; as at the start when no attempt has failed. */
  function BackoffSince(w: Watch, history: seq<Sight>, effects: seq<Effect>): real
    requires |history| == |effects|
  {
    if effects == [] then w.backoffUntil
    else
      var n := |effects| - 1;
      if effects[n] == Attempted(false) then history[n].now + Backoff(SinceReset(w.count, effects[..n])) as real
      else BackoffSince(w, history[..n], effects[..n])
  }

  /** In every run the backoff is set by failed attempts alone: neither a restart that works nor a service seen alive
      sets or clears it. */
  lemma {:induction false} BackoffIs(w: Watch, max: int, history: seq<Sight>)
    ensures After(w, max, history).backoffUntil == BackoffSince(w, history, Effects(w, max, history))
    decreases |history|
  {
    if history != [] {
      var n := |history| - 1;
      var front, s := history[..n], history[n];
      assert history == front + [s];
      BackoffIs(w, max, front);
      CounterCounts(w, max, front);
      AfterSnoc(w, max, front, s);
      EffectsSnoc(w, max, front, s);
      assert Effects(w, max, history)[..n] == Effects(w, max, front);
    }
  }

  /** WHEN.  After any history, in terms of what was done before: a dead service is restarted exactly when it has
      failed less often than the limit since it last ran and the last failure's backoff is over; giving up is reported
      exactly when it has failed as often as the limit. */
  lemma WhatHappens(w: Watch, max: int, history: seq<Sight>, s: Sight)
    ensures var before := Effects(w, max, history);
            var failures := SinceReset(w.count, before);
            var e := Effects(w, max, history + [s])[|history|];
            && (e.SeenAlive? <==> s.alive)
            && (e.Attempted? <==> !s.alive && failures < max && s.now >= BackoffSince(w, history, before))
            && (e.Attempted? ==> e.ok == s.restartOk)
            && (e.GaveUp? <==> !s.alive && failures == max)
            && (e.BackingOff? <==> !s.alive && failures < max && s.now < BackoffSince(w, history, before))
  {
    CounterCounts(w, max, history);
    BackoffIs(w, max, history);
    EffectsSnoc(w, max, history, s);
  }

  /** The backoffs are 10, 20, 40, 80 and 160 seconds, and 300 from then on. */
  lemma BackoffValues(n: nat)
    ensures n < 5 ==> Backoff(n) == [10, 20, 40, 80, 160][n]
    ensures n >= 5 ==> Backoff(n) == 300
  {
    SmallPowers();
    BackoffGrows(n);
  }
}
