/** `ServiceRegistry`: registration, and starting and stopping everything in registration order. */
module Registry {
  import opened Wrappers

  /** How a service's `start` goes. */
  datatype Reply = Returns(ok: bool) | Raises

  /** How its `get_status` goes: it reports, with or without an `alive` entry, or raises. */
  datatype Probe = Reports(alive: Option<bool>) | StatusRaises

  datatype Call<Service> = Stop(s: Service) | Start(s: Service)

  /** The dictionary that registering `regs` in order leaves. */
  function Registered<S>(regs: seq<(string, S)>): (d: map<string, S>)
    ensures forall i :: 0 <= i < |regs| ==> regs[i].0 in d
  {
    if regs == [] then map[]
    else
      var n := |regs| - 1;
      var d := Registered(regs[..n]);
      assert forall i :: 0 <= i < n ==> regs[i] == regs[..n][i];
      d[regs[n].0 := regs[n].1]
  }

  class ServiceRegistry<Service> {
    var services: map<string, Service>
    var startOrder: seq<string>

    constructor ()
      ensures services == map[] && startOrder == []
    {
      services, startOrder := map[], [];
    }

    ghost predicate Valid()
      reads this
    {
      forall name <- startOrder :: name in services
    }

    method Register(name: string, service: Service)
      requires Valid()
      modifies this
      ensures Valid()
      ensures services == old(services)[name := service] && startOrder == old(startOrder) + [name]
    {
      services := services[name := service];
      startOrder := startOrder + [name];
    }

    /** The services to start, in order: what the names stand for now. */
    function Order(): (s: seq<Service>)
      requires Valid()
      reads this
      ensures |s| == |startOrder|
    {
      seq(|startOrder|, i requires 0 <= i < |startOrder| && startOrder[i] in services reads this
                          => services[startOrder[i]])
    }

    /** `start_all`: returns the services started, in order, and the results. */
    method StartAll(replies: map<string, Reply>) returns (started: seq<Service>, results: map<string, bool>)
      requires Valid()
      ensures started == Order()
      ensures results.Keys == set name <- startOrder
      ensures forall name <- results :: results[name] == (name in replies && replies[name] == Returns(true))
    {
      started, results := [], map[];
      for i := 0 to |startOrder|
        invariant started == Order()[..i]
        invariant results.Keys == set name <- startOrder[..i]
        invariant forall name <- results :: results[name] == (name in replies && replies[name] == Returns(true))
      {
        var name := startOrder[i];
        started := started + [services[name]];
        results := results[name := name in replies && replies[name] == Returns(true)];
        assert startOrder[..i + 1] == startOrder[..i] + [name];
      }
      assert startOrder[..|startOrder|] == startOrder;
    }

    /** `get_all_status`, as far as the `alive` entry goes: a status that cannot be read counts as not alive. */
    method GetAllStatus(probes: map<string, Probe>) returns (result: map<string, Option<bool>>)
      ensures result.Keys == services.Keys
      ensures forall name <- services ::
                if name in probes && probes[name].Reports? then result[name] == probes[name].alive
                else result[name] == Some(false)
    {
      result := map[];
      var todo := services.Keys;
      while todo != {}
        invariant todo <= services.Keys && result.Keys == services.Keys - todo
        invariant forall name <- result ::
                    if name in probes && probes[name].Reports? then result[name] == probes[name].alive
                    else result[name] == Some(false)
      {
        var name :| name in todo;
        if name in probes && probes[name].Reports? {
          result := result[name := probes[name].alive];
        } else {
          result := result[name := Some(false)];
        }
        todo := todo - {name};
      }
    }

    /** `restart_service`: stops the service and, unless that raises, starts it; returns what it called and the
        result. */
    method RestartService(name: string, stopRaises: bool, reply: Reply) returns (ok: bool, calls: seq<Call<Service>>)
      ensures ok <==> name in services && !stopRaises && reply == Returns(true)
      ensures calls == if name !in services then []
                       else if stopRaises then [Stop(services[name])]
                       else [Stop(services[name]), Start(services[name])]
    {
      if name !in services {
        return false, [];
      }
      calls := [Stop(services[name])];
      if stopRaises {
        return false, calls;
      }
      calls := calls + [Start(services[name])];
      match reply {
        case Raises => ok := false;
        case Returns(result) => ok := result;
      }
    }

    /** `stop_all`: returns the services stopped, in order.  What they reply changes nothing. */
    method StopAll() returns (stopped: seq<Service>)
      requires Valid()
      ensures |stopped| == |Order()|
      ensures forall i :: 0 <= i < |stopped| ==> stopped[i] == Order()[|stopped| - 1 - i]
    {
      stopped := [];
      var i := |startOrder|;
      while i > 0
        invariant 0 <= i <= |startOrder| && |stopped| == |startOrder| - i
        invariant forall j :: 0 <= j < |stopped| ==> stopped[j] == Order()[|startOrder| - 1 - j]
      {
        i := i - 1;
        if startOrder[i] in services {
          stopped := stopped + [services[startOrder[i]]];
        }
      }
    }
  }

  /** Registration `j` is the last one under the name of registration `i`. */
  predicate IsLast<S>(regs: seq<(string, S)>, i: int, j: int) {
    0 <= i <= j < |regs| && regs[j].0 == regs[i].0 && forall k :: j < k < |regs| ==> regs[k].0 != regs[i].0
  }

  /** `service` is what registration `i`'s name was registered for last. */
  ghost predicate LastUnderName<S>(regs: seq<(string, S)>, i: int, service: S) {
    exists j :: IsLast(regs, i, j) && regs[j].1 == service
  }

  /** The dictionary holds the service registered last under each name. */
  lemma {:induction false} LastRegistered<S>(regs: seq<(string, S)>, i: nat)
    requires i < |regs|
    ensures LastUnderName(regs, i, Registered(regs)[regs[i].0])
    decreases |regs|
  {
    var n := |regs| - 1;
    if regs[n].0 == regs[i].0 {
      assert IsLast(regs, i, n) && regs[n].1 == Registered(regs)[regs[i].0];
    } else {
      LastRegistered(regs[..n], i);
      var j :| IsLast(regs[..n], i, j) && regs[..n][j].1 == Registered(regs[..n])[regs[i].0];
      assert forall k :: 0 <= k < n ==> regs[k] == regs[..n][k];
      assert IsLast(regs, i, j);
    }
  }

  lemma {:induction false} LaterWins<S>(regs: seq<(string, S)>, j: nat)
    requires j < |regs|
    requires forall k :: j < k < |regs| && regs[k].0 == regs[j].0 ==> regs[k].1 == regs[j].1
    ensures Registered(regs)[regs[j].0] == regs[j].1
    decreases |regs|
  {
    var n := |regs| - 1;
    if j < n && regs[n].0 != regs[j].0 {
      LaterWins(regs[..n], j);
    }
  }

  /** Starting in order starts exactly the services registered exactly when no name is taken over later by
      another service; after a take-over the newcomer is started once for each registration of the name. */
  lemma {:induction false} StartsWhatWasRegisteredIff<S>(regs: seq<(string, S)>)
    ensures (forall i :: 0 <= i < |regs| ==> Registered(regs)[regs[i].0] == regs[i].1)
       <==> (forall i, j :: 0 <= i < j < |regs| && regs[i].0 == regs[j].0 ==> regs[i].1 == regs[j].1)
  {
    if forall i, j :: 0 <= i < j < |regs| && regs[i].0 == regs[j].0 ==> regs[i].1 == regs[j].1 {
      forall i | 0 <= i < |regs| ensures Registered(regs)[regs[i].0] == regs[i].1 {
        LaterWins(regs, i);
      }
    }
  }

  /** The services a registry starts after the registrations `regs`: one for each, the one registered last under its
      name. */
  method StartAfter<S>(regs: seq<(string, S)>, replies: map<string, Reply>) returns (started: seq<S>)
    ensures |started| == |regs|
    ensures forall i :: 0 <= i < |regs| ==> LastUnderName(regs, i, started[i])
  {
    var registry := new ServiceRegistry<S>();
    for i := 0 to |regs|
      invariant registry.Valid() && fresh(registry)
      invariant registry.services == Registered(regs[..i])
      invariant registry.startOrder == seq(i, j requires 0 <= j < |regs| => regs[j].0)
    {
      registry.Register(regs[i].0, regs[i].1);
      assert regs[..i + 1][..i] == regs[..i];
    }
    assert regs[..|regs|] == regs;
    var results;
    started, results := registry.StartAll(replies);
    forall i | 0 <= i < |regs| ensures LastUnderName(regs, i, started[i]) {
      assert started[i] == Registered(regs)[regs[i].0];
      LastRegistered(regs, i);
    }
  }
}
