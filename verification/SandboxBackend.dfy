/** The sandbox backend of src/sandbox/backend.ts as an object with fields that its
    commands change in place. Each command is tied to the step of `ServiceChecks` that
    specifies it; clock readings are parameters. */
module SandboxBackend {
  import opened Prelude
  import opened Text
  import opened SandboxTypes
  import opened ServiceChecks
  import opened ImportIds
  import NodePool

  datatype Status = Status(profileId: string, running: bool, failover: Option<seq<string>>,
                           serviceChecks: Option<seq<CheckResult>>)

  /** More than one node can carry the profile's traffic. */
  predicate Multinode(p: Profile, listed: seq<NodePool.Listed>) {
    p.subscription.Some? &&
    (|p.subscription.value.backupKeys| > 0 || |NodePool.PoolMembers(p, listed)| > 0
     || |p.pinned| > 0 || (p.dnsKey.Some? && p.dnsKey.value != ""))
  }

  /** What a status shows of profile `p` in state `w`. */
  function StatusOf(w: World, p: Profile, listed: seq<NodePool.Listed>): Status {
    var on := p.id in w.running;
    Status(p.id, on,
           if on && Multinode(p, listed) then Some(NodePool.StatusChain(p, listed)) else None,
           if on && p.backend == Xray && p.mode == Tun then Some(ResultsOf(w, p.id)) else None)
  }

  /** The selection names a check that does not exist. */
  predicate UnknownSelection(checks: seq<ServiceCheck>, ids: Option<set<string>>) {
    ids.Some? && exists x :: x in ids.value && forall j :: 0 <= j < |checks| ==> checks[j].id != x
  }

  /** What a form save stores, given the profile stored before: pins are the stored profile's
      where there is one, the subscription is its own where it had one, exits and checks are
      its own when both are Xray, the form's when the form alone is, and empty otherwise;
      every other field is the form's. */
  ghost predicate KeepsOwned(saved: Profile, before: Option<Profile>, form: Profile) {
    && saved.pinned == (if before.Some? then before.value.pinned else form.pinned)
    && (before.Some? && before.value.subscription.Some? ==> saved.subscription == before.value.subscription)
    && (before.None? || before.value.subscription.None? ==> saved.subscription == form.subscription)
    && (form.backend != Xray ==> saved.exits == [] && saved.checks == [])
    && (form.backend == Xray && before.Some? && before.value.backend == Xray ==>
          saved.exits == before.value.exits && saved.checks == before.value.checks)
    && (form.backend == Xray && (before.None? || before.value.backend != Xray) ==>
          saved.exits == form.exits && saved.checks == form.checks)
    && saved.(pinned := [], subscription := None, exits := [], checks := []) ==
       form.(pinned := [], subscription := None, exits := [], checks := [])
  }

  lemma MergeKeepsOwned(form: Profile, before: Option<Profile>)
    ensures KeepsOwned(Merged(form, before), before, form)
  {
  }

  datatype SaveKind = PlainForm | VlessForm | WireGuardForm

  /** The pins as given, each marked missing exactly when no listed endpoint has its key. */
  ghost predicate PinsMarked(stored: seq<Pin>, given: seq<Pin>, keys: seq<string>) {
    |stored| == |given| &&
    forall i :: 0 <= i < |given| ==>
      stored[i].selectors == given[i].selectors && stored[i].endpointKey == given[i].endpointKey
      && (stored[i].missing <==> forall j :: 0 <= j < |keys| ==> keys[j] != given[i].endpointKey)
  }

  lemma MarkedExactly(pins: seq<Pin>, keys: seq<string>)
    ensures PinsMarked(MarkMissing(pins, keys), pins, keys)
  {
  }

  /** The ports in use are those of the other profiles' listeners. */
  lemma {:induction false} UsedPortsExactly(profiles: seq<Profile>, id: string, port: nat)
    ensures port in UsedPorts(profiles, id) <==>
            exists i :: 0 <= i < |profiles| && profiles[i].id != id
                        && (profiles[i].socksPort == Some(port) || profiles[i].httpPort == Some(port))
    decreases |profiles|
  {
    if profiles != [] {
      UsedPortsExactly(profiles[1..], id, port);
      assert forall i :: 1 <= i < |profiles| ==> profiles[i] == profiles[1..][i - 1];
    }
  }

  /** The copied subscription is that of the first profile with one. */
  lemma {:induction false} FirstSubscriptionAt(profiles: seq<Profile>) returns (i: nat)
    ensures i <= |profiles| && forall j :: 0 <= j < i ==> profiles[j].subscription.None?
    ensures i < |profiles| ==> profiles[i].subscription.Some? && FirstSubscription(profiles) == profiles[i].subscription
    ensures i == |profiles| ==> FirstSubscription(profiles).None?
    decreases |profiles|
  {
    i := 0;
    if profiles != [] && profiles[0].subscription.None? {
      i := FirstSubscriptionAt(profiles[1..]);
      assert forall j :: 1 <= j < |profiles| ==> profiles[j] == profiles[1..][j - 1];
      i := i + 1;
    }
  }

  function PortsOf(p: Profile): set<nat> {
    (if p.socksPort.Some? then {p.socksPort.value} else {}) + (if p.httpPort.Some? then {p.httpPort.value} else {})
  }

  /** The listener ports of the profiles other than `id`. */
  function UsedPorts(profiles: seq<Profile>, id: string): set<nat> {
    if profiles == [] then {}
    else (if profiles[0].id != id then PortsOf(profiles[0]) else {}) + UsedPorts(profiles[1..], id)
  }

  predicate PairFree(used: set<nat>, port: nat) {
    port !in used && port + 1 !in used
  }

  /** The first free pair of neighbouring ports from 10808 on, in steps of two. */
  ghost predicate FirstFreePair(used: set<nat>, port: nat) {
    port >= 10808 && port % 2 == 0 && PairFree(used, port)
    && forall q :: 10808 <= q < port && q % 2 == 0 ==> !PairFree(used, q)
  }

  method AllocateProxyPorts(profiles: seq<Profile>, p: Profile) returns (r: Profile)
    ensures exists port: nat :: FirstFreePair(UsedPorts(profiles, p.id), port)
                           && r == p.(socksPort := Some(port), httpPort := Some(port + 1))
  {
    hide UsedPorts;
    var used := UsedPorts(profiles, p.id);
    var port: nat := 10808;
    while port in used || port + 1 in used
      invariant port >= 10808 && port % 2 == 0
      invariant forall q :: 10808 <= q < port && q % 2 == 0 ==> !PairFree(used, q)
      decreases set u | u in used && u >= port
    {
      assert !PairFree(used, port);
      ghost var conflict := if port in used then port else port + 1;
      ghost var above, rest := (set u | u in used && u >= port), (set u | u in used && u >= port + 2);
      assert rest <= above && conflict in above && conflict !in rest;
      port := port + 2;
    }
    assert FirstFreePair(used, port);
    r := p.(socksPort := Some(port), httpPort := Some(port + 1));
  }

  /** The subscription an import copies: that of the first profile with one. */
  function FirstSubscription(profiles: seq<Profile>): Option<Subscription> {
    if profiles == [] then None
    else if profiles[0].subscription.Some? then profiles[0].subscription
    else FirstSubscription(profiles[1..])
  }

  /** The first status of the profile `id`. */
  method FirstStatus(statuses: seq<Status>, profiles: seq<Profile>, id: string) returns (status: Status)
    requires |statuses| == |profiles| && Find(profiles, id).Some?
    requires forall k :: 0 <= k < |statuses| ==> statuses[k].profileId == profiles[k].id
    ensures status in statuses && status.profileId == id
  {
    hide Find;
    var k := 0;
    ghost var at :| 0 <= at < |profiles| && profiles[at] == Find(profiles, id).value;
    while statuses[k].profileId != id
      invariant 0 <= k <= at
      decreases at - k
    {
      k := k + 1;
    }
    status := statuses[k];
  }

  class Sandbox {
    const listed: seq<NodePool.Listed>
    const endpointKeys: seq<string>
    var profiles: seq<Profile>
    var running: set<string>
    var serviceDue: map<string, int>
    var serviceResults: map<string, seq<CheckResult>>
    var serviceAttempts: map<string, Counts>

    ghost var clock: int
    ghost var samples: seq<Sample>
    ghost var rounds: map<string, seq<seq<Outcome>>>

    ghost function World(): World
      reads this
    {
      ServiceChecks.World(endpointKeys, profiles, running, serviceDue, serviceResults, serviceAttempts,
                          clock, samples, rounds)
    }

    constructor (listed: seq<NodePool.Listed>, profiles: seq<Profile>, ghost start: int)
      requires DistinctIds(profiles)
      requires forall i :: 0 <= i < |profiles| ==> ValidSpecs(profiles[i], profiles[i].checks)
      ensures Fresh(World()) && this.profiles == profiles && this.listed == listed
      ensures endpointKeys == seq(|listed|, i requires 0 <= i < |listed| => listed[i].key)
    {
      this.listed := listed;
      this.endpointKeys := seq(|listed|, i requires 0 <= i < |listed| => listed[i].key);
      this.profiles := profiles;
      running, serviceDue, serviceResults, serviceAttempts := {}, map[], map[], map[];
      clock, samples, rounds := start, [], map[];
    }

    method ResetServiceWorker(p: Profile, now: int)
      modifies this
      ensures World() == Reset(old(World()), p, now)
    {
      serviceDue := serviceDue - {p.id};
      serviceResults := serviceResults - {p.id};
      serviceAttempts := serviceAttempts - {p.id};
      rounds := rounds - {p.id};
      clock := now;
      if p.id in running && p.backend == Xray && p.subscription.Some? && p.mode == Tun
         && exists i :: 0 <= i < |p.checks| && p.checks[i].background {
        serviceDue := serviceDue[p.id := now + INTERVAL];
      }
    }

    method ClearServiceState(id: string)
      modifies this
      ensures World() == Cleared(old(World()), id)
    {
      serviceDue := serviceDue - {id};
      serviceResults := serviceResults - {id};
      serviceAttempts := serviceAttempts - {id};
      rounds := rounds - {id};
    }

    method Observe(check: ServiceCheck, available: bool, attempt: nat, now: int, previous: Option<CheckResult>)
      returns (r: CheckResult)
      ensures r == Observation(check, available, attempt, now, previous)
    {
      var outcome, httpStatus, latencyMs := Unavailable, None, None;
      if available {
        var index := attempt % 7;
        outcome := OUTCOMES[index];
        httpStatus := STATUSES[index];
        latencyMs := if outcome == Http then Some(42 + index * 7) else None;
      }
      var failures := if outcome == Http || outcome == Unavailable then 0
                      else (if previous.Some? then previous.value.consecutiveFailures else 0) + 1;
      r := CheckResult(check.id, check.name, check.endpointKey, outcome, httpStatus, latencyMs, now / 1000,
                       failures, failures >= 3);
    }

    method SampleService(p: Profile, check: ServiceCheck, channel: Channel, now: int, previous: Option<CheckResult>)
      returns (r: CheckResult)
      modifies this`serviceAttempts
      ensures var s := Sampled(CountsOf(old(World()), p.id), p, check, channel, now, previous, endpointKeys);
              r == s.1 && serviceAttempts == WithCounts(old(serviceAttempts), p.id, s.0)
    {
      hide Observation, Bindings;
      var available := p.backend == Xray && p.subscription.Some? && check.endpointKey in Bindings(p)
                       && check.endpointKey in endpointKeys;
      var attempts := if p.id in serviceAttempts then serviceAttempts[p.id] else map[];
      var identity := AttemptKey(channel, check.id);
      var attempt := if identity in attempts then attempts[identity] else 0;
      if available {
        serviceAttempts := serviceAttempts[p.id := attempts[identity := attempt + 1]];
        assert identity in attempts[identity := attempt + 1];
      }
      r := Observe(check, available, attempt, now, previous);
    }

    /** Samples the checks one after another. */
    method SampleEach(p: Profile, checks: seq<ServiceCheck>, channel: Channel, now: int, previous: seq<CheckResult>)
      returns (results: seq<CheckResult>)
      modifies this`serviceAttempts
      ensures var s := SampledAll(CountsOf(old(World()), p.id), p, checks, channel, now, previous, endpointKeys);
              results == s.1 && serviceAttempts == WithCounts(old(serviceAttempts), p.id, s.0)
    {
      hide Sampled, FindResult, SampledAll;
      assert checks[..0] == [];
      SampledAllNone(CountsOf(World(), p.id), p, channel, now, previous, endpointKeys);
      assert CountsOf(World(), p.id) == map[] || p.id in serviceAttempts;
      results := [];
      for k := 0 to |checks|
        invariant var m := CountsOf(old(World()), p.id);
                  var s := SampledAll(m, p, checks[..k], channel, now, previous, endpointKeys);
                  results == s.1 && CountsOf(World(), p.id) == s.0
                  && serviceAttempts == WithCounts(old(serviceAttempts), p.id, s.0)
      {
        SampledAllNext(CountsOf(old(World()), p.id), p, checks, k, channel, now, previous, endpointKeys);
        ghost var counts := CountsOf(World(), p.id);
        var before := FindResult(previous, checks[k]);
        SampledKeepsAttempts(counts, p, checks[k], channel, now, before, endpointKeys);
        var r := SampleService(p, checks[k], channel, now, before);
        results := results + [r];
      }
      assert checks[..|checks|] == checks;
    }

    method TickServiceChecks(p: Profile, now: int)
      modifies this
      ensures World() == Tick(old(World()), p, now)
    {
      hide SampledAll, BackgroundOf;
      ghost var before := World();
      clock := now;
      if p.id !in serviceDue || now < serviceDue[p.id] { return; }
      if p.id !in running || p.backend != Xray || p.subscription.None? || p.mode != Tun {
        serviceDue := serviceDue - {p.id};
        serviceResults := serviceResults - {p.id};
        rounds := rounds - {p.id};
        return;
      }
      var previous := if p.id in serviceResults then serviceResults[p.id] else [];
      var results := SampleEach(p, BackgroundOf(p.checks), Background, now, previous);
      serviceResults := serviceResults[p.id := results];
      serviceDue := serviceDue[p.id := now + INTERVAL];
      samples := samples + [Sample(p.id, now)];
      rounds := rounds[p.id := RoundsOf(before, p.id) + [OutcomesOf(results)]];
    }

    method ShowProfile(p: Profile) returns (status: Status)
      ensures status == StatusOf(World(), p, listed)
    {
      hide NodePool.StatusChain, NodePool.PoolMembers;
      var isRunning := p.id in running;
      var failover := if isRunning && Multinode(p, listed) then Some(NodePool.StatusChain(p, listed)) else None;
      var watchdog := if isRunning && p.backend == Xray && p.mode == Tun
                      then Some(if p.id in serviceResults then serviceResults[p.id] else []) else None;
      status := Status(p.id, isRunning, failover, watchdog);
    }

    /** The status of each profile, taken right after its own tick. */
    method Statuses(times: seq<int>) returns (statuses: seq<Status>)
      requires |times| == |profiles|
      modifies this
      ensures profiles == old(profiles) && running == old(running)
      ensures World() == TickFirst(old(World()), |profiles|, times)
      ensures |statuses| == |profiles|
      ensures forall k :: 0 <= k < |statuses| ==>
                statuses[k] == StatusOf(TickFirst(old(World()), k + 1, times), profiles[k], listed)
    {
      hide Tick, TickFirst, StatusOf;
      TickFirstNone(World(), times);
      statuses := [];
      for k := 0 to |profiles|
        invariant profiles == old(profiles) && running == old(running)
        invariant World() == TickFirst(old(World()), k, times)
        invariant |statuses| == k
        invariant forall j :: 0 <= j < k ==>
                    statuses[j] == StatusOf(TickFirst(old(World()), j + 1, times), profiles[j], listed)
      {
        var p := profiles[k];
        TickFirstNext(old(World()), k, times);
        TickServiceChecks(p, times[k]);
        var status := ShowProfile(p);
        statuses := statuses + [status];
      }
    }

    /** The status that a command answers with: the one of its own profile. */
    method StatusFor(id: string, times: seq<int>) returns (status: Status)
      requires |times| == |profiles| && Find(profiles, id).Some?
      modifies this
      ensures profiles == old(profiles) && running == old(running)
      ensures World() == TickFirst(old(World()), |profiles|, times)
      ensures status.profileId == id && status.running == (id in running)
      ensures id !in running ==> status.failover.None? && status.serviceChecks.None?
    {
      hide TickFirst, StatusOf, Find;
      var statuses := Statuses(times);
      forall k | 0 <= k < |statuses| ensures Shows(statuses[k], profiles[k].id, running) {
        StatusShows(TickFirst(old(World()), k + 1, times), profiles[k], listed);
      }
      status := FirstStatus(statuses, profiles, id);
    }

    method ConnectProfile(id: string, credentials: bool, now: int, times: seq<int>)
      returns (r: Result<Status, Error>)
      requires Allowed(World(), Connect(id, credentials, now, times))
      modifies this
      ensures World() == Next(old(World()), Connect(id, credentials, now, times))
      ensures r.Ok? == Step(old(World()), Connect(id, credentials, now, times)).Ok?
      ensures r.Err? ==> Step(old(World()), Connect(id, credentials, now, times)) == Err(r.error)
      ensures r.Ok? ==> r.value.profileId == id && r.value.running
    {
      hide TickFirst, Reset;
      var p := Find(profiles, id);
      if p.None? { return Err(NotFound); }
      if p.value.id in running { return Err(AlreadyRunning); }
      if p.value.backend == NoTunnel && !p.value.hasRoutes { return Err(NoRoutes); }
      if p.value.backend == OpenVpn && !credentials { return Err(CredentialsRequired); }
      running := running + {p.value.id};
      ghost var on := World();
      ResetServiceWorker(p.value, now);
      ResetFrame(on, p.value, now);
      var status := StatusFor(id, times);
      r := Ok(status);
    }

    method DisconnectProfile(id: string, times: seq<int>) returns (r: Result<Status, Error>)
      requires Allowed(World(), Disconnect(id, times))
      modifies this
      ensures World() == Next(old(World()), Disconnect(id, times))
      ensures r.Ok? == Step(old(World()), Disconnect(id, times)).Ok?
      ensures r.Err? ==> Step(old(World()), Disconnect(id, times)) == Err(r.error)
      ensures r.Ok? ==> r.value == Status(id, false, None, None)
    {
      hide TickFirst;
      var p := Find(profiles, id);
      if p.None? { return Err(NotFound); }
      running := running - {p.value.id};
      ClearServiceState(p.value.id);
      var status := StatusFor(id, times);
      r := Ok(status);
    }

    /** `prepared` is the form after the command filled in what its kind dictates. */
    method SaveProfile(kind: SaveKind, form: Profile, now: int) returns (r: Result<Profile, Error>, prepared: Profile)
      requires Ascending(clock, [now])
      modifies this
      ensures prepared.(configPath := form.configPath, socksPort := form.socksPort, httpPort := form.httpPort) == form
      ensures kind == PlainForm ==> prepared == form
      ensures kind == WireGuardForm && r.Ok? ==> prepared == form.(configPath := "/sandbox/" + form.id + ".conf")
      ensures kind == VlessForm && r.Ok? ==>
                prepared.configPath == "/sandbox/" + form.id + ".json"
                && exists port: nat :: FirstFreePair(UsedPorts(old(profiles), form.id), port)
                                  && prepared.socksPort == Some(port) && prepared.httpPort == Some(port + 1)
      ensures World() == Next(old(World()), Save(prepared, now))
      ensures r.Ok? == Step(old(World()), Save(prepared, now)).Ok?
      ensures r.Err? ==> Step(old(World()), Save(prepared, now)) == Err(r.error)
      ensures r.Ok? ==> profiles == Remove(old(profiles), form.id) + [r.value]
      ensures r.Ok? ==> KeepsOwned(r.value, Find(old(profiles), form.id), prepared)
    {
      hide ValidSpecs, Reset, Trim, UsedPorts, FirstFreePair, KeepsOwned;
      prepared := form;
      if form.id == "" || Trim(form.name) == "" { return Err(NameRequired), form; }
      var existing := Find(profiles, form.id);
      if existing.Some? && existing.value.id in running { return Err(MustDisconnect), form; }
      var p := Merged(form, existing);
      var ok := ValidateServiceSpecs(p, p.checks);
      if !ok { return Err(InvalidChecks), form; }
      if kind == VlessForm {
        p := p.(configPath := "/sandbox/" + p.id + ".json");
        p := AllocateProxyPorts(profiles, p);
      }
      if kind == WireGuardForm { p := p.(configPath := "/sandbox/" + p.id + ".conf"); }
      prepared := form.(configPath := p.configPath, socksPort := p.socksPort, httpPort := p.httpPort);
      assert p == Merged(prepared, existing);
      MergeKeepsOwned(prepared, existing);
      assert ValidSpecs(p, p.checks) by { SameSpecs(Merged(form, existing), p); }
      profiles := Remove(profiles, p.id) + [p];
      ghost var saved := World();
      ResetServiceWorker(p, now);
      ResetFrame(saved, p, now);
      r := Ok(p);
    }

    method DeleteProfile(id: string) returns (r: Result<seq<Profile>, Error>)
      requires Allowed(World(), Delete(id))
      modifies this
      ensures World() == Next(old(World()), Delete(id))
      ensures r.Ok? == Step(old(World()), Delete(id)).Ok?
      ensures r == if r.Ok? then Ok(profiles) else Err(Step(old(World()), Delete(id)).error)
    {
      var p := Find(profiles, id);
      if p.None? { return Err(NotFound); }
      if p.value.id in running { return Err(MustDisconnect); }
      ClearServiceState(p.value.id);
      profiles := Remove(profiles, p.value.id);
      r := Ok(profiles);
    }

    method SetPinnedRoutes(id: string, pins: seq<Pin>, now: int) returns (r: Result<seq<Profile>, Error>)
      requires Allowed(World(), SetPinned(id, pins, now))
      modifies this
      ensures World() == Next(old(World()), SetPinned(id, pins, now))
      ensures r.Ok? == Step(old(World()), SetPinned(id, pins, now)).Ok?
      ensures r == if r.Ok? then Ok(profiles) else Err(Step(old(World()), SetPinned(id, pins, now)).error)
      ensures r.Ok? ==> Find(profiles, id).Some? && PinsMarked(Find(profiles, id).value.pinned, pins, endpointKeys)
    {
      hide Reset, PinsMarked;
      var p := Find(profiles, id);
      if p.None? { return Err(NotFound); }
      if p.value.subscription.None? { return Err(NotSubscribed); }
      var q := p.value.(pinned := MarkMissing(pins, endpointKeys));
      MarkedExactly(pins, endpointKeys);
      FindUpdated(profiles, q, id);
      ghost var pinned := World().(profiles := Update(profiles, q));
      profiles := Update(profiles, q);
      ResetServiceWorker(q, now);
      ResetFrame(pinned, q, now);
      r := Ok(profiles);
    }

    method SetXrayServiceChecks(id: string, checks: seq<ServiceCheck>, now: int)
      returns (r: Result<seq<Profile>, Error>)
      requires Allowed(World(), SetChecks(id, checks, now))
      modifies this
      ensures World() == Next(old(World()), SetChecks(id, checks, now))
      ensures r.Ok? == Step(old(World()), SetChecks(id, checks, now)).Ok?
      ensures r == if r.Ok? then Ok(profiles) else Err(Step(old(World()), SetChecks(id, checks, now)).error)
    {
      hide Reset, ValidSpecs, Bindings;
      var p := Find(profiles, id);
      if p.None? { return Err(NotFound); }
      var ok := ValidateServiceSpecs(p.value, checks);
      if !ok { return Err(InvalidChecks); }
      var bound := Bindings(p.value);
      for k := 0 to |checks|
        invariant World() == old(World())
        invariant forall i :: 0 <= i < k ==>
                    checks[i].endpointKey in Bindings(p.value)
                    || exists j :: 0 <= j < |p.value.checks| && p.value.checks[j].id == checks[i].id
                                   && p.value.checks[j].endpointKey == checks[i].endpointKey
      {
        if checks[k].endpointKey !in bound
           && !exists j :: 0 <= j < |p.value.checks| && p.value.checks[j].id == checks[k].id
                           && p.value.checks[j].endpointKey == checks[k].endpointKey {
          return Err(NotPinned);
        }
      }
      var q := p.value.(checks := checks);
      profiles := Update(profiles, q);
      ResetServiceWorker(q, now);
      r := Ok(profiles);
    }

    /** The part of a manual run before its suspension point. */
    method BeginServiceChecks(id: string, ids: Option<set<string>>) returns (r: Result<Pending, Error>)
      ensures r.Ok? ==> exists p :: p in profiles && p.id == id
                                    && r.value == Pending(id, Selected(p.checks, ids), SnapshotOf(p))
      ensures r.Err? <==> Find(profiles, id).None? || UnknownSelection(Find(profiles, id).value.checks, ids)
    {
      var p := Find(profiles, id);
      if p.None? || UnknownSelection(p.value.checks, ids) { return Err(NotFound); }
      r := Ok(Pending(id, Selected(p.value.checks, ids), SnapshotOf(p.value)));
    }

    /** The part of a manual run after its suspension point. */
    method FinishServiceChecks(pending: Pending, now: int) returns (r: Result<seq<CheckResult>, Error>)
      requires Allowed(World(), FinishManual(pending, now))
      modifies this
      ensures World() == Next(old(World()), FinishManual(pending, now))
      ensures r.Ok? == Step(old(World()), FinishManual(pending, now)).Ok?
      ensures r.Err? ==> Step(old(World()), FinishManual(pending, now)) == Err(r.error)
      ensures r.Ok? ==> |r.value| == |pending.targets|
      ensures r.Ok? ==> forall k :: 0 <= k < |r.value| ==>
                          r.value[k].id == pending.targets[k].id && r.value[k].consecutiveFailures <= 1
                          && !r.value[k].degraded
    {
      hide SampledAll;
      if pending.targets == [] { return Ok([]); }
      var current := Find(profiles, pending.profileId);
      if current.None? || SnapshotOf(current.value) != pending.snapshot { return Err(ConfigChanged); }
      clock := now;
      ManualNeverDegrades(CountsOf(World(), current.value.id), current.value, pending.targets, now, endpointKeys);
      var results := SampleEach(current.value, pending.targets, Manual, now, []);
      r := Ok(results);
    }

    /** The three import commands: a profile with the defaults of its kind is appended. A
        free id makes it a step of the state machine; the source does not ask for one. */
    method ImportProfile(kind: ImportKind, name: string) returns (p: Profile)
      modifies this
      ensures profiles == old(profiles) + [p] && p.id == ImportId(kind, |old(profiles)|) && p.name == name
      ensures p.id == (if kind == ShareLink then "link-" else if kind == SubscriptionLink then "subscription-"
                       else "import-") + Numeral(|old(profiles)|)
      ensures p.checks == [] && p.pinned == [] && p.exits == [] && p.mode == Socks
      ensures kind == ConfigBatch ==> p.backend == WireGuard && p.socksPort.None? && p.httpPort.None?
      ensures kind != ConfigBatch ==>
                p.backend == Xray
                && exists port: nat :: FirstFreePair(UsedPorts(old(profiles), p.id), port)
                                  && p.socksPort == Some(port) && p.httpPort == Some(port + 1)
      ensures p.subscription == if kind == SubscriptionLink then FirstSubscription(old(profiles)) else None
      ensures Allowed(old(World()), AddImport(kind, p)) <==> Find(old(profiles), p.id).None?
      ensures Find(old(profiles), p.id).None? ==> World() == Next(old(World()), AddImport(kind, p))
    {
      hide Find, UsedPorts, FirstFreePair, ImportId;
      var id := ImportId(kind, |profiles|);
      ImportIdText(kind, |profiles|);
      var batch := kind == ConfigBatch;
      p := Profile(id, name, if batch then WireGuard else Xray, "/sandbox/" + id + (if batch then ".conf" else ".json"),
                   batch, Socks, None, [], None, [], [], None, None, None);
      if !batch { p := AllocateProxyPorts(profiles, p); }
      if kind == SubscriptionLink { p := p.(subscription := FirstSubscription(profiles)); }
      assert Imported(kind, p, profiles) == p;
      profiles := profiles + [p];
    }

    /** Rebuilding a pool changes one subscription record and no worker. */
    method RebuildSubscriptionNodePool(id: string) returns (r: Option<NodePool.Report>)
      modifies this
      ensures var p := Find(old(profiles), id);
              if p.None? || NodePool.Rebuilt(p.value, listed).None? then r.None? && World() == old(World())
              else var built := NodePool.Rebuilt(p.value, listed).value;
                   r == Some(built.1)
                   && Allowed(old(World()), SetSubscription(id, built.0))
                   && World() == Next(old(World()), SetSubscription(id, built.0))
    {
      hide NodePool.Rebuilt, Update;
      var p := Find(profiles, id);
      if p.None? { return None; }
      var built := NodePool.RebuildPool(p.value, listed);
      if built.None? { return None; }
      profiles := Update(profiles, p.value.(subscription := Some(built.value.0)));
      r := Some(built.value.1);
    }
  }

  lemma SampledKeepsAttempts(m: Counts, p: Profile, check: ServiceCheck, channel: Channel, now: int,
                             previous: Option<CheckResult>, keys: seq<string>)
    ensures Sampled(m, p, check, channel, now, previous, keys).0 == map[] ==> m == map[]
  {
  }

  /** A chain is shown for a running profile exactly when some node besides the active one can
      carry its traffic: a backup, a pool member, a pin or a DNS egress. */
  lemma ChainShownExactly(w: World, p: Profile, listed: seq<NodePool.Listed>)
    ensures StatusOf(w, p, listed).failover.Some? <==>
            p.id in w.running && p.subscription.Some?
            && (p.subscription.value.backupKeys != [] || NodePool.PoolMembers(p, listed) != [] || p.pinned != []
                || (p.dnsKey.Some? && p.dnsKey != Some("")))
    ensures StatusOf(w, p, listed).failover.Some? ==>
              StatusOf(w, p, listed).failover.value == NodePool.StatusChain(p, listed)
    ensures StatusOf(w, p, listed).serviceChecks.Some? <==> p.id in w.running && p.backend == Xray && p.mode == Tun
  {
    hide NodePool.StatusChain, NodePool.PoolMembers;
  }

  /** The status speaks of the profile `id`, and of a stopped one shows nothing else. */
  ghost predicate Shows(s: Status, id: string, running: set<string>) {
    s.profileId == id && s.running == (id in running)
    && (id !in running ==> s.failover.None? && s.serviceChecks.None?)
  }

  lemma StatusShows(w: World, p: Profile, listed: seq<NodePool.Listed>)
    ensures Shows(StatusOf(w, p, listed), p.id, w.running)
  {
  }
}
