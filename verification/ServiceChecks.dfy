/** Background and manual service checks of src/sandbox/backend.ts, as functions on the
    backend's state. `World` holds the backend's fields together with three history
    components that no command reads: the clock, the background samples taken so far,
    and the outcomes of each profile's rounds since its last reset. */
module ServiceChecks {
  import opened Prelude
  import opened Text
  import opened SandboxTypes
  import opened ImportIds

  datatype Outcome = Http | Timeout | TlsError | TransportError | Unavailable
  datatype Channel = Manual | Background
  datatype AttemptKey = AttemptKey(channel: Channel, check: string)
  type Counts = map<AttemptKey, nat>

  datatype CheckResult = CheckResult(id: string, name: string, endpointKey: string, outcome: Outcome,
                                     httpStatus: Option<nat>, latencyMs: Option<nat>, checkedAtUnix: int,
                                     consecutiveFailures: nat, degraded: bool)

  const INTERVAL: int := 60_000
  const OUTCOMES: seq<Outcome> := [Http, Http, Http, Timeout, TlsError, TransportError, Http]
  const STATUSES: seq<Option<nat>> := [Some(204), Some(403), Some(503), None, None, None, Some(302)]

  // ----- check definitions ----------------------------------------------

  predicate IdChar(c: char) {
    'a' <= c <= 'z' || 'A' <= c <= 'Z' || IsDigit(c) || c == '_' || c == '-'
  }

  predicate HexChar(c: char) {
    IsDigit(c) || 'a' <= c <= 'f'
  }

  /** The authority of an address text: what stands between "://" and the next / or ?. */
  function Authority(url: string): string {
    if url == [] || url[0] in {'/', '?', '#'} then [] else [url[0]] + Authority(url[1..])
  }

  predicate UrlOk(url: string) {
    |url| <= 2048 && StartsWith(url, "https://") && '#' !in url && '\\' !in url
    && (forall c :: c in url ==> !IsSpace(c))
    && Authority(url[8..]) != [] && '@' !in Authority(url[8..])
  }

  predicate SpecOk(check: ServiceCheck) {
    1 <= |check.id| <= 64 && (forall c :: c in check.id ==> IdChar(c))
    && Trim(check.name) != "" && |check.name| <= 80
    && (forall c :: c in check.name ==> c >= ' ' && !('\U{7F}' <= c <= '\U{9F}'))
    && UrlOk(check.url)
    && |check.endpointKey| == 16 && forall c :: c in check.endpointKey ==> HexChar(c)
  }

  ghost predicate DistinctChecks(checks: seq<ServiceCheck>) {
    forall i, j :: 0 <= i < j < |checks| ==> checks[i].id != checks[j].id
  }

  /** The settings a profile may store. */
  ghost predicate ValidSpecs(p: Profile, checks: seq<ServiceCheck>) {
    |checks| <= 16 && (checks != [] ==> p.backend == Xray && p.subscription.Some?)
    && DistinctChecks(checks) && forall i :: 0 <= i < |checks| ==> SpecOk(checks[i])
  }

  method ValidateServiceSpecs(p: Profile, checks: seq<ServiceCheck>) returns (ok: bool)
    ensures ok == ValidSpecs(p, checks)
  {
    hide SpecOk;
    if |checks| > 16 { return false; }
    if |checks| > 0 && (p.backend != Xray || p.subscription.None?) { return false; }
    var ids: set<string> := {};
    for k := 0 to |checks|
      invariant ids == set i | 0 <= i < k :: checks[i].id
      invariant forall i, j :: 0 <= i < j < k ==> checks[i].id != checks[j].id
      invariant forall i :: 0 <= i < k ==> SpecOk(checks[i])
    {
      if checks[k].id in ids || !SpecOk(checks[k]) { return false; }
      ids := ids + {checks[k].id};
    }
    return true;
  }

  function BackgroundOf(checks: seq<ServiceCheck>): (r: seq<ServiceCheck>)
    ensures forall c :: c in r <==> c in checks && c.background
  {
    if checks == [] then []
    else
      var rest, last := BackgroundOf(checks[..|checks| - 1]), checks[|checks| - 1];
      assert checks == checks[..|checks| - 1] + [last];
      if last.background then rest + [last] else rest
  }

  lemma {:induction false} BackgroundDistinct(checks: seq<ServiceCheck>)
    requires DistinctChecks(checks)
    ensures DistinctChecks(BackgroundOf(checks))
    decreases |checks|
  {
    if checks != [] {
      var front, last := checks[..|checks| - 1], checks[|checks| - 1];
      BackgroundDistinct(front);
      forall c | c in BackgroundOf(front) ensures c.id != last.id {
        var i :| 0 <= i < |front| && front[i] == c;
        assert checks[i] == c;
      }
    }
  }

  // ----- one sample -----------------------------------------------------

  function Bindings(p: Profile): set<string> {
    (set i | 0 <= i < |p.pinned| && p.pinned[i].endpointKey != "" :: p.pinned[i].endpointKey)
    + (if p.dnsKey.Some? && p.dnsKey.value != "" then {p.dnsKey.value} else {})
  }

  predicate Available(p: Profile, check: ServiceCheck, keys: seq<string>) {
    p.backend == Xray && p.subscription.Some? && check.endpointKey in Bindings(p) && check.endpointKey in keys
  }

  function CountOf(m: Counts, key: AttemptKey): nat {
    if key in m then m[key] else 0
  }

  predicate IsFailure(o: Outcome) {
    o != Http && o != Unavailable
  }

  /** The result of a sample that is the `attempt`-th of its kind. */
  function Observation(check: ServiceCheck, available: bool, attempt: nat, now: int, previous: Option<CheckResult>)
    : CheckResult
  {
    var index := attempt % 7;
    var outcome := if available then OUTCOMES[index] else Unavailable;
    var failures := if !IsFailure(outcome) then 0
                    else (if previous.Some? then previous.value.consecutiveFailures else 0) + 1;
    CheckResult(check.id, check.name, check.endpointKey, outcome,
                if available then STATUSES[index] else None,
                if outcome == Http then Some(42 + index * 7) else None,
                now / 1000, failures, failures >= 3)
  }

  /** The counts after a sample, and its result. */
  function Sampled(m: Counts, p: Profile, check: ServiceCheck, channel: Channel, now: int,
                   previous: Option<CheckResult>, keys: seq<string>): (Counts, CheckResult)
  {
    var key := AttemptKey(channel, check.id);
    (if Available(p, check, keys) then m[key := CountOf(m, key) + 1] else m,
     Observation(check, Available(p, check, keys), CountOf(m, key), now, previous))
  }

  function FindResult(results: seq<CheckResult>, check: ServiceCheck): Option<CheckResult> {
    if results == [] then None
    else if results[0].id == check.id && results[0].endpointKey == check.endpointKey then Some(results[0])
    else FindResult(results[1..], check)
  }

  /** Samples of a list of checks, taken one after another. */
  function SampledAll(m: Counts, p: Profile, checks: seq<ServiceCheck>, channel: Channel, now: int,
                      previous: seq<CheckResult>, keys: seq<string>): (r: (Counts, seq<CheckResult>))
    ensures |r.1| == |checks|
  {
    if checks == [] then (m, [])
    else
      var front := SampledAll(m, p, checks[..|checks| - 1], channel, now, previous, keys);
      var last := checks[|checks| - 1];
      var s := Sampled(front.0, p, last, channel, now, FindResult(previous, last), keys);
      (s.0, front.1 + [s.1])
  }

  lemma SampledAllNext(m: Counts, p: Profile, checks: seq<ServiceCheck>, k: nat, channel: Channel, now: int,
                       previous: seq<CheckResult>, keys: seq<string>)
    requires k < |checks|
    ensures var front := SampledAll(m, p, checks[..k], channel, now, previous, keys);
            var s := Sampled(front.0, p, checks[k], channel, now, FindResult(previous, checks[k]), keys);
            SampledAll(m, p, checks[..k + 1], channel, now, previous, keys) == (s.0, front.1 + [s.1])
  {
    hide Sampled, FindResult;
    assert checks[..k + 1][..k] == checks[..k];
  }

  lemma SampledAllNone(m: Counts, p: Profile, channel: Channel, now: int, previous: seq<CheckResult>, keys: seq<string>)
    ensures SampledAll(m, p, [], channel, now, previous, keys) == (m, [])
  {
  }

  // ----- the backend's state --------------------------------------------

  datatype Sample = Sample(profile: string, time: int)

  datatype World = World(endpointKeys: seq<string>, profiles: seq<Profile>, running: set<string>,
                         due: map<string, int>, results: map<string, seq<CheckResult>>,
                         attempts: map<string, Counts>,
                         clock: int, samples: seq<Sample>, rounds: map<string, seq<seq<Outcome>>>)

  function CountsOf(w: World, id: string): Counts {
    if id in w.attempts then w.attempts[id] else map[]
  }

  function RoundsOf(w: World, id: string): seq<seq<Outcome>> {
    if id in w.rounds then w.rounds[id] else []
  }

  function ResultsOf(w: World, id: string): seq<CheckResult> {
    if id in w.results then w.results[id] else []
  }

  predicate Eligible(p: Profile) {
    p.backend == Xray && p.subscription.Some? && p.mode == Tun
  }

  predicate HasBackground(p: Profile) {
    exists i :: 0 <= i < |p.checks| && p.checks[i].background
  }

  function Cleared(w: World, id: string): World {
    w.(due := w.due - {id}, results := w.results - {id}, attempts := w.attempts - {id}, rounds := w.rounds - {id})
  }

  function Reset(w: World, p: Profile, now: int): World {
    var c := Cleared(w, p.id).(clock := now);
    if p.id in w.running && Eligible(p) && HasBackground(p) then c.(due := c.due[p.id := now + INTERVAL]) else c
  }

  function OutcomesOf(results: seq<CheckResult>): (r: seq<Outcome>)
    ensures |r| == |results| && forall i :: 0 <= i < |r| ==> r[i] == results[i].outcome
  {
    seq(|results|, i requires 0 <= i < |results| => results[i].outcome)
  }

  /** The attempts map after sampling left profile `id` with counts `m`. */
  function WithCounts(attempts: map<string, Counts>, id: string, m: Counts): map<string, Counts> {
    if id !in attempts && m == map[] then attempts else attempts[id := m]
  }

  function Tick(w: World, p: Profile, now: int): World {
    if p.id !in w.due || now < w.due[p.id] then w.(clock := now)
    else if p.id !in w.running || !Eligible(p) then
      w.(clock := now, due := w.due - {p.id}, results := w.results - {p.id}, rounds := w.rounds - {p.id})
    else
      var s := SampledAll(CountsOf(w, p.id), p, BackgroundOf(p.checks), Background, now, ResultsOf(w, p.id),
                          w.endpointKeys);
      w.(clock := now, due := w.due[p.id := now + INTERVAL], results := w.results[p.id := s.1],
         attempts := WithCounts(w.attempts, p.id, s.0),
         samples := w.samples + [Sample(p.id, now)],
         rounds := w.rounds[p.id := RoundsOf(w, p.id) + [OutcomesOf(s.1)]])
  }

  /** A status poll ticks the profiles in order, reading the clock once for each. */
  function TickFirst(w: World, n: nat, times: seq<int>): (r: World)
    requires n <= |w.profiles| && |times| == |w.profiles|
    ensures r.profiles == w.profiles && r.running == w.running && r.endpointKeys == w.endpointKeys
  {
    if n == 0 then w else Tick(TickFirst(w, n - 1, times), w.profiles[n - 1], times[n - 1])
  }

  lemma TickFirstNone(w: World, times: seq<int>)
    requires |times| == |w.profiles|
    ensures TickFirst(w, 0, times) == w
  {
  }

  lemma TickFirstNext(w: World, k: nat, times: seq<int>)
    requires k < |w.profiles| && |times| == |w.profiles|
    ensures TickFirst(w, k + 1, times) == Tick(TickFirst(w, k, times), w.profiles[k], times[k])
  {
  }

  // ----- commands -------------------------------------------------------

  datatype Error = NotFound | AlreadyRunning | NoRoutes | CredentialsRequired | NameRequired | MustDisconnect
                 | InvalidChecks | NotPinned | NotSubscribed | NotXray | Refused | ConfigChanged

  /** What a manual run remembers across its suspension point. */
  datatype Snapshot = Snapshot(backend: Backend, configPath: string, checks: seq<ServiceCheck>, pinned: seq<Pin>,
                               dnsKey: Option<string>, sockopts: Option<string>, activeKey: Option<string>)
  datatype Pending = Pending(profileId: string, targets: seq<ServiceCheck>, snapshot: Snapshot)

  function SnapshotOf(p: Profile): Snapshot {
    Snapshot(p.backend, p.configPath, p.checks, p.pinned, p.dnsKey, p.sockopts,
             if p.subscription.Some? then p.subscription.value.activeKey else None)
  }

  datatype Command =
    | Connect(id: string, credentials: bool, now: int, times: seq<int>)
    | Disconnect(id: string, times: seq<int>)
    | Save(profile: Profile, now: int)
    | Delete(id: string)
    | SetPinned(id: string, pins: seq<Pin>, now: int)
    | SetChecks(id: string, checks: seq<ServiceCheck>, now: int)
    | Poll(times: seq<int>)
    | FinishManual(pending: Pending, now: int)
    | SetSubscription(id: string, subscription: Subscription)
    | AddImport(kind: ImportKind, profile: Profile)
    | Migrate(id: string, refused: bool, pins: seq<Pin>, dnsKey: Option<string>, sockopts: Option<string>,
              backups: seq<Node>)

  /** A form save keeps what dedicated commands own: subscription, pins, and for an Xray
      profile its exits and checks. */
  function Merged(p: Profile, existing: Option<Profile>): Profile {
    var wasXray := existing.Some? && existing.value.backend == Xray;
    p.(subscription := if existing.Some? && existing.value.subscription.Some? then existing.value.subscription
                       else p.subscription,
       pinned := if existing.Some? then existing.value.pinned else p.pinned,
       exits := if p.backend != Xray then [] else if wasXray then existing.value.exits else p.exits,
       checks := if p.backend != Xray then [] else if wasXray then existing.value.checks else p.checks)
  }

  /** An accepted policy migration: it resets no worker, which is sound only because
      it demands a stopped profile. */
  function Migrated(p: Profile, pins: seq<Pin>, dnsKey: Option<string>, sockopts: Option<string>,
                    backups: seq<Node>): Profile
  {
    if p.subscription.None? then p.(dnsKey := None, sockopts := sockopts)
    else p.(pinned := pins, dnsKey := dnsKey, sockopts := sockopts,
            subscription := Some(p.subscription.value.(backupKeys := backups)))
  }

  function MarkMissing(pins: seq<Pin>, keys: seq<string>): seq<Pin> {
    seq(|pins|, i requires 0 <= i < |pins| => pins[i].(missing := pins[i].endpointKey !in keys))
  }

  ghost predicate BoundOrKept(p: Profile, checks: seq<ServiceCheck>) {
    forall i :: 0 <= i < |checks| ==>
      checks[i].endpointKey in Bindings(p)
      || exists j :: 0 <= j < |p.checks| && p.checks[j].id == checks[i].id
                     && p.checks[j].endpointKey == checks[i].endpointKey
  }

  /** The clock readings a command takes, in order. */
  function Readings(cmd: Command): seq<int> {
    match cmd
    case Connect(_, _, now, times) => [now] + times
    case Disconnect(_, times) => times
    case Save(_, now) => [now]
    case SetPinned(_, _, now) => [now]
    case SetChecks(_, _, now) => [now]
    case Poll(times) => times
    case FinishManual(_, now) => [now]
    case _ => []
  }

  predicate Ascending(from: int, times: seq<int>)
    decreases |times|
  {
    times == [] || (from <= times[0] && Ascending(times[0], times[1..]))
  }

  /** The profile as an import appends it: without checks, under the id it builds. */
  function Imported(kind: ImportKind, p: Profile, profiles: seq<Profile>): Profile {
    p.(id := ImportId(kind, |profiles|), checks := [])
  }

  /** The command reads a clock that never goes back, once per profile when it polls, and
      the id that an import builds is free. */
  ghost predicate Allowed(w: World, cmd: Command) {
    Ascending(w.clock, Readings(cmd)) &&
    (cmd.Connect? || cmd.Disconnect? || cmd.Poll? ==> |cmd.times| == |w.profiles|) &&
    (cmd.AddImport? ==> Find(w.profiles, ImportId(cmd.kind, |w.profiles|)).None?)
  }

  /** What a command does, or the error it throws before changing anything. */
  ghost function Step(w: World, cmd: Command): Result<World, Error>
    requires Allowed(w, cmd)
  {
    match cmd
    case Connect(id, credentials, now, times) =>
      var p := Find(w.profiles, id);
      if p.None? then Err(NotFound)
      else if id in w.running then Err(AlreadyRunning)
      else if p.value.backend == NoTunnel && !p.value.hasRoutes then Err(NoRoutes)
      else if p.value.backend == OpenVpn && !credentials then Err(CredentialsRequired)
      else Ok(TickFirst(Reset(w.(running := w.running + {id}), p.value, now), |w.profiles|, times))
    case Disconnect(id, times) =>
      var p := Find(w.profiles, id);
      if p.None? then Err(NotFound)
      else Ok(TickFirst(Cleared(w.(running := w.running - {id}), id), |w.profiles|, times))
    case Save(profile, now) =>
      var existing := Find(w.profiles, profile.id);
      var p := Merged(profile, existing);
      if profile.id == "" || Trim(profile.name) == "" then Err(NameRequired)
      else if existing.Some? && profile.id in w.running then Err(MustDisconnect)
      else if !ValidSpecs(p, p.checks) then Err(InvalidChecks)
      else Ok(Reset(w.(profiles := Remove(w.profiles, p.id) + [p]), p, now))
    case Delete(id) =>
      var p := Find(w.profiles, id);
      if p.None? then Err(NotFound)
      else if id in w.running then Err(MustDisconnect)
      else Ok(Cleared(w, id).(profiles := Remove(w.profiles, id)))
    case SetPinned(id, pins, now) =>
      var p := Find(w.profiles, id);
      if p.None? then Err(NotFound)
      else if p.value.subscription.None? then Err(NotSubscribed)
      else
        var q := p.value.(pinned := MarkMissing(pins, w.endpointKeys));
        Ok(Reset(w.(profiles := Update(w.profiles, q)), q, now))
    case SetChecks(id, checks, now) =>
      var p := Find(w.profiles, id);
      if p.None? then Err(NotFound)
      else if !ValidSpecs(p.value, checks) then Err(InvalidChecks)
      else if !BoundOrKept(p.value, checks) then Err(NotPinned)
      else
        var q := p.value.(checks := checks);
        Ok(Reset(w.(profiles := Update(w.profiles, q)), q, now))
    case Poll(times) => Ok(TickFirst(w, |w.profiles|, times))
    case FinishManual(pending, now) =>
      if pending.targets == [] then Ok(w)
      else
        var p := Find(w.profiles, pending.profileId);
        if p.None? || SnapshotOf(p.value) != pending.snapshot then Err(ConfigChanged)
        else
          var s := SampledAll(CountsOf(w, p.value.id), p.value, pending.targets, Manual, now, [], w.endpointKeys);
          Ok(w.(clock := now, attempts := WithCounts(w.attempts, p.value.id, s.0)))
    case SetSubscription(id, subscription) =>
      var p := Find(w.profiles, id);
      if p.None? then Err(NotFound)
      else if p.value.subscription.None? then Err(NotSubscribed)
      else Ok(w.(profiles := Update(w.profiles, p.value.(subscription := Some(subscription)))))
    case AddImport(kind, profile) => Ok(w.(profiles := w.profiles + [Imported(kind, profile, w.profiles)]))
    case Migrate(id, refused, pins, dnsKey, sockopts, backups) =>
      var p := Find(w.profiles, id);
      if p.None? then Err(NotFound)
      else if id in w.running then Err(MustDisconnect)
      else if p.value.backend != Xray then Err(NotXray)
      else if refused then Err(Refused)
      else Ok(w.(profiles := Update(w.profiles, Migrated(p.value, pins, dnsKey, sockopts, backups))))
  }

  ghost function Next(w: World, cmd: Command): World
    requires Allowed(w, cmd)
  {
    var r := Step(w, cmd);
    if r.Ok? then r.value else w
  }

  // ----- what every run keeps -------------------------------------------

  /** All the backend knows about one profile id. */
  datatype Slot = Slot(profile: Option<Profile>, running: bool, due: Option<int>,
                       results: Option<seq<CheckResult>>, counts: Counts, rounds: seq<seq<Outcome>>)

  ghost function SlotOf(w: World, id: string): Slot {
    Slot(Find(w.profiles, id), id in w.running,
         if id in w.due then Some(w.due[id]) else None,
         if id in w.results then Some(w.results[id]) else None,
         CountsOf(w, id), RoundsOf(w, id))
  }

  /** The length of the final run of failures of check `k`, over the rounds since the reset. */
  ghost function Trailing(rounds: seq<seq<Outcome>>, k: nat): nat
    requires forall r :: 0 <= r < |rounds| ==> k < |rounds[r]|
  {
    if rounds == [] || !IsFailure(rounds[|rounds| - 1][k]) then 0
    else 1 + Trailing(rounds[..|rounds| - 1], k)
  }

  /** The outcome of check `c` in the `r`-th round after a reset: the `r`-th entry of the
      outcome cycle, whatever manual runs happen in between. */
  ghost function Expected(p: Profile, c: ServiceCheck, r: nat, keys: seq<string>): Outcome {
    if Available(p, c, keys) then OUTCOMES[r % 7] else Unavailable
  }

  ghost predicate RoundsRight(p: Profile, rounds: seq<seq<Outcome>>, keys: seq<string>) {
    var bg := BackgroundOf(p.checks);
    forall r :: 0 <= r < |rounds| ==>
      |rounds[r]| == |bg| && forall k :: 0 <= k < |bg| ==> rounds[r][k] == Expected(p, bg[k], r, keys)
  }

  /** The shown result of background check `c`, the `k`-th, says what the rounds say. */
  ghost predicate ResultAt(c: ServiceCheck, result: CheckResult, rounds: seq<seq<Outcome>>, k: nat) {
    && rounds != [] && (forall r :: 0 <= r < |rounds| ==> k < |rounds[r]|)
    && result.id == c.id && result.name == c.name && result.endpointKey == c.endpointKey
    && (result.httpStatus.Some? <==> result.outcome == Http) && (result.latencyMs.Some? <==> result.outcome == Http)
    && result.outcome == rounds[|rounds| - 1][k]
    && result.consecutiveFailures == Trailing(rounds, k)
    && result.degraded == (Trailing(rounds, k) >= 3)
  }

  ghost predicate ResultsRight(p: Profile, results: seq<CheckResult>, rounds: seq<seq<Outcome>>) {
    var bg := BackgroundOf(p.checks);
    rounds != [] && |results| == |bg| && forall k :: 0 <= k < |bg| ==> ResultAt(bg[k], results[k], rounds, k)
  }

  ghost predicate CountsRight(p: Profile, counts: Counts, n: nat, keys: seq<string>) {
    forall c :: c in BackgroundOf(p.checks) ==>
      CountOf(counts, AttemptKey(Background, c.id)) == if Available(p, c, keys) then n else 0
  }

  /** A due time belongs to a running, subscribed, TUN-mode Xray profile with a background
      check; results exist only with a due time, and say what the rounds since the last
      reset say. */
  ghost predicate Healthy(s: Slot, keys: seq<string>) {
    && (s.profile.Some? ==> ValidSpecs(s.profile.value, s.profile.value.checks))
    && (s.running ==> s.profile.Some?)
    && (s.due.Some? ==> s.running && s.profile.Some? && Eligible(s.profile.value) && HasBackground(s.profile.value))
    && (s.results.Some? ==> s.due.Some? && ResultsRight(s.profile.value, s.results.value, s.rounds))
    && (s.results.None? ==> s.rounds == [])
    && (s.due.None? ==> forall c :: CountOf(s.counts, AttemptKey(Background, c)) == 0)
    && (s.due.Some? ==> CountsRight(s.profile.value, s.counts, |s.rounds|, keys)
                        && RoundsRight(s.profile.value, s.rounds, keys))
  }

  /** Background samples of one profile are at least an interval apart, and the next due
      time is at least an interval after the last. */
  ghost predicate Spaced(w: World) {
    && (forall i :: 0 <= i < |w.samples| ==> w.samples[i].time <= w.clock)
    && (forall i :: 0 <= i < |w.samples| && w.samples[i].profile in w.due ==>
          w.samples[i].time + INTERVAL <= w.due[w.samples[i].profile])
    && (forall i, j :: 0 <= i < j < |w.samples| && w.samples[i].profile == w.samples[j].profile ==>
          w.samples[i].time + INTERVAL <= w.samples[j].time)
  }

  ghost predicate Inv(w: World) {
    && DistinctIds(w.profiles)
    && (forall id :: Healthy(SlotOf(w, id), w.endpointKeys))
    && Spaced(w)
  }

  // ----- sampling -------------------------------------------------------

  /** What one sample of a check reports, given the counts before the round. */
  ghost predicate Reports(m: Counts, p: Profile, c: ServiceCheck, channel: Channel, previous: seq<CheckResult>,
                          keys: seq<string>, r: CheckResult)
  {
    var before := FindResult(previous, c);
    && r.id == c.id && r.name == c.name && r.endpointKey == c.endpointKey
    && (r.httpStatus.Some? <==> r.outcome == Http) && (r.latencyMs.Some? <==> r.outcome == Http)
    && r.outcome == (if Available(p, c, keys) then OUTCOMES[CountOf(m, AttemptKey(channel, c.id)) % 7] else Unavailable)
    && r.consecutiveFailures == (if !IsFailure(r.outcome) then 0
                                 else 1 + if before.Some? then before.value.consecutiveFailures else 0)
    && r.degraded == (r.consecutiveFailures >= 3)
  }

  /** Checks with another id leave a count alone. */
  lemma {:induction false} RoundMisses(m: Counts, p: Profile, checks: seq<ServiceCheck>, channel: Channel, now: int,
                                       previous: seq<CheckResult>, keys: seq<string>, check: string)
    requires forall k :: 0 <= k < |checks| ==> checks[k].id != check
    ensures CountOf(SampledAll(m, p, checks, channel, now, previous, keys).0, AttemptKey(channel, check)) ==
            CountOf(m, AttemptKey(channel, check))
    decreases |checks|
  {
    hide FindResult, Sampled, CountOf;
    if checks != [] {
      var front, last := checks[..|checks| - 1], checks[|checks| - 1];
      RoundMisses(m, p, front, channel, now, previous, keys, check);
      SampleMisses(SampledAll(m, p, front, channel, now, previous, keys).0, p, last, channel, now,
                   FindResult(previous, last), keys, AttemptKey(channel, check));
    }
  }

  lemma SampleReports(m: Counts, p: Profile, c: ServiceCheck, channel: Channel, now: int, previous: seq<CheckResult>,
                      keys: seq<string>)
    ensures Reports(m, p, c, channel, previous, keys, Sampled(m, p, c, channel, now, FindResult(previous, c), keys).1)
    ensures CountOf(Sampled(m, p, c, channel, now, FindResult(previous, c), keys).0, AttemptKey(channel, c.id)) ==
            CountOf(m, AttemptKey(channel, c.id)) + if Available(p, c, keys) then 1 else 0
  {
    hide Available, FindResult;
  }

  lemma SampleMisses(m: Counts, p: Profile, c: ServiceCheck, channel: Channel, now: int, previous: Option<CheckResult>,
                     keys: seq<string>, key: AttemptKey)
    requires key != AttemptKey(channel, c.id)
    ensures CountOf(Sampled(m, p, c, channel, now, previous, keys).0, key) == CountOf(m, key)
  {
  }

  lemma ReportsSameCount(m: Counts, n: Counts, p: Profile, c: ServiceCheck, channel: Channel,
                         previous: seq<CheckResult>, keys: seq<string>, r: CheckResult)
    requires CountOf(m, AttemptKey(channel, c.id)) == CountOf(n, AttemptKey(channel, c.id))
    requires Reports(m, p, c, channel, previous, keys, r)
    ensures Reports(n, p, c, channel, previous, keys, r)
  {
  }

  lemma {:induction false} RoundReports(m: Counts, p: Profile, checks: seq<ServiceCheck>, channel: Channel, now: int,
                                        previous: seq<CheckResult>, keys: seq<string>, k: nat)
    requires DistinctChecks(checks) && k < |checks|
    ensures Reports(m, p, checks[k], channel, previous, keys,
                    SampledAll(m, p, checks, channel, now, previous, keys).1[k])
    ensures CountOf(SampledAll(m, p, checks, channel, now, previous, keys).0, AttemptKey(channel, checks[k].id)) ==
            CountOf(m, AttemptKey(channel, checks[k].id)) + if Available(p, checks[k], keys) then 1 else 0
    decreases |checks|
  {
    hide Available, FindResult, Sampled, CountOf, Reports;
    var n := |checks| - 1;
    var front, last := checks[..n], checks[n];
    var mid := SampledAll(m, p, front, channel, now, previous, keys);
    if k < n {
      assert front[k] == checks[k] && checks[k].id != last.id;
      RoundReports(m, p, front, channel, now, previous, keys, k);
      SampleMisses(mid.0, p, last, channel, now, FindResult(previous, last), keys, AttemptKey(channel, checks[k].id));
    } else {
      RoundMisses(m, p, front, channel, now, previous, keys, last.id);
      SampleReports(mid.0, p, last, channel, now, previous, keys);
      ReportsSameCount(mid.0, m, p, last, channel, previous, keys,
                       Sampled(mid.0, p, last, channel, now, FindResult(previous, last), keys).1);
    }
  }

  /** Sampling in one channel leaves the counts of the other alone. */
  lemma {:induction false} OtherChannelKept(m: Counts, p: Profile, checks: seq<ServiceCheck>, now: int,
                                            keys: seq<string>, check: string)
    ensures CountOf(SampledAll(m, p, checks, Manual, now, [], keys).0, AttemptKey(Background, check)) ==
            CountOf(m, AttemptKey(Background, check))
    decreases |checks|
  {
    hide Sampled, CountOf;
    if checks != [] {
      var front, last := checks[..|checks| - 1], checks[|checks| - 1];
      OtherChannelKept(m, p, front, now, keys, check);
      SampleMisses(SampledAll(m, p, front, Manual, now, [], keys).0, p, last, Manual, now,
                   FindResult([], last), keys, AttemptKey(Background, check));
    }
  }

  lemma {:induction false} FindResultAt(results: seq<CheckResult>, bg: seq<ServiceCheck>, k: nat)
    requires |results| == |bg| && DistinctChecks(bg) && k < |bg|
    requires forall i :: 0 <= i < |bg| ==> results[i].id == bg[i].id && results[i].endpointKey == bg[i].endpointKey
    ensures FindResult(results, bg[k]) == Some(results[k])
    decreases |results|
  {
    if k > 0 {
      assert bg[0].id != bg[k].id;
      FindResultAt(results[1..], bg[1..], k - 1);
    }
  }

  /** The slot of a profile after a round of background samples. */
  ghost function RoundSlot(s: Slot, now: int, keys: seq<string>): Slot
    requires s.profile.Some?
  {
    var p := s.profile.value;
    var r := SampledAll(s.counts, p, BackgroundOf(p.checks), Background, now,
                        if s.results.Some? then s.results.value else [], keys);
    s.(due := Some(now + INTERVAL), results := Some(r.1), counts := r.0, rounds := s.rounds + [OutcomesOf(r.1)])
  }

  /** One check of a round: its outcome is the expected one, its failure count the
      trailing run, and its attempt count one more. */
  lemma RoundAt(s: Slot, now: int, keys: seq<string>, k: nat)
    requires Healthy(s, keys) && s.due.Some? && k < |BackgroundOf(s.profile.value.checks)|
    ensures |RoundSlot(s, now, keys).results.value| == |BackgroundOf(s.profile.value.checks)|
    ensures RoundSlot(s, now, keys).results.value[k].outcome ==
            Expected(s.profile.value, BackgroundOf(s.profile.value.checks)[k], |s.rounds|, keys)
    ensures ResultAt(BackgroundOf(s.profile.value.checks)[k], RoundSlot(s, now, keys).results.value[k],
                     RoundSlot(s, now, keys).rounds, k)
    ensures CountOf(RoundSlot(s, now, keys).counts,
                    AttemptKey(Background, BackgroundOf(s.profile.value.checks)[k].id)) ==
            if Available(s.profile.value, BackgroundOf(s.profile.value.checks)[k], keys) then |s.rounds| + 1 else 0
  {
    hide Available, SampledAll, BackgroundOf, ValidSpecs, FindResult, Trailing, ResultsRight;
    var p := s.profile.value;
    var bg := BackgroundOf(p.checks);
    var previous := if s.results.Some? then s.results.value else [];
    var t := RoundSlot(s, now, keys);
    ValidDistinct(p);
    BackgroundDistinct(p.checks);
    RoundReports(s.counts, p, bg, Background, now, previous, keys, k);
    assert bg[k] in bg;
    PreviousAt(s, keys, k);
    TrailingGrows(s.rounds, t.rounds[|s.rounds|], k);
  }

  lemma ValidDistinct(p: Profile)
    requires ValidSpecs(p, p.checks)
    ensures DistinctChecks(p.checks)
  {
  }

  lemma TrailingGrows(rounds: seq<seq<Outcome>>, outs: seq<Outcome>, k: nat)
    requires k < |outs| && forall r :: 0 <= r < |rounds| ==> k < |rounds[r]|
    ensures forall r :: 0 <= r < |rounds + [outs]| ==> k < |(rounds + [outs])[r]|
    ensures Trailing(rounds + [outs], k) == if !IsFailure(outs[k]) then 0 else 1 + Trailing(rounds, k)
  {
  }

  /** The previous result of a check carries the trailing run so far. */
  lemma PreviousAt(s: Slot, keys: seq<string>, k: nat)
    requires Healthy(s, keys) && s.due.Some? && k < |BackgroundOf(s.profile.value.checks)|
    ensures forall r :: 0 <= r < |s.rounds| ==> k < |s.rounds[r]|
    ensures var found := FindResult(if s.results.Some? then s.results.value else [],
                                    BackgroundOf(s.profile.value.checks)[k]);
            (if found.Some? then found.value.consecutiveFailures else 0) == Trailing(s.rounds, k)
  {
    hide Available, BackgroundOf, ValidSpecs, FindResult, RoundsRight, CountsRight;
    var p := s.profile.value;
    var bg := BackgroundOf(p.checks);
    if s.results.Some? {
      var previous := s.results.value;
      assert ResultAt(bg[k], previous[k], s.rounds, k);
      ValidDistinct(p);
      BackgroundDistinct(p.checks);
      forall i | 0 <= i < |bg| ensures previous[i].id == bg[i].id && previous[i].endpointKey == bg[i].endpointKey {
        assert ResultAt(bg[i], previous[i], s.rounds, i);
      }
      FindResultAt(previous, bg, k);
    } else {
      NoResult(bg[k]);
    }
  }

  lemma RoundKeepsRounds(s: Slot, now: int, keys: seq<string>)
    requires Healthy(s, keys) && s.due.Some?
    ensures RoundsRight(s.profile.value, RoundSlot(s, now, keys).rounds, keys)
  {
    hide SampledAll, BackgroundOf, ValidSpecs, Expected, ResultsRight, CountsRight;
    var p, t := s.profile.value, RoundSlot(s, now, keys);
    var bg, n := BackgroundOf(p.checks), |s.rounds|;
    assert |t.rounds[n]| == |bg|;
    forall k | 0 <= k < |bg| ensures t.rounds[n][k] == Expected(p, bg[k], n, keys) {
      RoundAt(s, now, keys, k);
    }
  }

  lemma RoundKeepsCounts(s: Slot, now: int, keys: seq<string>)
    requires Healthy(s, keys) && s.due.Some?
    ensures CountsRight(s.profile.value, RoundSlot(s, now, keys).counts, |s.rounds| + 1, keys)
  {
    hide Available, SampledAll, BackgroundOf, CountOf;
    var p, t := s.profile.value, RoundSlot(s, now, keys);
    var bg := BackgroundOf(p.checks);
    forall c | c in bg
      ensures CountOf(t.counts, AttemptKey(Background, c.id)) == if Available(p, c, keys) then |s.rounds| + 1 else 0
    {
      var k :| 0 <= k < |bg| && bg[k] == c;
      RoundAt(s, now, keys, k);
    }
  }

  lemma RoundKeepsResults(s: Slot, now: int, keys: seq<string>)
    requires Healthy(s, keys) && s.due.Some?
    ensures ResultsRight(s.profile.value, RoundSlot(s, now, keys).results.value, RoundSlot(s, now, keys).rounds)
  {
    hide SampledAll, BackgroundOf, ResultAt, CountsRight, RoundsRight;
    var p, t := s.profile.value, RoundSlot(s, now, keys);
    var bg := BackgroundOf(p.checks);
    forall k | 0 <= k < |bg| ensures ResultAt(bg[k], t.results.value[k], t.rounds, k) {
      RoundAt(s, now, keys, k);
    }
  }

  lemma RoundKeepsHealth(s: Slot, now: int, keys: seq<string>)
    requires Healthy(s, keys) && s.due.Some?
    ensures Healthy(RoundSlot(s, now, keys), keys)
  {
    hide SampledAll, ValidSpecs, Eligible, HasBackground, RoundsRight, CountsRight, ResultsRight;
    RoundKeepsRounds(s, now, keys);
    RoundKeepsCounts(s, now, keys);
    RoundKeepsResults(s, now, keys);
  }

  lemma NoResult(c: ServiceCheck)
    ensures FindResult([], c).None?
  {
  }

  // ----- one step at a time ---------------------------------------------

  ghost function ClearedSlot(s: Slot, due: Option<int>): Slot {
    s.(due := due, results := None, counts := map[], rounds := [])
  }

  lemma ClearedSlotOf(w: World, gone: string, id: string)
    ensures SlotOf(Cleared(w, gone), id) == if id == gone then ClearedSlot(SlotOf(w, id), None) else SlotOf(w, id)
  {
  }

  lemma ResetSlotOf(w: World, p: Profile, now: int, id: string)
    ensures SlotOf(Reset(w, p, now), id) ==
            if id != p.id then SlotOf(w, id)
            else ClearedSlot(SlotOf(w, id),
                             if id in w.running && Eligible(p) && HasBackground(p) then Some(now + INTERVAL) else None)
  {
    hide Eligible, HasBackground;
  }

  /** A slot that keeps its profile valid stays healthy when its worker is reset. */
  lemma ClearedHealthy(s: Slot, due: Option<int>, keys: seq<string>)
    requires s.profile.Some? ==> ValidSpecs(s.profile.value, s.profile.value.checks)
    requires s.running ==> s.profile.Some?
    requires due.Some? ==> s.running && Eligible(s.profile.value) && HasBackground(s.profile.value)
    ensures Healthy(ClearedSlot(s, due), keys)
  {
  }

  /** Resetting the worker of a stored, valid profile keeps everything. */
  lemma ResetKeeps(w: World, p: Profile, now: int)
    requires DistinctIds(w.profiles) && Spaced(w) && w.clock <= now
    requires Find(w.profiles, p.id) == Some(p) && ValidSpecs(p, p.checks)
    requires forall x :: x != p.id ==> Healthy(SlotOf(w, x), w.endpointKeys)
    ensures Inv(Reset(w, p, now))
  {
    hide Healthy, SlotOf, ValidSpecs, Eligible, HasBackground;
    var r := Reset(w, p, now);
    forall x ensures Healthy(SlotOf(r, x), w.endpointKeys) {
      ResetSlotOf(w, p, now, x);
      if x == p.id {
        SlotProfile(w, x);
        ClearedHealthy(SlotOf(w, x),
                       if x in w.running && Eligible(p) && HasBackground(p) then Some(now + INTERVAL) else None,
                       w.endpointKeys);
      }
    }
  }

  lemma SlotProfile(w: World, id: string)
    ensures SlotOf(w, id).profile == Find(w.profiles, id) && SlotOf(w, id).running == (id in w.running)
  {
  }

  // ----- ticks ----------------------------------------------------------

  /** A due profile is always eligible: the tick's cleanup branch is never taken. */
  lemma DueIsEligible(w: World, k: nat)
    requires Inv(w) && k < |w.profiles| && w.profiles[k].id in w.due
    ensures w.profiles[k].id in w.running && Eligible(w.profiles[k])
  {
    FoundAt(w.profiles, k);
    assert Healthy(SlotOf(w, w.profiles[k].id), w.endpointKeys);
  }

  lemma TickSlotOf(w: World, p: Profile, now: int, id: string)
    requires Find(w.profiles, p.id) == Some(p)
    requires p.id in w.due && w.due[p.id] <= now && p.id in w.running && Eligible(p)
    ensures SlotOf(Tick(w, p, now), id) ==
            if id == p.id then RoundSlot(SlotOf(w, id), now, w.endpointKeys) else SlotOf(w, id)
  {
    hide SampledAll, Eligible, BackgroundOf;
  }

  lemma TickKeeps(w: World, k: nat, now: int)
    requires Inv(w) && k < |w.profiles| && w.clock <= now
    ensures Inv(Tick(w, w.profiles[k], now)) && Tick(w, w.profiles[k], now).clock == now
  {
    hide Healthy, SampledAll, Eligible, RoundSlot;
    var p := w.profiles[k];
    var t := Tick(w, p, now);
    FoundAt(w.profiles, k);
    if p.id in w.due && w.due[p.id] <= now {
      DueIsEligible(w, k);
      forall x ensures Healthy(SlotOf(t, x), w.endpointKeys) {
        TickSlotOf(w, p, now, x);
        assert Healthy(SlotOf(w, x), w.endpointKeys);
        if x == p.id { RoundKeepsHealth(SlotOf(w, x), now, w.endpointKeys); }
      }
    } else {
      forall x ensures SlotOf(t, x) == SlotOf(w, x) { }
    }
  }

  lemma {:induction false} AscendingAt(from: int, times: seq<int>, k: nat)
    requires Ascending(from, times) && k < |times|
    ensures from <= times[k] && (k > 0 ==> times[k - 1] <= times[k])
    decreases |times|
  {
    if k > 0 { AscendingAt(times[0], times[1..], k - 1); }
  }

  lemma {:induction false} TickFirstKeeps(w: World, n: nat, times: seq<int>)
    requires Inv(w) && n <= |w.profiles| && |times| == |w.profiles| && Ascending(w.clock, times)
    ensures Inv(TickFirst(w, n, times))
    ensures TickFirst(w, n, times).clock == if n == 0 then w.clock else times[n - 1]
    decreases n
  {
    hide Inv, Tick;
    if n > 0 {
      TickFirstKeeps(w, n - 1, times);
      AscendingAt(w.clock, times, n - 1);
      TickKeeps(TickFirst(w, n - 1, times), n - 1, times[n - 1]);
    }
  }

  // ----- every command --------------------------------------------------

  /** Clearing a slot restores the invariant when only that slot may be off. */
  lemma ClearedRestores(w: World, id: string)
    requires DistinctIds(w.profiles) && Spaced(w)
    requires Find(w.profiles, id).Some? ==> ValidSpecs(Find(w.profiles, id).value, Find(w.profiles, id).value.checks)
    requires id in w.running ==> Find(w.profiles, id).Some?
    requires forall x :: x != id ==> Healthy(SlotOf(w, x), w.endpointKeys)
    ensures Inv(Cleared(w, id))
  {
    hide Healthy, SlotOf, ValidSpecs;
    var c := Cleared(w, id);
    forall x ensures Healthy(SlotOf(c, x), w.endpointKeys) {
      ClearedSlotOf(w, id, x);
      SlotProfile(w, x);
      if x == id { ClearedHealthy(SlotOf(w, x), None, w.endpointKeys); }
    }
  }

  lemma StoredValid(w: World, id: string)
    requires Inv(w)
    ensures Find(w.profiles, id).Some? ==> ValidSpecs(Find(w.profiles, id).value, Find(w.profiles, id).value.checks)
    ensures id in w.running ==> Find(w.profiles, id).Some?
    ensures id !in w.running ==> id !in w.due && id !in w.results && RoundsOf(w, id) == []
    ensures id !in w.due ==> id !in w.results
  {
    hide ValidSpecs;
    assert Healthy(SlotOf(w, id), w.endpointKeys);
  }

  lemma RunningFrame(w: World, running: set<string>, id: string)
    requires id in running <==> id in w.running
    ensures SlotOf(w.(running := running), id) == SlotOf(w, id)
  {
  }

  lemma ProfilesFrame(w: World, profiles: seq<Profile>, id: string)
    requires Find(profiles, id) == Find(w.profiles, id)
    ensures SlotOf(w.(profiles := profiles), id) == SlotOf(w, id)
  {
  }

  lemma ResetFrame(w: World, p: Profile, now: int)
    ensures Reset(w, p, now).profiles == w.profiles && Reset(w, p, now).running == w.running
    ensures Reset(w, p, now).endpointKeys == w.endpointKeys && Reset(w, p, now).clock == now
  {
  }

  lemma ConnectKeeps(w: World, id: string, now: int, times: seq<int>)
    requires Inv(w) && Find(w.profiles, id).Some?
    requires Ascending(w.clock, [now] + times) && |times| == |w.profiles|
    ensures Inv(TickFirst(Reset(w.(running := w.running + {id}), Find(w.profiles, id).value, now), |w.profiles|, times))
  {
    hide Healthy, ValidSpecs, Reset, TickFirst, SlotOf, Find;
    var p := Find(w.profiles, id).value;
    var on := w.(running := w.running + {id});
    StoredValid(w, id);
    forall x | x != id ensures Healthy(SlotOf(on, x), w.endpointKeys) {
      RunningFrame(w, w.running + {id}, x);
    }
    assert Spaced(on);
    assert ([now] + times)[1..] == times;
    ResetKeeps(on, p, now);
    ResetFrame(on, p, now);
    TickFirstKeeps(Reset(on, p, now), |w.profiles|, times);
  }

  lemma DisconnectKeeps(w: World, id: string, times: seq<int>)
    requires Inv(w) && Find(w.profiles, id).Some?
    requires Ascending(w.clock, times) && |times| == |w.profiles|
    ensures Inv(TickFirst(Cleared(w.(running := w.running - {id}), id), |w.profiles|, times))
  {
    hide Healthy, ValidSpecs, TickFirst, SlotOf, Find;
    var off := w.(running := w.running - {id});
    StoredValid(w, id);
    forall x | x != id ensures Healthy(SlotOf(off, x), w.endpointKeys) {
      RunningFrame(w, w.running - {id}, x);
    }
    assert Spaced(off);
    ClearedRestores(off, id);
    TickFirstKeeps(Cleared(off, id), |w.profiles|, times);
  }

  lemma SaveKeeps(w: World, p: Profile, now: int)
    requires Inv(w) && p.id !in w.running && ValidSpecs(p, p.checks) && w.clock <= now
    ensures Inv(Reset(w.(profiles := Remove(w.profiles, p.id) + [p]), p, now))
  {
    hide Healthy, ValidSpecs, Eligible, HasBackground, SlotOf, Find, Remove;
    var rest := Remove(w.profiles, p.id);
    var saved := w.(profiles := rest + [p]);
    RemoveDistinct(w.profiles, p.id);
    FindRemoved(w.profiles, p.id, p.id);
    forall i | 0 <= i < |rest| ensures rest[i].id != p.id { assert rest[i] in rest; }
    FindAppended(rest, p, p.id);
    forall x | x != p.id ensures Healthy(SlotOf(saved, x), w.endpointKeys) {
      FindRemoved(w.profiles, p.id, x);
      FindAppended(rest, p, x);
      ProfilesFrame(w, rest + [p], x);
    }
    assert Spaced(saved);
    ResetKeeps(saved, p, now);
  }

  /** A profile appended under a free id has no worker yet, and no other is touched. */
  lemma ImportKeeps(w: World, p: Profile)
    requires Inv(w) && Find(w.profiles, p.id).None? && p.checks == []
    ensures Inv(w.(profiles := w.profiles + [p]))
  {
    hide Healthy, SlotOf, Find;
    var after := w.(profiles := w.profiles + [p]);
    forall x ensures Healthy(SlotOf(after, x), w.endpointKeys) {
      FindAppended(w.profiles, p, x);
      if x == p.id {
        NewSlotHealthy(w, p);
      } else {
        ProfilesFrame(w, w.profiles + [p], x);
      }
    }
    assert Spaced(after);
  }

  lemma NewSlotHealthy(w: World, p: Profile)
    requires Healthy(SlotOf(w, p.id), w.endpointKeys) && Find(w.profiles, p.id).None? && p.checks == []
    requires Find(w.profiles + [p], p.id) == Some(p)
    ensures Healthy(SlotOf(w.(profiles := w.profiles + [p]), p.id), w.endpointKeys)
  {
    hide SpecOk;
  }

  lemma DeleteKeeps(w: World, id: string)
    requires Inv(w) && id !in w.running
    ensures Inv(Cleared(w, id).(profiles := Remove(w.profiles, id)))
  {
    hide Healthy, ValidSpecs, SlotOf, Find, Remove;
    var gone := w.(profiles := Remove(w.profiles, id));
    RemoveDistinct(w.profiles, id);
    FindRemoved(w.profiles, id, id);
    forall x | x != id ensures Healthy(SlotOf(gone, x), w.endpointKeys) {
      FindRemoved(w.profiles, id, x);
      ProfilesFrame(w, Remove(w.profiles, id), x);
    }
    assert Spaced(gone);
    StoredValid(w, id);
    ClearedRestores(gone, id);
    assert Cleared(gone, id) == Cleared(w, id).(profiles := Remove(w.profiles, id));
  }

  /** Changing a stored profile in place and resetting its worker. */
  lemma EditKeeps(w: World, q: Profile, now: int)
    requires Inv(w) && Find(w.profiles, q.id).Some? && ValidSpecs(q, q.checks) && w.clock <= now
    ensures Inv(Reset(w.(profiles := Update(w.profiles, q)), q, now))
  {
    hide Healthy, ValidSpecs, Eligible, HasBackground, Update, Find, SlotOf;
    UpdateDistinct(w.profiles, q);
    var edited := w.(profiles := Update(w.profiles, q));
    FindUpdated(w.profiles, q, q.id);
    forall x | x != q.id ensures Healthy(SlotOf(edited, x), w.endpointKeys) {
      FindUpdated(w.profiles, q, x);
      ProfilesFrame(w, Update(w.profiles, q), x);
    }
    assert Spaced(edited);
    ResetKeeps(edited, q, now);
  }

  /** A profile change that touches nothing the worker depends on needs no reset. */
  lemma QuietEditHealthy(s: Slot, q: Profile, keys: seq<string>)
    requires Healthy(s, keys) && s.profile.Some?
    requires q == s.profile.value.(subscription := q.subscription) && q.subscription.Some?
    requires s.profile.value.subscription.Some?
    ensures Healthy(s.(profile := Some(q)), keys)
  {
    hide SpecOk, Trailing;
    var p := s.profile.value;
    assert Bindings(q) == Bindings(p);
    forall c ensures Available(q, c, keys) == Available(p, c, keys) { }
    if s.due.Some? {
      assert RoundsRight(q, s.rounds, keys);
      assert CountsRight(q, s.counts, |s.rounds|, keys);
    }
  }

  lemma StoppedEditHealthy(s: Slot, q: Profile, keys: seq<string>)
    requires Healthy(s, keys) && !s.running && ValidSpecs(q, q.checks)
    ensures Healthy(s.(profile := Some(q)), keys)
  {
  }

  lemma InPlaceKeeps(w: World, q: Profile)
    requires Inv(w) && Find(w.profiles, q.id).Some?
    requires Healthy(SlotOf(w, q.id).(profile := Some(q)), w.endpointKeys)
    ensures Inv(w.(profiles := Update(w.profiles, q)))
  {
    hide Healthy, Update, Find;
    UpdateDistinct(w.profiles, q);
    var edited := w.(profiles := Update(w.profiles, q));
    forall x ensures Healthy(SlotOf(edited, x), w.endpointKeys) {
      FindUpdated(w.profiles, q, x);
      assert Healthy(SlotOf(w, x), w.endpointKeys);
      if x != q.id { assert SlotOf(edited, x) == SlotOf(w, x); }
    }
  }

  lemma ManualKeeps(w: World, p: Profile, targets: seq<ServiceCheck>, now: int)
    requires Inv(w) && w.clock <= now
    ensures var s := SampledAll(CountsOf(w, p.id), p, targets, Manual, now, [], w.endpointKeys);
            Inv(w.(clock := now, attempts := WithCounts(w.attempts, p.id, s.0)))
  {
    hide SampledAll;
    var s := SampledAll(CountsOf(w, p.id), p, targets, Manual, now, [], w.endpointKeys);
    var after := w.(clock := now, attempts := WithCounts(w.attempts, p.id, s.0));
    forall x ensures Healthy(SlotOf(after, x), w.endpointKeys) {
      assert Healthy(SlotOf(w, x), w.endpointKeys);
      if x == p.id {
        assert SlotOf(after, x) == SlotOf(w, x).(counts := s.0);
        forall c ensures CountOf(s.0, AttemptKey(Background, c)) == CountOf(CountsOf(w, x), AttemptKey(Background, c)) {
          OtherChannelKept(CountsOf(w, p.id), p, targets, now, w.endpointKeys, c);
        }
        SameBackgroundHealthy(SlotOf(w, x), s.0, w.endpointKeys);
      } else {
        assert SlotOf(after, x) == SlotOf(w, x);
      }
    }
  }

  lemma SameBackgroundHealthy(s: Slot, counts: Counts, keys: seq<string>)
    requires Healthy(s, keys)
    requires forall c :: CountOf(counts, AttemptKey(Background, c)) == CountOf(s.counts, AttemptKey(Background, c))
    ensures Healthy(s.(counts := counts), keys)
  {
  }

  /** Every command, successful or not, keeps the invariant. */
  lemma StepKeeps(w: World, cmd: Command)
    requires Inv(w) && Allowed(w, cmd)
    ensures Inv(Next(w, cmd))
  {
    hide Inv, Healthy, SlotOf, ValidSpecs, BoundOrKept, Reset, Cleared, TickFirst, Merged, SampledAll, ImportId;
    match cmd
    case Connect(id, credentials, now, times) =>
      if Step(w, cmd).Ok? { ConnectKeeps(w, id, now, times); }
    case Disconnect(id, times) =>
      if Step(w, cmd).Ok? { DisconnectKeeps(w, id, times); }
    case Save(profile, now) =>
      var p := Merged(profile, Find(w.profiles, profile.id));
      MergedId(profile, Find(w.profiles, profile.id));
      StoredValid(w, profile.id);
      if Step(w, cmd).Ok? { SaveKeeps(w, p, now); }
    case Delete(id) =>
      if Step(w, cmd).Ok? { DeleteKeeps(w, id); }
    case SetPinned(id, pins, now) =>
      if Step(w, cmd).Ok? {
        var p := Find(w.profiles, id).value;
        var q := p.(pinned := MarkMissing(pins, w.endpointKeys));
        StoredValid(w, id);
        SameSpecs(p, q);
        EditKeeps(w, q, now);
      }
    case SetChecks(id, checks, now) =>
      if Step(w, cmd).Ok? {
        var p := Find(w.profiles, id).value;
        NewSpecs(p, checks);
        EditKeeps(w, p.(checks := checks), now);
      }
    case Poll(times) => TickFirstKeeps(w, |w.profiles|, times);
    case FinishManual(pending, now) =>
      if Step(w, cmd).Ok? && pending.targets != [] {
        ManualKeeps(w, Find(w.profiles, pending.profileId).value, pending.targets, now);
      }
    case SetSubscription(id, subscription) =>
      if Step(w, cmd).Ok? {
        var q := Find(w.profiles, id).value.(subscription := Some(subscription));
        SlotHealthy(w, id);
        QuietEditHealthy(SlotOf(w, id), q, w.endpointKeys);
        InPlaceKeeps(w, q);
      }
    case AddImport(kind, profile) => ImportKeeps(w, Imported(kind, profile, w.profiles));
    case Migrate(id, refused, pins, dnsKey, sockopts, backups) =>
      if Step(w, cmd).Ok? {
        var p := Find(w.profiles, id).value;
        var q := Migrated(p, pins, dnsKey, sockopts, backups);
        StoredValid(w, id);
        SameSpecs(p, q);
        SlotHealthy(w, id);
        StoppedEditHealthy(SlotOf(w, id), q, w.endpointKeys);
        InPlaceKeeps(w, q);
      }
  }

  lemma SlotHealthy(w: World, id: string)
    requires Inv(w)
    ensures Healthy(SlotOf(w, id), w.endpointKeys)
    ensures SlotOf(w, id).profile == Find(w.profiles, id) && SlotOf(w, id).running == (id in w.running)
  {
  }

  lemma MergedId(p: Profile, existing: Option<Profile>)
    ensures Merged(p, existing).id == p.id
  {
  }

  lemma SameSpecs(p: Profile, q: Profile)
    requires ValidSpecs(p, p.checks) && q.checks == p.checks && q.backend == p.backend
    requires q.subscription.Some? == p.subscription.Some?
    ensures ValidSpecs(q, q.checks)
  {
  }

  lemma NewSpecs(p: Profile, checks: seq<ServiceCheck>)
    requires ValidSpecs(p, checks)
    ensures ValidSpecs(p.(checks := checks), checks)
  {
  }

  // ----- whole runs -----------------------------------------------------

  ghost predicate Run(worlds: seq<World>, cmds: seq<Command>) {
    |worlds| == |cmds| + 1 &&
    forall k :: 0 <= k < |cmds| ==> Allowed(worlds[k], cmds[k]) && worlds[k + 1] == Next(worlds[k], cmds[k])
  }

  /** A freshly started backend: nothing runs and nothing was sampled. */
  ghost predicate Fresh(w: World) {
    DistinctIds(w.profiles) && w.running == {} && w.due == map[] && w.results == map[] && w.attempts == map[]
    && w.samples == [] && w.rounds == map[]
    && forall i :: 0 <= i < |w.profiles| ==> ValidSpecs(w.profiles[i], w.profiles[i].checks)
  }

  lemma FreshInv(w: World)
    requires Fresh(w)
    ensures Inv(w)
  {
    hide ValidSpecs;
    forall id ensures Healthy(SlotOf(w, id), w.endpointKeys) {
      var p := Find(w.profiles, id);
      if p.Some? {
        var i :| 0 <= i < |w.profiles| && w.profiles[i] == p.value;
      }
    }
  }

  lemma {:induction false} RunKeeps(worlds: seq<World>, cmds: seq<Command>, n: nat)
    requires Run(worlds, cmds) && Inv(worlds[0]) && n <= |cmds|
    ensures Inv(worlds[n])
    decreases n
  {
    hide Inv, Allowed, Next;
    if n > 0 {
      RunKeeps(worlds, cmds, n - 1);
      StepKeeps(worlds[n - 1], cmds[n - 1]);
    }
  }

  /** In every reachable state, a due time belongs to a running, subscribed, TUN-mode Xray
      profile with a background check, results stand only beside a due time, and a
      stopped profile has neither. */
  lemma DueOnlyWhenServing(worlds: seq<World>, cmds: seq<Command>, n: nat, id: string)
    requires Run(worlds, cmds) && Fresh(worlds[0]) && n <= |cmds|
    ensures id in worlds[n].results ==> id in worlds[n].due
    ensures id in worlds[n].due ==> id in worlds[n].running
    ensures id in worlds[n].due ==>
              exists p :: p in worlds[n].profiles && p.id == id && Eligible(p) && HasBackground(p)
  {
    hide Fresh, Allowed, Next, Eligible, HasBackground;
    FreshInv(worlds[0]);
    RunKeeps(worlds, cmds, n);
    assert Healthy(SlotOf(worlds[n], id), worlds[n].endpointKeys);
  }

  /** In every run, two background samples of one profile are at least 60,000 ms apart,
      across any number of resets in between. */
  lemma SamplesApart(worlds: seq<World>, cmds: seq<Command>, n: nat, i: nat, j: nat)
    requires Run(worlds, cmds) && Fresh(worlds[0]) && n <= |cmds|
    requires i < j < |worlds[n].samples| && worlds[n].samples[i].profile == worlds[n].samples[j].profile
    ensures worlds[n].samples[j].time - worlds[n].samples[i].time >= 60_000
  {
    hide Fresh, Allowed, Next;
    FreshInv(worlds[0]);
    RunKeeps(worlds, cmds, n);
  }

  /** In every reachable state, a shown failure count is the trailing run of non-HTTP
      failures since the last reset, and `degraded` means it is at least 3. */
  lemma FailureCountsExact(worlds: seq<World>, cmds: seq<Command>, n: nat, id: string, k: nat)
    requires Run(worlds, cmds) && Fresh(worlds[0]) && n <= |cmds|
    requires id in worlds[n].results && k < |worlds[n].results[id]|
    ensures forall r :: 0 <= r < |RoundsOf(worlds[n], id)| ==> k < |RoundsOf(worlds[n], id)[r]|
    ensures worlds[n].results[id][k].consecutiveFailures == Trailing(RoundsOf(worlds[n], id), k)
    ensures worlds[n].results[id][k].degraded <==> Trailing(RoundsOf(worlds[n], id), k) >= 3
    ensures worlds[n].results[id][k].httpStatus.Some? <==> worlds[n].results[id][k].outcome == Http
  {
    hide Fresh, Allowed, Next;
    FreshInv(worlds[0]);
    RunKeeps(worlds, cmds, n);
    assert Healthy(SlotOf(worlds[n], id), worlds[n].endpointKeys);
  }

  /** In every reachable state, with any manual runs interleaved, the `r`-th background
      round since the reset reported the `r`-th entry of the outcome cycle for every
      available check, and "unavailable" for the others. */
  lemma BackgroundSequenceFixed(worlds: seq<World>, cmds: seq<Command>, n: nat, p: Profile, r: nat, k: nat)
    requires Run(worlds, cmds) && Fresh(worlds[0]) && n <= |cmds|
    requires Find(worlds[n].profiles, p.id) == Some(p)
    requires r < |RoundsOf(worlds[n], p.id)| && k < |BackgroundOf(p.checks)|
    ensures k < |RoundsOf(worlds[n], p.id)[r]|
    ensures RoundsOf(worlds[n], p.id)[r][k] == Expected(p, BackgroundOf(p.checks)[k], r, worlds[n].endpointKeys)
  {
    hide Fresh, Allowed, Next, Expected;
    FreshInv(worlds[0]);
    RunKeeps(worlds, cmds, n);
    assert Healthy(SlotOf(worlds[n], p.id), worlds[n].endpointKeys);
  }

  // ----- imports in runs ------------------------------------------------

  /** What a command does to the profile list, if it does not keep the ids as they are. */
  ghost function ListChange(w: World, cmd: Command): Option<Change>
    requires Allowed(w, cmd)
  {
    if Step(w, cmd).Err? then None
    else match cmd
      case Save(p, _) => Some(Store(Merged(p, Find(w.profiles, p.id))))
      case Delete(id) => Some(Drop(id))
      case AddImport(kind, p) => Some(Import(kind, p.(checks := [])))
      case _ => None
  }

  ghost predicate SameIds(a: seq<Profile>, b: seq<Profile>) {
    |a| == |b| && forall i :: 0 <= i < |a| ==> a[i].id == b[i].id
  }

  lemma StepChangesList(w: World, cmd: Command)
    requires Allowed(w, cmd)
    ensures ListChange(w, cmd).Some? ==> Next(w, cmd).profiles == Changed(w.profiles, ListChange(w, cmd).value)
    ensures ListChange(w, cmd).None? ==> SameIds(Next(w, cmd).profiles, w.profiles)
  {
    hide Allowed, SampledAll, ValidSpecs, Merged, Remove, Update, Find, ImportId, TickFirst, Reset, BoundOrKept,
         Migrated, MarkMissing;
    var p := Find(w.profiles, match cmd case Save(q, _) => q.id case FinishManual(m, _) => m.profileId
                              case Poll(_) => "" case AddImport(_, q) => q.id case _ => cmd.id);
    match cmd
    case Connect(id, _, now, _) =>
      if p.Some? { ResetFrame(w.(running := w.running + {id}), p.value, now); }
    case Save(form, now) =>
      var q := Merged(form, p);
      MergedId(form, p);
      ResetFrame(w.(profiles := Remove(w.profiles, q.id) + [q]), q, now);
    case SetPinned(_, pins, now) =>
      if p.Some? {
        var q := p.value.(pinned := MarkMissing(pins, w.endpointKeys));
        ResetFrame(w.(profiles := Update(w.profiles, q)), q, now);
      }
    case SetChecks(_, checks, now) =>
      if p.Some? {
        var q := p.value.(checks := checks);
        ResetFrame(w.(profiles := Update(w.profiles, q)), q, now);
      }
    case _ =>
  }

  lemma SameIdsBelow(a: seq<Profile>, b: seq<Profile>)
    requires SameIds(a, b) && Below(b)
    ensures Below(a)
  {
    hide ImportId;
    forall kind, m: nat | Has(a, ImportId(kind, m)) ensures m < |a| {
      var i :| 0 <= i < |a| && a[i].id == ImportId(kind, m);
      assert b[i].id == ImportId(kind, m);
    }
  }

  /** In every run without a delete, whose saves edit a profile or use an id without the
      import shape, every import of every kind gets a free id. */
  lemma {:induction false} ImportsStayFree(worlds: seq<World>, cmds: seq<Command>, n: nat, kind: ImportKind)
    requires Run(worlds, cmds) && Fresh(worlds[0]) && Below(worlds[0].profiles) && n <= |cmds|
    requires forall k :: 0 <= k < n && ListChange(worlds[k], cmds[k]).Some? ==>
               Harmless(worlds[k].profiles, ListChange(worlds[k], cmds[k]).value)
    ensures Below(worlds[n].profiles)
    ensures Find(worlds[n].profiles, ImportId(kind, |worlds[n].profiles|)).None?
    decreases n
  {
    hide Fresh, Allowed, Next, ListChange, Harmless, Changed, ImportId, Below, SameIds;
    if n > 0 {
      var w := worlds[n - 1];
      ImportsStayFree(worlds, cmds, n - 1, kind);
      StepChangesList(w, cmds[n - 1]);
      if ListChange(w, cmds[n - 1]).Some? {
        assert DistinctIds(w.profiles) by {
          FreshInv(worlds[0]);
          RunKeeps(worlds, cmds, n - 1);
        }
        HarmlessKeeps(w.profiles, ListChange(w, cmds[n - 1]).value);
      } else {
        SameIdsBelow(worlds[n].profiles, w.profiles);
      }
    }
    BelowIsFree(worlds[n].profiles, kind);
  }

  lemma BelowIsFree(profiles: seq<Profile>, kind: ImportKind)
    requires Below(profiles)
    ensures Find(profiles, ImportId(kind, |profiles|)).None?
  {
    hide ImportId;
  }

  // ----- when a worker samples ------------------------------------------

  /** A reset forgets the profile's results and counts, and sets a due time, 60,000 ms ahead,
      exactly for a running, subscribed Xray profile in TUN mode with a background check. */
  lemma ResetExactly(w: World, p: Profile, now: int)
    ensures p.id !in Reset(w, p, now).results && p.id !in Reset(w, p, now).attempts
    ensures p.id in Reset(w, p, now).due <==>
            p.id in w.running && p.backend == Xray && p.subscription.Some? && p.mode == Tun
            && exists i :: 0 <= i < |p.checks| && p.checks[i].background
    ensures p.id in Reset(w, p, now).due ==> Reset(w, p, now).due[p.id] == now + 60_000
    ensures forall id :: id != p.id ==> SlotOf(Reset(w, p, now), id) == SlotOf(w, id)
  {
    forall id | id != p.id ensures SlotOf(Reset(w, p, now), id) == SlotOf(w, id) { ResetSlotOf(w, p, now, id); }
  }

  /** Ticks of other profiles leave a due time alone and sample nothing for it. */
  lemma {:induction false} OtherTicks(w: World, m: nat, n: nat, times: seq<int>, id: string)
    requires m <= n <= |w.profiles| && |times| == |w.profiles|
    requires forall j :: m <= j < n ==> w.profiles[j].id != id
    ensures id in TickFirst(w, n, times).due <==> id in TickFirst(w, m, times).due
    ensures id in TickFirst(w, m, times).due ==> TickFirst(w, n, times).due[id] == TickFirst(w, m, times).due[id]
    ensures TickFirst(w, m, times).samples <= TickFirst(w, n, times).samples
    ensures forall i :: |TickFirst(w, m, times).samples| <= i < |TickFirst(w, n, times).samples| ==>
              TickFirst(w, n, times).samples[i].profile != id
    decreases n
  {
    hide Tick, TickFirst;
    if m < n {
      OtherTicks(w, m, n - 1, times, id);
      TickFirstNext(w, n - 1, times);
      OtherTick(TickFirst(w, n - 1, times), w.profiles[n - 1], times[n - 1], id);
    }
  }

  lemma OtherTick(w: World, p: Profile, now: int, id: string)
    requires p.id != id
    ensures id in Tick(w, p, now).due <==> id in w.due
    ensures id in w.due ==> Tick(w, p, now).due[id] == w.due[id]
    ensures w.samples <= Tick(w, p, now).samples
    ensures forall i :: |w.samples| <= i < |Tick(w, p, now).samples| ==> Tick(w, p, now).samples[i].profile != id
  {
    hide SampledAll, BackgroundOf, Eligible;
  }

  ghost predicate SampledSince(w: World, after: World, s: Sample) {
    exists i :: |w.samples| <= i < |after.samples| && after.samples[i] == s
  }

  /** A poll samples a profile, at the time it reads for it, exactly when that profile has a
      due time and the time has come; the next due time is then 60,000 ms later. */
  lemma PollSamplesExactly(w: World, times: seq<int>, k: nat)
    requires Inv(w) && Allowed(w, Poll(times)) && k < |w.profiles|
    ensures var id, after := w.profiles[k].id, Next(w, Poll(times));
            (SampledSince(w, after, Sample(id, times[k])) <==> id in w.due && w.due[id] <= times[k])
            && (id in w.due && w.due[id] <= times[k] ==> id in after.due && after.due[id] == times[k] + 60_000)
  {
    hide Inv, Tick, TickFirst, Ascending;
    var id, n := w.profiles[k].id, |w.profiles|;
    assert forall j :: 0 <= j < n && j != k ==> w.profiles[j].id != id by { InvDistinct(w); }
    var before, here, after := TickFirst(w, k, times), TickFirst(w, k + 1, times), TickFirst(w, n, times);
    TickFirstNone(w, times);
    OtherTicks(w, 0, k, times, id);
    TickFirstNext(w, k, times);
    OtherTicks(w, k + 1, n, times, id);
    TickFirstKeeps(w, k, times);
    TickSamples(before, k, times[k]);
    if id in w.due && w.due[id] <= times[k] {
      assert after.samples[|before.samples|] == Sample(id, times[k]);
    }
  }

  lemma InvDistinct(w: World)
    requires Inv(w)
    ensures DistinctIds(w.profiles)
  {
  }

  lemma TickSamples(w: World, k: nat, now: int)
    requires Inv(w) && k < |w.profiles|
    ensures var id, t := w.profiles[k].id, Tick(w, w.profiles[k], now);
            if id in w.due && w.due[id] <= now
            then t.samples == w.samples + [Sample(id, now)] && id in t.due && t.due[id] == now + 60_000
            else t.samples == w.samples && t.due == w.due
  {
    hide Inv, SampledAll, BackgroundOf, Eligible;
    if w.profiles[k].id in w.due { DueIsEligible(w, k); }
  }

  /** A check can be sampled when the profile is a subscribed Xray one, pins the check's key or
      resolves names through it, and the key is listed. */
  lemma AvailableExactly(p: Profile, c: ServiceCheck, keys: seq<string>)
    ensures Available(p, c, keys) <==>
            p.backend == Xray && p.subscription.Some? && c.endpointKey != ""
            && ((exists i :: 0 <= i < |p.pinned| && p.pinned[i].endpointKey == c.endpointKey)
                || p.dnsKey == Some(c.endpointKey))
            && exists j :: 0 <= j < |keys| && keys[j] == c.endpointKey
  {
  }

  /** The simulated cycle: three answers, three failures of different kinds, one answer. */
  lemma CycleExactly(r: nat)
    ensures OUTCOMES[r % 7] == match r % 7 case 3 => Timeout case 4 => TlsError case 5 => TransportError case _ => Http
    ensures STATUSES[r % 7] == match r % 7 case 0 => Some(204) case 1 => Some(403) case 2 => Some(503)
                                           case 6 => Some(302) case _ => None
  {
  }

  /** Filters keep list order: the part of a joined list is the joined parts. */
  lemma {:induction false} FiltersKeepOrder(a: seq<ServiceCheck>, b: seq<ServiceCheck>, ids: Option<set<string>>)
    ensures BackgroundOf(a + b) == BackgroundOf(a) + BackgroundOf(b)
    ensures Selected(a + b, ids) == Selected(a, ids) + Selected(b, ids)
    decreases |b|
  {
    hide BackgroundOf, Selected;
    if b == [] {
      NothingFiltered(ids);
      assert a + b == a;
    } else {
      var n := |b| - 1;
      FiltersKeepOrder(a, b[..n], ids);
      assert a + b == (a + b[..n]) + [b[n]] && b == b[..n] + [b[n]];
      LastFiltered(a + b[..n], b[n], ids);
      LastFiltered(b[..n], b[n], ids);
    }
  }

  lemma NothingFiltered(ids: Option<set<string>>)
    ensures BackgroundOf([]) == [] && Selected([], ids) == []
  {
  }

  lemma LastFiltered(front: seq<ServiceCheck>, last: ServiceCheck, ids: Option<set<string>>)
    ensures BackgroundOf(front + [last]) == BackgroundOf(front) + if last.background then [last] else []
    ensures Selected(front + [last], ids) ==
            Selected(front, ids) + if ids.None? || last.id in ids.value then [last] else []
  {
    assert (front + [last])[..|front|] == front;
  }

  /** The demands on stored checks, one by one. */
  lemma SpecsExactly(p: Profile, checks: seq<ServiceCheck>)
    ensures ValidSpecs(p, checks) <==>
            && |checks| < 17 && (|checks| > 0 ==> p.backend == Xray && p.subscription.Some?)
            && (forall i, j :: 0 <= i < |checks| && 0 <= j < |checks| && checks[i].id == checks[j].id ==> i == j)
            && forall i :: 0 <= i < |checks| ==> FieldsOk(checks[i])
  {
    forall i | 0 <= i < |checks| ensures SpecOk(checks[i]) <==> FieldsOk(checks[i]) { FieldsExactly(checks[i]); }
    hide SpecOk, FieldsOk;
  }

  /** The address text is "https://", a nonempty host part without "@", and a path or query. */
  ghost predicate HostThenPath(url: string, host: string, rest: string) {
    url == "https://" + host + rest && host != ""
    && (forall i :: 0 <= i < |host| ==> host[i] != '/' && host[i] != '?' && host[i] != '@')
    && (rest == "" || rest[0] == '/' || rest[0] == '?')
  }

  ghost predicate PlainText(url: string) {
    |url| < 2049 && forall i :: 0 <= i < |url| ==> url[i] != '#' && url[i] != '\\' && !IsSpace(url[i])
  }

  lemma {:induction false} AuthorityEnds(url: string)
    ensures Authority(url) <= url
    ensures forall i :: 0 <= i < |Authority(url)| ==> Authority(url)[i] !in {'/', '?', '#'}
    ensures |Authority(url)| < |url| ==> url[|Authority(url)|] in {'/', '?', '#'}
    decreases |url|
  {
    if url != [] && url[0] !in {'/', '?', '#'} { AuthorityEnds(url[1..]); }
  }

  lemma HostIsAuthority(url: string, host: string, rest: string)
    requires HostThenPath(url, host, rest) && '#' !in host
    ensures StartsWith(url, "https://") && Authority(url[8..]) == host
  {
    var tail := url[8..];
    assert tail == host + rest;
    AuthorityEnds(tail);
    var a := Authority(tail);
    assert forall i :: 0 <= i < |host| ==> tail[i] == host[i] && host[i] in host;
    assert rest != "" ==> tail[|host|] == rest[0];
    assert |a| == |host|;
    assert a == tail[..|a|] && host == tail[..|host|];
  }

  lemma UrlExactly(url: string)
    ensures UrlOk(url) <==> PlainText(url) && exists host, rest :: HostThenPath(url, host, rest)
  {
    hide UrlOk, PlainText, HostThenPath;
    if UrlOk(url) { UrlHasHost(url); }
    if PlainText(url) {
      forall host, rest | HostThenPath(url, host, rest) ensures UrlOk(url) { HostMakesUrl(url, host, rest); }
    }
  }

  lemma PlainExactly(url: string)
    ensures PlainText(url) <==> |url| <= 2048 && '#' !in url && '\\' !in url && forall c :: c in url ==> !IsSpace(c)
  {
    hide IsSpace;
    assert forall i :: 0 <= i < |url| ==> url[i] in url;
  }

  lemma UrlHasHost(url: string)
    requires UrlOk(url)
    ensures PlainText(url) && exists host, rest :: HostThenPath(url, host, rest)
  {
    hide Authority, IsSpace, PlainText;
    PlainExactly(url);
    var tail := url[8..];
    AuthorityEnds(tail);
    var host := Authority(tail);
    var rest := tail[|host|..];
    assert url == "https://" + tail && tail == host + rest;
    assert forall i :: 0 <= i < |host| ==> host[i] in host;
    if rest != "" { assert rest[0] == tail[|host|] && tail[|host|] in url; }
    assert HostThenPath(url, host, rest);
  }

  lemma HostMakesUrl(url: string, host: string, rest: string)
    requires PlainText(url) && HostThenPath(url, host, rest)
    ensures UrlOk(url)
  {
    hide Authority, IsSpace;
    PlainExactly(url);
    hide PlainText;
    assert forall i :: 0 <= i < |host| ==> host[i] == url[8 + i];
    HostIsAuthority(url, host, rest);
  }

  ghost predicate FieldsOk(c: ServiceCheck) {
    && 0 < |c.id| < 65 && (forall k :: 0 <= k < |c.id| ==>
          'a' <= c.id[k] <= 'z' || 'A' <= c.id[k] <= 'Z' || '0' <= c.id[k] <= '9' || c.id[k] in "_-")
    && |c.name| < 81 && !AllSpace(c.name)
    && (forall k :: 0 <= k < |c.name| ==> ' ' <= c.name[k] < '\U{7F}' || '\U{9F}' < c.name[k])
    && PlainText(c.url) && (exists host, rest :: HostThenPath(c.url, host, rest))
    && |c.endpointKey| == 16
    && forall k :: 0 <= k < 16 ==> '0' <= c.endpointKey[k] <= '9' || 'a' <= c.endpointKey[k] <= 'f'
  }

  lemma FieldsExactly(c: ServiceCheck)
    ensures SpecOk(c) <==> FieldsOk(c)
  {
    hide UrlOk, Trim, PlainText, HostThenPath;
    UrlExactly(c.url);
    BlankTrim(c.name);
    assert forall k :: 0 <= k < |c.id| ==> c.id[k] in c.id;
    assert forall k :: 0 <= k < |c.name| ==> c.name[k] in c.name;
    assert forall k :: 0 <= k < |c.endpointKey| ==> c.endpointKey[k] in c.endpointKey;
  }

  // ----- manual runs ----------------------------------------------------

  /** The checks a manual run targets: all of them, or those selected. */
  function Selected(checks: seq<ServiceCheck>, ids: Option<set<string>>): (r: seq<ServiceCheck>)
    ensures forall c :: c in r <==> c in checks && (ids.None? || c.id in ids.value)
  {
    if checks == [] then []
    else
      var rest, last := Selected(checks[..|checks| - 1], ids), checks[|checks| - 1];
      assert checks == checks[..|checks| - 1] + [last];
      if ids.None? || last.id in ids.value then rest + [last] else rest
  }

  /** A manual run that completes sampled checks of the profile as it then stands, with
      the bindings it had at the start, whatever commands ran in between. */
  lemma ManualRunIsCurrent(p: Profile, ids: Option<set<string>>, w: World, now: int, c: ServiceCheck)
    requires Allowed(w, FinishManual(Pending(p.id, Selected(p.checks, ids), SnapshotOf(p)), now))
    requires Step(w, FinishManual(Pending(p.id, Selected(p.checks, ids), SnapshotOf(p)), now)).Ok?
    requires c in Selected(p.checks, ids)
    ensures exists q :: q in w.profiles && q.id == p.id && c in q.checks && q.checks == p.checks
                        && q.pinned == p.pinned && q.dnsKey == p.dnsKey && q.backend == p.backend
                        && q.configPath == p.configPath && q.sockopts == p.sockopts
                        && (p.subscription.Some? && q.subscription.Some? ==>
                              q.subscription.value.activeKey == p.subscription.value.activeKey)
  {
    hide SampledAll;
    var q := Find(w.profiles, p.id).value;
    assert SnapshotOf(q) == SnapshotOf(p);
  }

  /** A manual run changes nothing a background round reads or writes. */
  lemma ManualRunIsSilent(w: World, pending: Pending, now: int, id: string, check: string)
    requires Allowed(w, FinishManual(pending, now))
    ensures var after := Next(w, FinishManual(pending, now));
            after.due == w.due && after.results == w.results && after.rounds == w.rounds
            && after.samples == w.samples && after.profiles == w.profiles && after.running == w.running
    ensures CountOf(CountsOf(Next(w, FinishManual(pending, now)), id), AttemptKey(Background, check)) ==
            CountOf(CountsOf(w, id), AttemptKey(Background, check))
  {
    hide SampledAll;
    var p := Find(w.profiles, pending.profileId);
    if p.Some? {
      OtherChannelKept(CountsOf(w, p.value.id), p.value, pending.targets, now, w.endpointKeys, check);
    }
  }

  /** Manual results are fresh observations: none continues a streak or shows degradation. */
  lemma {:induction false} ManualNeverDegrades(m: Counts, p: Profile, targets: seq<ServiceCheck>, now: int,
                                               keys: seq<string>)
    ensures var r := SampledAll(m, p, targets, Manual, now, [], keys).1;
            forall k :: 0 <= k < |r| ==>
              r[k].id == targets[k].id && r[k].consecutiveFailures <= 1 && !r[k].degraded
    decreases |targets|
  {
    hide Available, CountOf;
    if targets != [] {
      ManualNeverDegrades(m, p, targets[..|targets| - 1], now, keys);
    }
  }
}
