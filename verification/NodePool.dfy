/** The failover node pool of src/sandbox/backend.ts: rebuilding it from filters and
    measured exit countries, and the failover chain a status shows. */
module NodePool {
  import opened Prelude
  import opened Text
  import opened SandboxTypes

  /** A node of the subscription list with its measured exit country. */
  datatype Listed = Listed(key: string, name: string, exitCountry: string)

  datatype Verdict = Member | Explicit | WrongCountry | Skipped
  datatype ProbeEntry = ProbeEntry(key: string, name: string, verdict: Verdict, exitCountry: Option<string>)
  datatype Report = Report(members: seq<Node>, entries: seq<ProbeEntry>, poolChanged: bool, keptPrevious: bool)

  const CHAIN_LIMIT: nat := 8
  const CANDIDATE_LIMIT: nat := 32

  ghost predicate DistinctKeys(nodes: seq<Listed>) {
    forall i, j :: 0 <= i < j < |nodes| ==> nodes[i].key != nodes[j].key
  }

  function KeysOf(nodes: seq<Node>): (r: seq<string>)
    ensures |r| == |nodes| && forall i :: 0 <= i < |r| ==> r[i] == nodes[i].key
  {
    seq(|nodes|, i requires 0 <= i < |nodes| => nodes[i].key)
  }

  // ----- explicit nodes -------------------------------------------------

  function Primary(sub: Subscription, listed: seq<Listed>): Option<string> {
    if sub.activeKey.Some? then sub.activeKey
    else if sub.activeIndex < |listed| then Some(listed[sub.activeIndex].key)
    else None
  }

  function ExitKeys(exits: seq<ProxyExit>): set<string> {
    if exits == [] then {}
    else
      (match exits[0]
       case NodeExit(key) => {key}
       case PoolExit(keys) => Elements(keys)
       case OtherExit => {}) + ExitKeys(exits[1..])
  }

  /** Keys chosen by hand: primary, backups, pins, the DNS egress and named exits. */
  function ExplicitKeys(p: Profile, sub: Subscription, listed: seq<Listed>): set<string> {
    var primary := Primary(sub, listed);
    (if primary.Some? then {primary.value} else {})
    + Elements(KeysOf(sub.backupKeys))
    + (set i | 0 <= i < |p.pinned| :: p.pinned[i].endpointKey)
    + (if p.dnsKey.Some? then {p.dnsKey.value} else {})
    + ExitKeys(p.exits)
  }

  function Capacity(sub: Subscription): nat {
    if |sub.backupKeys| <= 7 then 7 - |sub.backupKeys| else 0
  }

  // ----- filters --------------------------------------------------------

  predicate NameMatches(filter: PoolFilter, name: string) {
    filter.nameContains == [] ||
    exists i :: 0 <= i < |filter.nameContains| && Includes(Lower(name), Lower(filter.nameContains[i]))
  }

  predicate SomeFilterMatches(pool: PoolSettings, name: string) {
    exists i :: 0 <= i < |pool.filters| && NameMatches(pool.filters[i], name)
  }

  function UpperChar(c: char): char {
    if 'a' <= c <= 'z' then (c as int - 32) as char else c
  }

  function Upper(s: string): (r: string)
    ensures |r| == |s|
  {
    seq(|s|, i requires 0 <= i < |s| => UpperChar(s[i]))
  }

  lemma UpperExactly(c: char)
    ensures forall i :: 0 <= i < 26 ==>
              UpperChar("abcdefghijklmnopqrstuvwxyz"[i]) == "ABCDEFGHIJKLMNOPQRSTUVWXYZ"[i]
    ensures !('a' <= c <= 'z') ==> UpperChar(c) == c
  {
  }

  /** A filter matching the name asks for the node's measured country. */
  predicate CountryWanted(pool: PoolSettings, node: Listed) {
    exists i :: 0 <= i < |pool.filters| && NameMatches(pool.filters[i], node.name)
                && pool.filters[i].exitCountry.Some? && Upper(pool.filters[i].exitCountry.value) == node.exitCountry
  }

  // ----- the scan -------------------------------------------------------

  datatype ScanState = ScanState(entries: seq<ProbeEntry>, candidates: nat, selected: nat)

  function ScanStep(st: ScanState, node: Listed, pool: PoolSettings, explicit: set<string>, capacity: nat): ScanState {
    if !SomeFilterMatches(pool, node.name) then st
    else if node.key in explicit then
      st.(entries := st.entries + [ProbeEntry(node.key, node.name, Explicit, None)])
    else if st.candidates >= CANDIDATE_LIMIT then
      st.(entries := st.entries + [ProbeEntry(node.key, node.name, Skipped, None)], candidates := st.candidates + 1)
    else
      var accepted := !pool.verifyExitCountry || CountryWanted(pool, node);
      var verdict := if !accepted then WrongCountry else if st.selected >= capacity then Skipped else Member;
      ScanState(st.entries + [ProbeEntry(node.key, node.name, verdict,
                                         if pool.verifyExitCountry then Some(node.exitCountry) else None)],
                st.candidates + 1, if verdict == Member then st.selected + 1 else st.selected)
  }

  function Scan(listed: seq<Listed>, pool: PoolSettings, explicit: set<string>, capacity: nat): ScanState {
    if listed == [] then ScanState([], 0, 0)
    else
      var n := |listed| - 1;
      ScanStep(Scan(listed[..n], pool, explicit, capacity), listed[n], pool, explicit, capacity)
  }

  function MembersOf(entries: seq<ProbeEntry>): seq<Node> {
    if entries == [] then []
    else
      var rest, last := MembersOf(entries[..|entries| - 1]), entries[|entries| - 1];
      if last.verdict == Member then rest + [Node(last.key, last.name)] else rest
  }

  // ----- keeping the previous pool --------------------------------------

  function NameOf(listed: seq<Listed>, key: string): Option<string> {
    if listed == [] then None else if listed[0].key == key then Some(listed[0].name) else NameOf(listed[1..], key)
  }

  predicate WrongIn(entries: seq<ProbeEntry>, key: string) {
    exists i :: 0 <= i < |entries| && entries[i].key == key && entries[i].verdict == WrongCountry
  }

  /** An unlisted node, or one whose name still matches a filter. */
  predicate StillMatches(key: string, listed: seq<Listed>, pool: PoolSettings) {
    var name := NameOf(listed, key);
    name.None? || SomeFilterMatches(pool, name.value)
  }

  predicate Barred(key: string, explicit: set<string>, entries: seq<ProbeEntry>) {
    key in explicit || WrongIn(entries, key)
  }

  /** The previous members worth keeping, and the keys met so far. */
  function Kept(previous: seq<Node>, explicit: set<string>, entries: seq<ProbeEntry>, listed: seq<Listed>,
                pool: PoolSettings): (seq<Node>, set<string>)
  {
    if previous == [] then ([], {})
    else
      var front := Kept(previous[..|previous| - 1], explicit, entries, listed, pool);
      var node := previous[|previous| - 1];
      if Barred(node.key, explicit, entries) || node.key in front.1 then front
      else (if StillMatches(node.key, listed, pool) then front.0 + [node] else front.0, front.1 + {node.key})
  }

  function Take(nodes: seq<Node>, n: nat): (r: seq<Node>)
    ensures |r| <= n && r <= nodes
    ensures |nodes| <= n ==> r == nodes
  {
    if |nodes| <= n then nodes else nodes[..n]
  }

  // ----- rebuilding -----------------------------------------------------

  /** The pool a rebuild stores, with its report; `None` when no filters are set. */
  function Rebuilt(p: Profile, listed: seq<Listed>): (r: Option<(Subscription, Report)>)
    ensures r.Some? <==> p.subscription.Some? && p.subscription.value.nodePool.Some?
  {
    if p.subscription.None? || p.subscription.value.nodePool.None? then None
    else
      var sub, pool := p.subscription.value, p.subscription.value.nodePool.value;
      var explicit, capacity := ExplicitKeys(p, sub, listed), Capacity(sub);
      var entries := Scan(listed, pool, explicit, capacity).entries;
      var found := MembersOf(entries);
      var members := if found != [] then found
                     else Take(Kept(sub.poolKeys, explicit, entries, listed, pool).0, capacity);
      Some((sub.(poolKeys := members),
            Report(members, entries, members != sub.poolKeys, found == [] && members != [])))
  }

  method RebuildPool(p: Profile, listed: seq<Listed>) returns (r: Option<(Subscription, Report)>)
    ensures r == Rebuilt(p, listed)
  {
    hide ExplicitKeys, SomeFilterMatches, CountryWanted, Barred, StillMatches;
    if p.subscription.None? || p.subscription.value.nodePool.None? { return None; }
    var sub, pool := p.subscription.value, p.subscription.value.nodePool.value;
    var explicit, capacity := ExplicitKeys(p, sub, listed), Capacity(sub);
    var selected, candidates: nat := 0, 0;
    var entries: seq<ProbeEntry> := [];
    for k := 0 to |listed|
      invariant ScanState(entries, candidates, selected) == Scan(listed[..k], pool, explicit, capacity)
    {
      assert listed[..k + 1][..k] == listed[..k];
      var name, key := listed[k].name, listed[k].key;
      if !SomeFilterMatches(pool, name) { continue; }
      if key in explicit {
        entries := entries + [ProbeEntry(key, name, Explicit, None)];
        continue;
      }
      candidates := candidates + 1;
      if candidates > CANDIDATE_LIMIT {
        entries := entries + [ProbeEntry(key, name, Skipped, None)];
        continue;
      }
      var exitCountry := if pool.verifyExitCountry then Some(listed[k].exitCountry) else None;
      var accepted := !pool.verifyExitCountry || CountryWanted(pool, listed[k]);
      var verdict := if !accepted then WrongCountry else if selected >= capacity then Skipped else Member;
      if verdict == Member { selected := selected + 1; }
      entries := entries + [ProbeEntry(key, name, verdict, exitCountry)];
    }
    assert listed[..|listed|] == listed;
    var members := MembersOf(entries);
    var previous := sub.poolKeys;
    var keptPrevious := false;
    if |members| == 0 {
      var kept := KeepPrevious(previous, explicit, entries, listed, pool);
      members := Take(kept, capacity);
      keptPrevious := |members| > 0;
    }
    r := Some((sub.(poolKeys := members), Report(members, entries, members != previous, keptPrevious)));
  }

  method KeepPrevious(previous: seq<Node>, explicit: set<string>, entries: seq<ProbeEntry>, listed: seq<Listed>,
                      pool: PoolSettings) returns (kept: seq<Node>)
    ensures kept == Kept(previous, explicit, entries, listed, pool).0
  {
    hide Barred, StillMatches;
    kept := [];
    var seen: set<string> := {};
    for k := 0 to |previous|
      invariant (kept, seen) == Kept(previous[..k], explicit, entries, listed, pool)
    {
      assert previous[..k + 1][..k] == previous[..k];
      var node := previous[k];
      if Barred(node.key, explicit, entries) || node.key in seen { continue; }
      seen := seen + {node.key};
      if StillMatches(node.key, listed, pool) { kept := kept + [node]; }
    }
    assert previous[..|previous|] == previous;
  }

  // ----- what a rebuild guarantees --------------------------------------

  /** Entry keys come from the list, each once, explicit keys are marked so, and the
      members counted are those selected. */
  ghost predicate ScanRight(st: ScanState, listed: seq<Listed>, pool: PoolSettings, explicit: set<string>,
                            capacity: nat)
  {
    && (forall i, j :: 0 <= i < j < |st.entries| ==> st.entries[i].key != st.entries[j].key)
    && (forall i :: 0 <= i < |st.entries| ==> EntrySound(st.entries[i], listed, pool, explicit))
    && |MembersOf(st.entries)| == st.selected <= capacity
  }

  lemma EntrySoundLonger(e: ProbeEntry, listed: seq<Listed>, node: Listed, pool: PoolSettings, explicit: set<string>)
    requires EntrySound(e, listed, pool, explicit)
    requires forall j :: 0 <= j < |listed| ==> listed[j].key != node.key
    ensures EntrySound(e, listed + [node], pool, explicit) && e.key != node.key
  {
    hide SomeFilterMatches, CountryWanted;
    var longer := listed + [node];
    var j :| 0 <= j < |listed| && Describes(e, listed[j]) && SomeFilterMatches(pool, listed[j].name)
             && (e.verdict == Explicit <==> e.key in explicit)
             && (e.verdict == Member && pool.verifyExitCountry ==> CountryWanted(pool, listed[j]))
             && (e.verdict == WrongCountry ==> pool.verifyExitCountry && !CountryWanted(pool, listed[j]));
    assert longer[j] == listed[j];
    assert Describes(e, longer[j]);
  }

  lemma ScanStepKeeps(st: ScanState, listed: seq<Listed>, node: Listed, pool: PoolSettings, explicit: set<string>,
                      capacity: nat)
    requires ScanRight(st, listed, pool, explicit, capacity)
    requires forall j :: 0 <= j < |listed| ==> listed[j].key != node.key
    ensures ScanRight(ScanStep(st, node, pool, explicit, capacity), listed + [node], pool, explicit, capacity)
  {
    hide SomeFilterMatches, CountryWanted, EntrySound, MembersOf;
    var longer, after := listed + [node], ScanStep(st, node, pool, explicit, capacity);
    forall i | 0 <= i < |st.entries|
      ensures EntrySound(st.entries[i], longer, pool, explicit) && st.entries[i].key != node.key
    {
      EntrySoundLonger(st.entries[i], listed, node, pool, explicit);
    }
    if SomeFilterMatches(pool, node.name) {
      var e := after.entries[|st.entries|];
      assert after.entries == st.entries + [e];
      NewEntrySound(st, listed, node, pool, explicit, capacity);
      OneMoreMember(st.entries, e);
    }
  }

  lemma NewEntrySound(st: ScanState, listed: seq<Listed>, node: Listed, pool: PoolSettings, explicit: set<string>,
                      capacity: nat)
    requires SomeFilterMatches(pool, node.name)
    ensures EntrySound(ScanStep(st, node, pool, explicit, capacity).entries[|st.entries|], listed + [node], pool,
                       explicit)
  {
    hide SomeFilterMatches, CountryWanted;
    var longer, e := listed + [node], ScanStep(st, node, pool, explicit, capacity).entries[|st.entries|];
    assert longer[|listed|] == node && Describes(e, longer[|listed|]);
  }

  lemma OneMoreMember(entries: seq<ProbeEntry>, e: ProbeEntry)
    ensures |MembersOf(entries + [e])| == |MembersOf(entries)| + if e.verdict == Member then 1 else 0
  {
    assert (entries + [e])[..|entries|] == entries;
  }

  lemma {:induction false} ScanSound(listed: seq<Listed>, pool: PoolSettings, explicit: set<string>, capacity: nat)
    requires DistinctKeys(listed)
    ensures ScanRight(Scan(listed, pool, explicit, capacity), listed, pool, explicit, capacity)
    decreases |listed|
  {
    hide ScanStep, EntrySound;
    if listed != [] {
      var n := |listed| - 1;
      var front, node := listed[..n], listed[n];
      ScanSound(front, pool, explicit, capacity);
      assert listed == front + [node];
      ScanStepKeeps(Scan(front, pool, explicit, capacity), front, node, pool, explicit, capacity);
    }
  }

  ghost predicate Describes(e: ProbeEntry, node: Listed) {
    e.key == node.key && e.name == node.name
  }

  ghost predicate EntrySound(e: ProbeEntry, listed: seq<Listed>, pool: PoolSettings, explicit: set<string>) {
    exists j :: 0 <= j < |listed| && Describes(e, listed[j]) && SomeFilterMatches(pool, listed[j].name)
                && (e.verdict == Explicit <==> e.key in explicit)
                && (e.verdict == Member && pool.verifyExitCountry ==> CountryWanted(pool, listed[j]))
                && (e.verdict == WrongCountry ==> pool.verifyExitCountry && !CountryWanted(pool, listed[j]))
  }

  ghost predicate IsMember(entries: seq<ProbeEntry>, key: string) {
    exists i :: 0 <= i < |entries| && entries[i].key == key && entries[i].verdict == Member
  }

  lemma {:induction false} MembersAreEntries(entries: seq<ProbeEntry>)
    requires forall i, j :: 0 <= i < j < |entries| ==> entries[i].key != entries[j].key
    ensures Distinct(KeysOf(MembersOf(entries)))
    ensures forall k :: 0 <= k < |MembersOf(entries)| ==> IsMember(entries, MembersOf(entries)[k].key)
    decreases |entries|
  {
    if entries != [] {
      var n := |entries| - 1;
      var front := entries[..n];
      MembersAreEntries(front);
      var ms := MembersOf(front);
      forall k | 0 <= k < |ms| ensures IsMember(entries, ms[k].key) && ms[k].key != entries[n].key {
        var i :| 0 <= i < |front| && front[i].key == ms[k].key && front[i].verdict == Member;
        assert entries[i] == front[i];
      }
      if entries[n].verdict == Member {
        assert KeysOf(MembersOf(entries)) == KeysOf(ms) + [entries[n].key];
      }
    }
  }

  lemma {:induction false} KeptSound(previous: seq<Node>, explicit: set<string>, entries: seq<ProbeEntry>,
                                     listed: seq<Listed>, pool: PoolSettings)
    ensures Distinct(KeysOf(Kept(previous, explicit, entries, listed, pool).0))
    ensures forall k :: 0 <= k < |Kept(previous, explicit, entries, listed, pool).0| ==>
              KeptNode(Kept(previous, explicit, entries, listed, pool).0[k].key,
                       Kept(previous, explicit, entries, listed, pool).1, explicit, entries, listed, pool)
    decreases |previous|
  {
    hide Barred, StillMatches;
    if previous != [] {
      var n := |previous| - 1;
      KeptSound(previous[..n], explicit, entries, listed, pool);
      var front := Kept(previous[..n], explicit, entries, listed, pool);
      var all := Kept(previous, explicit, entries, listed, pool);
      if |all.0| > |front.0| {
        assert KeysOf(all.0) == KeysOf(front.0) + [previous[n].key];
      }
    }
  }

  ghost predicate KeptNode(key: string, seen: set<string>, explicit: set<string>, entries: seq<ProbeEntry>,
                           listed: seq<Listed>, pool: PoolSettings)
  {
    key in seen && !Barred(key, explicit, entries) && StillMatches(key, listed, pool)
  }

  /** Keeping twice is keeping once. */
  lemma {:induction false} KeptAgain(kept: seq<Node>, explicit: set<string>, entries: seq<ProbeEntry>,
                                     listed: seq<Listed>, pool: PoolSettings)
    requires Distinct(KeysOf(kept))
    requires forall k :: 0 <= k < |kept| ==>
               !Barred(kept[k].key, explicit, entries) && StillMatches(kept[k].key, listed, pool)
    ensures Kept(kept, explicit, entries, listed, pool) == (kept, Elements(KeysOf(kept)))
    decreases |kept|
  {
    hide Barred, StillMatches;
    if kept != [] {
      var n := |kept| - 1;
      var front := kept[..n];
      assert KeysOf(front) == KeysOf(kept)[..n];
      KeptAgain(front, explicit, entries, listed, pool);
      assert kept == front + [kept[n]];
      assert KeysOf(kept) == KeysOf(front) + [kept[n].key];
      assert kept[n].key !in Elements(KeysOf(front));
      assert Elements(KeysOf(kept)) == Elements(KeysOf(front)) + {kept[n].key};
    } else {
      assert KeysOf(kept) == [] && Elements(KeysOf(kept)) == {};
    }
  }

  /** The pool a rebuild stores. */
  ghost predicate GoodPool(members: seq<Node>, p: Profile, sub: Subscription, listed: seq<Listed>,
                           entries: seq<ProbeEntry>)
  {
    && Distinct(KeysOf(members))
    && (forall k :: 0 <= k < |members| ==> members[k].key !in ExplicitKeys(p, sub, listed)
                                           && !WrongIn(entries, members[k].key))
    && |members| <= Capacity(sub)
  }

  lemma MembersNotWrong(entries: seq<ProbeEntry>, key: string)
    requires forall i, j :: 0 <= i < j < |entries| ==> entries[i].key != entries[j].key
    requires IsMember(entries, key)
    ensures !WrongIn(entries, key)
  {
  }

  /** After a rebuild the members are distinct, none is chosen explicitly elsewhere, none
      was measured in a wrong country, and they fit the capacity. */
  lemma RebuildSafe(p: Profile, listed: seq<Listed>)
    requires DistinctKeys(listed) && Rebuilt(p, listed).Some?
    ensures GoodPool(Rebuilt(p, listed).value.1.members, p, p.subscription.value, listed,
                     Rebuilt(p, listed).value.1.entries)
    ensures |p.subscription.value.backupKeys| <= 7 ==>
              1 + |p.subscription.value.backupKeys| + |Rebuilt(p, listed).value.1.members| <= CHAIN_LIMIT
  {
    hide ExplicitKeys, Scan, MembersOf, Kept, StillMatches, WrongIn;
    var sub, pool := p.subscription.value, p.subscription.value.nodePool.value;
    var explicit, capacity := ExplicitKeys(p, sub, listed), Capacity(sub);
    var entries := Scan(listed, pool, explicit, capacity).entries;
    ScanSound(listed, pool, explicit, capacity);
    MembersAreEntries(entries);
    var found := MembersOf(entries);
    forall k | 0 <= k < |found| ensures found[k].key !in explicit && !WrongIn(entries, found[k].key) {
      MembersNotWrong(entries, found[k].key);
      var i :| 0 <= i < |entries| && entries[i].key == found[k].key && entries[i].verdict == Member;
      assert EntrySound(entries[i], listed, pool, explicit);
    }
    if found == [] {
      KeptSound(sub.poolKeys, explicit, entries, listed, pool);
      var kept := Kept(sub.poolKeys, explicit, entries, listed, pool).0;
      var members := Take(kept, capacity);
      assert KeysOf(members) == KeysOf(kept)[..|members|];
    }
  }

  /** A freshly probed member, when exits are verified, really exits in a country that
      one of the filters matching its name asks for. */
  lemma MembersVerified(p: Profile, listed: seq<Listed>, k: nat)
    requires DistinctKeys(listed) && Rebuilt(p, listed).Some? && p.subscription.value.nodePool.value.verifyExitCountry
    requires !Rebuilt(p, listed).value.1.keptPrevious && k < |Rebuilt(p, listed).value.1.members|
    ensures exists j :: 0 <= j < |listed| && listed[j].key == Rebuilt(p, listed).value.1.members[k].key
                        && CountryWanted(p.subscription.value.nodePool.value, listed[j])
  {
    hide ExplicitKeys, Scan, MembersOf, Kept, CountryWanted, SomeFilterMatches;
    var sub, pool := p.subscription.value, p.subscription.value.nodePool.value;
    var explicit, capacity := ExplicitKeys(p, sub, listed), Capacity(sub);
    var entries := Scan(listed, pool, explicit, capacity).entries;
    ScanSound(listed, pool, explicit, capacity);
    MembersAreEntries(entries);
    var key := MembersOf(entries)[k].key;
    var i :| 0 <= i < |entries| && entries[i].key == key && entries[i].verdict == Member;
    assert EntrySound(entries[i], listed, pool, explicit);
  }

  /** How many candidates stand before position `j`: nodes that match a filter and are not
      explicit. Only the first 32 are measured. */
  function CandidatesBefore(listed: seq<Listed>, j: nat, pool: PoolSettings, explicit: set<string>): nat
    requires j <= |listed|
  {
    if j == 0 then 0
    else CandidatesBefore(listed, j - 1, pool, explicit)
         + if SomeFilterMatches(pool, listed[j - 1].name) && listed[j - 1].key !in explicit then 1 else 0
  }

  lemma {:induction false} CandidatesPrefix(listed: seq<Listed>, n: nat, j: nat, pool: PoolSettings,
                                            explicit: set<string>)
    requires j <= n <= |listed|
    ensures CandidatesBefore(listed[..n], j, pool, explicit) == CandidatesBefore(listed, j, pool, explicit)
    decreases j
  {
    hide SomeFilterMatches;
    if j > 0 { CandidatesPrefix(listed, n, j - 1, pool, explicit); }
  }

  lemma {:induction false} ScanCounts(listed: seq<Listed>, pool: PoolSettings, explicit: set<string>, capacity: nat)
    ensures Scan(listed, pool, explicit, capacity).candidates == CandidatesBefore(listed, |listed|, pool, explicit)
    decreases |listed|
  {
    hide SomeFilterMatches, CountryWanted;
    if listed != [] {
      var n := |listed| - 1;
      ScanCounts(listed[..n], pool, explicit, capacity);
      CandidatesPrefix(listed, n, n, pool, explicit);
    }
  }

  /** What the scan says of a measured candidate. */
  ghost predicate Measured(st: ScanState, node: Listed, pool: PoolSettings, capacity: nat) {
    if pool.verifyExitCountry && !CountryWanted(pool, node) then WrongIn(st.entries, node.key)
    else IsMember(st.entries, node.key) || st.selected >= capacity
  }

  lemma MeasuredStays(st: ScanState, after: ScanState, node: Listed, pool: PoolSettings, capacity: nat)
    requires Measured(st, node, pool, capacity) && st.entries <= after.entries && st.selected <= after.selected
    ensures Measured(after, node, pool, capacity)
  {
    hide CountryWanted;
    if i :| 0 <= i < |st.entries| && st.entries[i].key == node.key && st.entries[i].verdict == WrongCountry {
      assert after.entries[i] == st.entries[i];
    }
    if i :| 0 <= i < |st.entries| && st.entries[i].key == node.key && st.entries[i].verdict == Member {
      assert after.entries[i] == st.entries[i];
    }
  }

  lemma StepMeasures(st: ScanState, node: Listed, pool: PoolSettings, explicit: set<string>, capacity: nat)
    requires SomeFilterMatches(pool, node.name) && node.key !in explicit && st.candidates < CANDIDATE_LIMIT
    ensures Measured(ScanStep(st, node, pool, explicit, capacity), node, pool, capacity)
  {
    hide SomeFilterMatches, CountryWanted;
    var after := ScanStep(st, node, pool, explicit, capacity);
    var e := after.entries[|st.entries|];
    assert e.key == node.key;
  }

  /** Each of the first 32 candidates is measured: it is marked wrong, or is a member, or
      found the pool full. */
  lemma {:induction false} ScanMeasures(listed: seq<Listed>, pool: PoolSettings, explicit: set<string>, capacity: nat,
                                        j: nat)
    requires j < |listed| && SomeFilterMatches(pool, listed[j].name) && listed[j].key !in explicit
    requires CandidatesBefore(listed, j, pool, explicit) < CANDIDATE_LIMIT
    ensures Measured(Scan(listed, pool, explicit, capacity), listed[j], pool, capacity)
    decreases |listed|
  {
    hide SomeFilterMatches, CountryWanted, Measured;
    var n := |listed| - 1;
    var st := Scan(listed[..n], pool, explicit, capacity);
    CandidatesPrefix(listed, n, j, pool, explicit);
    if j < n {
      ScanMeasures(listed[..n], pool, explicit, capacity, j);
      MeasuredStays(st, Scan(listed, pool, explicit, capacity), listed[j], pool, capacity);
    } else {
      ScanCounts(listed[..n], pool, explicit, capacity);
      StepMeasures(st, listed[n], pool, explicit, capacity);
    }
  }

  /** A node of the list that exits where a filter matching its name wants it. */
  ghost predicate WantedNode(key: string, listed: seq<Listed>, pool: PoolSettings) {
    exists j :: 0 <= j < |listed| && listed[j].key == key && CountryWanted(pool, listed[j])
  }

  /** A node of the list that 32 candidates precede, so that it was not measured. */
  ghost predicate PastTheLimit(key: string, listed: seq<Listed>, pool: PoolSettings, explicit: set<string>) {
    exists j :: 0 <= j < |listed| && listed[j].key == key
                && CandidatesBefore(listed, j, pool, explicit) >= CANDIDATE_LIMIT
  }

  lemma {:induction false} NameAt(listed: seq<Listed>, key: string) returns (j: nat)
    requires NameOf(listed, key).Some?
    ensures j < |listed| && listed[j].key == key && NameOf(listed, key) == Some(listed[j].name)
    decreases |listed|
  {
    j := 0;
    if listed[0].key != key {
      j := NameAt(listed[1..], key);
      j := j + 1;
    }
  }

  lemma KeptTrusted(key: string, listed: seq<Listed>, pool: PoolSettings, explicit: set<string>, capacity: nat)
    requires pool.verifyExitCountry && capacity > 0 && MembersOf(Scan(listed, pool, explicit, capacity).entries) == []
    requires DistinctKeys(listed) && NameOf(listed, key).Some?
    requires !Barred(key, explicit, Scan(listed, pool, explicit, capacity).entries) && StillMatches(key, listed, pool)
    ensures PastTheLimit(key, listed, pool, explicit)
  {
    hide SomeFilterMatches, CountryWanted, Scan, NameOf, CandidatesBefore;
    var j := NameAt(listed, key);
    if CandidatesBefore(listed, j, pool, explicit) < CANDIDATE_LIMIT {
      var st := Scan(listed, pool, explicit, capacity);
      ScanMeasures(listed, pool, explicit, capacity, j);
      ScanSound(listed, pool, explicit, capacity);
      if i :| 0 <= i < |st.entries| && st.entries[i].key == key && st.entries[i].verdict == Member {
        NoMembers(st.entries, i);
      }
    }
  }

  lemma {:induction false} NoMembers(entries: seq<ProbeEntry>, i: nat)
    requires i < |entries| && entries[i].verdict == Member
    ensures MembersOf(entries) != []
    decreases |entries|
  {
    if i < |entries| - 1 { NoMembers(entries[..|entries| - 1], i); }
  }

  /** With verified exits every stored member is a node measured in a wanted country, or one
      that could not be measured: unlisted, or past the 32nd candidate. */
  lemma StoredMembersTrusted(p: Profile, listed: seq<Listed>, k: nat)
    requires DistinctKeys(listed) && Rebuilt(p, listed).Some? && p.subscription.value.nodePool.value.verifyExitCountry
    requires k < |Rebuilt(p, listed).value.0.poolKeys|
    ensures var key := Rebuilt(p, listed).value.0.poolKeys[k].key;
            var sub, pool := p.subscription.value, p.subscription.value.nodePool.value;
            WantedNode(key, listed, pool) || NameOf(listed, key).None?
            || PastTheLimit(key, listed, pool, ExplicitKeys(p, sub, listed))
  {
    hide ExplicitKeys, Scan, MembersOf, Kept, NameOf, PastTheLimit, StillMatches, CountryWanted;
    var sub, pool := p.subscription.value, p.subscription.value.nodePool.value;
    var explicit, capacity := ExplicitKeys(p, sub, listed), Capacity(sub);
    var entries := Scan(listed, pool, explicit, capacity).entries;
    var key := Rebuilt(p, listed).value.0.poolKeys[k].key;
    if MembersOf(entries) == [] {
      KeptSound(sub.poolKeys, explicit, entries, listed, pool);
      if NameOf(listed, key).Some? { KeptTrusted(key, listed, pool, explicit, capacity); }
    } else {
      MembersVerified(p, listed, k);
    }
  }

  // ----- exactly which nodes are chosen ---------------------------------

  /** Some filter asks for no name, or for a term that the name contains, case aside. */
  ghost predicate Asks(filter: PoolFilter, name: string) {
    |filter.nameContains| == 0 ||
    exists t :: 0 <= t < |filter.nameContains| && SliceOf(Lower(filter.nameContains[t]), Lower(name))
  }

  lemma FiltersExactly(pool: PoolSettings, node: Listed)
    ensures SomeFilterMatches(pool, node.name) <==>
            exists i :: 0 <= i < |pool.filters| && Asks(pool.filters[i], node.name)
    ensures CountryWanted(pool, node) <==>
            exists i :: 0 <= i < |pool.filters| && Asks(pool.filters[i], node.name)
                        && pool.filters[i].exitCountry.Some?
                        && Upper(pool.filters[i].exitCountry.value) == node.exitCountry
  {
    hide Lower, Includes, SliceOf, Upper;
    forall i | 0 <= i < |pool.filters|
      ensures NameMatches(pool.filters[i], node.name) <==> Asks(pool.filters[i], node.name)
    {
      var terms := pool.filters[i].nameContains;
      forall t | 0 <= t < |terms|
        ensures Includes(Lower(node.name), Lower(terms[t])) <==> SliceOf(Lower(terms[t]), Lower(node.name))
      {
        IncludesSlice(Lower(node.name), Lower(terms[t]));
      }
    }
  }

  lemma {:induction false} ExitKeysExactly(exits: seq<ProxyExit>, key: string)
    ensures key in ExitKeys(exits) <==>
            exists i :: 0 <= i < |exits|
                        && (exits[i] == NodeExit(key) || (exits[i].PoolExit? && key in exits[i].endpointKeys))
    decreases |exits|
  {
    if exits != [] {
      ExitKeysExactly(exits[1..], key);
      assert forall i :: 1 <= i < |exits| ==> exits[i] == exits[1..][i - 1];
    }
  }

  /** The keys a pool must stay away from: the primary, the backups, the pins, the DNS egress
      and the named exits. */
  lemma ExplicitExactly(p: Profile, sub: Subscription, listed: seq<Listed>, key: string)
    ensures key in ExplicitKeys(p, sub, listed) <==>
            || sub.activeKey == Some(key)
            || (sub.activeKey.None? && sub.activeIndex < |listed| && listed[sub.activeIndex].key == key)
            || (exists i :: 0 <= i < |sub.backupKeys| && sub.backupKeys[i].key == key)
            || (exists i :: 0 <= i < |p.pinned| && p.pinned[i].endpointKey == key)
            || p.dnsKey == Some(key)
            || (exists i :: 0 <= i < |p.exits|
                            && (p.exits[i] == NodeExit(key)
                                || (p.exits[i].PoolExit? && key in p.exits[i].endpointKeys)))
  {
    hide ExitKeys;
    ExitKeysExactly(p.exits, key);
    BackupKeysExactly(sub.backupKeys, key);
  }

  lemma BackupKeysExactly(nodes: seq<Node>, key: string)
    ensures key in Elements(KeysOf(nodes)) <==> exists i :: 0 <= i < |nodes| && nodes[i].key == key
  {
    var keys := KeysOf(nodes);
    if i :| 0 <= i < |nodes| && nodes[i].key == key { assert keys[i] == key; }
  }

  /** Node `j` matches a filter, is not explicit, is among the first 32 such nodes, and exits
      in a wanted country where exits are verified. */
  ghost predicate AcceptedAt(listed: seq<Listed>, j: nat, pool: PoolSettings, explicit: set<string>)
    requires j < |listed|
  {
    SomeFilterMatches(pool, listed[j].name) && listed[j].key !in explicit
    && CandidatesBefore(listed, j, pool, explicit) < 32
    && (pool.verifyExitCountry ==> CountryWanted(pool, listed[j]))
  }

  /** The accepted nodes before position `n`, in list order. */
  ghost function AcceptedOf(listed: seq<Listed>, n: nat, pool: PoolSettings, explicit: set<string>): seq<Node>
    requires n <= |listed|
  {
    if n == 0 then []
    else AcceptedOf(listed, n - 1, pool, explicit)
         + if AcceptedAt(listed, n - 1, pool, explicit) then [Node(listed[n - 1].key, listed[n - 1].name)] else []
  }

  function FirstOf(nodes: seq<Node>, n: nat): seq<Node> {
    if |nodes| <= n then nodes else nodes[..n]
  }

  lemma {:induction false} AcceptedPrefix(listed: seq<Listed>, n: nat, k: nat, pool: PoolSettings,
                                          explicit: set<string>)
    requires k <= n <= |listed|
    ensures AcceptedOf(listed[..n], k, pool, explicit) == AcceptedOf(listed, k, pool, explicit)
    decreases k
  {
    hide SomeFilterMatches, CountryWanted, CandidatesBefore;
    if k > 0 {
      AcceptedPrefix(listed, n, k - 1, pool, explicit);
      CandidatesPrefix(listed, n, k - 1, pool, explicit);
    }
  }

  /** One step of the scan, for a node with `accepted` accepted ones before it. */
  lemma StepMembers(st: ScanState, node: Listed, pool: PoolSettings, explicit: set<string>, capacity: nat,
                    accepted: seq<Node>)
    requires MembersOf(st.entries) == FirstOf(accepted, capacity) && st.selected == |MembersOf(st.entries)|
    ensures var good := SomeFilterMatches(pool, node.name) && node.key !in explicit && st.candidates < 32
                        && (pool.verifyExitCountry ==> CountryWanted(pool, node));
            var after := ScanStep(st, node, pool, explicit, capacity);
            MembersOf(after.entries) == FirstOf(accepted + if good then [Node(node.key, node.name)] else [], capacity)
            && after.selected == |MembersOf(after.entries)|
  {
    hide SomeFilterMatches, CountryWanted, MembersOf;
    var after := ScanStep(st, node, pool, explicit, capacity);
    if SomeFilterMatches(pool, node.name) {
      LastMember(st.entries, after.entries[|st.entries|]);
      assert after.entries == st.entries + [after.entries[|st.entries|]];
    }
  }

  lemma LastMember(entries: seq<ProbeEntry>, e: ProbeEntry)
    ensures MembersOf(entries + [e]) == MembersOf(entries) + if e.verdict == Member then [Node(e.key, e.name)] else []
  {
    assert (entries + [e])[..|entries|] == entries;
  }

  /** The scan's members are the first accepted nodes, as many as there is room for. */
  lemma {:induction false} ScanMembers(listed: seq<Listed>, pool: PoolSettings, explicit: set<string>, capacity: nat)
    ensures MembersOf(Scan(listed, pool, explicit, capacity).entries) ==
            FirstOf(AcceptedOf(listed, |listed|, pool, explicit), capacity)
    ensures Scan(listed, pool, explicit, capacity).selected ==
            |MembersOf(Scan(listed, pool, explicit, capacity).entries)|
    decreases |listed|
  {
    hide SomeFilterMatches, CountryWanted, ScanStep, MembersOf, FirstOf, CandidatesBefore;
    if listed == [] {
      assert MembersOf([]) == [] && FirstOf([], capacity) == [] by { NothingScanned(capacity); }
    } else {
      var n := |listed| - 1;
      var front := listed[..n];
      ScanMembers(front, pool, explicit, capacity);
      ScanCounts(front, pool, explicit, capacity);
      CandidatesPrefix(listed, n, n, pool, explicit);
      AcceptedPrefix(listed, n, n, pool, explicit);
      StepMembers(Scan(front, pool, explicit, capacity), listed[n], pool, explicit, capacity,
                  AcceptedOf(listed, n, pool, explicit));
    }
  }

  lemma NothingScanned(capacity: nat)
    ensures MembersOf([]) == [] && FirstOf([], capacity) == []
  {
  }

  ghost predicate MarkedSkipped(entries: seq<ProbeEntry>, key: string) {
    exists i :: 0 <= i < |entries| && entries[i].key == key && entries[i].verdict == Skipped
  }

  /** An accepted node with no room left is reported as skipped. */
  lemma {:induction false} LaterSkipped(listed: seq<Listed>, pool: PoolSettings, explicit: set<string>, capacity: nat,
                                        j: nat)
    requires j < |listed| && AcceptedAt(listed, j, pool, explicit)
    requires |AcceptedOf(listed, j, pool, explicit)| >= capacity
    ensures MarkedSkipped(Scan(listed, pool, explicit, capacity).entries, listed[j].key)
    decreases |listed|
  {
    hide SomeFilterMatches, CountryWanted, MembersOf, CandidatesBefore, AcceptedOf;
    var n := |listed| - 1;
    var front := listed[..n];
    var st, after := Scan(front, pool, explicit, capacity), Scan(listed, pool, explicit, capacity);
    CandidatesPrefix(listed, n, j, pool, explicit);
    AcceptedPrefix(listed, n, j, pool, explicit);
    if j < n {
      LaterSkipped(front, pool, explicit, capacity, j);
      var i :| 0 <= i < |st.entries| && st.entries[i].key == listed[j].key && st.entries[i].verdict == Skipped;
      assert after.entries[i] == st.entries[i];
    } else {
      ScanMembers(front, pool, explicit, capacity);
      ScanCounts(front, pool, explicit, capacity);
      assert after.entries[|st.entries|].key == listed[n].key && after.entries[|st.entries|].verdict == Skipped;
    }
  }

  /** The previous node `i` is kept: its key is not explicit and not measured wrong, no earlier
      previous node has it, and it is unlisted or its listed name still matches a filter. */
  ghost predicate KeepAt(previous: seq<Node>, i: nat, explicit: set<string>, entries: seq<ProbeEntry>,
                         listed: seq<Listed>, pool: PoolSettings)
    requires i < |previous|
  {
    var key := previous[i].key;
    key !in explicit && !WrongIn(entries, key) && (forall j :: 0 <= j < i ==> previous[j].key != key)
    && (NameOf(listed, key).Some? ==> SomeFilterMatches(pool, NameOf(listed, key).value))
  }

  ghost function KeptOf(previous: seq<Node>, n: nat, explicit: set<string>, entries: seq<ProbeEntry>,
                        listed: seq<Listed>, pool: PoolSettings): seq<Node>
    requires n <= |previous|
  {
    if n == 0 then []
    else KeptOf(previous, n - 1, explicit, entries, listed, pool)
         + if KeepAt(previous, n - 1, explicit, entries, listed, pool) then [previous[n - 1]] else []
  }

  lemma {:induction false} KeptExactly(previous: seq<Node>, n: nat, explicit: set<string>, entries: seq<ProbeEntry>,
                                       listed: seq<Listed>, pool: PoolSettings)
    requires n <= |previous|
    ensures Kept(previous[..n], explicit, entries, listed, pool).0 ==
            KeptOf(previous, n, explicit, entries, listed, pool)
    ensures forall key :: key in Kept(previous[..n], explicit, entries, listed, pool).1 <==>
                          !Barred(key, explicit, entries) && exists j :: 0 <= j < n && previous[j].key == key
    decreases n
  {
    hide WrongIn, SomeFilterMatches, NameOf;
    if n > 0 {
      KeptExactly(previous, n - 1, explicit, entries, listed, pool);
      assert previous[..n][..n - 1] == previous[..n - 1];
    }
  }

  /** A rebuild stores the first accepted nodes up to the room that seven minus the backups
      leave, in list order; where that is none, the kept previous ones up to that room. */
  lemma RebuiltExactly(p: Profile, listed: seq<Listed>)
    requires Rebuilt(p, listed).Some?
    ensures var sub, pool := p.subscription.value, p.subscription.value.nodePool.value;
            var room: nat := if |sub.backupKeys| < 7 then 7 - |sub.backupKeys| else 0;
            var explicit, report := ExplicitKeys(p, sub, listed), Rebuilt(p, listed).value.1;
            var chosen := FirstOf(AcceptedOf(listed, |listed|, pool, explicit), room);
            var kept := KeptOf(sub.poolKeys, |sub.poolKeys|, explicit, report.entries, listed, pool);
            Rebuilt(p, listed).value.0 == sub.(poolKeys := report.members)
            && report.members == (if chosen != [] then chosen else FirstOf(kept, room))
            && (report.keptPrevious <==> chosen == [] && report.members != [])
            && (report.poolChanged <==> report.members != sub.poolKeys)
  {
    hide ExplicitKeys, Scan, MembersOf, Kept, KeptOf, AcceptedOf;
    var sub, pool := p.subscription.value, p.subscription.value.nodePool.value;
    var explicit, capacity := ExplicitKeys(p, sub, listed), Capacity(sub);
    ScanMembers(listed, pool, explicit, capacity);
    var entries := Scan(listed, pool, explicit, capacity).entries;
    KeptExactly(sub.poolKeys, |sub.poolKeys|, explicit, entries, listed, pool);
    assert sub.poolKeys[..|sub.poolKeys|] == sub.poolKeys;
  }

  /** A second rebuild stores the same pool and reports no change. */
  lemma RebuildIdempotent(p: Profile, listed: seq<Listed>)
    requires DistinctKeys(listed) && Rebuilt(p, listed).Some?
    ensures var once := Rebuilt(p, listed).value;
            var again := Rebuilt(p.(subscription := Some(once.0)), listed);
            again.Some? && again.value.0 == once.0 && again.value.1.members == once.1.members
            && again.value.1.entries == once.1.entries && !again.value.1.poolChanged
  {
    hide Scan, MembersOf, Kept, StillMatches, Barred, ExitKeys;
    var once := Rebuilt(p, listed).value;
    var q := p.(subscription := Some(once.0));
    var sub, pool := p.subscription.value, p.subscription.value.nodePool.value;
    var explicit, capacity := ExplicitKeys(p, sub, listed), Capacity(sub);
    assert ExplicitKeys(q, once.0, listed) == explicit && Capacity(once.0) == capacity;
    var entries := Scan(listed, pool, explicit, capacity).entries;
    if MembersOf(entries) == [] {
      KeptSound(sub.poolKeys, explicit, entries, listed, pool);
      var kept := Kept(sub.poolKeys, explicit, entries, listed, pool).0;
      var members := Take(kept, capacity);
      assert KeysOf(members) == KeysOf(kept)[..|members|];
      KeptAgain(members, explicit, entries, listed, pool);
    }
  }

  // ----- the failover chain ---------------------------------------------

  function Dedup(keys: seq<string>): (r: seq<string>)
    ensures |r| <= |keys| && forall k :: k in r <==> k in keys
  {
    if keys == [] then []
    else
      var rest, last := Dedup(keys[..|keys| - 1]), keys[|keys| - 1];
      assert keys == keys[..|keys| - 1] + [last];
      if last in rest then rest else rest + [last]
  }

  function OnlyListed(keys: seq<string>, listed: seq<Listed>): (r: seq<string>)
    ensures |r| <= |keys|
    ensures forall k :: k in r <==> k in keys && NameOf(listed, k).Some?
  {
    if keys == [] then []
    else
      var rest, last := OnlyListed(keys[..|keys| - 1], listed), keys[|keys| - 1];
      assert keys == keys[..|keys| - 1] + [last];
      if NameOf(listed, last).Some? then rest + [last] else rest
  }

  function PoolMembers(p: Profile, listed: seq<Listed>): (r: seq<Node>)
    requires p.subscription.Some?
  {
    var sub := p.subscription.value;
    if sub.nodePool.None? then [] else NotExplicit(sub.poolKeys, ExplicitKeys(p, sub, listed))
  }

  function NotExplicit(nodes: seq<Node>, explicit: set<string>): (r: seq<Node>)
    ensures |r| <= |nodes|
    ensures forall x :: x in r <==> x in nodes && x.key !in explicit
    ensures (forall k :: 0 <= k < |nodes| ==> nodes[k].key !in explicit) ==> r == nodes
  {
    if nodes == [] then []
    else
      var rest, last := NotExplicit(nodes[..|nodes| - 1], explicit), nodes[|nodes| - 1];
      assert nodes == nodes[..|nodes| - 1] + [last];
      if last.key in explicit then rest else rest + [last]
  }

  function Candidates(p: Profile, listed: seq<Listed>): seq<string>
    requires p.subscription.Some?
  {
    var sub := p.subscription.value;
    var primary := Primary(sub, listed);
    (if primary.Some? then [primary.value] else []) + KeysOf(sub.backupKeys) + KeysOf(PoolMembers(p, listed))
  }

  /** The chain a status shows: primary, backups, pool, without repeats or nodes that left
      the list, cut at eight. */
  function StatusChain(p: Profile, listed: seq<Listed>): seq<string>
    requires p.subscription.Some?
  {
    var keys := OnlyListed(Dedup(Candidates(p, listed)), listed);
    if |keys| <= CHAIN_LIMIT then keys else keys[..CHAIN_LIMIT]
  }

  /** After a rebuild with at most seven backups, the chain drops no listed node: primary,
      every backup and every pool member that is still listed is in it. */
  lemma ChainDropsNothing(p: Profile, listed: seq<Listed>, key: string)
    requires DistinctKeys(listed) && Rebuilt(p, listed).Some? && |p.subscription.value.backupKeys| <= 7
    requires NameOf(listed, key).Some?
    requires Primary(p.subscription.value, listed) == Some(key)
             || key in KeysOf(p.subscription.value.backupKeys)
             || key in KeysOf(Rebuilt(p, listed).value.1.members)
    ensures key in StatusChain(p.(subscription := Some(Rebuilt(p, listed).value.0)), listed)
  {
    hide Scan, MembersOf, Kept, ExitKeys, Dedup, OnlyListed, NotExplicit, WrongIn;
    var once := Rebuilt(p, listed).value;
    var q := p.(subscription := Some(once.0));
    var sub := p.subscription.value;
    RebuildSafe(p, listed);
    assert ExplicitKeys(q, once.0, listed) == ExplicitKeys(p, sub, listed);
    assert PoolMembers(q, listed) == once.1.members;
    assert key in Candidates(q, listed);
  }

  /** Position `i` is the first mention of the key. */
  ghost predicate FirstMention(keys: seq<string>, key: string, i: int) {
    0 <= i < |keys| && keys[i] == key && forall j :: 0 <= j < i ==> keys[j] != key
  }

  ghost predicate MentionOrder(chain: seq<string>, keys: seq<string>) {
    forall a, b, i, j ::
      0 <= a < b < |chain| && FirstMention(keys, chain[a], i) && FirstMention(keys, chain[b], j) ==> i < j
  }

  lemma MentionGrows(front: seq<string>, last: string, key: string, i: int)
    requires key in front
    ensures FirstMention(front + [last], key, i) <==> FirstMention(front, key, i)
  {
    var m :| 0 <= m < |front| && front[m] == key;
    var keys := front + [last];
    assert keys[m] == key && forall j :: 0 <= j < |front| ==> keys[j] == front[j];
  }

  lemma {:induction false} DedupOrder(keys: seq<string>)
    ensures MentionOrder(Dedup(keys), keys)
    decreases |keys|
  {
    hide FirstMention;
    if keys != [] {
      var front, last := keys[..|keys| - 1], keys[|keys| - 1];
      DedupOrder(front);
      assert keys == front + [last];
      var rest, all := Dedup(front), Dedup(keys);
      forall x, i | x in front ensures FirstMention(keys, x, i) <==> FirstMention(front, x, i) {
        MentionGrows(front, last, x, i);
      }
      forall a, b, i, j | 0 <= a < b < |all| && FirstMention(keys, all[a], i) && FirstMention(keys, all[b], j)
        ensures i < j
      {
        assert all[a] == rest[a] && rest[a] in rest;
        if b < |rest| { assert all[b] == rest[b] && rest[b] in rest; } else { LastMention(front, last, rest[a], i, j); }
      }
    }
  }

  lemma LastMention(front: seq<string>, last: string, key: string, i: int, j: int)
    requires key in front && last !in front && FirstMention(front, key, i) && FirstMention(front + [last], last, j)
    ensures i < j
  {
    assert forall k :: 0 <= k < |front| ==> (front + [last])[k] == front[k];
  }

  lemma {:induction false} ListedOrder(chain: seq<string>, keys: seq<string>, listed: seq<Listed>)
    requires MentionOrder(chain, keys)
    ensures MentionOrder(OnlyListed(chain, listed), keys)
    decreases |chain|
  {
    hide FirstMention, NameOf;
    if chain != [] {
      var front, last := chain[..|chain| - 1], chain[|chain| - 1];
      ListedOrder(front, keys, listed);
      var rest, all := OnlyListed(front, listed), OnlyListed(chain, listed);
      forall a, b, i, j | 0 <= a < b < |all| && FirstMention(keys, all[a], i) && FirstMention(keys, all[b], j)
        ensures i < j
      {
        assert all[a] == rest[a] && rest[a] in rest;
        if b == |rest| {
          var k :| 0 <= k < |front| && front[k] == rest[a];
          assert chain[k] == rest[a];
        }
      }
    }
  }

  /** What the chain is chosen from, in order: the primary, the backups, the stored pool
      members that are not explicit. */
  ghost function Offered(p: Profile, listed: seq<Listed>): seq<string>
    requires p.subscription.Some?
  {
    var sub := p.subscription.value;
    var primary := if sub.activeKey.Some? then [sub.activeKey.value]
                   else if sub.activeIndex < |listed| then [listed[sub.activeIndex].key] else [];
    primary + KeysOf(sub.backupKeys)
    + if sub.nodePool.None? then [] else KeysOf(NotExplicit(sub.poolKeys, ExplicitKeys(p, sub, listed)))
  }

  ghost predicate IsListed(key: string, listed: seq<Listed>) {
    exists j :: 0 <= j < |listed| && listed[j].key == key
  }

  lemma {:induction false} NameOfListed(listed: seq<Listed>, key: string)
    ensures NameOf(listed, key).Some? <==> IsListed(key, listed)
    decreases |listed|
  {
    if listed != [] {
      NameOfListed(listed[1..], key);
      assert forall j :: 1 <= j < |listed| ==> listed[j] == listed[1..][j - 1];
    }
  }

  /** The shown chain holds listed offered keys only, in the order of first mention, each
      once, all of them unless there are more than eight; and it starts with the primary
      when that is listed. */
  lemma ChainExactly(p: Profile, listed: seq<Listed>)
    requires p.subscription.Some?
    ensures var chain, offered := StatusChain(p, listed), Offered(p, listed);
            && |chain| <= 8 && MentionOrder(chain, offered)
            && (forall k :: k in chain ==> k in offered && IsListed(k, listed))
            && (|chain| < 8 ==> forall k :: k in offered && IsListed(k, listed) ==> k in chain)
            && (offered != [] && IsListed(offered[0], listed) ==> chain != [] && chain[0] == offered[0])
  {
    hide Dedup, OnlyListed, ExplicitKeys, NotExplicit, NameOf, FirstMention, IsListed;
    var offered := Candidates(p, listed);
    assert offered == Offered(p, listed);
    var keys := OnlyListed(Dedup(offered), listed);
    DedupOrder(offered);
    ListedOrder(Dedup(offered), offered, listed);
    forall k ensures NameOf(listed, k).Some? <==> IsListed(k, listed) { NameOfListed(listed, k); }
    if offered != [] && IsListed(offered[0], listed) { HeadFirst(keys, offered); }
  }

  lemma HeadFirst(chain: seq<string>, keys: seq<string>)
    requires keys != [] && keys[0] in chain && MentionOrder(chain, keys) && forall k :: k in chain ==> k in keys
    ensures chain[0] == keys[0]
  {
    var b :| 0 <= b < |chain| && chain[b] == keys[0];
    var i := FirstMentionOf(keys, chain[0]);
    assert FirstMention(keys, keys[0], 0);
  }

  lemma {:induction false} FirstMentionOf(keys: seq<string>, key: string) returns (i: nat)
    requires key in keys
    ensures FirstMention(keys, key, i)
    decreases |keys|
  {
    i := 0;
    if keys[0] != key {
      i := FirstMentionOf(keys[1..], key);
      assert forall j :: 1 <= j < |keys| ==> keys[j] == keys[1..][j - 1];
      i := i + 1;
    }
  }
}
