/** The rule editor of src/components/ProfileFormModal.tsx: policies to text, one text
    per target, and back. */
module RuleText {
  import opened Prelude
  import opened Text
  import opened RouteChecker

  // ----- to text --------------------------------------------------------

  function DomainsFor(policies: seq<Policy>, target: Target): seq<string> {
    if policies == [] then []
    else (if policies[0].target == target then policies[0].domains else []) + DomainsFor(policies[1..], target)
  }

  function PoliciesToText(policies: seq<Policy>, target: Target): string {
    Join(DomainsFor(policies, target), '\n')
  }

  // ----- from text ------------------------------------------------------

  /** Trim every line and drop the blank ones. */
  function Clean(lines: seq<string>): seq<string> {
    if lines == [] then []
    else
      var rest, last := Clean(lines[..|lines| - 1]), Trim(lines[|lines| - 1]);
      if last == "" then rest else rest + [last]
  }

  function Lines(text: string): seq<string> {
    Clean(Split(text, '\n'))
  }

  function Section(domains: seq<string>, target: Target): seq<Policy> {
    if domains == [] then [] else [Policy(domains, target)]
  }

  /** The editor's normal form: at most one policy per target, block before proxy before direct. */
  function Build(block: seq<string>, proxy: seq<string>, direct: seq<string>): seq<Policy> {
    Section(block, Block) + Section(proxy, Proxy) + Section(direct, Direct)
  }

  method TextToPolicies(rulesBlock: string, rulesProxy: string, rulesDirect: string)
    returns (policies: seq<Policy>)
    ensures policies == Build(Lines(rulesBlock), Lines(rulesProxy), Lines(rulesDirect))
  {
    hide Lines;
    var sections := [(rulesBlock, Block), (rulesProxy, Proxy), (rulesDirect, Direct)];
    policies := [];
    for k := 0 to 3
      invariant policies ==
                (if k > 0 then Section(Lines(rulesBlock), Block) else [])
                + (if k > 1 then Section(Lines(rulesProxy), Proxy) else [])
                + (if k > 2 then Section(Lines(rulesDirect), Direct) else [])
    {
      var domains := ParseLines(sections[k].0);
      if |domains| > 0 { policies := policies + [Policy(domains, sections[k].1)]; }
    }
  }

  method ParseLines(text: string) returns (domains: seq<string>)
    ensures domains == Lines(text)
  {
    hide Split, Trim;
    var lines := Split(text, '\n');
    domains := [];
    for k := 0 to |lines|
      invariant domains == Clean(lines[..k])
    {
      assert lines[..k + 1][..k] == lines[..k];
      var line := Trim(lines[k]);
      if |line| > 0 { domains := domains + [line]; }
    }
    assert lines[..|lines|] == lines;
  }

  /** Opening the form and saving it unchanged. */
  function RoundTrip(policies: seq<Policy>): seq<Policy> {
    Build(Lines(PoliciesToText(policies, Block)),
          Lines(PoliciesToText(policies, Proxy)),
          Lines(PoliciesToText(policies, Direct)))
  }

  // ----- lines ----------------------------------------------------------

  ghost predicate NewlineFree(lines: seq<string>) {
    forall i :: 0 <= i < |lines| ==> '\n' !in lines[i]
  }

  /** Nonblank, trimmed and on one line each. */
  ghost predicate Tidy(lines: seq<string>) {
    NewlineFree(lines) && forall i :: 0 <= i < |lines| ==> lines[i] != "" && Trimmed(lines[i])
  }

  lemma LinesOfText(lines: seq<string>)
    requires NewlineFree(lines)
    ensures Lines(Join(lines, '\n')) == Clean(lines)
  {
    hide Trim;
    if lines == [] {
      assert Split("", '\n') == [""];
      assert [""][..0] == [];
      assert Trim("") == "" by { TrimProps(""); }
    } else {
      forall p | p in lines ensures '\n' !in p { }
      SplitJoin(lines, '\n');
    }
  }

  lemma {:induction false} CleanIsTidy(lines: seq<string>)
    requires NewlineFree(lines)
    ensures Tidy(Clean(lines))
    decreases |lines|
  {
    hide Trim, Trimmed;
    if lines != [] {
      CleanIsTidy(lines[..|lines| - 1]);
      TrimProps(lines[|lines| - 1]);
    }
  }

  lemma {:induction false} CleanKeepsTidy(lines: seq<string>)
    requires Tidy(lines)
    ensures Clean(lines) == lines
    decreases |lines|
  {
    hide Trim, Trimmed;
    if lines != [] {
      var front, last := lines[..|lines| - 1], lines[|lines| - 1];
      CleanKeepsTidy(front);
      TrimProps(last);
      assert lines == front + [last];
    }
  }

  lemma LinesAreTidy(text: string)
    ensures Tidy(Lines(text))
  {
    hide Split, Clean;
    CleanIsTidy(Split(text, '\n'));
  }

  // ----- idempotence ----------------------------------------------------

  lemma SectionDomains(domains: seq<string>, section: Target, target: Target)
    ensures DomainsFor(Section(domains, section), target) == if section == target then domains else []
  {
  }

  lemma DomainsOfBuildFor(block: seq<string>, proxy: seq<string>, direct: seq<string>, target: Target)
    ensures DomainsFor(Build(block, proxy, direct), target) ==
            match target case Block => block case Proxy => proxy case Direct => direct
  {
    hide DomainsFor, Section;
    DomainsAppend(Section(block, Block) + Section(proxy, Proxy), Section(direct, Direct), target);
    DomainsAppend(Section(block, Block), Section(proxy, Proxy), target);
    SectionDomains(block, Block, target);
    SectionDomains(proxy, Proxy, target);
    SectionDomains(direct, Direct, target);
  }

  lemma DomainsOfBuild(block: seq<string>, proxy: seq<string>, direct: seq<string>)
    ensures DomainsFor(Build(block, proxy, direct), Block) == block
    ensures DomainsFor(Build(block, proxy, direct), Proxy) == proxy
    ensures DomainsFor(Build(block, proxy, direct), Direct) == direct
  {
    hide DomainsFor, Build;
    DomainsOfBuildFor(block, proxy, direct, Block);
    DomainsOfBuildFor(block, proxy, direct, Proxy);
    DomainsOfBuildFor(block, proxy, direct, Direct);
  }

  lemma {:induction false} DomainsAppend(a: seq<Policy>, b: seq<Policy>, target: Target)
    ensures DomainsFor(a + b, target) == DomainsFor(a, target) + DomainsFor(b, target)
    decreases |a|
  {
    if a == [] {
      assert a + b == b;
    } else {
      assert (a + b)[1..] == a[1..] + b;
      DomainsAppend(a[1..], b, target);
    }
  }

  lemma TidyRoundTrip(block: seq<string>, proxy: seq<string>, direct: seq<string>)
    requires Tidy(block) && Tidy(proxy) && Tidy(direct)
    ensures RoundTrip(Build(block, proxy, direct)) == Build(block, proxy, direct)
  {
    hide Lines, Build, DomainsFor;
    DomainsOfBuild(block, proxy, direct);
    LinesOfText(block);
    LinesOfText(proxy);
    LinesOfText(direct);
    CleanKeepsTidy(block);
    CleanKeepsTidy(proxy);
    CleanKeepsTidy(direct);
  }

  /** For every policy list, a second pass through the form changes nothing more. */
  lemma RoundTripIdempotent(policies: seq<Policy>)
    ensures RoundTrip(RoundTrip(policies)) == RoundTrip(policies)
  {
    hide Lines, Build, PoliciesToText;
    var b, p, d := PoliciesToText(policies, Block), PoliciesToText(policies, Proxy), PoliciesToText(policies, Direct);
    LinesAreTidy(b);
    LinesAreTidy(p);
    LinesAreTidy(d);
    TidyRoundTrip(Lines(b), Lines(p), Lines(d));
  }

  // ----- meaning --------------------------------------------------------

  /** The selectors of one target, in order, that the checker evaluates. */
  function EffectiveOf(domains: seq<string>): seq<string> {
    if domains == [] then []
    else
      var rest, last := EffectiveOf(domains[..|domains| - 1]), Trim(domains[|domains| - 1]);
      if Effective(last) then rest + [last] else rest
  }

  datatype Tagged = Tagged(target: Target, sel: string)

  function Tag(target: Target, sels: seq<string>): (r: seq<Tagged>)
    ensures |r| == |sels| && forall i :: 0 <= i < |sels| ==> r[i] == Tagged(target, sels[i])
  {
    seq(|sels|, i requires 0 <= i < |sels| => Tagged(target, sels[i]))
  }

  /** The checker's entries without their policy numbers. */
  function Untied(entries: seq<Entry>): (r: seq<Tagged>)
    ensures |r| == |entries| && forall i :: 0 <= i < |entries| ==> r[i] == Tagged(entries[i].target, entries[i].sel)
  {
    seq(|entries|, i requires 0 <= i < |entries| => Tagged(entries[i].target, entries[i].sel))
  }

  function TaggedFrom(policies: seq<Policy>): seq<Tagged> {
    if policies == [] then []
    else Tag(policies[0].target, EffectiveOf(policies[0].domains)) + TaggedFrom(policies[1..])
  }

  lemma {:induction false} EffectiveSplit(a: seq<string>, b: seq<string>)
    ensures EffectiveOf(a + b) == EffectiveOf(a) + EffectiveOf(b)
    decreases |b|
  {
    hide Trim, Effective;
    if b == [] {
      assert a + b == a;
    } else {
      assert (a + b)[..|a + b| - 1] == a + b[..|b| - 1];
      EffectiveSplit(a, b[..|b| - 1]);
    }
  }

  lemma {:induction false} PolicyTagged(p: Policy, i: nat, j: nat)
    requires j <= |p.domains|
    ensures Untied(PolicyEntries(p, i, j)) == Tag(p.target, EffectiveOf(p.domains[j..]))
    decreases |p.domains| - j
  {
    hide Trim, Effective;
    if j < |p.domains| {
      PolicyTagged(p, i, j + 1);
      assert p.domains[j..] == [p.domains[j]] + p.domains[j + 1..];
      EffectiveSplit([p.domains[j]], p.domains[j + 1..]);
      assert [p.domains[j]][..0] == [];
    }
  }

  lemma {:induction false} EntriesTagged(policies: seq<Policy>, i: nat)
    requires i <= |policies|
    ensures Untied(EntriesFrom(policies, i)) == TaggedFrom(policies[i..])
    decreases |policies| - i
  {
    hide EffectiveOf, PolicyEntries;
    if i < |policies| {
      EntriesTagged(policies, i + 1);
      PolicyTagged(policies[i], i, 0);
      assert policies[i].domains[0..] == policies[i].domains;
      assert policies[i..][1..] == policies[i + 1..];
    }
  }

  /** The verdict's outbound, selector and certainty depend on the untied entries only. */
  lemma {:induction false} SameScan(a: seq<Entry>, b: seq<Entry>, bare: string, reading: Reading)
    requires Untied(a) == Untied(b)
    ensures SawUnknown(a, bare) == SawUnknown(b, bare)
    ensures FirstHit(a, bare, reading).Some? == FirstHit(b, bare, reading).Some?
    ensures FirstHit(a, bare, reading).Some? ==>
              FirstHit(a, bare, reading).value.sel == FirstHit(b, bare, reading).value.sel &&
              FirstHit(a, bare, reading).value.target == FirstHit(b, bare, reading).value.target
    decreases |a|
  {
    hide MatchSel;
    assert |Untied(a)| == |Untied(b)|;
    if a != [] {
      assert Untied(a)[0] == Untied(b)[0];
      assert Untied(a[1..]) == Untied(a)[1..] && Untied(b[1..]) == Untied(b)[1..];
      SameScan(a[1..], b[1..], bare, reading);
    }
  }

  function Rank(t: Target): nat {
    match t case Block => 0 case Proxy => 1 case Direct => 2
  }

  /** Block policies first, then proxy, then direct, any number of each. */
  ghost predicate InOrder(policies: seq<Policy>) {
    forall i, j :: 0 <= i < j < |policies| ==> Rank(policies[i].target) <= Rank(policies[j].target)
  }

  /** No policy of the target is left in the list. */
  lemma {:induction false} NoneLeft(policies: seq<Policy>, target: Target)
    requires forall i :: 0 <= i < |policies| ==> policies[i].target != target
    ensures DomainsFor(policies, target) == []
    decreases |policies|
  {
    if policies != [] { NoneLeft(policies[1..], target); }
  }

  function TaggedFor(policies: seq<Policy>, target: Target): seq<Tagged> {
    Tag(target, EffectiveOf(DomainsFor(policies, target)))
  }

  function ByTarget(policies: seq<Policy>): seq<Tagged> {
    TaggedFor(policies, Block) + TaggedFor(policies, Proxy) + TaggedFor(policies, Direct)
  }

  lemma TaggedForFirst(policies: seq<Policy>, target: Target)
    requires policies != []
    ensures TaggedFor(policies, target) ==
            (if policies[0].target == target then Tag(target, EffectiveOf(policies[0].domains)) else [])
            + TaggedFor(policies[1..], target)
  {
    hide EffectiveOf;
    if policies[0].target == target {
      EffectiveSplit(policies[0].domains, DomainsFor(policies[1..], target));
    } else {
      assert DomainsFor(policies, target) == DomainsFor(policies[1..], target);
    }
  }

  lemma NoneTagged(policies: seq<Policy>, target: Target)
    requires forall i :: 0 <= i < |policies| ==> policies[i].target != target
    ensures TaggedFor(policies, target) == []
  {
    NoneLeft(policies, target);
  }

  /** In an ordered list, evaluation order is the order grouped by target. */
  lemma {:induction false} OrderedByTarget(policies: seq<Policy>)
    requires InOrder(policies)
    ensures TaggedFrom(policies) == ByTarget(policies)
    decreases |policies|
  {
    hide EffectiveOf, TaggedFor, Tag;
    if policies == [] {
      NoneTagged(policies, Block);
      NoneTagged(policies, Proxy);
      NoneTagged(policies, Direct);
    } else {
      var first, rest := policies[0], policies[1..];
      assert forall i :: 0 <= i < |rest| ==> rest[i] == policies[i + 1];
      OrderedByTarget(rest);
      TaggedForFirst(policies, Block);
      TaggedForFirst(policies, Proxy);
      TaggedForFirst(policies, Direct);
      var own := Tag(first.target, EffectiveOf(first.domains));
      var b, p, d := TaggedFor(rest, Block), TaggedFor(rest, Proxy), TaggedFor(rest, Direct);
      if first.target == Block {
        Regroup(own, b, p, d);
      } else if first.target == Proxy {
        NoneTagged(rest, Block);
        Regroup(own, [], p, d);
      } else {
        NoneTagged(rest, Block);
        NoneTagged(rest, Proxy);
        Regroup(own, [], [], d);
      }
    }
  }

  /** Policies in order have their effective rules in order. */
  lemma InOrderRules(policies: seq<Policy>)
    requires InOrder(policies)
    ensures RulesInOrder(TaggedFrom(policies))
  {
    OrderedByTarget(policies);
  }

  lemma Regroup(own: seq<Tagged>, b: seq<Tagged>, p: seq<Tagged>, d: seq<Tagged>)
    ensures own + (b + p + d) == (own + b) + ([] + p) + ([] + d)
    ensures b == [] ==> own + (b + p + d) == ([] + b) + (own + p) + ([] + d)
    ensures b == [] && p == [] ==> own + (b + p + d) == ([] + b) + ([] + p) + (own + d)
  {
  }

  lemma {:induction false} EffectiveClean(lines: seq<string>)
    ensures EffectiveOf(Clean(lines)) == EffectiveOf(lines)
    decreases |lines|
  {
    hide Trim;
    if lines != [] {
      var last := Trim(lines[|lines| - 1]);
      EffectiveClean(lines[..|lines| - 1]);
      TrimProps(lines[|lines| - 1]);
      TrimProps(last);
      var rest := Clean(lines[..|lines| - 1]);
      if last != "" {
        assert (rest + [last])[..|rest|] == rest;
      }
    }
  }

  ghost predicate SelectorsNewlineFree(policies: seq<Policy>) {
    forall i :: 0 <= i < |policies| ==> NewlineFree(policies[i].domains)
  }

  lemma {:induction false} DomainsNewlineFree(policies: seq<Policy>, target: Target)
    requires SelectorsNewlineFree(policies)
    ensures NewlineFree(DomainsFor(policies, target))
    decreases |policies|
  {
    if policies != [] { DomainsNewlineFree(policies[1..], target); }
  }

  lemma BuildInOrder(block: seq<string>, proxy: seq<string>, direct: seq<string>)
    ensures InOrder(Build(block, proxy, direct))
  {
  }

  lemma RoundTripTagged(policies: seq<Policy>)
    requires SelectorsNewlineFree(policies)
    ensures TaggedFrom(RoundTrip(policies)) == ByTarget(policies)
  {
    hide Lines, Build, EffectiveOf, Clean;
    var b, p, d := DomainsFor(policies, Block), DomainsFor(policies, Proxy), DomainsFor(policies, Direct);
    DomainsNewlineFree(policies, Block);
    DomainsNewlineFree(policies, Proxy);
    DomainsNewlineFree(policies, Direct);
    LinesOfText(b);
    LinesOfText(p);
    LinesOfText(d);
    EffectiveClean(b);
    EffectiveClean(p);
    EffectiveClean(d);
    BuildInOrder(Clean(b), Clean(p), Clean(d));
    OrderedByTarget(Build(Clean(b), Clean(p), Clean(d)));
    DomainsOfBuild(Clean(b), Clean(p), Clean(d));
  }

  // ----- exactly when the order survives --------------------------------

  /** The effective rules stand in block, proxy, direct order. */
  ghost predicate RulesInOrder(ts: seq<Tagged>) {
    forall i, j :: 0 <= i < j < |ts| ==> Rank(ts[i].target) <= Rank(ts[j].target)
  }

  function Only(ts: seq<Tagged>, target: Target): seq<Tagged> {
    if ts == [] then [] else (if ts[0].target == target then [ts[0]] else []) + Only(ts[1..], target)
  }

  lemma {:induction false} OnlyTargets(ts: seq<Tagged>, target: Target)
    ensures forall i :: 0 <= i < |Only(ts, target)| ==> Only(ts, target)[i].target == target
    decreases |ts|
  {
    if ts != [] { OnlyTargets(ts[1..], target); }
  }

  lemma {:induction false} OnlyNone(ts: seq<Tagged>, target: Target)
    requires forall i :: 0 <= i < |ts| ==> ts[i].target != target
    ensures Only(ts, target) == []
    decreases |ts|
  {
    if ts != [] { OnlyNone(ts[1..], target); }
  }

  lemma {:induction false} OnlyAll(ts: seq<Tagged>, target: Target)
    requires forall i :: 0 <= i < |ts| ==> ts[i].target == target
    ensures Only(ts, target) == ts
    decreases |ts|
  {
    if ts != [] {
      OnlyAll(ts[1..], target);
      assert [ts[0]] + ts[1..] == ts;
    }
  }

  lemma {:induction false} OnlySplit(a: seq<Tagged>, b: seq<Tagged>, target: Target)
    ensures Only(a + b, target) == Only(a, target) + Only(b, target)
    decreases |a|
  {
    if a == [] {
      OnlyNone(a, target);
      assert a + b == b;
    } else {
      hide Only;
      OnlySplit(a[1..], b, target);
      assert (a + b)[1..] == a[1..] + b && (a + b)[0] == a[0];
      OnlyFirst(a, target);
      OnlyFirst(a + b, target);
    }
  }

  lemma {:induction false} TaggedForIsOnly(policies: seq<Policy>, target: Target)
    ensures TaggedFor(policies, target) == Only(TaggedFrom(policies), target)
    decreases |policies|
  {
    hide EffectiveOf, TaggedFor, Only;
    if policies == [] {
      NoneTagged(policies, target);
      OnlyNone([], target);
    } else {
      TaggedForIsOnly(policies[1..], target);
      TaggedForFirst(policies, target);
      var own := Tag(policies[0].target, EffectiveOf(policies[0].domains));
      OnlySplit(own, TaggedFrom(policies[1..]), target);
      if policies[0].target == target { OnlyAll(own, target); } else { OnlyNone(own, target); }
    }
  }

  lemma OnlyFirst(ts: seq<Tagged>, target: Target)
    requires ts != []
    ensures Only(ts, target) == (if ts[0].target == target then [ts[0]] else []) + Only(ts[1..], target)
  {
  }

  lemma {:induction false} SortedIsGrouped(ts: seq<Tagged>)
    requires RulesInOrder(ts)
    ensures Only(ts, Block) + Only(ts, Proxy) + Only(ts, Direct) == ts
    decreases |ts|
  {
    hide Only;
    if ts == [] {
      OnlyNone(ts, Block);
      OnlyNone(ts, Proxy);
      OnlyNone(ts, Direct);
    } else {
      var first, rest := ts[0], ts[1..];
      assert forall i :: 0 <= i < |rest| ==> rest[i] == ts[i + 1] && Rank(first.target) <= Rank(rest[i].target);
      SortedIsGrouped(rest);
      OnlyFirst(ts, Block);
      OnlyFirst(ts, Proxy);
      OnlyFirst(ts, Direct);
      if first.target != Block { OnlyNone(rest, Block); }
      if first.target == Direct { OnlyNone(rest, Proxy); }
      Regroup([first], Only(rest, Block), Only(rest, Proxy), Only(rest, Direct));
      assert [first] + rest == ts;
    }
  }

  /** For newline-free selectors, the form gives back the same sequence of effective rules
      exactly when those rules already stand in block, proxy, direct order. */
  lemma RoundTripKeepsRulesExactly(policies: seq<Policy>)
    requires SelectorsNewlineFree(policies)
    ensures TaggedFrom(RoundTrip(policies)) == TaggedFrom(policies) <==> RulesInOrder(TaggedFrom(policies))
  {
    hide RoundTrip, TaggedFrom, TaggedFor, Only, SelectorsNewlineFree;
    RoundTripTagged(policies);
    var ts := TaggedFrom(policies);
    TaggedForIsOnly(policies, Block);
    TaggedForIsOnly(policies, Proxy);
    TaggedForIsOnly(policies, Direct);
    OnlyTargets(ts, Block);
    OnlyTargets(ts, Proxy);
    OnlyTargets(ts, Direct);
    if RulesInOrder(ts) { SortedIsGrouped(ts); }
  }

  /** For rules in order and newline-free, opening and saving the form changes no verdict:
      same outbound, source, matched selector and certainty for every host. */
  lemma RoundTripPreservesVerdicts(policies: seq<Policy>, bare: string, lan: bool)
    requires RulesInOrder(TaggedFrom(policies)) && SelectorsNewlineFree(policies)
    ensures Decide(RoundTrip(policies), bare, lan, AS_MISS).outbound == Decide(policies, bare, lan, AS_MISS).outbound
    ensures Decide(RoundTrip(policies), bare, lan, AS_MISS).source == Decide(policies, bare, lan, AS_MISS).source
    ensures Decide(RoundTrip(policies), bare, lan, AS_MISS).selector == Decide(policies, bare, lan, AS_MISS).selector
    ensures SawUnknown(EntriesFrom(RoundTrip(policies), 0), bare) == SawUnknown(EntriesFrom(policies, 0), bare)
  {
    hide RoundTrip, EntriesFrom, TaggedFrom, ByTarget, FirstHit, SawUnknown, DottedDigits, PrivateAddress;
    var after := RoundTrip(policies);
    EntriesTagged(policies, 0);
    EntriesTagged(after, 0);
    assert policies[0..] == policies && after[0..] == after;
    RoundTripKeepsRulesExactly(policies);
    SameScan(EntriesFrom(after, 0), EntriesFrom(policies, 0), bare, AS_MISS);
  }

  // ----- exactly when a verdict survives --------------------------------

  predicate Hits(t: Tagged, bare: string) {
    MatchSel(t.sel, bare) == Some(true)
  }

  /** The first rule that matches the host, if any. */
  function FirstOf(ts: seq<Tagged>, bare: string): Option<Tagged> {
    if ts == [] then None else if Hits(ts[0], bare) then Some(ts[0]) else FirstOf(ts[1..], bare)
  }

  /** Some rule of the target matches the host. */
  ghost predicate SomeHit(ts: seq<Tagged>, target: Target, bare: string) {
    exists i :: 0 <= i < |ts| && ts[i].target == target && Hits(ts[i], bare)
  }

  lemma SomeHitFirst(ts: seq<Tagged>, target: Target, bare: string)
    requires ts != []
    ensures SomeHit(ts, target, bare) <==>
            (ts[0].target == target && Hits(ts[0], bare)) || SomeHit(ts[1..], target, bare)
  {
    hide Hits;
    var rest := ts[1..];
    assert forall i :: 0 <= i < |rest| ==> rest[i] == ts[i + 1];
    if i :| 0 <= i < |ts| && ts[i].target == target && Hits(ts[i], bare) {
      if i > 0 { assert rest[i - 1] == ts[i]; }
    }
  }

  lemma {:induction false} FirstJoined(a: seq<Tagged>, b: seq<Tagged>, bare: string)
    ensures FirstOf(a + b, bare) == if FirstOf(a, bare).Some? then FirstOf(a, bare) else FirstOf(b, bare)
    decreases |a|
  {
    hide Hits;
    if a == [] {
      assert a + b == b;
    } else {
      assert (a + b)[1..] == a[1..] + b;
      FirstJoined(a[1..], b, bare);
    }
  }

  /** The first match overall is a match of its own target. */
  lemma {:induction false} FirstIsHit(ts: seq<Tagged>, bare: string)
    ensures FirstOf(ts, bare).Some? ==> SomeHit(ts, FirstOf(ts, bare).value.target, bare)
    ensures FirstOf(ts, bare).None? ==> forall target :: !SomeHit(ts, target, bare)
    decreases |ts|
  {
    hide Hits, SomeHit;
    if ts == [] {
      forall target ensures !SomeHit(ts, target, bare) { NoHit(target, bare); }
    } else {
      FirstIsHit(ts[1..], bare);
      forall target ensures SomeHit(ts, target, bare) <==>
                              (ts[0].target == target && Hits(ts[0], bare)) || SomeHit(ts[1..], target, bare)
      {
        SomeHitFirst(ts, target, bare);
      }
    }
  }

  lemma NoHit(target: Target, bare: string)
    ensures !SomeHit([], target, bare)
  {
  }

  /** Among the rules of one target: the first match, and the first overall if it has that
      target. */
  lemma {:induction false} FirstOnly(ts: seq<Tagged>, target: Target, bare: string)
    ensures FirstOf(Only(ts, target), bare).Some? <==> SomeHit(ts, target, bare)
    ensures FirstOf(Only(ts, target), bare).Some? ==> FirstOf(Only(ts, target), bare).value.target == target
    ensures FirstOf(ts, bare).Some? && FirstOf(ts, bare).value.target == target ==>
              FirstOf(Only(ts, target), bare) == FirstOf(ts, bare)
    decreases |ts|
  {
    hide Hits, SomeHit;
    if ts == [] {
      NoHit(target, bare);
    } else {
      FirstOnly(ts[1..], target, bare);
      SomeHitFirst(ts, target, bare);
      var only := Only(ts, target);
      if ts[0].target == target {
        assert only[0] == ts[0] && only[1..] == Only(ts[1..], target);
      } else {
        assert only == Only(ts[1..], target);
      }
    }
  }

  /** No rule that matches the host has a target of higher precedence than the first one. */
  ghost predicate FirstPrecedes(ts: seq<Tagged>, bare: string) {
    FirstOf(ts, bare).Some? ==>
      forall target :: SomeHit(ts, target, bare) ==> Rank(FirstOf(ts, bare).value.target) <= Rank(target)
  }

  lemma GroupedFirst(ts: seq<Tagged>, bare: string)
    ensures var after := FirstOf(Only(ts, Block) + Only(ts, Proxy) + Only(ts, Direct), bare);
            after.Some? == FirstOf(ts, bare).Some?
            && (FirstPrecedes(ts, bare) ==> after == FirstOf(ts, bare))
            && (!FirstPrecedes(ts, bare) ==> after.value.target != FirstOf(ts, bare).value.target)
  {
    hide Only, FirstOf, SomeHit;
    var b, p, d := Only(ts, Block), Only(ts, Proxy), Only(ts, Direct);
    FirstJoined(b + p, d, bare);
    FirstJoined(b, p, bare);
    FirstOnly(ts, Block, bare);
    FirstOnly(ts, Proxy, bare);
    FirstOnly(ts, Direct, bare);
    FirstIsHit(ts, bare);
  }

  lemma {:induction false} HitIsFirst(entries: seq<Entry>, bare: string)
    ensures FirstHit(entries, bare, AS_MISS).Some? == FirstOf(Untied(entries), bare).Some?
    ensures FirstHit(entries, bare, AS_MISS).Some? ==>
              FirstOf(Untied(entries), bare) ==
              Some(Tagged(FirstHit(entries, bare, AS_MISS).value.target, FirstHit(entries, bare, AS_MISS).value.sel))
    decreases |entries|
  {
    hide MatchSel;
    if entries != [] {
      assert Untied(entries)[1..] == Untied(entries[1..]);
      HitIsFirst(entries[1..], bare);
    }
  }

  /** For newline-free selectors and every host, the round trip keeps outbound, source and
      selector exactly when no matching rule has precedence over the first matching one. */
  lemma VerdictSurvivesExactly(policies: seq<Policy>, bare: string, lan: bool)
    requires SelectorsNewlineFree(policies)
    ensures var before, after := Decide(policies, bare, lan, AS_MISS), Decide(RoundTrip(policies), bare, lan, AS_MISS);
            (after.outbound == before.outbound && after.source == before.source && after.selector == before.selector)
            <==> FirstPrecedes(TaggedFrom(policies), bare)
  {
    hide RoundTrip, EntriesFrom, TaggedFrom, TaggedFor, FirstHit, FirstOf, FirstPrecedes, Only, DottedDigits,
         PrivateAddress, SelectorsNewlineFree;
    var after := RoundTrip(policies);
    EntriesTagged(policies, 0);
    EntriesTagged(after, 0);
    assert policies[0..] == policies && after[0..] == after;
    RoundTripTagged(policies);
    TaggedForIsOnly(policies, Block);
    TaggedForIsOnly(policies, Proxy);
    TaggedForIsOnly(policies, Direct);
    GroupedFirst(TaggedFrom(policies), bare);
    HitIsFirst(EntriesFrom(policies, 0), bare);
    HitIsFirst(EntriesFrom(after, 0), bare);
  }

  /** The order is needed: a direct rule listed before a block rule for the same
      selector loses to it after the round trip, on every host they match. */
  lemma ReorderingChangesVerdict(sel: string, bare: string, lan: bool)
    requires Tidy([sel]) && Effective(sel) && MatchSel(sel, bare) == Some(true)
    ensures var policies := [Policy([sel], Direct), Policy([sel], Block)];
            Decide(policies, bare, lan, AS_MISS).outbound == Direct
            && Decide(RoundTrip(policies), bare, lan, AS_MISS).outbound == Block
  {
    hide Trim, Effective, MatchSel, RoundTrip, EntriesFrom, FirstHit, EffectiveOf;
    var policies := [Policy([sel], Direct), Policy([sel], Block)];
    assert [sel][0] == sel;
    assert SelectorsNewlineFree(policies);
    OneEffective(sel);
    RoundTripTagged(policies);
    var after := RoundTrip(policies);
    EntriesTagged(policies, 0);
    EntriesTagged(after, 0);
    assert policies[0..] == policies && after[0..] == after;
    assert DomainsFor(policies[1..], Block) == [sel] && DomainsFor(policies, Block) == [sel];
    assert ByTarget(policies)[0] == Tagged(Block, sel);
    assert TaggedFrom(policies)[0] == Tagged(Direct, sel);
    assert Untied(EntriesFrom(policies, 0))[0] == Tagged(Direct, sel);
    assert Untied(EntriesFrom(after, 0))[0] == Tagged(Block, sel);
    HeadDecides(EntriesFrom(policies, 0), bare);
    HeadDecides(EntriesFrom(after, 0), bare);
  }

  lemma OneEffective(sel: string)
    requires Trimmed(sel) && Effective(sel)
    ensures EffectiveOf([sel]) == [sel]
  {
  }

  lemma HeadDecides(entries: seq<Entry>, bare: string)
    requires entries != [] && MatchSel(entries[0].sel, bare) == Some(true)
    ensures FirstHit(entries, bare, AS_MISS) == Some(entries[0])
  {
  }
}
