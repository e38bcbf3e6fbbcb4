/** The routing-intent doctor (src/intentDoctor.ts) and the two panel actions that
    drive it (src/components/IntentsPanel.tsx) against the intent store of
    src/sandbox/backend.ts. */
module IntentDoctor {
  import opened Prelude
  import opened Text
  import opened Ipv4

  datatype Path = Direct | Via(iface: Option<string>)
  datatype Status = Effective | Deferred | Conflicted | Disabled
  datatype Intent = Intent(id: string, destinations: seq<string>, path: Path, metric: nat, enabled: bool,
                           status: Status)
  datatype IntentParams = IntentParams(id: string, destinations: seq<string>, path: Path, metric: Option<nat>,
                                       enabled: Option<bool>)
  datatype Route = Route(destination: string, table: nat, unicast: bool, interfaceName: Option<string>,
                         managed: bool)

  /** An inventoried link; `tunnel` when its category is "vpn" or "tunnel". */
  datatype NetIf = NetIf(name: string, tunnel: bool)
  datatype Profile = Profile(id: string, name: string, endpointBypasses: seq<string>)
  datatype Endpoint = Endpoint(ip: string, owner: string)

  datatype Kind = EndpointViaTunnel | UncoveredEndpoints | Conflict
  datatype Suggestion = Suggestion(kind: Kind, via: Option<string>, intentId: Option<string>,
                                   destination: Option<string>, endpoints: seq<string>,
                                   foreignRoute: Option<Route>, fixes: seq<IntentParams>)

  const MAIN_TABLE: nat := 254
  const BYPASS_METRIC: nat := 50
  const DEFAULTISH: set<string> :=
    {"0.0.0.0/0", "0.0.0.0/1", "128.0.0.0/1", "::/0", "::/1", "8000::/1"}

  // ----- longest-prefix match -------------------------------------------

  predicate Candidate(r: Route, ip: string) {
    r.table == MAIN_TABLE && r.unicast && CidrCovers(r.destination, ip)
  }

  function RouteLen(r: Route): nat {
    LenOf(r.destination).GetOr(0)
  }

  function Lpm(routes: seq<Route>, ip: string): Option<Route> {
    if routes == [] then None
    else
      var best, last := Lpm(routes[..|routes| - 1], ip), routes[|routes| - 1];
      if Candidate(last, ip) && (best.None? || RouteLen(last) > RouteLen(best.value)) then Some(last) else best
  }

  method LpmMain(routes: seq<Route>, ip: string) returns (best: Option<Route>)
    ensures best == Lpm(routes, ip)
  {
    hide CidrCovers, LenOf;
    best := None;
    var bestLen: int := -1;
    var k := 0;
    while k < |routes|
      invariant 0 <= k <= |routes|
      invariant best == Lpm(routes[..k], ip)
      invariant bestLen == if best.None? then -1 else RouteLen(best.value)
    {
      var route := routes[k];
      assert routes[..k + 1][..k] == routes[..k];
      k := k + 1;
      if route.table != MAIN_TABLE || !route.unicast { continue; }
      if !CidrCovers(route.destination, ip) { continue; }
      var len := RouteLen(route);
      if len > bestLen {
        best := Some(route);
        bestLen := len;
      }
    }
    assert routes[..|routes|] == routes;
  }

  /** Entry `k` is the earliest of the longest covering unicast routes of the main table. */
  ghost predicate EarliestLongest(k: nat, routes: seq<Route>, ip: string) {
    k < |routes| && Candidate(routes[k], ip) &&
    (forall j :: 0 <= j < k && Candidate(routes[j], ip) ==> RouteLen(routes[j]) < RouteLen(routes[k])) &&
    (forall j :: k < j < |routes| && Candidate(routes[j], ip) ==> RouteLen(routes[j]) <= RouteLen(routes[k]))
  }

  /** The match is entry `k`, or `k` is past the end and nothing matches. */
  lemma {:induction false} LpmIndex(routes: seq<Route>, ip: string) returns (k: nat)
    ensures k <= |routes|
    ensures k < |routes| ==> EarliestLongest(k, routes, ip) && Lpm(routes, ip) == Some(routes[k])
    ensures k == |routes| ==> Lpm(routes, ip).None?
    ensures k == |routes| ==> forall j :: 0 <= j < |routes| ==> !Candidate(routes[j], ip)
    decreases |routes|
  {
    hide Candidate, RouteLen;
    k := 0;
    if routes != [] {
      var n := |routes| - 1;
      k := LpmIndex(routes[..n], ip);
      if Candidate(routes[n], ip) {
        if k == n || RouteLen(routes[n]) > RouteLen(routes[k]) { k := n; }
      } else if k == n {
        k := |routes|;
      }
    }
  }

  lemma LpmExact(routes: seq<Route>, ip: string)
    ensures Lpm(routes, ip).None? <==> forall j :: 0 <= j < |routes| ==> !Candidate(routes[j], ip)
    ensures Lpm(routes, ip).Some? ==>
              exists k: nat :: EarliestLongest(k, routes, ip) && routes[k] == Lpm(routes, ip).value
  {
    hide Candidate, RouteLen, Lpm;
    var k := LpmIndex(routes, ip);
    if k < |routes| { assert EarliestLongest(k, routes, ip); }
  }

  // ----- tunnels --------------------------------------------------------

  function FindIf(name: string, ifs: seq<NetIf>): Option<NetIf> {
    if ifs == [] then None
    else if ifs[0].name == name then Some(ifs[0])
    else FindIf(name, ifs[1..])
  }

  predicate Tunnelish(name: string, ifs: seq<NetIf>) {
    var known := FindIf(name, ifs);
    if known.Some? then known.value.tunnel
    else
      var low := Lower(name);
      StartsWith(low, "tun") || StartsWith(low, "wg") || StartsWith(low, "utun") || StartsWith(low, "vpn")
      || StartsWith(low, "ppp") || StartsWith(low, "tailscale")
  }

  /** The tunnel that the main table currently sends `ip` into. */
  function TunnelFor(ip: string, routes: seq<Route>, ifs: seq<NetIf>): Option<string> {
    var route := Lpm(routes, ip);
    var via := if route.Some? then route.value.interfaceName else None;
    if via.None? || via.value == "" || !Tunnelish(via.value, ifs) then None else via
  }

  /** A unicast route of table 254 whose block holds the address. */
  ghost predicate Takes(r: Route, ip: string) {
    r.table == 254 && r.unicast && InBlock(r.destination, ip)
  }

  ghost predicate LongerOrSame(a: Route, b: Route) {
    LenOf(a.destination).Some? && LenOf(b.destination).Some? && LenOf(a.destination).value >= LenOf(b.destination).value
  }

  /** Route `k` takes the address, no route that takes it is longer, and no earlier one is as
      long. */
  ghost predicate BestAt(k: int, routes: seq<Route>, ip: string) {
    0 <= k < |routes| && Takes(routes[k], ip)
    && (forall j :: 0 <= j < |routes| && Takes(routes[j], ip) ==> LongerOrSame(routes[k], routes[j]))
    && (forall j :: 0 <= j < k && Takes(routes[j], ip) ==> !LongerOrSame(routes[j], routes[k]))
  }

  lemma CandidateTakes(r: Route, ip: string)
    ensures Candidate(r, ip) <==> Takes(r, ip)
    ensures Takes(r, ip) ==> LenOf(r.destination) == Some(RouteLen(r))
  {
    hide CidrCovers;
    CoversIsInBlock(r.destination, ip);
  }

  lemma BestIsMatch(k: int, routes: seq<Route>, ip: string)
    ensures BestAt(k, routes, ip) <==> 0 <= k < |routes| && EarliestLongest(k, routes, ip)
  {
    hide Candidate, Takes, RouteLen, LenOf;
    forall j | 0 <= j < |routes|
      ensures Candidate(routes[j], ip) <==> Takes(routes[j], ip)
      ensures Takes(routes[j], ip) ==> LenOf(routes[j].destination) == Some(RouteLen(routes[j]))
    {
      CandidateTakes(routes[j], ip);
    }
  }

  /** The name of a tunnel: the first inventory entry of that name says so, or there is none
      and the name, in lower case, starts like one. */
  ghost predicate TunnelName(n: string, ifs: seq<NetIf>) {
    (exists j :: 0 <= j < |ifs| && ifs[j].name == n && ifs[j].tunnel && forall i :: 0 <= i < j ==> ifs[i].name != n)
    || ((forall j :: 0 <= j < |ifs| ==> ifs[j].name != n)
        && ("tun" <= Lower(n) || "wg" <= Lower(n) || "utun" <= Lower(n) || "vpn" <= Lower(n) || "ppp" <= Lower(n)
            || "tailscale" <= Lower(n)))
  }

  lemma {:induction false} FindIfAt(name: string, ifs: seq<NetIf>) returns (j: nat)
    ensures j <= |ifs| && (forall i :: 0 <= i < j ==> ifs[i].name != name)
    ensures j < |ifs| ==> ifs[j].name == name && FindIf(name, ifs) == Some(ifs[j])
    ensures j == |ifs| ==> FindIf(name, ifs).None?
    decreases |ifs|
  {
    j := 0;
    if ifs != [] && ifs[0].name != name {
      j := FindIfAt(name, ifs[1..]);
      assert forall i :: 1 <= i < |ifs| ==> ifs[i] == ifs[1..][i - 1];
      j := j + 1;
    }
  }

  lemma TunnelishExactly(n: string, ifs: seq<NetIf>)
    ensures Tunnelish(n, ifs) <==> TunnelName(n, ifs)
  {
    hide FindIf, Lower;
    var j := FindIfAt(n, ifs);
  }

  /** The address is swallowed by the tunnel `n` exactly when the best route for it leaves by
      an interface of that name, and the name is a tunnel's. */
  lemma TunnelExactly(ip: string, routes: seq<Route>, ifs: seq<NetIf>, n: string)
    ensures TunnelFor(ip, routes, ifs) == Some(n) <==>
            n != "" && TunnelName(n, ifs)
            && exists k :: BestAt(k, routes, ip) && routes[k].interfaceName == Some(n)
  {
    hide Candidate, RouteLen, Lpm, Tunnelish, TunnelName, BestAt;
    TunnelishExactly(n, ifs);
    var m := LpmIndex(routes, ip);
    forall k ensures BestAt(k, routes, ip) <==> k == m && m < |routes| {
      BestIsMatch(k, routes, ip);
      BestIsMatch(m, routes, ip);
      OneBest(k, m, routes, ip);
    }
    if m < |routes| { assert BestAt(m, routes, ip); }
  }

  lemma OneBest(k: int, m: nat, routes: seq<Route>, ip: string)
    requires m < |routes| ==> EarliestLongest(m, routes, ip)
    requires m >= |routes| ==> forall j :: 0 <= j < |routes| ==> !Candidate(routes[j], ip)
    ensures 0 <= k < |routes| && EarliestLongest(k, routes, ip) ==> k == m
  {
    hide Candidate, RouteLen;
  }

  // ----- known endpoints ------------------------------------------------

  predicate HasIp(seen: seq<Endpoint>, ip: string) {
    exists i :: 0 <= i < |seen| && seen[i].ip == ip
  }

  function AddEndpoint(seen: seq<Endpoint>, raw: string, owner: string): seq<Endpoint> {
    var ip := Trim(raw);
    if !IsIp(ip) || HasIp(seen, ip) then seen else seen + [Endpoint(ip, owner)]
  }

  function AddAll(seen: seq<Endpoint>, raws: seq<string>, owner: string): seq<Endpoint> {
    if raws == [] then seen
    else AddEndpoint(AddAll(seen, raws[..|raws| - 1], owner), raws[|raws| - 1], owner)
  }

  function Owner(p: Profile): string {
    if p.name != "" then p.name else p.id
  }

  function Known(profiles: seq<Profile>): seq<Endpoint> {
    if profiles == [] then []
    else
      var last := profiles[|profiles| - 1];
      AddAll(Known(profiles[..|profiles| - 1]), last.endpointBypasses, Owner(last))
  }

  method KnownEndpoints(profiles: seq<Profile>) returns (seen: seq<Endpoint>)
    ensures seen == Known(profiles)
  {
    hide IsIp, Trim;
    seen := [];
    for i := 0 to |profiles|
      invariant seen == Known(profiles[..i])
    {
      var p := profiles[i];
      ghost var before := seen;
      for j := 0 to |p.endpointBypasses|
        invariant seen == AddAll(before, p.endpointBypasses[..j], Owner(p))
      {
        var ip := Trim(p.endpointBypasses[j]);
        assert p.endpointBypasses[..j + 1][..j] == p.endpointBypasses[..j];
        if !IsIp(ip) { continue; }
        if !HasIp(seen, ip) {
          seen := seen + [Endpoint(ip, if p.name != "" then p.name else p.id)];
        }
      }
      assert p.endpointBypasses[..|p.endpointBypasses|] == p.endpointBypasses;
      assert profiles[..i + 1][..i] == profiles[..i];
    }
    assert profiles[..|profiles|] == profiles;
  }

  function Ips(es: seq<Endpoint>): (r: seq<string>)
    ensures |r| == |es| && forall i :: 0 <= i < |es| ==> r[i] == es[i].ip
  {
    seq(|es|, i requires 0 <= i < |es| => es[i].ip)
  }

  /** The literal endpoint addresses of the profiles, in first-mention order. */
  function KnownIps(profiles: seq<Profile>): seq<string> {
    Ips(Known(profiles))
  }

  ghost predicate Lists(raws: seq<string>, ip: string) {
    IsIp(ip) && exists j :: 0 <= j < |raws| && Trim(raws[j]) == ip
  }

  /** Some profile lists a bypass whose trimmed text is the address `ip`. */
  ghost predicate Mentioned(ip: string, profiles: seq<Profile>) {
    exists i :: 0 <= i < |profiles| && Lists(profiles[i].endpointBypasses, ip)
  }

  lemma ListsLast(raws: seq<string>, ip: string)
    requires raws != []
    ensures var n := |raws| - 1;
            Lists(raws, ip) <==> Lists(raws[..n], ip) || (IsIp(ip) && ip == Trim(raws[n]))
  {
  }

  lemma {:induction false} AddAllMembers(seen: seq<Endpoint>, raws: seq<string>, owner: string)
    requires Distinct(Ips(seen))
    ensures Distinct(Ips(AddAll(seen, raws, owner)))
    ensures forall ip :: ip in Ips(AddAll(seen, raws, owner)) <==> ip in Ips(seen) || Lists(raws, ip)
    decreases |raws|
  {
    hide IsIp, Trim;
    if raws != [] {
      var n := |raws| - 1;
      AddAllMembers(seen, raws[..n], owner);
      var mid, grown := AddAll(seen, raws[..n], owner), AddAll(seen, raws, owner);
      var last := Trim(raws[n]);
      assert HasIp(mid, last) <==> last in Ips(mid);
      if IsIp(last) && !HasIp(mid, last) {
        assert Ips(grown) == Ips(mid) + [last];
      }
      forall ip ensures Lists(raws, ip) <==> Lists(raws[..n], ip) || (IsIp(ip) && ip == last) {
        ListsLast(raws, ip);
      }
    }
  }

  /** The known endpoints are exactly the mentioned addresses, each once. */
  lemma {:induction false} KnownExact(profiles: seq<Profile>)
    ensures Distinct(KnownIps(profiles))
    ensures forall ip :: ip in KnownIps(profiles) <==> Mentioned(ip, profiles)
    decreases |profiles|
  {
    hide Lists;
    if profiles != [] {
      var n := |profiles| - 1;
      KnownExact(profiles[..n]);
      AddAllMembers(Known(profiles[..n]), profiles[n].endpointBypasses, Owner(profiles[n]));
      forall ip ensures Mentioned(ip, profiles) <==>
                          Mentioned(ip, profiles[..n]) || Lists(profiles[n].endpointBypasses, ip)
      {
        if i :| 0 <= i < n && Lists(profiles[..n][i].endpointBypasses, ip) {
          assert Lists(profiles[i].endpointBypasses, ip);
        }
        if i :| 0 <= i < |profiles| && Lists(profiles[i].endpointBypasses, ip) {
          if i < n { assert Lists(profiles[..n][i].endpointBypasses, ip); }
        }
      }
    }
  }

  // ----- coverage -------------------------------------------------------

  predicate PinsIp(intent: Intent, ip: string) {
    intent.enabled && intent.path.Direct? && exists d :: d in intent.destinations && CidrCovers(d, ip)
  }

  /** An enabled direct intent already pins `ip` to the uplink. */
  predicate Covered(ip: string, intents: seq<Intent>) {
    exists i :: 0 <= i < |intents| && PinsIp(intents[i], ip)
  }

  /** Some destination of some enabled direct intent is a block that holds the address. */
  lemma CoveredExactly(ip: string, intents: seq<Intent>)
    ensures Covered(ip, intents) <==>
            exists i, d :: 0 <= i < |intents| && 0 <= d < |intents[i].destinations|
                           && intents[i].enabled && intents[i].path == Direct && InBlock(intents[i].destinations[d], ip)
  {
    hide CidrCovers, InBlock;
    forall d ensures CidrCovers(d, ip) <==> InBlock(d, ip) { CoversIsInBlock(d, ip); }
    if Covered(ip, intents) {
      var i :| 0 <= i < |intents| && PinsIp(intents[i], ip);
      var t :| t in intents[i].destinations && CidrCovers(t, ip);
      var d :| 0 <= d < |intents[i].destinations| && intents[i].destinations[d] == t;
      assert InBlock(intents[i].destinations[d], ip);
    }
    if i, d :| 0 <= i < |intents| && 0 <= d < |intents[i].destinations| && intents[i].enabled
               && intents[i].path == Direct && InBlock(intents[i].destinations[d], ip) {
      assert intents[i].destinations[d] in intents[i].destinations;
      assert PinsIp(intents[i], ip);
    }
  }

  function UncoveredOf(ips: seq<string>, intents: seq<Intent>, claimed: set<string>): (r: seq<string>)
    ensures forall ip :: ip in r <==> ip in ips && ip !in claimed && !Covered(ip, intents)
  {
    if ips == [] then []
    else
      var rest, last := UncoveredOf(ips[..|ips| - 1], intents, claimed), ips[|ips| - 1];
      assert ips == ips[..|ips| - 1] + [last];
      if last in claimed || Covered(last, intents) then rest else rest + [last]
  }

  // ----- fresh bypass ids -----------------------------------------------

  predicate SlugChar(c: char) {
    'a' <= c <= 'z' || IsDigit(c) || c == '_' || c == '-'
  }

  /** Each maximal run of other characters becomes one dash. */
  function Dashed(s: string): (r: string)
    ensures forall c :: c in r ==> SlugChar(c)
  {
    if s == [] then []
    else if SlugChar(s[0]) then [s[0]] + Dashed(s[1..])
    else if |s| > 1 && !SlugChar(s[1]) then Dashed(s[1..])
    else ['-'] + Dashed(s[1..])
  }

  function StripFront(s: string): (r: string)
    ensures r == [] || r[0] != '-'
    ensures forall c :: c in r ==> c in s
  {
    if s != [] && s[0] == '-' then StripFront(s[1..]) else s
  }

  function StripBack(s: string): (r: string)
    ensures r == [] || r[|r| - 1] != '-'
    ensures r <= s
  {
    if s != [] && s[|s| - 1] == '-' then StripBack(s[..|s| - 1]) else s
  }

  function Slug(base: string): (r: string)
    ensures r != [] && r[0] != '-' && r[|r| - 1] != '-'
    ensures forall c :: c in r ==> SlugChar(c)
  {
    var s := StripBack(StripFront(Dashed(Lower(base))));
    if s == [] then "uplink" else s
  }

  /** The `n`-th id tried for a slug: unnumbered first, then numbered from 2. */
  function NthId(slug: string, n: nat): string {
    if n < 2 then "bypass-" + slug else "bypass-" + slug + "-" + Numeral(n)
  }

  lemma NthIdInjective(slug: string, m: nat, n: nat)
    requires 1 <= m < n
    ensures NthId(slug, m) != NthId(slug, n)
  {
    hide Numeral;
    var stem := "bypass-" + slug + "-";
    assert (stem + Numeral(m))[|stem|..] == Numeral(m);
    assert (stem + Numeral(n))[|stem|..] == Numeral(n);
    assert Decimal(Numeral(m)) == m;
  }

  /** The first untaken id from the `n`-th on; ids already tried need not be kept. */
  function FreeFrom(slug: string, n: nat, taken: set<string>): (r: string)
    ensures r !in taken
    ensures exists m :: m >= n && r == NthId(slug, m)
    requires n >= 1
    decreases |taken|
  {
    var id := NthId(slug, n);
    if id !in taken then id
    else
      var r := FreeFrom(slug, n + 1, taken - {id});
      assert r != id by {
        var m :| m >= n + 1 && r == NthId(slug, m);
        NthIdInjective(slug, n, m);
      }
      r
  }

  function Taken(intents: seq<Intent>, extra: seq<string>): set<string> {
    (set i | 0 <= i < |intents| :: intents[i].id) + (set e | e in extra)
  }

  function BypassId(base: string, intents: seq<Intent>, extra: seq<string>): (r: string)
    ensures r !in extra && forall i :: 0 <= i < |intents| ==> intents[i].id != r
  {
    var r := FreeFrom(Slug(base), 1, Taken(intents, extra));
    r
  }

  /** The id loop stops at the first free id. */
  method BypassIdLoop(base: string, intents: seq<Intent>, extra: seq<string>) returns (id: string)
    ensures id == BypassId(base, intents, extra)
  {
    hide Slug, Numeral;
    var slug := Slug(base);
    id := "bypass-" + slug;
    var taken := Taken(intents, extra);
    var n := 2;
    ghost var left := taken;
    while id in taken
      invariant n >= 2 && id == NthId(slug, n - 1)
      invariant left <= taken
      invariant id in taken ==> id in left
      invariant forall m :: m >= n - 1 && NthId(slug, m) in taken ==> NthId(slug, m) in left
      invariant FreeFrom(slug, n - 1, left) == FreeFrom(slug, 1, taken)
      decreases |left|
    {
      forall m | m >= n && NthId(slug, m) in taken ensures NthId(slug, m) in left - {id} {
        NthIdInjective(slug, n - 1, m);
      }
      left := left - {id};
      id := "bypass-" + slug + "-" + Numeral(n);
      n := n + 1;
    }
  }

  /** The letters, digits and underscores of a text. */
  function Letters(s: string): string {
    if s == [] then [] else (if SlugChar(s[0]) && s[0] != '-' then [s[0]] else []) + Letters(s[1..])
  }

  lemma {:induction false} LettersDashed(s: string)
    ensures Letters(Dashed(s)) == Letters(s)
    decreases |s|
  {
    if s != [] {
      LettersDashed(s[1..]);
      var rest := Dashed(s[1..]);
      assert ([s[0]] + rest)[1..] == rest && (['-'] + rest)[1..] == rest;
    }
  }

  /** A character of the slug's own stays; a run of others, however long, becomes one dash. */
  lemma {:induction false} DashedExactly(run: string, rest: string)
    requires forall i :: 0 <= i < |run| ==> !SlugChar(run[i])
    requires rest == "" || SlugChar(rest[0])
    ensures Dashed(run + rest) == (if run == "" then "" else "-") + Dashed(rest)
    ensures rest != "" ==> Dashed(rest) == [rest[0]] + Dashed(rest[1..])
    decreases |run|
  {
    if run == "" {
      assert run + rest == rest;
    } else {
      assert (run + rest)[1..] == run[1..] + rest;
      DashedExactly(run[1..], rest);
      assert |run| == 1 ==> run[1..] + rest == rest;
    }
  }

  lemma {:induction false} LettersFront(s: string)
    ensures Letters(StripFront(s)) == Letters(s)
    decreases |s|
  {
    if s != [] && s[0] == '-' { LettersFront(s[1..]); }
  }

  lemma {:induction false} LettersLast(s: string, c: char)
    ensures Letters(s + [c]) == Letters(s) + (if SlugChar(c) && c != '-' then [c] else [])
    decreases |s|
  {
    var t := s + [c];
    if s == [] {
      assert t[1..] == [];
    } else {
      assert t[1..] == s[1..] + [c];
      LettersLast(s[1..], c);
    }
  }

  lemma {:induction false} LettersBack(s: string)
    ensures Letters(StripBack(s)) == Letters(s)
    decreases |s|
  {
    if s != [] && s[|s| - 1] == '-' {
      var front := s[..|s| - 1];
      assert s == front + ['-'];
      LettersLast(front, '-');
      LettersBack(front);
    }
  }

  /** The slug has the base's letters, digits and underscores in order, in lower case; a base
      without any gives "uplink". */
  lemma SlugExactly(base: string)
    ensures Letters(Lower(base)) == [] ==> Slug(base) == "uplink"
    ensures Letters(Lower(base)) != [] ==> Letters(Slug(base)) == Letters(Lower(base))
  {
    hide Lower, Dashed, StripFront, StripBack;
    var d := Dashed(Lower(base));
    var f := StripFront(d);
    LettersDashed(Lower(base));
    LettersFront(d);
    LettersBack(f);
    assert Letters([]) == [];
    var s := StripBack(f);
    if s != [] { assert s[0] == f[0] && SlugChar(s[0]) && Letters(s)[0] == s[0]; }
  }

  lemma {:induction false} FreeIsFirst(slug: string, n: nat, taken: set<string>) returns (m: nat)
    requires n >= 1
    ensures m >= n && FreeFrom(slug, n, taken) == NthId(slug, m)
    ensures forall j :: n <= j < m ==> NthId(slug, j) in taken
    decreases |taken|
  {
    hide Numeral;
    m := n;
    if NthId(slug, n) in taken { m := FreeIsFirst(slug, n + 1, taken - {NthId(slug, n)}); }
  }

  ghost predicate UsedId(id: string, intents: seq<Intent>, extra: seq<string>) {
    id in extra || exists i :: 0 <= i < |intents| && intents[i].id == id
  }

  /** The ids tried, in order: "bypass-" and the slug, then with "-2", "-3" and so on. */
  function TriedId(slug: string, m: nat): string {
    if m == 1 then "bypass-" + slug else "bypass-" + slug + "-" + Numeral(m)
  }

  /** A bypass gets the first tried id that is not in use. */
  lemma BypassIdExactly(base: string, intents: seq<Intent>, extra: seq<string>) returns (m: nat)
    ensures m >= 1 && BypassId(base, intents, extra) == TriedId(Slug(base), m)
    ensures !UsedId(TriedId(Slug(base), m), intents, extra)
    ensures forall j :: 1 <= j < m ==> UsedId(TriedId(Slug(base), j), intents, extra)
  {
    hide Numeral, Slug, FreeFrom;
    m := FreeIsFirst(Slug(base), 1, Taken(intents, extra));
    assert forall j: nat :: j >= 1 ==> TriedId(Slug(base), j) == NthId(Slug(base), j);
    forall j | 1 <= j < m ensures UsedId(TriedId(Slug(base), j), intents, extra) {
      assert NthId(Slug(base), j) in Taken(intents, extra);
    }
  }

  // ----- the intent store -----------------------------------------------

  function Without(intents: seq<Intent>, id: string): (r: seq<Intent>)
    ensures forall x :: x in r <==> x in intents && x.id != id
  {
    if intents == [] then []
    else
      assert intents == [intents[0]] + intents[1..];
      if intents[0].id == id then Without(intents[1..], id) else [intents[0]] + Without(intents[1..], id)
  }

  function View(p: IntentParams): Intent {
    var enabled := p.enabled != Some(false);
    var effective := p.path.Direct? || p.path.iface == Some("Mihomo");
    Intent(p.id, p.destinations, p.path, p.metric.GetOr(100), enabled,
           if !enabled then Disabled else if effective then Effective else Deferred)
  }

  /** A stored intent: enabled unless told otherwise, metric 100 unless given one, effective
      when direct or through the interface that is up, deferred on any other. */
  lemma ViewExactly(p: IntentParams)
    ensures View(p).id == p.id && View(p).destinations == p.destinations && View(p).path == p.path
    ensures View(p).enabled <==> p.enabled.None? || p.enabled.value
    ensures View(p).metric == match p.metric case Some(m) => m case None => 100
    ensures View(p).status == Disabled <==> p.enabled == Some(false)
    ensures View(p).status == Effective <==>
            p.enabled != Some(false) && (p.path == Direct || p.path == Via(Some("Mihomo")))
    ensures View(p).status != Conflicted
  {
  }

  /** `net_intent_set`: replace by id, append at the end. */
  function IntentSet(intents: seq<Intent>, p: IntentParams): seq<Intent> {
    Without(intents, p.id) + [View(p)]
  }

  function SetAll(intents: seq<Intent>, fixes: seq<IntentParams>): seq<Intent> {
    if fixes == [] then intents
    else IntentSet(SetAll(intents, fixes[..|fixes| - 1]), fixes[|fixes| - 1])
  }

  lemma SetOne(intents: seq<Intent>, fix: IntentParams)
    ensures SetAll(intents, [fix]) == IntentSet(intents, fix)
  {
  }

  lemma CoveredMember(ip: string, intents: seq<Intent>)
    ensures Covered(ip, intents) <==> exists x :: x in intents && PinsIp(x, ip)
  {
  }

  lemma SetCoverage(intents: seq<Intent>, p: IntentParams, ip: string)
    ensures Covered(ip, IntentSet(intents, p)) <==> Covered(ip, Without(intents, p.id)) || PinsIp(View(p), ip)
  {
    hide PinsIp, View;
    CoveredMember(ip, IntentSet(intents, p));
    CoveredMember(ip, Without(intents, p.id));
  }

  lemma {:induction false} WithoutFresh(intents: seq<Intent>, id: string)
    requires forall i :: 0 <= i < |intents| ==> intents[i].id != id
    ensures Without(intents, id) == intents
    decreases |intents|
  {
    if intents != [] {
      WithoutFresh(intents[1..], id);
    }
  }

  ghost predicate PinnedByOther(ip: string, intents: seq<Intent>, id: string) {
    exists i :: 0 <= i < |intents| && intents[i].id != id && PinsIp(intents[i], ip)
  }

  lemma WithoutPins(intents: seq<Intent>, id: string, ip: string)
    ensures Covered(ip, Without(intents, id)) <==> PinnedByOther(ip, intents, id)
  {
    hide PinsIp, Without, Covered;
    CoveredMember(ip, Without(intents, id));
    if PinnedByOther(ip, intents, id) {
      var i :| 0 <= i < |intents| && intents[i].id != id && PinsIp(intents[i], ip);
      assert intents[i] in Without(intents, id);
    }
  }

  lemma {:induction false} WithoutCount(intents: seq<Intent>, id: string, x: Intent)
    ensures multiset(Without(intents, id))[x] == if x.id == id then 0 else multiset(intents)[x]
    decreases |intents|
  {
    if intents != [] {
      var first, rest := intents[0], Without(intents[1..], id);
      WithoutCount(intents[1..], id, x);
      assert Without(intents, id) == if first.id == id then rest else [first] + rest;
      assert intents == [first] + intents[1..];
      hide Without;
    }
  }

  /** A disabled intent, whatever it lists, pins nothing: setting it is deleting the old one
      as far as coverage goes. */
  lemma DisabledPinsNothing(intents: seq<Intent>, p: IntentParams, ip: string)
    requires p.enabled == Some(false)
    ensures Covered(ip, IntentSet(intents, p)) <==> PinnedByOther(ip, intents, p.id)
  {
    hide Covered, PinnedByOther, Without;
    SetCoverage(intents, p, ip);
    WithoutPins(intents, p.id, ip);
  }

  /** Setting an intent under a new id and deleting it again restores the list. */
  lemma DeleteUndoesSet(intents: seq<Intent>, p: IntentParams)
    requires forall i :: 0 <= i < |intents| ==> intents[i].id != p.id
    ensures Without(IntentSet(intents, p), p.id) == intents
  {
    WithoutFresh(intents, p.id);
    WithoutLast(intents, View(p));
  }

  lemma {:induction false} WithoutLast(intents: seq<Intent>, x: Intent)
    ensures Without(intents + [x], x.id) == Without(intents, x.id)
    decreases |intents|
  {
    if intents != [] {
      assert (intents + [x])[1..] == intents[1..] + [x];
      WithoutLast(intents[1..], x);
    }
  }

  // ----- fixes ----------------------------------------------------------

  function Hosts(ips: seq<string>): (r: seq<string>)
    ensures |r| == |ips| && forall i :: 0 <= i < |ips| ==> r[i] == ips[i] + "/32"
  {
    seq(|ips|, i requires 0 <= i < |ips| => ips[i] + "/32")
  }

  function Bypass(base: string, intents: seq<Intent>, extra: seq<string>, ips: seq<string>): IntentParams {
    IntentParams(BypassId(base, intents, extra), Hosts(ips), Direct, Some(BYPASS_METRIC), None)
  }

  /** A bypass pins exactly the addresses it was made for. */
  lemma BypassPins(p: IntentParams, ips: seq<string>, ip: string)
    requires forall i :: 0 <= i < |ips| ==> IsIp(ips[i])
    requires p.destinations == Hosts(ips) && p.path.Direct? && p.enabled.None?
    ensures PinsIp(View(p), ip) <==> exists i :: 0 <= i < |ips| && IpValue(ips[i]) == IpValue(ip)
  {
    hide CidrCovers, IsIp, IpValue;
    if PinsIp(View(p), ip) {
      var d :| d in Hosts(ips) && CidrCovers(d, ip);
      var i :| 0 <= i < |Hosts(ips)| && Hosts(ips)[i] == d;
      HostPrefixCovers(ips[i], ip);
    }
    if i :| 0 <= i < |ips| && IpValue(ips[i]) == IpValue(ip) {
      HostPrefixCovers(ips[i], ip);
      assert Hosts(ips)[i] in Hosts(ips);
    }
  }

  // ----- the analysis ---------------------------------------------------

  /** Endpoints swallowed by one tunnel, in first-seen order. */
  datatype Group = Group(via: string, ips: seq<string>) {
    /** What the default sort of `[via, ips]` pairs compares. */
    function SortKey(): string { via + "," + Join(ips, ',') }
  }

  function AddToGroup(groups: seq<Group>, via: string, ip: string): seq<Group> {
    if groups == [] then [Group(via, [ip])]
    else if groups[0].via == via then [Group(via, groups[0].ips + [ip])] + groups[1..]
    else [groups[0]] + AddToGroup(groups[1..], via, ip)
  }

  /** The not yet covered endpoints that a tunnel swallows, grouped by tunnel. */
  function Swallowed(ips: seq<string>, intents: seq<Intent>, routes: seq<Route>, ifs: seq<NetIf>): seq<Group> {
    if ips == [] then []
    else
      var groups := Swallowed(ips[..|ips| - 1], intents, routes, ifs);
      var ip := ips[|ips| - 1];
      if Covered(ip, intents) || TunnelFor(ip, routes, ifs).None? then groups
      else AddToGroup(groups, TunnelFor(ip, routes, ifs).value, ip)
  }

  function Claimed(ips: seq<string>, intents: seq<Intent>, routes: seq<Route>, ifs: seq<NetIf>): set<string> {
    set ip | ip in ips && !Covered(ip, intents) && TunnelFor(ip, routes, ifs).Some?
  }

  function GroupFix(g: Group, intents: seq<Intent>): Suggestion {
    var ips := SortText(g.ips);
    Suggestion(EndpointViaTunnel, Some(g.via), None, None, ips, None, [Bypass(g.via, intents, [], ips)])
  }

  function GroupFixes(groups: seq<Group>, intents: seq<Intent>): (r: seq<Suggestion>)
    ensures |r| == |groups| && forall i :: 0 <= i < |groups| ==> r[i] == GroupFix(groups[i], intents)
  {
    seq(|groups|, i requires 0 <= i < |groups| => GroupFix(groups[i], intents))
  }

  function SortGroups(groups: seq<Group>): (r: seq<Group>)
    ensures multiset(r) == multiset(groups) && |r| == |groups|
  {
    SortBy(groups, (g: Group) => g.SortKey())
  }

  /** The cards of tunnels come ordered by tunnel name and then by the endpoints, as the text of
      each pair reads. */
  lemma TunnelsSorted(groups: seq<Group>, i: nat, j: nat)
    requires i < j < |groups|
    ensures |SortGroups(groups)| == |groups|
    ensures TextLe(SortGroups(groups)[i].via + "," + Join(SortGroups(groups)[i].ips, ','),
                   SortGroups(groups)[j].via + "," + Join(SortGroups(groups)[j].ips, ','))
  {
    hide SortBy, TextLe, Join;
    var key := (g: Group) => g.SortKey();
    SortBySorted(groups, key);
    var r := SortBy(groups, key);
    assert SortGroups(groups) == r;
    assert TextLe(key(r[i]), key(r[j]));
  }

  predicate IsBroad(intent: Intent) {
    intent.enabled && intent.path.Via? && exists d :: d in intent.destinations && d in DEFAULTISH
  }

  /** The destinations that capture the default route: the whole space or a half of it. */
  ghost predicate CapturesDefault(d: string) {
    d == "0.0.0.0/0" || d == "0.0.0.0/1" || d == "128.0.0.0/1" || d == "::/0" || d == "::/1" || d == "8000::/1"
  }

  lemma BroadExactly(intent: Intent)
    ensures IsBroad(intent) <==>
            intent.enabled && intent.path != Direct
            && exists d :: 0 <= d < |intent.destinations| && CapturesDefault(intent.destinations[d])
  {
    assert forall d :: d in DEFAULTISH <==> CapturesDefault(d);
  }

  function FirstBroad(intents: seq<Intent>): (r: Option<Intent>)
    ensures r.None? <==> forall i :: 0 <= i < |intents| ==> !IsBroad(intents[i])
    ensures r.Some? ==> r.value in intents && IsBroad(r.value)
  {
    if intents == [] then None
    else if IsBroad(intents[0]) then Some(intents[0])
    else
      assert forall i :: 0 <= i < |intents| - 1 ==> intents[1..][i] == intents[i + 1];
      FirstBroad(intents[1..])
  }

  function BroadFix(ips: seq<string>, claimed: set<string>, intents: seq<Intent>): seq<Suggestion> {
    var broad := FirstBroad(intents);
    if broad.None? then []
    else
      var uncovered := SortText(UncoveredOf(ips, intents, claimed));
      if uncovered == [] then []
      else
        var via := broad.value.path.iface.GetOr("?");
        [Suggestion(UncoveredEndpoints, Some(via), None, None, uncovered, None,
                    [Bypass(via, intents, [], uncovered)])]
  }

  predicate Occupies(r: Route, dest: string) {
    !r.managed && r.table == MAIN_TABLE && r.unicast && r.destination == dest
  }

  function Occupier(routes: seq<Route>, dest: string): Option<Route> {
    if routes == [] then None
    else if Occupies(routes[0], dest) then Some(routes[0])
    else Occupier(routes[1..], dest)
  }

  /** The first destination of a conflicted intent that a foreign route occupies. */
  function ConflictOf(intent: Intent, dests: seq<string>, routes: seq<Route>): (r: seq<Suggestion>)
    ensures forall i :: 0 <= i < |r| ==> r[i].kind == Conflict && r[i].endpoints == [] && r[i].fixes == []
  {
    if dests == [] then []
    else
      var foreign := Occupier(routes, dests[0]);
      if foreign.None? then ConflictOf(intent, dests[1..], routes)
      else [Suggestion(Conflict, None, Some(intent.id), Some(dests[0]), [], foreign, [])]
  }

  function Conflicts(intents: seq<Intent>, routes: seq<Route>): (r: seq<Suggestion>)
    ensures forall i :: 0 <= i < |r| ==> r[i].kind == Conflict && r[i].endpoints == [] && r[i].fixes == []
  {
    if intents == [] then []
    else
      var rest, last := Conflicts(intents[..|intents| - 1], routes), intents[|intents| - 1];
      if last.status != Conflicted then rest
      else rest + ConflictOf(last, last.destinations, routes)
  }

  function Analysis(intents: seq<Intent>, routes: seq<Route>, ifs: seq<NetIf>, profiles: seq<Profile>)
    : seq<Suggestion>
  {
    var ips := KnownIps(profiles);
    GroupFixes(SortGroups(Swallowed(ips, intents, routes, ifs)), intents)
    + BroadFix(ips, Claimed(ips, intents, routes, ifs), intents)
    + Conflicts(intents, routes)
  }

  method FindForeign(routes: seq<Route>, dest: string) returns (r: Option<Route>)
    ensures r == Occupier(routes, dest)
  {
    for k := 0 to |routes|
      invariant Occupier(routes, dest) == Occupier(routes[k..], dest)
    {
      assert routes[k..][1..] == routes[k + 1..];
      if Occupies(routes[k], dest) { return Some(routes[k]); }
    }
    r := None;
  }

  method SwallowedGroups(ips: seq<string>, intents: seq<Intent>, routes: seq<Route>, ifs: seq<NetIf>)
    returns (swallowed: seq<Group>, claimed: set<string>)
    ensures swallowed == Swallowed(ips, intents, routes, ifs)
    ensures claimed == Claimed(ips, intents, routes, ifs)
  {
    hide Covered, Lpm, Tunnelish, AddToGroup;
    swallowed, claimed := [], {};
    for k := 0 to |ips|
      invariant swallowed == Swallowed(ips[..k], intents, routes, ifs)
      invariant claimed == Claimed(ips[..k], intents, routes, ifs)
    {
      var ip := ips[k];
      assert ips[..k + 1][..k] == ips[..k] && ips[..k + 1] == ips[..k] + [ip];
      if Covered(ip, intents) { continue; }
      var route := LpmMain(routes, ip);
      var via := if route.Some? then route.value.interfaceName else None;
      if via.None? || via.value == "" || !Tunnelish(via.value, ifs) { continue; }
      swallowed := AddToGroup(swallowed, via.value, ip);
      claimed := claimed + {ip};
    }
    assert ips[..|ips|] == ips;
  }

  method GroupSuggestions(sorted: seq<Group>, intents: seq<Intent>) returns (r: seq<Suggestion>)
    ensures r == GroupFixes(sorted, intents)
  {
    hide BypassId, SortText;
    r := [];
    for k := 0 to |sorted|
      invariant r == GroupFixes(sorted[..k], intents)
    {
      var g := sorted[k];
      var own := SortText(g.ips);
      var id := BypassIdLoop(g.via, intents, []);
      r := r + [Suggestion(EndpointViaTunnel, Some(g.via), None, None, own, None,
                           [IntentParams(id, Hosts(own), Direct, Some(BYPASS_METRIC), None)])];
    }
    assert sorted[..|sorted|] == sorted;
  }

  method ConflictSuggestions(intents: seq<Intent>, routes: seq<Route>) returns (r: seq<Suggestion>)
    ensures r == Conflicts(intents, routes)
  {
    hide Occupier;
    r := [];
    for k := 0 to |intents|
      invariant r == Conflicts(intents[..k], routes)
    {
      var intent := intents[k];
      assert intents[..k + 1][..k] == intents[..k];
      if intent.status != Conflicted { continue; }
      ghost var before := r;
      var dests := intent.destinations;
      var j := 0;
      while j < |dests|
        invariant 0 <= j <= |dests| && r == before
        invariant ConflictOf(intent, dests, routes) == ConflictOf(intent, dests[j..], routes)
      {
        var foreign := FindForeign(routes, dests[j]);
        assert dests[j..][1..] == dests[j + 1..];
        if foreign.Some? {
          r := r + [Suggestion(Conflict, None, Some(intent.id), Some(dests[j]), [], foreign, [])];
          break;
        }
        j := j + 1;
      }
      assert r == before + ConflictOf(intent, dests, routes);
    }
    assert intents[..|intents|] == intents;
  }

  method AnalyzeIntents(intents: seq<Intent>, routes: seq<Route>, ifs: seq<NetIf>, profiles: seq<Profile>)
    returns (suggestions: seq<Suggestion>)
    ensures suggestions == Analysis(intents, routes, ifs, profiles)
  {
    hide Swallowed, Claimed, BypassId, SortText, UncoveredOf, Known, GroupFixes, Conflicts, SortGroups, FirstBroad;
    var endpoints := KnownEndpoints(profiles);
    var ips := Ips(endpoints);
    var swallowed, claimed := SwallowedGroups(ips, intents, routes, ifs);
    suggestions := GroupSuggestions(SortGroups(swallowed), intents);
    var broad := FirstBroad(intents);
    if broad.Some? {
      var uncovered := SortText(UncoveredOf(ips, intents, claimed));
      if |uncovered| > 0 {
        var via := broad.value.path.iface.GetOr("?");
        var id := BypassIdLoop(via, intents, []);
        suggestions := suggestions
          + [Suggestion(UncoveredEndpoints, Some(via), None, None, uncovered, None,
                        [IntentParams(id, Hosts(uncovered), Direct, Some(BYPASS_METRIC), None)])];
      }
    }
    var conflicts := ConflictSuggestions(intents, routes);
    suggestions := suggestions + conflicts;
  }

  // ----- what an analysis says ------------------------------------------

  /** The known endpoints that no enabled direct intent pins. */
  ghost function Uncovered(profiles: seq<Profile>, intents: seq<Intent>): set<string> {
    set ip | ip in KnownIps(profiles) && !Covered(ip, intents)
  }

  /** A tunnel swallows `ip`, or some enabled intent sends all traffic into an interface. */
  ghost predicate Exposed(ip: string, intents: seq<Intent>, routes: seq<Route>, ifs: seq<NetIf>) {
    TunnelFor(ip, routes, ifs).Some? || FirstBroad(intents).Some?
  }

  /** The groups partition the swallowed endpoints by the tunnel that takes them. */
  ghost predicate Partitions(groups: seq<Group>, ips: seq<string>, intents: seq<Intent>, routes: seq<Route>,
                             ifs: seq<NetIf>)
  {
    && (forall i, j :: 0 <= i < j < |groups| ==> groups[i].via != groups[j].via)
    && (forall i, ip :: 0 <= i < |groups| && ip in groups[i].ips ==>
          ip in ips && !Covered(ip, intents) && TunnelFor(ip, routes, ifs) == Some(groups[i].via))
    && (forall ip :: ip in ips && !Covered(ip, intents) && TunnelFor(ip, routes, ifs).Some? ==>
          exists i :: 0 <= i < |groups| && ip in groups[i].ips)
    && (forall i :: 0 <= i < |groups| ==> groups[i].ips != [])
  }

  lemma {:induction false} AddToGroupIndex(groups: seq<Group>, via: string, ip: string) returns (k: nat)
    requires forall i, j :: 0 <= i < j < |groups| ==> groups[i].via != groups[j].via
    ensures k <= |groups|
    ensures k < |groups| ==> groups[k].via == via
    ensures k < |groups| ==> AddToGroup(groups, via, ip) == groups[k := Group(via, groups[k].ips + [ip])]
    ensures k == |groups| ==> forall i :: 0 <= i < |groups| ==> groups[i].via != via
    ensures k == |groups| ==> AddToGroup(groups, via, ip) == groups + [Group(via, [ip])]
    decreases |groups|
  {
    if groups == [] {
      k := 0;
    } else if groups[0].via == via {
      k := 0;
    } else {
      k := AddToGroupIndex(groups[1..], via, ip);
      k := k + 1;
    }
  }

  lemma PartitionGrows(groups: seq<Group>, front: seq<string>, ip: string, intents: seq<Intent>,
                       routes: seq<Route>, ifs: seq<NetIf>)
    requires Partitions(groups, front, intents, routes, ifs)
    requires !Covered(ip, intents) && TunnelFor(ip, routes, ifs).Some?
    ensures Partitions(AddToGroup(groups, TunnelFor(ip, routes, ifs).value, ip), front + [ip], intents, routes, ifs)
  {
    hide Covered, TunnelFor, AddToGroup;
    var via := TunnelFor(ip, routes, ifs).value;
    var k := AddToGroupIndex(groups, via, ip);
    var grown := AddToGroup(groups, via, ip);
    assert ip in grown[k].ips;
    forall i, x | 0 <= i < |grown| && x in grown[i].ips
      ensures (x == ip && i == k) || (i < |groups| && x in groups[i].ips)
    {
    }
    forall x | x in front && !Covered(x, intents) && TunnelFor(x, routes, ifs).Some?
      ensures exists i :: 0 <= i < |grown| && x in grown[i].ips
    {
      var i :| 0 <= i < |groups| && x in groups[i].ips;
      assert x in grown[i].ips;
    }
  }

  lemma {:induction false} SwallowedPartitions(ips: seq<string>, intents: seq<Intent>, routes: seq<Route>,
                                               ifs: seq<NetIf>)
    ensures Partitions(Swallowed(ips, intents, routes, ifs), ips, intents, routes, ifs)
    decreases |ips|
  {
    hide Covered, TunnelFor, AddToGroup;
    if ips != [] {
      var front, ip := ips[..|ips| - 1], ips[|ips| - 1];
      SwallowedPartitions(front, intents, routes, ifs);
      assert ips == front + [ip];
      if !Covered(ip, intents) && TunnelFor(ip, routes, ifs).Some? {
        PartitionGrows(Swallowed(front, intents, routes, ifs), front, ip, intents, routes, ifs);
      }
    }
  }

  lemma {:induction false} PartitionSorted(groups: seq<Group>, sorted: seq<Group>, ips: seq<string>,
                                           intents: seq<Intent>, routes: seq<Route>, ifs: seq<NetIf>)
    requires Partitions(groups, ips, intents, routes, ifs) && multiset(sorted) == multiset(groups)
    ensures Partitions(sorted, ips, intents, routes, ifs)
  {
    hide Covered, TunnelFor;
    assert Distinct(groups);
    DistinctRearranged(groups, sorted);
    forall i | 0 <= i < |sorted| ensures sorted[i] in groups {
      assert sorted[i] in multiset(sorted);
    }
    forall i | 0 <= i < |groups| ensures groups[i] in sorted {
      assert groups[i] in multiset(groups);
    }
    forall i, j | 0 <= i < j < |sorted| ensures sorted[i].via != sorted[j].via {
      var a :| 0 <= a < |groups| && groups[a] == sorted[i];
      var b :| 0 <= b < |groups| && groups[b] == sorted[j];
      assert a != b;
    }
    forall ip | ip in ips && !Covered(ip, intents) && TunnelFor(ip, routes, ifs).Some?
      ensures exists i :: 0 <= i < |sorted| && ip in sorted[i].ips
    {
      var a :| 0 <= a < |groups| && ip in groups[a].ips;
      var i :| 0 <= i < |sorted| && sorted[i] == groups[a];
    }
  }

  lemma SortTextMembers(s: seq<string>, x: string)
    ensures x in SortText(s) <==> x in s
  {
    assert x in multiset(SortText(s)) <==> x in SortText(s);
    assert x in multiset(s) <==> x in s;
  }

  /** Suggestion `k` offers to pin `ip`. */
  ghost predicate Offers(a: seq<Suggestion>, k: nat, ip: string) {
    k < |a| && ip in a[k].endpoints
  }

  /** Which suggestion offers an address: that of its tunnel's group, or the one that
      follows the groups. */
  lemma OfferedBy(intents: seq<Intent>, routes: seq<Route>, ifs: seq<NetIf>, profiles: seq<Profile>, ip: string,
                  sorted: seq<Group>, k: nat)
    requires sorted == SortGroups(Swallowed(KnownIps(profiles), intents, routes, ifs))
    ensures var left := UncoveredOf(KnownIps(profiles), intents, Claimed(KnownIps(profiles), intents, routes, ifs));
            Offers(Analysis(intents, routes, ifs, profiles), k, ip) <==>
            if k < |sorted| then ip in sorted[k].ips
            else k == |sorted| && FirstBroad(intents).Some? && ip in left
  {
    hide Covered, TunnelFor, Swallowed, Conflicts, KnownIps, SortText, SortGroups, FirstBroad, UncoveredOf, BypassId,
         Claimed, Hosts;
    var ips := KnownIps(profiles);
    var claimed := Claimed(ips, intents, routes, ifs);
    var fixes, broad := GroupFixes(sorted, intents), BroadFix(ips, claimed, intents);
    var conflicts := Conflicts(intents, routes);
    var a := Analysis(intents, routes, ifs, profiles);
    assert a == fixes + broad + conflicts;
    if k < |sorted| {
      SortTextMembers(sorted[k].ips, ip);
    } else {
      SortTextMembers(UncoveredOf(ips, intents, claimed), ip);
    }
  }

  /** An address is in a group exactly when a tunnel swallows it, and then in one only. */
  lemma InOneGroup(groups: seq<Group>, ips: seq<string>, intents: seq<Intent>, routes: seq<Route>, ifs: seq<NetIf>,
                   ip: string)
    returns (k: nat)
    requires Partitions(groups, ips, intents, routes, ifs)
    ensures k <= |groups|
    ensures k < |groups| <==> ip in ips && !Covered(ip, intents) && TunnelFor(ip, routes, ifs).Some?
    ensures forall j :: 0 <= j < |groups| ==> (ip in groups[j].ips <==> j == k)
  {
    hide Covered, TunnelFor;
    if i :| 0 <= i < |groups| && ip in groups[i].ips {
      k := i;
    } else {
      k := |groups|;
    }
  }

  /** One analysis offers every uncovered, exposed endpoint in exactly one suggestion,
      and offers nothing else. */
  lemma EachExposedOnce(intents: seq<Intent>, routes: seq<Route>, ifs: seq<NetIf>, profiles: seq<Profile>, ip: string)
    ensures var a := Analysis(intents, routes, ifs, profiles);
            if ip in Uncovered(profiles, intents) && Exposed(ip, intents, routes, ifs)
            then exists k: nat :: Offers(a, k, ip) && forall j: nat :: Offers(a, j, ip) ==> j == k
            else forall k: nat :: !Offers(a, k, ip)
  {
    hide Covered, TunnelFor, Swallowed, Analysis, KnownIps, SortGroups, FirstBroad, UncoveredOf, Offers, Partitions;
    var a, ips := Analysis(intents, routes, ifs, profiles), KnownIps(profiles);
    var sorted := SortGroups(Swallowed(ips, intents, routes, ifs));
    SwallowedPartitions(ips, intents, routes, ifs);
    PartitionSorted(Swallowed(ips, intents, routes, ifs), sorted, ips, intents, routes, ifs);
    var k := InOneGroup(sorted, ips, intents, routes, ifs, ip);
    forall j: nat
      ensures Offers(a, j, ip) <==>
              j == k && ip in Uncovered(profiles, intents) && Exposed(ip, intents, routes, ifs)
    {
      OfferedBy(intents, routes, ifs, profiles, ip, sorted, j);
    }
    if ip in Uncovered(profiles, intents) && Exposed(ip, intents, routes, ifs) { assert Offers(a, k, ip); }
  }

  /** Only conflict suggestions remain exactly when no uncovered endpoint is exposed. */
  lemma OnlyConflictsLeft(intents: seq<Intent>, routes: seq<Route>, ifs: seq<NetIf>, profiles: seq<Profile>)
    ensures (forall s :: s in Analysis(intents, routes, ifs, profiles) ==> s.kind == Conflict) <==>
            (forall ip :: ip in Uncovered(profiles, intents) ==> !Exposed(ip, intents, routes, ifs))
  {
    hide Analysis, Uncovered, Exposed;
    var a := Analysis(intents, routes, ifs, profiles);
    EndpointSuggestions(intents, routes, ifs, profiles);
    if forall s :: s in a ==> s.kind == Conflict {
      forall ip | ip in Uncovered(profiles, intents) ensures !Exposed(ip, intents, routes, ifs) {
        EachExposedOnce(intents, routes, ifs, profiles, ip);
        forall k: nat ensures !Offers(a, k, ip) {
          if k < |a| { assert a[k] in a; }
        }
      }
    }
    if forall ip :: ip in Uncovered(profiles, intents) ==> !Exposed(ip, intents, routes, ifs) {
      forall s | s in a ensures s.kind == Conflict {
        var k :| 0 <= k < |a| && a[k] == s;
        if s.kind != Conflict {
          var ip := s.endpoints[0];
          assert Offers(a, k, ip);
          EachExposedOnce(intents, routes, ifs, profiles, ip);
        }
      }
    }
  }

  /** A suggestion either is a conflict with nothing to set, or pins a nonempty list
      of uncovered known endpoints with one intent under a fresh id. */
  ghost predicate WellFormedSuggestion(s: Suggestion, intents: seq<Intent>, profiles: seq<Profile>) {
    if s.kind == Conflict then s.endpoints == [] && s.fixes == []
    else
      && s.endpoints != []
      && (forall i :: 0 <= i < |s.endpoints| ==> s.endpoints[i] in Uncovered(profiles, intents))
      && |s.fixes| == 1
      && s.fixes[0].destinations == Hosts(s.endpoints)
      && s.fixes[0].path.Direct? && s.fixes[0].enabled.None?
      && (forall i :: 0 <= i < |intents| ==> intents[i].id != s.fixes[0].id)
  }

  lemma EndpointSuggestions(intents: seq<Intent>, routes: seq<Route>, ifs: seq<NetIf>, profiles: seq<Profile>)
    ensures forall s :: s in Analysis(intents, routes, ifs, profiles) ==> WellFormedSuggestion(s, intents, profiles)
  {
    hide Covered, TunnelFor, Swallowed, Conflicts, KnownIps, SortText, SortGroups, FirstBroad, UncoveredOf, BypassId;
    var a, ips := Analysis(intents, routes, ifs, profiles), KnownIps(profiles);
    var groups := Swallowed(ips, intents, routes, ifs);
    var sorted := SortGroups(groups);
    SwallowedPartitions(ips, intents, routes, ifs);
    PartitionSorted(groups, sorted, ips, intents, routes, ifs);
    var fixes := GroupFixes(sorted, intents);
    var broad := BroadFix(ips, Claimed(ips, intents, routes, ifs), intents);
    forall k | 0 <= k < |fixes| ensures WellFormedSuggestion(fixes[k], intents, profiles) {
      var own := SortText(sorted[k].ips);
      forall i | 0 <= i < |own| ensures own[i] in Uncovered(profiles, intents) {
        SortTextMembers(sorted[k].ips, own[i]);
      }
    }
    forall k | 0 <= k < |broad| ensures WellFormedSuggestion(broad[k], intents, profiles) {
      var left := UncoveredOf(ips, intents, Claimed(ips, intents, routes, ifs));
      var own := SortText(left);
      forall i | 0 <= i < |own| ensures own[i] in Uncovered(profiles, intents) {
        SortTextMembers(left, own[i]);
      }
    }
    forall s | s in a ensures WellFormedSuggestion(s, intents, profiles) {
      var k :| 0 <= k < |a| && a[k] == s;
      assert a == fixes + broad + Conflicts(intents, routes);
    }
  }

  /** Why an endpoint suggestion is made: one tunnel takes all its endpoints, or the first
      default-capturing intent will take the ones that no tunnel takes yet. */
  ghost predicate Explained(s: Suggestion, intents: seq<Intent>, routes: seq<Route>, ifs: seq<NetIf>) {
    s.kind == Conflict ||
    ( && SortedBy(s.endpoints, (x: string) => x)
      && (forall i :: 0 <= i < |s.fixes| ==> s.fixes[i].metric == Some(50))
      && (if s.kind == EndpointViaTunnel
          then forall i :: 0 <= i < |s.endpoints| ==> TunnelFor(s.endpoints[i], routes, ifs) == s.via
          else && (forall i :: 0 <= i < |s.endpoints| ==> TunnelFor(s.endpoints[i], routes, ifs).None?)
               && exists k :: FirstBroadAt(k, intents) && s.via == Some(intents[k].path.iface.GetOr("?"))))
  }

  ghost predicate FirstBroadAt(k: int, intents: seq<Intent>) {
    0 <= k < |intents| && IsBroad(intents[k]) && forall j :: 0 <= j < k ==> !IsBroad(intents[j])
  }

  lemma {:induction false} FirstBroadIndex(intents: seq<Intent>) returns (k: nat)
    requires FirstBroad(intents).Some?
    ensures FirstBroadAt(k, intents) && FirstBroad(intents) == Some(intents[k])
    decreases |intents|
  {
    hide IsBroad;
    k := 0;
    if !IsBroad(intents[0]) {
      k := FirstBroadIndex(intents[1..]);
      assert forall j :: 1 <= j <= k ==> intents[j] == intents[1..][j - 1];
      k := k + 1;
    }
  }

  lemma GroupExplained(g: Group, intents: seq<Intent>, routes: seq<Route>, ifs: seq<NetIf>)
    requires forall ip :: ip in g.ips ==> TunnelFor(ip, routes, ifs) == Some(g.via)
    ensures Explained(GroupFix(g, intents), intents, routes, ifs)
  {
    hide TunnelFor, BypassId, Hosts;
    var own := SortText(g.ips);
    SortBySorted(g.ips, (x: string) => x);
    forall i | 0 <= i < |own| ensures TunnelFor(own[i], routes, ifs) == Some(g.via) {
      SortTextMembers(g.ips, own[i]);
    }
  }

  lemma BroadExplained(ips: seq<string>, intents: seq<Intent>, routes: seq<Route>, ifs: seq<NetIf>)
    ensures var r := BroadFix(ips, Claimed(ips, intents, routes, ifs), intents);
            forall i :: 0 <= i < |r| ==> Explained(r[i], intents, routes, ifs)
  {
    hide TunnelFor, BypassId, Hosts, Covered, UncoveredOf, FirstBroad, IsBroad;
    var left := UncoveredOf(ips, intents, Claimed(ips, intents, routes, ifs));
    var own := SortText(left);
    SortBySorted(left, (x: string) => x);
    forall i | 0 <= i < |own| ensures TunnelFor(own[i], routes, ifs).None? {
      SortTextMembers(left, own[i]);
    }
    if FirstBroad(intents).Some? {
      var k := FirstBroadIndex(intents);
    }
  }

  lemma SuggestionsExplained(intents: seq<Intent>, routes: seq<Route>, ifs: seq<NetIf>, profiles: seq<Profile>)
    ensures forall s :: s in Analysis(intents, routes, ifs, profiles) ==> Explained(s, intents, routes, ifs)
  {
    hide Covered, TunnelFor, Swallowed, Conflicts, KnownIps, BroadFix, GroupFix, SortGroups, Explained;
    var a, ips := Analysis(intents, routes, ifs, profiles), KnownIps(profiles);
    var groups := Swallowed(ips, intents, routes, ifs);
    var sorted := SortGroups(groups);
    SwallowedPartitions(ips, intents, routes, ifs);
    PartitionSorted(groups, sorted, ips, intents, routes, ifs);
    forall k | 0 <= k < |sorted| ensures Explained(GroupFix(sorted[k], intents), intents, routes, ifs) {
      GroupExplained(sorted[k], intents, routes, ifs);
    }
    BroadExplained(ips, intents, routes, ifs);
    forall k | 0 <= k < |Conflicts(intents, routes)|
      ensures Explained(Conflicts(intents, routes)[k], intents, routes, ifs)
    {
      ConflictExplained(Conflicts(intents, routes)[k], intents, routes, ifs);
    }
    forall s | s in a ensures Explained(s, intents, routes, ifs) {
      var k :| 0 <= k < |a| && a[k] == s;
    }
  }

  lemma ConflictExplained(s: Suggestion, intents: seq<Intent>, routes: seq<Route>, ifs: seq<NetIf>)
    requires s.kind == Conflict
    ensures Explained(s, intents, routes, ifs)
  {
  }

  // ----- conflicts ------------------------------------------------------

  /** A unicast route of table 254 on the destination that is not managed here. */
  ghost predicate ForeignOn(r: Route, dest: string) {
    r.destination == dest && r.table == 254 && r.unicast && !r.managed
  }

  /** Route `k` is the first foreign route on `dest`. */
  ghost predicate FirstOn(k: int, dest: string, routes: seq<Route>) {
    0 <= k < |routes| && ForeignOn(routes[k], dest) && forall j :: 0 <= j < k ==> !ForeignOn(routes[j], dest)
  }

  ghost predicate Free(dest: string, routes: seq<Route>) {
    forall k :: 0 <= k < |routes| ==> !ForeignOn(routes[k], dest)
  }

  /** The card names the intent's first occupied destination and the first route on it. */
  ghost predicate NamesConflict(s: Suggestion, intent: Intent, routes: seq<Route>) {
    && s.kind == Conflict && s.intentId == Some(intent.id) && s.destination.Some? && s.foreignRoute.Some?
    && (exists k :: FirstOn(k, s.destination.value, routes) && s.foreignRoute.value == routes[k])
    && exists d :: 0 <= d < |intent.destinations| && intent.destinations[d] == s.destination.value
                   && forall e :: 0 <= e < d ==> Free(intent.destinations[e], routes)
  }

  /** The conflicted intents with an occupied destination, in list order. */
  ghost function Blocked(intents: seq<Intent>, routes: seq<Route>): seq<Intent> {
    if intents == [] then []
    else
      var rest, last := Blocked(intents[..|intents| - 1], routes), intents[|intents| - 1];
      if last.status == Conflicted && exists d :: 0 <= d < |last.destinations| && !Free(last.destinations[d], routes)
      then rest + [last] else rest
  }

  lemma {:induction false} OccupierExact(routes: seq<Route>, dest: string) returns (k: nat)
    ensures Occupier(routes, dest).None? ==> Free(dest, routes)
    ensures Occupier(routes, dest).Some? ==> FirstOn(k, dest, routes) && Occupier(routes, dest).value == routes[k]
    decreases |routes|
  {
    k := 0;
    if routes != [] && !Occupies(routes[0], dest) {
      k := OccupierExact(routes[1..], dest);
      assert forall j :: 1 <= j < |routes| ==> routes[j] == routes[1..][j - 1];
      k := k + 1;
    }
  }

  lemma {:induction false} ConflictOfExact(intent: Intent, n: nat, routes: seq<Route>)
    requires n <= |intent.destinations| && forall e :: 0 <= e < n ==> Free(intent.destinations[e], routes)
    ensures var r := ConflictOf(intent, intent.destinations[n..], routes);
            if exists d :: 0 <= d < |intent.destinations| && !Free(intent.destinations[d], routes)
            then |r| == 1 && NamesConflict(r[0], intent, routes) else r == []
    decreases |intent.destinations| - n
  {
    hide Free, FirstOn, Occupier;
    var dests := intent.destinations;
    if n < |dests| {
      assert dests[n..][1..] == dests[n + 1..];
      var k := OccupierExact(routes, dests[n]);
      if Occupier(routes, dests[n]).None? {
        ConflictOfExact(intent, n + 1, routes);
      } else {
        FirstIsNotFree(k, dests[n], routes);
      }
    }
  }

  lemma FirstIsNotFree(k: nat, dest: string, routes: seq<Route>)
    requires FirstOn(k, dest, routes)
    ensures !Free(dest, routes)
  {
  }

  /** The conflict cards are, in order, one for each conflicted intent with an occupied destination. */
  lemma {:induction false} ConflictsExact(intents: seq<Intent>, routes: seq<Route>)
    ensures |Conflicts(intents, routes)| == |Blocked(intents, routes)|
    ensures forall i :: 0 <= i < |Conflicts(intents, routes)| ==>
              NamesConflict(Conflicts(intents, routes)[i], Blocked(intents, routes)[i], routes)
    decreases |intents|
  {
    hide Free, NamesConflict, ConflictOf;
    if intents != [] {
      var n := |intents| - 1;
      ConflictsExact(intents[..n], routes);
      ConflictOfExact(intents[n], 0, routes);
      assert intents[n].destinations[0..] == intents[n].destinations;
    }
  }

  // ----- convergence ----------------------------------------------------

  /** Applying an endpoint suggestion pins all its endpoints and unpins nothing, so the
      uncovered endpoints become a strict subset. */
  lemma ApplyingMakesProgress(s: Suggestion, intents: seq<Intent>, profiles: seq<Profile>)
    requires WellFormedSuggestion(s, intents, profiles) && s.kind != Conflict
    ensures forall ip :: Covered(ip, intents) ==> Covered(ip, SetAll(intents, s.fixes))
    ensures forall i :: 0 <= i < |s.endpoints| ==> Covered(s.endpoints[i], SetAll(intents, s.fixes))
    ensures Uncovered(profiles, SetAll(intents, s.fixes)) < Uncovered(profiles, intents)
  {
    hide Covered, PinsIp, IsIp, KnownIps;
    var fix := s.fixes[0];
    assert s.fixes == [fix];
    var after := SetAll(intents, s.fixes);
    SetOne(intents, fix);
    WithoutFresh(intents, fix.id);
    KnownExact(profiles);
    forall i | 0 <= i < |s.endpoints| ensures IsIp(s.endpoints[i]) {
      assert Mentioned(s.endpoints[i], profiles);
    }
    forall ip ensures Covered(ip, after) <==> Covered(ip, intents) || PinsIp(View(fix), ip) {
      SetCoverage(intents, fix, ip);
    }
    forall i | 0 <= i < |s.endpoints| ensures Covered(s.endpoints[i], after) {
      BypassPins(fix, s.endpoints, s.endpoints[i]);
    }
    assert s.endpoints[0] in Uncovered(profiles, intents);
    assert s.endpoints[0] !in Uncovered(profiles, after);
  }

  datatype Network = Network(routes: seq<Route>, ifs: seq<NetIf>)

  /** A run of fixing: before each step the tables are read afresh (and may have changed
      in any way), the analysis is repeated, and one endpoint suggestion is applied. */
  ghost predicate FixRun(states: seq<seq<Intent>>, networks: seq<Network>, picks: seq<Suggestion>,
                         profiles: seq<Profile>)
  {
    |states| == |picks| + 1 && |networks| == |picks| &&
    forall k :: 0 <= k < |picks| ==>
      && picks[k] in Analysis(states[k], networks[k].routes, networks[k].ifs, profiles)
      && picks[k].kind != Conflict
      && states[k + 1] == SetAll(states[k], picks[k].fixes)
  }

  lemma SmallerSet<T>(a: set<T>, b: set<T>)
    requires a < b
    ensures |a| < |b|
  {
    var extra := b - a;
    assert b == a + extra && a !! extra;
    assert extra != {};
  }

  /** No run of fixing is longer than the number of endpoints uncovered at its start,
      and coverage present at the start is present at the end. */
  lemma {:induction false} FixingConverges(states: seq<seq<Intent>>, networks: seq<Network>, picks: seq<Suggestion>,
                                           profiles: seq<Profile>)
    requires FixRun(states, networks, picks, profiles)
    ensures |picks| + |Uncovered(profiles, states[|picks|])| <= |Uncovered(profiles, states[0])|
    ensures forall ip :: Covered(ip, states[0]) ==> Covered(ip, states[|picks|])
    decreases |picks|
  {
    hide Covered, Analysis, Uncovered, SetAll, WellFormedSuggestion;
    if picks != [] {
      var n := |picks| - 1;
      FixingConverges(states[..n + 1], networks[..n], picks[..n], profiles);
      EndpointSuggestions(states[n], networks[n].routes, networks[n].ifs, profiles);
      ApplyingMakesProgress(picks[n], states[n], profiles);
      SmallerSet(Uncovered(profiles, states[n + 1]), Uncovered(profiles, states[n]));
    }
  }

  /** Once every known endpoint is covered, an analysis of any network offers conflicts only. */
  lemma CoveredMeansQuiet(intents: seq<Intent>, network: Network, profiles: seq<Profile>)
    requires Uncovered(profiles, intents) == {}
    ensures forall s :: s in Analysis(intents, network.routes, network.ifs, profiles) ==> s.kind == Conflict
  {
    hide Analysis, Uncovered;
    OnlyConflictsLeft(intents, network.routes, network.ifs, profiles);
  }

  // ----- saving an all-traffic rule -------------------------------------

  function UncoveredEndpointIntents(profiles: seq<Profile>, intents: seq<Intent>, via: string, extra: seq<string>)
    : seq<IntentParams>
  {
    var endpoints := SortText(UncoveredOf(KnownIps(profiles), intents, {}));
    if endpoints == [] then [] else [Bypass(via, intents, extra, endpoints)]
  }

  /** The store after saving an all-traffic interface rule and its companion bypasses,
      which are computed from the list the panel shows. */
  function SavedFrom(rule: IntentParams, intents: seq<Intent>, shown: seq<Intent>, profiles: seq<Profile>): seq<Intent>
    requires rule.path.Via?
  {
    SetAll(IntentSet(intents, rule), Companions(rule, shown, profiles))
  }

  function Companions(rule: IntentParams, shown: seq<Intent>, profiles: seq<Profile>): seq<IntentParams>
    requires rule.path.Via?
  {
    UncoveredEndpointIntents(profiles, shown, rule.path.iface.GetOr("uplink"), [rule.id])
  }

  /** The same when the panel shows the stored list, as it stands before the save. */
  function SavedAll(rule: IntentParams, intents: seq<Intent>, profiles: seq<Profile>): seq<Intent>
    requires rule.path.Via?
  {
    SavedFrom(rule, intents, intents, profiles)
  }

  /** A save sets at most one companion: a direct intent of metric 50 under an id that neither
      the rule nor a shown intent has, for the sorted endpoints shown uncovered. */
  lemma CompanionsExactly(rule: IntentParams, shown: seq<Intent>, profiles: seq<Profile>)
    requires rule.path.Via?
    ensures Companions(rule, shown, profiles) == [] <==>
            forall ip :: ip in KnownIps(profiles) ==> Covered(ip, shown)
    ensures Companions(rule, shown, profiles) != [] ==>
              var fix := Companions(rule, shown, profiles)[0];
              Companions(rule, shown, profiles) == [fix] && fix.path == Direct && fix.metric == Some(50)
              && fix.enabled.None? && fix.id != rule.id && (forall i :: 0 <= i < |shown| ==> shown[i].id != fix.id)
  {
    hide Covered, KnownIps, SortText, UncoveredOf, BypassId;
    var left := UncoveredOf(KnownIps(profiles), shown, {});
    if left != [] { assert left[0] in left; }
    assert rule.id in [rule.id];
  }

  lemma FreshAfterSave(intents: seq<Intent>, rule: IntentParams, id: string)
    requires id != rule.id && forall i :: 0 <= i < |intents| ==> intents[i].id != id
    ensures forall i :: 0 <= i < |IntentSet(intents, rule)| ==> IntentSet(intents, rule)[i].id != id
  {
  }

  /** Coverage depends on the address an endpoint text denotes, not on its spelling. */
  lemma CoveredByValue(ip: string, other: string, intents: seq<Intent>)
    requires IpValue(ip) == IpValue(other)
    ensures Covered(ip, intents) == Covered(other, intents)
  {
  }

  lemma CompanionPins(ips: seq<string>, intents: seq<Intent>, fix: IntentParams, ip: string)
    requires ip in ips && forall i :: 0 <= i < |ips| ==> IsIp(ips[i])
    requires fix.destinations == Hosts(SortText(UncoveredOf(ips, intents, {})))
    requires fix.path.Direct? && fix.enabled.None?
    ensures PinsIp(View(fix), ip) <==> !Covered(ip, intents)
  {
    hide Covered, PinsIp, View, SortText, IsIp, IpValue;
    var left := UncoveredOf(ips, intents, {});
    var own := SortText(left);
    forall i | 0 <= i < |own| ensures IsIp(own[i]) && !Covered(own[i], intents) {
      SortTextMembers(left, own[i]);
    }
    BypassPins(fix, own, ip);
    SortTextMembers(left, ip);
    if i :| 0 <= i < |own| && IpValue(own[i]) == IpValue(ip) {
      CoveredByValue(own[i], ip, intents);
    }
  }

  /** After a save from any shown list, stale or not, a known endpoint is covered exactly
      when it was shown uncovered, or an intent covers it that neither the rule nor the
      companion replaced. */
  lemma SavedFromCoverage(rule: IntentParams, intents: seq<Intent>, shown: seq<Intent>, profiles: seq<Profile>,
                          ip: string)
    requires rule.path.Via? && ip in KnownIps(profiles)
    ensures Covered(ip, SavedFrom(rule, intents, shown, profiles)) <==>
            if Companions(rule, shown, profiles) == [] then Covered(ip, Without(intents, rule.id))
            else !Covered(ip, shown)
                 || Covered(ip, Without(IntentSet(intents, rule), Companions(rule, shown, profiles)[0].id))
    ensures Companions(rule, shown, profiles) == [] ==> Covered(ip, shown)
  {
    hide Covered, SortText, UncoveredOf, BypassId, Without, Known, IsIp;
    var ips := KnownIps(profiles);
    KnownExact(profiles);
    forall i | 0 <= i < |ips| ensures IsIp(ips[i]) { assert Mentioned(ips[i], profiles); }
    SortTextMembers(UncoveredOf(ips, shown, {}), ip);
    var fixes, first := Companions(rule, shown, profiles), IntentSet(intents, rule);
    SetCoverage(intents, rule, ip);
    assert !PinsIp(View(rule), ip);
    if fixes != [] {
      var fix := fixes[0];
      assert fixes == [fix];
      SetOne(first, fix);
      SetCoverage(first, fix, ip);
      CompanionPins(ips, shown, fix, ip);
    }
  }

  /** After the save a known endpoint is covered, unless the rule replaced the only
      enabled direct intents that covered it. */
  lemma SavedCoverage(rule: IntentParams, intents: seq<Intent>, profiles: seq<Profile>, ip: string)
    requires rule.path.Via? && ip in KnownIps(profiles)
    ensures Covered(ip, SavedAll(rule, intents, profiles)) <==>
            (Covered(ip, intents) ==> Covered(ip, Without(intents, rule.id)))
  {
    hide Covered, SortText, UncoveredOf, Without, KnownIps;
    SavedFromCoverage(rule, intents, intents, profiles, ip);
    WithoutCoverage(intents, rule.id, ip);
    SetCoverage(intents, rule, ip);
    assert !PinsIp(View(rule), ip);
    var fixes := Companions(rule, intents, profiles);
    if fixes != [] {
      FreshAfterSave(intents, rule, fixes[0].id);
      WithoutFresh(IntentSet(intents, rule), fixes[0].id);
    }
  }

  lemma WithoutCoverage(intents: seq<Intent>, id: string, ip: string)
    ensures Covered(ip, Without(intents, id)) ==> Covered(ip, intents)
  {
  }

  /** Saving leaves every known endpoint covered, and so leaves the doctor with nothing but
      conflicts to report on any network, exactly when each endpoint covered before is
      covered by an intent other than the replaced one. */
  lemma SavedRuleSwallowsNothing(rule: IntentParams, intents: seq<Intent>, profiles: seq<Profile>)
    requires rule.path.Via?
    ensures Uncovered(profiles, SavedAll(rule, intents, profiles)) == {} <==>
            forall ip :: ip in KnownIps(profiles) && Covered(ip, intents) ==> Covered(ip, Without(intents, rule.id))
  {
    hide Covered, KnownIps, SavedAll, Without;
    forall ip | ip in KnownIps(profiles)
      ensures Covered(ip, SavedAll(rule, intents, profiles)) <==>
              (Covered(ip, intents) ==> Covered(ip, Without(intents, rule.id)))
    {
      SavedCoverage(rule, intents, profiles, ip);
    }
    if !(forall ip :: ip in KnownIps(profiles) && Covered(ip, intents) ==> Covered(ip, Without(intents, rule.id))) {
      var ip :| ip in KnownIps(profiles) && Covered(ip, intents) && !Covered(ip, Without(intents, rule.id));
      assert ip in Uncovered(profiles, SavedAll(rule, intents, profiles));
    }
  }

  /** The condition can fail: an all-traffic rule saved under the id of the one direct intent
      that pins a listed endpoint leaves that endpoint uncovered. */
  lemma ReplacedBypassUncovers(id: string, iface: string, ip: string, owner: string, metric: nat)
    requires IsIp(ip)
    ensures var intents := [Intent(id, [ip + "/32"], Direct, metric, true, Effective)];
            var rule := IntentParams(id, ["0.0.0.0/0"], Via(Some(iface)), None, None);
            var profiles := [Profile(owner, owner, [ip])];
            ip in Uncovered(profiles, SavedAll(rule, intents, profiles))
  {
    hide IsIp, CidrCovers, KnownIps, SavedAll, Trim;
    var intent := Intent(id, [ip + "/32"], Direct, metric, true, Effective);
    var intents, profiles := [intent], [Profile(owner, owner, [ip])];
    var rule := IntentParams(id, ["0.0.0.0/0"], Via(Some(iface)), None, None);
    HostPrefixCovers(ip, ip);
    assert ip + "/32" in intent.destinations && PinsIp(intents[0], ip);
    IpHasNoSlash(ip);
    TrimProps(ip);
    assert profiles[0].endpointBypasses[0] == ip && Lists(profiles[0].endpointBypasses, ip);
    KnownExact(profiles);
    SavedCoverage(rule, intents, profiles, ip);
  }

  /** The condition holds whenever the rule's id is not that of an enabled direct intent. */
  lemma NewRuleSwallowsNothing(rule: IntentParams, intents: seq<Intent>, profiles: seq<Profile>, network: Network)
    requires rule.path.Via?
    requires forall i :: 0 <= i < |intents| && intents[i].id == rule.id ==>
               !(intents[i].enabled && intents[i].path.Direct?)
    ensures forall s :: s in Analysis(SavedAll(rule, intents, profiles), network.routes, network.ifs, profiles) ==>
              s.kind == Conflict
  {
    hide Analysis, SavedAll, KnownIps, Without, Uncovered;
    forall ip | Covered(ip, intents) ensures Covered(ip, Without(intents, rule.id)) {
      var i :| 0 <= i < |intents| && PinsIp(intents[i], ip);
      assert intents[i] in Without(intents, rule.id);
      CoveredMember(ip, Without(intents, rule.id));
    }
    SavedRuleSwallowsNothing(rule, intents, profiles);
    CoveredMeansQuiet(SavedAll(rule, intents, profiles), network, profiles);
  }

  // ----- the store and the panel ----------------------------------------

  /** The stored intents, changed in place by the commands. */
  class IntentStore {
    var intents: seq<Intent>

    constructor (stored: seq<Intent>)
      ensures intents == stored
    {
      intents := stored;
    }

    method NetIntentSet(p: IntentParams)
      modifies this
      ensures intents == IntentSet(old(intents), p)
    {
      var view := View(p);
      var kept := [];
      for k := 0 to |intents|
        invariant intents == old(intents)
        invariant kept + Without(intents[k..], p.id) == Without(intents, p.id)
      {
        assert intents[k..][1..] == intents[k + 1..];
        if intents[k].id != p.id { kept := kept + [intents[k]]; }
      }
      intents := kept + [view];
    }

    /** Deletion keeps the other intents in order and with their coverage: an address stays
        pinned exactly when an intent under another id pins it. */
    method NetIntentDel(id: string)
      modifies this
      ensures intents == Without(old(intents), id)
      ensures forall x :: multiset(intents)[x] == if x.id == id then 0 else multiset(old(intents))[x]
      ensures forall ip :: Covered(ip, intents) <==> PinnedByOther(ip, old(intents), id)
    {
      hide Covered, PinnedByOther;
      var kept := [];
      for k := 0 to |intents|
        invariant intents == old(intents)
        invariant kept + Without(intents[k..], id) == Without(intents, id)
      {
        assert intents[k..][1..] == intents[k + 1..];
        if intents[k].id != id { kept := kept + [intents[k]]; }
      }
      assert kept == Without(intents, id);
      forall x ensures multiset(kept)[x] == if x.id == id then 0 else multiset(intents)[x] {
        WithoutCount(intents, id, x);
      }
      forall ip ensures Covered(ip, kept) <==> PinnedByOther(ip, intents, id) { WithoutPins(intents, id, ip); }
      intents := kept;
    }

    /** The panel's apply button: every fix of the card, one after another. */
    method ApplySuggestion(s: Suggestion)
      modifies this
      ensures intents == SetAll(old(intents), s.fixes)
    {
      for k := 0 to |s.fixes|
        invariant intents == SetAll(old(intents), s.fixes[..k])
      {
        NetIntentSet(s.fixes[k]);
        assert s.fixes[..k + 1][..k] == s.fixes[..k];
      }
      assert s.fixes[..|s.fixes|] == s.fixes;
    }

    /** The panel's save: the rule first, then its companions, counting what they pin. */
    method Save(rule: IntentParams, scopeAll: bool, profiles: seq<Profile>, shown: seq<Intent>)
      returns (bypassed: nat)
      modifies this
      ensures scopeAll && rule.path.Via? ==>
                intents == SavedFrom(rule, old(intents), shown, profiles)
                && bypassed == |UncoveredOf(KnownIps(profiles), shown, {})|
      ensures !(scopeAll && rule.path.Via?) ==> intents == IntentSet(old(intents), rule) && bypassed == 0
    {
      hide UncoveredOf, KnownIps, BypassId, SortText;
      NetIntentSet(rule);
      bypassed := 0;
      ghost var first := intents;
      if scopeAll && rule.path.Via? {
        var fixes := Companions(rule, shown, profiles);
        for k := 0 to |fixes|
          invariant intents == SetAll(first, fixes[..k])
          invariant k == 0 ==> bypassed == 0
          invariant k == 1 ==> bypassed == |fixes[0].destinations|
        {
          NetIntentSet(fixes[k]);
          assert fixes[..k + 1][..k] == fixes[..k];
          bypassed := bypassed + |fixes[k].destinations|;
        }
        assert fixes[..|fixes|] == fixes;
      }
    }
  }
}
