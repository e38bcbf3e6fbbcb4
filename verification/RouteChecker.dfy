/** The route checker of src/sandbox/backend.ts (`xray_test_route`): first match over
    the selectors of ordered policies, with selectors it cannot evaluate. */
module RouteChecker {
  import opened Prelude
  import opened Text
  import opened Ipv4
  import Bits

  datatype Target = Block | Proxy | Direct
  datatype Policy = Policy(domains: seq<string>, target: Target)
  datatype Source = Default | PolicyRule | PrivateLan
  datatype Outcome = Outcome(outbound: Target, source: Source, policyIndex: Option<nat>, selector: Option<string>)
  datatype Verdict = Verdict(outcome: Outcome, certain: bool)

  // ----- one selector ---------------------------------------------------

  /** Four dot-separated runs of digits; the runs may exceed 255. */
  predicate DottedDigits(s: string) {
    var parts := Split(s, '.');
    |parts| == 4 && forall i :: 0 <= i < 4 ==> parts[i] != [] && AllDigits(parts[i])
  }

  function DottedValue(s: string): nat
    requires DottedDigits(s)
  {
    var parts := Split(s, '.');
    SandboxToInt([Decimal(parts[0]), Decimal(parts[1]), Decimal(parts[2]), Decimal(parts[3])])
  }

  /** The mask for a length text: "0" is no bits, text that is not a number shifts by nothing. */
  function SelectorMask(bits: string): nat {
    if bits == "0" then 0
    else
      var n := ToNumber(bits);
      ShiftedMask(if n.Some? then 32 - n.value else 0)
  }

  predicate CidrSelector(pat: string, bare: string)
    requires '/' in pat && DottedDigits(bare)
  {
    var pieces := Split(pat, '/');
    DottedDigits(pieces[0]) && |pieces| >= 2 &&
    var mask := SelectorMask(pieces[1]);
    Bits.JsAnd(DottedValue(bare), mask) == Bits.JsAnd(DottedValue(pieces[0]), mask)
  }

  predicate Unevaluable(sel: string) {
    StartsWith(sel, "geosite:") || StartsWith(sel, "geoip:") || StartsWith(sel, "regexp:")
  }

  /** Whether a selector matches the bare host; `None` when that needs assets the checker lacks. */
  function MatchSel(sel: string, bare: string): (r: Option<bool>)
    ensures r.None? <==> Unevaluable(sel)
  {
    var isIp := DottedDigits(bare);
    if Unevaluable(sel) then None
    else if StartsWith(sel, "keyword:") then Some(!isIp && Includes(bare, sel[8..]))
    else if StartsWith(sel, "full:") then Some(!isIp && bare == sel[5..])
    else
      var pat := if StartsWith(sel, "domain:") then sel[7..] else sel;
      if isIp then (if '/' in pat then Some(CidrSelector(pat, bare)) else Some(bare == pat))
      else Some(bare == pat || EndsWith(bare, "." + pat))
  }

  /** How many low bits the selector test leaves out: the shift count is taken modulo 32,
      so that only the text "0" leaves out all of them. */
  function FreeBits(bits: string): (k: nat)
    ensures k <= 32
  {
    if bits == "0" then 32
    else match ToNumber(bits) case None => 0 case Some(n) => (32 - n) % 32
  }

  lemma SelectorMaskTest(a: nat, b: nat, bits: string)
    requires a < Bits.TWO32 && b < Bits.TWO32
    ensures Bits.JsAnd(a, SelectorMask(bits)) == Bits.JsAnd(b, SelectorMask(bits)) <==>
            a / Bits.Pow2(FreeBits(bits)) == b / Bits.Pow2(FreeBits(bits))
  {
    hide ToNumber;
    Bits.Pow2Values();
    if bits == "0" {
      ZeroMask(a);
      ZeroMask(b);
    } else {
      var k := FreeBits(bits);
      assert SelectorMask(bits) == ShiftedMask(k) by {
        ShiftWraps(if ToNumber(bits).Some? then 32 - ToNumber(bits).value else 0);
      }
      SignedMaskTest(a, b, 32 - k);
    }
  }

  lemma ShiftWraps(k: int)
    ensures ShiftedMask(k) == ShiftedMask(k % 32)
  {
    hide Bits.ToInt32, Bits.ToUint32, Bits.Pow2;
    assert (k % 32) % 32 == k % 32;
  }

  lemma DottedValueFits(s: string)
    requires DottedDigits(s)
    ensures DottedValue(s) < Bits.TWO32
  {
  }

  /** For every prefix text and dotted target, octets of any size and lengths of any
      spelling: the selector compares the quotients by 2 to the number of free bits. */
  lemma CidrSelectorExactly(pat: string, bare: string)
    requires '/' in pat && DottedDigits(bare)
    ensures CidrSelector(pat, bare) <==>
            DottedDigits(Split(pat, '/')[0]) && |Split(pat, '/')| >= 2
            && DottedValue(bare) / Bits.Pow2(FreeBits(Split(pat, '/')[1])) ==
               DottedValue(Split(pat, '/')[0]) / Bits.Pow2(FreeBits(Split(pat, '/')[1]))
  {
    hide Split, DottedDigits, DottedValue, SelectorMask, FreeBits;
    var pieces := Split(pat, '/');
    DottedValueFits(bare);
    if DottedDigits(pieces[0]) && |pieces| >= 2 {
      DottedValueFits(pieces[0]);
      SelectorMaskTest(DottedValue(bare), DottedValue(pieces[0]), pieces[1]);
    }
  }

  /** The length is spelled so that the selector reads it as the prefix length. */
  predicate PlainLength(bits: string) {
    bits == "0" || (ToNumber(bits).Some? && 1 <= ToNumber(bits).value <= 32)
  }

  /** The selector's verdict on an address, with the parts of a slashed text. */
  lemma SelectorParts(net: string, bits: string, bare: string)
    requires IsIp(net) && IsIp(bare) && '/' !in bits
    ensures DottedDigits(bare) && '/' in net + "/" + bits
    ensures CidrSelector(net + "/" + bits, bare) <==>
            IpValue(bare).value / Bits.Pow2(FreeBits(bits)) == IpValue(net).value / Bits.Pow2(FreeBits(bits))
    ensures InBlock(net + "/" + bits, bare) <==>
            ToNumber(bits).Some? && ToNumber(bits).value <= 32
            && IpValue(bare).value / Bits.Pow2(32 - ToNumber(bits).value) ==
               IpValue(net).value / Bits.Pow2(32 - ToNumber(bits).value)
  {
    hide Split, ToNumber, DottedValue, FreeBits, CidrSelector;
    var pat := net + "/" + bits;
    IpHasNoSlash(net);
    assert pat == net + ['/'] + bits;
    SplitAtSep(net, '/', bits);
    SplitNoSep(bits, '/');
    assert Split(pat, '/') == [net, bits];
    assert pat[|net|] == '/';
    ValueOfIp(net);
    ValueOfIp(bare);
    CidrSelectorExactly(pat, bare);
  }

  /** For a prefix with a plain length the selector is membership in the block. */
  lemma CidrSelectorIsInBlock(net: string, bits: string, bare: string)
    requires IsIp(net) && IsIp(bare) && '/' !in bits && PlainLength(bits)
    ensures DottedDigits(bare) && '/' in net + "/" + bits
    ensures CidrSelector(net + "/" + bits, bare) <==> InBlock(net + "/" + bits, bare)
  {
    hide ToNumber, CidrSelector, InBlock, FreeBits, IsIp, IpValue, DottedDigits, PlainLength;
    SelectorParts(net, bits, bare);
    PlainFree(bits);
  }

  lemma PlainFree(bits: string)
    requires PlainLength(bits)
    ensures ToNumber(bits).Some? && ToNumber(bits).value <= 32 && FreeBits(bits) == 32 - ToNumber(bits).value
  {
    hide ToNumber;
    ZeroNumber();
  }

  /** The selector agrees with the block on every address. */
  ghost predicate AgreesWithBlock(net: string, bits: string) {
    forall bare :: IsIp(bare) && DottedDigits(bare) && '/' in net + "/" + bits ==>
      (CidrSelector(net + "/" + bits, bare) <==> InBlock(net + "/" + bits, bare))
  }

  /** With any other length the test goes wrong: a zero length not spelled "0" tests for the
      base address alone, and one that is no number or exceeds 32 accepts the base address
      of a text that denotes no block. Lengths in other numeric forms, such as "8.0", are
      not modelled. */
  lemma OtherLengthsDisagree(net: string, bits: string) returns (bare: string)
    requires IsIp(net) && '/' !in bits && PlainlyRead(bits) && !PlainLength(bits)
    ensures IsIp(bare) && DottedDigits(bare) && '/' in net + "/" + bits
    ensures CidrSelector(net + "/" + bits, bare) != InBlock(net + "/" + bits, bare)
  {
    hide ToNumber, PlainlyRead, CidrSelector, InBlock, IsIp, DottedDigits, Octets, Cidr.Positional;
    if ToNumber(bits) == Some(0) {
      bare := OtherAddress(net);
      IpValueFits(net);
      IpValueFits(bare);
      Bits.Pow2Values();
      assert Bits.Pow2(0) == 1;
    } else {
      bare := net;
    }
    SelectorParts(net, bits, bare);
  }

  lemma OtherAddress(ip: string) returns (other: string)
    requires IsIp(ip)
    ensures IsIp(other) && IpValue(other).value != IpValue(ip).value
  {
    hide IsIp, Octets, Cidr.Positional;
    LowAddress("0");
    LowAddress("1");
    assert "0" + ".0.0.0" == "0.0.0.0" && "1" + ".0.0.0" == "1.0.0.0";
    assert "0"[..0] == "" && "1"[..0] == "";
    assert Decimal("0") == 0 && Decimal("1") == 1;
    OctetsDiffer();
    other := if IpValue(ip) == IpValue("0.0.0.0") then "1.0.0.0" else "0.0.0.0";
  }

  lemma LowAddress(d: string)
    requires |d| == 1 && IsDigit(d[0])
    ensures IsIp(d + ".0.0.0") && Octets(d + ".0.0.0") == [Decimal(d), 0, 0, 0]
  {
    hide Split;
    assert d + ".0.0.0" == d + ['.'] + "0.0.0";
    SplitAtSep(d, '.', "0.0.0");
    ZeroParts();
    assert "0"[..0] == "" && d[..0] == "";
    assert Decimal("0") == 0 && Decimal(d) <= 9;
  }

  lemma ZeroParts()
    ensures Split("0.0.0", '.') == ["0", "0", "0"]
  {
    hide Split;
    SplitNoSep("0", '.');
    SplitAtSep("0", '.', "0");
    assert "0.0" == "0" + ['.'] + "0";
    SplitAtSep("0", '.', "0.0");
    assert "0.0.0" == "0" + ['.'] + "0.0";
  }

  lemma OctetsDiffer()
    ensures Cidr.Positional([0, 0, 0, 0], 8) != Cidr.Positional([1, 0, 0, 0], 8)
  {
    assert [0, 0, 0, 0][..3] == [0, 0, 0] && [0, 0, 0][..2] == [0, 0] && [0, 0][..1] == [0] && [0][..0] == [];
    assert [1, 0, 0, 0][..3] == [1, 0, 0] && [1, 0, 0][..2] == [1, 0] && [1, 0][..1] == [1] && [1][..0] == [];
    assert Bits.Pow2(8) == 256;
  }

  /** A slashed selector means its block, for all addresses, exactly when its length is "0"
      or a number from 1 to 32. */
  lemma SelectorAgreesExactly(net: string, bits: string)
    requires IsIp(net) && '/' !in bits && PlainlyRead(bits)
    ensures AgreesWithBlock(net, bits) <==> PlainLength(bits)
  {
    hide PlainLength, PlainlyRead, CidrSelector, InBlock, IsIp, DottedDigits;
    if PlainLength(bits) {
      forall bare | IsIp(bare) && DottedDigits(bare) && '/' in net + "/" + bits
        ensures CidrSelector(net + "/" + bits, bare) <==> InBlock(net + "/" + bits, bare)
      {
        CidrSelectorIsInBlock(net, bits, bare);
      }
    } else {
      var bare := OtherLengthsDisagree(net, bits);
    }
  }

  lemma ZeroNumber()
    ensures ToNumber("0") == Some(0)
  {
  }

  lemma ZeroMask(x: nat)
    ensures Bits.JsAnd(x, 0) == 0
  {
  }

  lemma ValueOfIp(ip: string)
    requires IsIp(ip)
    ensures DottedDigits(ip) && DottedValue(ip) == IpValue(ip).value && DottedValue(ip) < Bits.TWO32
  {
    hide Split, Cidr.Positional;
    IpValueFits(ip);
    var parts := Split(ip, '.');
    assert forall i :: 0 <= i < 4 ==> OctetText(parts[i]);
    SandboxToIntIsPositional(Octets(ip));
  }

  // ----- what a selector means ------------------------------------------

  lemma DottedShape(s: string)
    ensures DottedDigits(s) <==> exists a, b, c, d :: FourRuns(s, a, b, c, d)
  {
    if DottedDigits(s) {
      var p := Split(s, '.');
      JoinSplit(s, '.');
      assert p == [p[0], p[1], p[2], p[3]];
      JoinFour(p[0], p[1], p[2], p[3]);
      assert FourRuns(s, p[0], p[1], p[2], p[3]);
    }
    forall a, b, c, d | FourRuns(s, a, b, c, d) ensures DottedDigits(s) { SplitFour(s, a, b, c, d); }
  }

  /** A domain pattern covers a host that ends in the pattern's labels. */
  ghost predicate DomainCovers(pat: string, host: string) {
    IsTail(Split(pat, '.'), Split(host, '.'))
  }

  /** An address pattern: a slashed one covers the addresses whose quotient by 2 to the free
      bits is that of its base, any other the address spelled the same. */
  ghost predicate AddressCovers(pat: string, host: string)
    requires DottedDigits(host)
  {
    if '/' !in pat then host == pat
    else
      var pieces := Split(pat, '/');
      DottedDigits(pieces[0]) && |pieces| >= 2
      && DottedValue(host) / Bits.Pow2(FreeBits(pieces[1])) == DottedValue(pieces[0]) / Bits.Pow2(FreeBits(pieces[1]))
  }

  ghost predicate PatternCovers(pat: string, host: string) {
    if DottedDigits(host) then AddressCovers(pat, host) else DomainCovers(pat, host)
  }

  /** The meaning of a selector that can be evaluated, form by form. */
  ghost predicate Means(sel: string, host: string) {
    if exists k :: sel == "keyword:" + k then
      !DottedDigits(host) && exists k :: sel == "keyword:" + k && SliceOf(k, host)
    else if exists h :: sel == "full:" + h then !DottedDigits(host) && sel == "full:" + host
    else if exists d :: sel == "domain:" + d then exists d :: sel == "domain:" + d && PatternCovers(d, host)
    else PatternCovers(sel, host)
  }

  /** The text carries the label, and this is what follows it. */
  lemma Labelled(sel: string, mark: string)
    ensures StartsWith(sel, mark) <==> exists rest :: sel == mark + rest
    ensures forall rest :: sel == mark + rest ==> sel[|mark|..] == rest
  {
    if StartsWith(sel, mark) { assert sel == mark + sel[|mark|..]; }
  }

  lemma PatternExactly(pat: string, bare: string)
    ensures PatternCovers(pat, bare) <==>
            if DottedDigits(bare) then (if '/' in pat then CidrSelector(pat, bare) else bare == pat)
            else bare == pat || EndsWith(bare, "." + pat)
  {
    hide DottedDigits, CidrSelector, DottedValue, FreeBits, Split;
    if DottedDigits(bare) {
      if '/' in pat { CidrSelectorExactly(pat, bare); }
    } else {
      TailOfParts(bare, pat, '.');
      assert "." + pat == ['.'] + pat;
    }
  }

  /** Every selector but a geosite, geoip or regexp one is evaluated, and hits exactly the
      hosts that its form means. */
  lemma SelectorMeaning(sel: string, bare: string)
    ensures MatchSel(sel, bare).None? <==>
            exists rest :: sel == "geosite:" + rest || sel == "geoip:" + rest || sel == "regexp:" + rest
    ensures MatchSel(sel, bare) == Some(true) <==> MatchSel(sel, bare).Some? && Means(sel, bare)
  {
    hide DottedDigits, CidrSelector, PatternCovers, SliceOf, Includes, EndsWith;
    Labelled(sel, "geosite:");
    Labelled(sel, "geoip:");
    Labelled(sel, "regexp:");
    Labelled(sel, "keyword:");
    Labelled(sel, "full:");
    Labelled(sel, "domain:");
    if StartsWith(sel, "keyword:") { IncludesSlice(bare, sel[8..]); }
    PatternExactly(sel, bare);
    if StartsWith(sel, "domain:") { PatternExactly(sel[7..], bare); }
  }

  /** The private ranges, read off the first two parts of the dotted text. */
  ghost predicate PrivateParts(first: string, second: string) {
    first == "10" || first == "127" || (first == "192" && second == "168") || (first == "169" && second == "254")
    || (first == "172" && |second| == 2 && AllDigits(second) && 16 <= Decimal(second) <= 31)
  }

  lemma TwoDigits(s: string, n: nat)
    requires 10 <= n < 100
    ensures s == Numeral(n) <==> |s| == 2 && AllDigits(s) && Decimal(s) == n
  {
    var t := Numeral(n);
    assert |Numeral(n / 10)| == 1 && |t| == 2;
    TwoDigitValue(t);
    if |s| == 2 && AllDigits(s) && Decimal(s) == n {
      TwoDigitValue(s);
      assert s[0] == t[0] && s[1] == t[1];
      assert s == [s[0], s[1]] && t == [t[0], t[1]];
    }
  }

  lemma TwoDigitValue(s: string)
    requires |s| == 2 && AllDigits(s)
    ensures IsDigit(s[0]) && IsDigit(s[1]) && Decimal(s) == 10 * DigitValue(s[0]) + DigitValue(s[1])
  {
    assert s[0] in s && s[1] in s;
    var front := s[..1];
    assert front == [s[0]] && front[..0] == [];
    assert Decimal(front) == DigitValue(s[0]);
  }

  lemma TwoParts(s: string, a: string, b: string)
    requires '.' !in a && '.' !in b
    ensures StartsWith(s, a + "." + b + ".") <==>
            |Split(s, '.')| >= 3 && Split(s, '.')[0] == a && Split(s, '.')[1] == b
  {
    hide Split;
    FirstPart(s, a, '.');
    if StartsWith(s, a + ".") {
      var rest := s[|a| + 1..];
      FirstPart(rest, b, '.');
      assert s == a + "." + rest;
      assert StartsWith(s, a + "." + b + ".") <==> StartsWith(rest, b + ".") by {
        if StartsWith(rest, b + ".") { assert s == a + "." + b + "." + rest[|b| + 1..]; }
        if StartsWith(s, a + "." + b + ".") { assert rest == b + "." + s[|a| + |b| + 2..]; }
      }
    }
  }

  lemma PrivateExactly(bare: string)
    requires DottedDigits(bare)
    ensures |Split(bare, '.')| == 4
    ensures PrivateAddress(bare) <==> PrivateParts(Split(bare, '.')[0], Split(bare, '.')[1])
  {
    var parts := Split(bare, '.');
    hide Split, Numeral, Decimal;
    FirstPart(bare, "10", '.');
    FirstPart(bare, "127", '.');
    TwoParts(bare, "192", "168");
    TwoParts(bare, "169", "254");
    assert "192.168." == "192" + "." + "168" + "." && "169.254." == "169" + "." + "254" + ".";
    assert "10." == "10" + ['.'] && "127." == "127" + ['.'];
    forall n | 16 <= n <= 31
      ensures StartsWith(bare, "172." + Numeral(n) + ".") <==>
              parts[0] == "172" && |parts[1]| == 2 && AllDigits(parts[1]) && Decimal(parts[1]) == n
    {
      NumeralHasNoDot(n);
      TwoParts(bare, "172", Numeral(n));
      assert "172." + Numeral(n) + "." == "172" + "." + Numeral(n) + ".";
      TwoDigits(parts[1], n);
    }
    if PrivateParts(parts[0], parts[1]) && parts[0] == "172" {
      assert StartsWith(bare, "172." + Numeral(Decimal(parts[1])) + ".");
    }
    assert PrivateAddress(bare) ==> PrivateParts(parts[0], parts[1]);
  }

  lemma NumeralHasNoDot(n: nat)
    ensures '.' !in Numeral(n)
  {
    hide Numeral;
    assert AllDigits(Numeral(n));
  }

  // ----- the scan -------------------------------------------------------

  /** Blank lines and comments are not selectors. */
  predicate Effective(sel: string) {
    sel != "" && !StartsWith(sel, "#")
  }

  datatype Entry = Entry(policy: nat, target: Target, sel: string)

  function EntryOf(raw: string, i: nat, target: Target): seq<Entry> {
    if Effective(Trim(raw)) then [Entry(i, target, Trim(raw))] else []
  }

  function PolicyEntries(p: Policy, i: nat, j: nat): seq<Entry>
    requires j <= |p.domains|
    decreases |p.domains| - j
  {
    if j == |p.domains| then [] else EntryOf(p.domains[j], i, p.target) + PolicyEntries(p, i, j + 1)
  }

  /** The selectors of the policies from `i` on, in evaluation order. */
  function EntriesFrom(policies: seq<Policy>, i: nat): seq<Entry>
    requires i <= |policies|
    decreases |policies| - i
  {
    if i == |policies| then [] else PolicyEntries(policies[i], i, 0) + EntriesFrom(policies, i + 1)
  }

  /** A reading of the selectors the checker cannot evaluate. */
  type Reading = string -> bool

  function Judge(sel: string, bare: string, reading: Reading): bool {
    MatchSel(sel, bare).GetOr(reading(sel))
  }

  function FirstHit(entries: seq<Entry>, bare: string, reading: Reading): Option<Entry> {
    if entries == [] then None
    else if Judge(entries[0].sel, bare, reading) then Some(entries[0])
    else FirstHit(entries[1..], bare, reading)
  }

  predicate PrivateAddress(bare: string) {
    StartsWith(bare, "10.") || StartsWith(bare, "192.168.") || StartsWith(bare, "127.")
    || StartsWith(bare, "169.254.")
    || exists n :: 16 <= n <= 31 && StartsWith(bare, "172." + Numeral(n) + ".")
  }

  function Conclude(hit: Option<Entry>, bare: string, lan: bool): Outcome {
    if hit.Some? then Outcome(hit.value.target, PolicyRule, Some(hit.value.policy), Some(hit.value.sel))
    else if lan && DottedDigits(bare) && PrivateAddress(bare)
    then Outcome(Direct, PrivateLan, None, Some("privateLanDirect"))
    else Outcome(Proxy, Default, None, None)
  }

  /** Pure first-match evaluation under a reading of the unknown selectors. */
  function Decide(policies: seq<Policy>, bare: string, lan: bool, reading: Reading): Outcome {
    Conclude(FirstHit(EntriesFrom(policies, 0), bare, reading), bare, lan)
  }

  const AS_MISS: Reading := (s: string) => false

  /** An unevaluable selector stands before the first match. */
  predicate SawUnknown(entries: seq<Entry>, bare: string) {
    entries != [] &&
    match MatchSel(entries[0].sel, bare)
    case None => true
    case Some(hit) => !hit && SawUnknown(entries[1..], bare)
  }

  /** The text is a selector: neither blank nor a comment. */
  ghost predicate IsSelector(sel: string) {
    sel != "" && sel[0] != '#'
  }

  /** The selector needs assets that the checker lacks. */
  ghost predicate NeedsAssets(sel: string) {
    exists rest :: sel == "geosite:" + rest || sel == "geoip:" + rest || sel == "regexp:" + rest
  }

  /** Selector `j` of policy `i` can be evaluated and means the host. */
  ghost predicate HitAt(policies: seq<Policy>, i: int, j: int, bare: string) {
    0 <= i < |policies| && 0 <= j < |policies[i].domains| &&
    var sel := Trim(policies[i].domains[j]);
    IsSelector(sel) && !NeedsAssets(sel) && Means(sel, bare)
  }

  lemma HitExactly(sel: string, bare: string)
    ensures Effective(sel) && MatchSel(sel, bare) == Some(true) <==>
            IsSelector(sel) && !NeedsAssets(sel) && Means(sel, bare)
  {
    hide MatchSel, Means;
    SelectorMeaning(sel, bare);
  }

  /** The match at (i, j) has no match before it. */
  ghost predicate FirstMatch(policies: seq<Policy>, i: int, j: int, bare: string) {
    HitAt(policies, i, j, bare) &&
    forall a, b :: HitAt(policies, a, b, bare) ==> a > i || (a == i && b >= j)
  }

  /** What looking at selector `j` of a policy tells about the scan from there on. */
  lemma ScanStep(policy: Policy, i: nat, j: nat, later: seq<Entry>, bare: string)
    requires j < |policy.domains|
    ensures var here, rest := PolicyEntries(policy, i, j) + later, PolicyEntries(policy, i, j + 1) + later;
            var sel := Trim(policy.domains[j]);
            if Effective(sel) && MatchSel(sel, bare) == Some(true)
            then FirstHit(here, bare, AS_MISS) == Some(Entry(i, policy.target, sel)) && !SawUnknown(here, bare)
            else FirstHit(here, bare, AS_MISS) == FirstHit(rest, bare, AS_MISS)
                 && SawUnknown(here, bare) == ((Effective(sel) && MatchSel(sel, bare).None?) || SawUnknown(rest, bare))
  {
    hide MatchSel, Trim, Effective;
    var here, rest := PolicyEntries(policy, i, j) + later, PolicyEntries(policy, i, j + 1) + later;
    var entry := EntryOf(policy.domains[j], i, policy.target);
    assert here == entry + rest;
    if entry == [] {
      assert here == rest;
    } else {
      assert here[0] == entry[0] && here[1..] == rest;
    }
  }

  lemma NoEntriesLeft(policy: Policy, i: nat, later: seq<Entry>)
    ensures PolicyEntries(policy, i, |policy.domains|) + later == later
  {
  }

  lemma NothingLeft(bare: string)
    ensures FirstHit([], bare, AS_MISS).None? && !SawUnknown([], bare)
  {
  }

  method TestRoute(policies: seq<Policy>, bare: string, lan: bool) returns (v: Verdict)
    ensures v == Verdict(Decide(policies, bare, lan, AS_MISS), !SawUnknown(EntriesFrom(policies, 0), bare))
    ensures v.outcome.source == PolicyRule ==>
              exists j :: FirstMatch(policies, v.outcome.policyIndex.value, j, bare)
                          && v.outcome.outbound == policies[v.outcome.policyIndex.value].target
                          && v.outcome.selector == Some(Trim(policies[v.outcome.policyIndex.value].domains[j]))
    ensures v.outcome.source != PolicyRule ==> forall i, j :: !HitAt(policies, i, j, bare)
    ensures v.outcome.source != PolicyRule ==>
              v.outcome == if lan && DottedDigits(bare) && PrivateParts(Split(bare, '.')[0], Split(bare, '.')[1])
                           then Outcome(Direct, PrivateLan, None, Some("privateLanDirect"))
                           else Outcome(Proxy, Default, None, None)
  {
    hide MatchSel, Means, IsSelector, NeedsAssets, PrivateParts, Trim, Effective, DottedDigits, PrivateAddress,
         FirstHit, SawUnknown, PolicyEntries;
    ghost var all := EntriesFrom(policies, 0);
    var outcome := Outcome(Proxy, Default, None, None);
    var sawUnknown := false;
    var i := 0;
    while i < |policies|
      invariant 0 <= i <= |policies|
      invariant FirstHit(all, bare, AS_MISS) == FirstHit(EntriesFrom(policies, i), bare, AS_MISS)
      invariant SawUnknown(all, bare) == (sawUnknown || SawUnknown(EntriesFrom(policies, i), bare))
      invariant forall a, b :: HitAt(policies, a, b, bare) ==> a >= i
    {
      var policy := policies[i];
      ghost var later := EntriesFrom(policies, i + 1);
      var j := 0;
      while j < |policy.domains|
        invariant 0 <= j <= |policy.domains|
        invariant FirstHit(all, bare, AS_MISS) == FirstHit(PolicyEntries(policy, i, j) + later, bare, AS_MISS)
        invariant SawUnknown(all, bare) == (sawUnknown || SawUnknown(PolicyEntries(policy, i, j) + later, bare))
        invariant forall a, b :: HitAt(policies, a, b, bare) ==> a > i || (a == i && b >= j)
      {
        var sel := Trim(policy.domains[j]);
        ScanStep(policy, i, j, later, bare);
        HitExactly(sel, bare);
        j := j + 1;
        if !Effective(sel) { continue; }
        var hit := MatchSel(sel, bare);
        if hit == Some(true) {
          outcome := Outcome(policy.target, PolicyRule, Some(i), Some(sel));
          assert FirstMatch(policies, i, j - 1, bare);
          return Verdict(outcome, !sawUnknown);
        }
        if hit.None? { sawUnknown := true; }
      }
      NoEntriesLeft(policy, i, later);
      i := i + 1;
    }
    NothingLeft(bare);
    if DottedDigits(bare) { PrivateExactly(bare); }
    if lan && DottedDigits(bare) && PrivateAddress(bare) {
      outcome := Outcome(Direct, PrivateLan, None, Some("privateLanDirect"));
    }
    v := Verdict(outcome, !sawUnknown);
  }

  // ----- what "certain" means -------------------------------------------

  lemma {:induction false} KnownScan(entries: seq<Entry>, bare: string, reading: Reading)
    requires !SawUnknown(entries, bare)
    ensures FirstHit(entries, bare, reading) == FirstHit(entries, bare, AS_MISS)
    decreases |entries|
  {
    hide MatchSel;
    if entries != [] && MatchSel(entries[0].sel, bare) != Some(true) {
      KnownScan(entries[1..], bare, reading);
    }
  }

  lemma {:induction false} UnknownScan(entries: seq<Entry>, bare: string)
    requires SawUnknown(entries, bare)
    ensures var guess := FirstHit(entries, bare, s => true);
            guess.Some? && MatchSel(guess.value.sel, bare).None?
    ensures var miss := FirstHit(entries, bare, AS_MISS);
            miss.Some? ==> MatchSel(miss.value.sel, bare) == Some(true)
    decreases |entries|
  {
    hide MatchSel;
    MissIsKnown(entries, bare);
    if MatchSel(entries[0].sel, bare).Some? {
      UnknownScan(entries[1..], bare);
    }
  }

  lemma {:induction false} MissIsKnown(entries: seq<Entry>, bare: string)
    ensures var miss := FirstHit(entries, bare, AS_MISS);
            miss.Some? ==> MatchSel(miss.value.sel, bare) == Some(true)
    decreases |entries|
  {
    hide MatchSel;
    if entries != [] { MissIsKnown(entries[1..], bare); }
  }

  /** The checker says `certain` exactly when every reading of the geosite, geoip and
      regexp selectors leads to the same outbound, source, policy and selector. */
  lemma CertainExactly(policies: seq<Policy>, bare: string, lan: bool)
    ensures !SawUnknown(EntriesFrom(policies, 0), bare) <==>
            forall reading: Reading :: Decide(policies, bare, lan, reading) == Decide(policies, bare, lan, AS_MISS)
  {
    hide MatchSel, EntriesFrom, DottedDigits, PrivateAddress;
    var entries := EntriesFrom(policies, 0);
    if SawUnknown(entries, bare) {
      UnknownScan(entries, bare);
      var guess: Reading := s => true;
      assert Decide(policies, bare, lan, guess) != Decide(policies, bare, lan, AS_MISS);
    } else {
      forall reading: Reading
        ensures Decide(policies, bare, lan, reading) == Decide(policies, bare, lan, AS_MISS)
      {
        KnownScan(entries, bare, reading);
      }
    }
  }
}
