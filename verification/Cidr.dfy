/** Route-map destinations (src/components/RouteMap.tsx): reading one, strict prefix
    containment on arbitrary-precision integers, and the tree over a list of them. */
module Cidr {
  import opened Prelude
  import opened Bits
  import opened ContainmentTree

  datatype Family = V4 | V6 {
    function Width(): nat { if V4? then 32 else 128 }
  }

  datatype Prefix = Prefix(family: Family, bits: nat, len: nat) {
    predicate Fits() {
      bits < Pow2(family.Width())
    }

    /** How many low bits the prefix leaves free. A length beyond the width leaves none. */
    function Free(): nat {
      if len <= family.Width() then family.Width() - len else 0
    }
  }

  /** A destination after splitting: dotted parts, or the colon groups on each side
      of "::". `None` is a piece that does not read as a number. */
  datatype AddrText = Dotted(parts: seq<Option<int>>) | Colons(halves: seq<seq<Option<int>>>) | Missing
  datatype CidrText = CidrText(addr: AddrText, len: Option<nat>)

  predicate InRange(pieces: seq<Option<int>>, max: nat) {
    forall p :: p in pieces ==> p.Some? && 0 <= p.value <= max
  }

  function Values(pieces: seq<Option<int>>, max: nat): (r: seq<nat>)
    requires InRange(pieces, max)
    ensures |r| == |pieces| && forall i :: 0 <= i < |r| ==> r[i] <= max
  {
    seq(|pieces|, i requires 0 <= i < |pieces| => assert pieces[i] in pieces; pieces[i].value as nat)
  }

  /** The number whose base-2^k digits are `digits`, most significant first. */
  function Positional(digits: seq<nat>, k: nat): nat {
    if digits == [] then 0
    else Positional(digits[..|digits| - 1], k) * Pow2(k) + digits[|digits| - 1]
  }

  /** The bits that `n` digits of `k` bits take. */
  function Room(k: nat, n: nat): nat {
    if n == 0 then 0 else Room(k, n - 1) + k
  }

  lemma {:induction false} PositionalFits(digits: seq<nat>, k: nat)
    requires forall i :: 0 <= i < |digits| ==> digits[i] < Pow2(k)
    ensures Positional(digits, k) < Pow2(Room(k, |digits|))
    decreases |digits|
  {
    if digits != [] {
      var n := |digits| - 1;
      PositionalFits(digits[..n], k);
      Pow2Add(Room(k, n), k);
      AppendFits(Positional(digits[..n], k), Pow2(Room(k, n)), Pow2(k), digits[n]);
    }
  }

  lemma AppendFits(a: nat, p: nat, b: nat, d: nat)
    requires a < p && d < b
    ensures a * b + d < p * b
  {
    MulLe(a + 1, p, b);
    assert (a + 1) * b == a * b + b;
  }

  lemma MulLe(a: nat, b: nat, c: nat)
    requires a <= b
    ensures a * c <= b * c
  {
  }

  // ----- reading a destination ------------------------------------------

  /** The eight groups an IPv6 text stands for, or `None` when "::" occurs twice
      or the group count is wrong. */
  function Groups(halves: seq<seq<Option<int>>>): (r: Option<seq<Option<int>>>)
    ensures r.Some? ==> |r.value| == 8
  {
    if |halves| == 0 || |halves| > 2 then None
    else
      var left := halves[0];
      var right := if |halves| == 2 then halves[1] else [];
      var fill := 8 - |left| - |right|;
      if (if |halves| == 2 then fill < 0 else |left| != 8) then None
      else Some(left + seq(fill, _ => Some(0)) + right)
  }

  /** The address a text denotes. */
  function Address(addr: AddrText): Option<(Family, nat)> {
    match addr
    case Missing => None
    case Dotted(parts) =>
      if |parts| == 4 && InRange(parts, 255) then Some((V4, Positional(Values(parts, 255), 8))) else None
    case Colons(halves) =>
      var groups := Groups(halves);
      if groups.Some? && InRange(groups.value, 0xffff)
      then Some((V6, Positional(Values(groups.value, 0xffff), 16)))
      else None
  }

  /** What the text denotes as a prefix. */
  function Denotes(t: CidrText): Option<Prefix> {
    var a := Address(t.addr);
    if a.Some? && t.len.Some? then Some(Prefix(a.value.0, a.value.1, t.len.value)) else None
  }

  predicate ZeroV6(t: CidrText) {
    var d := Denotes(t);
    d.Some? && d.value.family.V6? && d.value.bits == 0
  }

  /** What `parseCidr` returns: the denoted prefix, except that its truthiness test
      on the expanded IPv6 value also rejects the address zero. */
  function Parsed(t: CidrText): Option<Prefix> {
    if ZeroV6(t) then None else Denotes(t)
  }

  lemma DenotesFits(t: CidrText)
    ensures Denotes(t).Some? ==> Denotes(t).value.Fits()
  {
    Pow2Values();
    assert Room(8, 4) == 32 && Room(16, 8) == 128;
    match t.addr
    case Missing =>
    case Dotted(parts) =>
      if |parts| == 4 && InRange(parts, 255) { PositionalFits(Values(parts, 255), 8); }
    case Colons(halves) =>
      var groups := Groups(halves);
      if groups.Some? && InRange(groups.value, 0xffff) { PositionalFits(Values(groups.value, 0xffff), 16); }
  }

  /** Writing "::" for any run of zero groups does not change the address. */
  lemma CompressionKeepsAddress(groups: seq<Option<int>>, i: nat, j: nat)
    requires |groups| == 8 && i <= j <= 8
    requires forall k :: i <= k < j ==> groups[k] == Some(0)
    ensures Address(Colons([groups[..i], groups[j..]])) == Address(Colons([groups]))
  {
    hide InRange, Values, Positional;
    assert groups[..i] + seq(j - i, _ => Some(0)) + groups[j..] == groups;
    assert groups + seq(0, _ => Some(0)) + [] == groups;
  }

  /** The shift-or step appends a digit: used by both readers. */
  lemma AppendDigit(acc: nat, k: nat, digit: nat, prefix: seq<nat>)
    requires digit < Pow2(k) && acc == Positional(prefix, k)
    ensures Or(acc * Pow2(k), digit) == Positional(prefix + [digit], k)
  {
    OrShifted(acc, k, digit);
    assert (prefix + [digit])[..|prefix|] == prefix;
  }

  /** The value of a full list of groups, or `None` at the first group out of range. */
  lemma NothingPacked(groups: seq<Option<int>>)
    requires groups == []
    ensures InRange(groups, 0xffff) && Positional(Values(groups, 0xffff), 16) == 0
  {
  }

  lemma OutOfRange(groups: seq<Option<int>>, k: nat)
    requires k < |groups| && (groups[k].None? || groups[k].value < 0 || groups[k].value > 0xffff)
    ensures !InRange(groups, 0xffff)
  {
    assert groups[k] in groups;
  }

  /** Shifting and or-ing appends one group. */
  lemma PackNext(groups: seq<Option<int>>, k: nat, bits: nat)
    requires k < |groups| && groups[k].Some? && 0 <= groups[k].value <= 0xffff
    requires InRange(groups[..k], 0xffff) && bits == Positional(Values(groups[..k], 0xffff), 16)
    ensures InRange(groups[..k + 1], 0xffff)
    ensures Or(bits * Pow2(16), groups[k].value) == Positional(Values(groups[..k + 1], 0xffff), 16)
  {
    var v := groups[k].value;
    Pow2Values();
    AppendDigit(bits, 16, v, Values(groups[..k], 0xffff));
    assert groups[..k + 1] == groups[..k] + [groups[k]];
    hide Or, Positional, Pow2;
    assert Values(groups[..k + 1], 0xffff) == Values(groups[..k], 0xffff) + [v];
  }

  method PackGroups(groups: seq<Option<int>>) returns (r: Option<nat>)
    ensures r == if InRange(groups, 0xffff) then Some(Positional(Values(groups, 0xffff), 16)) else None
  {
    hide Or, Positional, Pow2, InRange, Values;
    var bits, k := 0, 0;
    NothingPacked(groups[..0]);
    while k < |groups|
      invariant 0 <= k <= |groups|
      invariant InRange(groups[..k], 0xffff)
      invariant bits == Positional(Values(groups[..k], 0xffff), 16)
    {
      var v := groups[k];
      if v.None? || v.value < 0 || v.value > 0xffff {
        OutOfRange(groups, k);
        return None;
      }
      PackNext(groups, k, bits);
      bits := Or(bits * Pow2(16), v.value);
      k := k + 1;
    }
    assert groups[..|groups|] == groups;
    r := Some(bits);
  }

  method ExpandV6(halves: seq<seq<Option<int>>>) returns (r: Option<nat>)
    ensures r == (var a := Address(Colons(halves)); if a.Some? then Some(a.value.1) else None)
  {
    if |halves| == 0 || |halves| > 2 { return None; }
    var left := halves[0];
    var right := if |halves| == 2 then halves[1] else [];
    var fill := 8 - |left| - |right|;
    if (if |halves| == 2 then fill < 0 else |left| != 8) { return None; }
    r := PackGroups(left + seq(fill, _ => Some(0)) + right);
  }

  method ParseCidr(t: CidrText) returns (r: Option<Prefix>)
    ensures r == Parsed(t)
  {
    if t.addr.Missing? || t.len.None? { return None; }
    if t.addr.Colons? {
      var expanded := ExpandV6(t.addr.halves);
      if expanded.None? || expanded.value == 0 { return None; }
      return Some(Prefix(V6, expanded.value, t.len.value));
    }
    var parts := t.addr.parts;
    if |parts| != 4 || !InRange(parts, 255) { return None; }
    var octets := Values(parts, 255);
    var bits, k := 0, 0;
    while k < 4
      invariant 0 <= k <= 4 && bits == Positional(octets[..k], 8)
    {
      Pow2Values();
      AppendDigit(bits, 8, octets[k], octets[..k]);
      assert octets[..k + 1] == octets[..k] + [octets[k]];
      bits := Or(bits * Pow2(8), octets[k]);
      k := k + 1;
    }
    assert octets[..4] == octets;
    r := Some(Prefix(V4, bits, t.len.value));
  }

  // ----- addresses as numbers -------------------------------------------

  /** Four parts denote an address exactly when each is a number from 0 to 255, and the value
      is theirs in base 256. */
  lemma DottedExactly(a: Option<int>, b: Option<int>, c: Option<int>, d: Option<int>)
    ensures Address(Dotted([a, b, c, d])).Some? <==>
            a.Some? && b.Some? && c.Some? && d.Some? && 0 <= a.value < 256 && 0 <= b.value < 256
            && 0 <= c.value < 256 && 0 <= d.value < 256
    ensures Address(Dotted([a, b, c, d])).Some? ==>
              Address(Dotted([a, b, c, d])).value == (V4, ((a.value * 256 + b.value) * 256 + c.value) * 256 + d.value)
  {
    var parts := [a, b, c, d];
    assert parts[0] == a && parts[1] == b && parts[2] == c && parts[3] == d;
    if InRange(parts, 255) {
      var v := Values(parts, 255);
      assert v == [a.value, b.value, c.value, d.value];
      assert Pow2(8) == 256;
      hide Pow2;
      FourDigits(v, 8);
    }
  }

  lemma FourDigits(v: seq<nat>, k: nat)
    requires |v| == 4
    ensures Positional(v, k) == ((v[0] * Pow2(k) + v[1]) * Pow2(k) + v[2]) * Pow2(k) + v[3]
  {
    hide Pow2;
    LastDigit(v, k);
    LastDigit(v[..3], k);
    LastDigit(v[..2], k);
    LastDigit(v[..1], k);
    assert v[..3][..2] == v[..2] && v[..2][..1] == v[..1] && v[..1][..0] == [];
    NoDigits(k);
  }

  lemma LastDigit(v: seq<nat>, k: nat)
    requires v != []
    ensures Positional(v, k) == Positional(v[..|v| - 1], k) * Pow2(k) + v[|v| - 1]
  {
  }

  lemma NoDigits(k: nat)
    ensures Positional([], k) == 0
  {
    assert 0 * Pow2(k) == 0;
  }

  /** Eight groups denote an address exactly when each is a number below 65536; each half of
      the value is its four groups in base 65536. */
  lemma GroupsExactly(groups: seq<Option<int>>)
    requires |groups| == 8
    ensures Address(Colons([groups])).Some? <==>
            forall i :: 0 <= i < 8 ==> groups[i].Some? && 0 <= groups[i].value < 65536
    ensures Address(Colons([groups])).Some? ==>
              exists high: nat, low: nat ::
                Address(Colons([groups])).value == (V6, high * Pow2(64) + low) && low < Pow2(64)
                && IsQuad(high, groups[..4]) && IsQuad(low, groups[4..])
  {
    hide InRange, Values, Positional, Pow2, IsQuad;
    assert Groups([groups]) == Some(groups) by { assert groups + [] == groups; }
    RangeExactly(groups);
    if InRange(groups, 0xffff) {
      HalfValues(groups);
      var v := Values(groups, 0xffff);
      SplitDigits(v[..4], v[4..], 16);
      assert v == v[..4] + v[4..];
      assert Room(16, 4) == 64;
      var high, low := Positional(v[..4], 16), Positional(v[4..], 16);
      assert IsQuad(high, groups[..4]) && IsQuad(low, groups[4..]) && low < Pow2(64);
      assert Address(Colons([groups])).value == (V6, high * Pow2(64) + low);
    }
  }

  lemma RangeExactly(groups: seq<Option<int>>)
    requires |groups| == 8
    ensures InRange(groups, 0xffff) <==> forall i :: 0 <= i < 8 ==> groups[i].Some? && 0 <= groups[i].value < 65536
  {
    assert forall i :: 0 <= i < 8 ==> groups[i] in groups;
  }

  lemma HalfValues(groups: seq<Option<int>>)
    requires |groups| == 8 && InRange(groups, 0xffff)
    ensures var v := Values(groups, 0xffff);
            IsQuad(Positional(v[..4], 16), groups[..4]) && IsQuad(Positional(v[4..], 16), groups[4..])
            && Positional(v[4..], 16) < Pow2(64)
  {
    hide Positional, Pow2, IsQuad;
    var v := Values(groups, 0xffff);
    RangeExactly(groups);
    Pow2Values();
    PositionalFits(v[4..], 16);
    assert Room(16, 4) == 64;
    QuadValue(v[..4], groups[..4]);
    QuadValue(v[4..], groups[4..]);
  }

  lemma QuadValue(v: seq<nat>, groups: seq<Option<int>>)
    requires |v| == 4 && |groups| == 4 && forall i :: 0 <= i < 4 ==> groups[i] == Some(v[i])
    ensures IsQuad(Positional(v, 16), groups)
  {
    hide Positional, Pow2;
    Pow2Values();
    FourDigits(v, 16);
  }

  lemma {:induction false} SplitDigits(a: seq<nat>, b: seq<nat>, k: nat)
    ensures Positional(a + b, k) == Positional(a, k) * Pow2(Room(k, |b|)) + Positional(b, k)
    decreases |b|
  {
    hide Pow2;
    if b == [] {
      assert a + b == a && Positional(b, k) == 0 && Pow2(0) == 1 by { NoDigits(k); OneIsPow(); }
    } else {
      var n := |b| - 1;
      SplitDigits(a, b[..n], k);
      assert (a + b)[..|a + b| - 1] == a + b[..n];
      Pow2Add(Room(k, n), k);
      Shifted(Positional(a, k), Pow2(Room(k, n)), Positional(b[..n], k), Pow2(k), b[n]);
    }
  }

  lemma OneIsPow()
    ensures Pow2(0) == 1
  {
  }

  lemma Shifted(x: nat, p: nat, y: nat, q: nat, d: nat)
    ensures (x * p + y) * q + d == x * (p * q) + (y * q + d)
  {
  }

  ghost predicate IsQuad(x: nat, groups: seq<Option<int>>) {
    |groups| == 4 && groups[0].Some? && groups[1].Some? && groups[2].Some? && groups[3].Some?
    && x == ((groups[0].value * 65536 + groups[1].value) * 65536 + groups[2].value) * 65536 + groups[3].value
  }

  // ----- containment ----------------------------------------------------

  /** BigInt `x << k`, where a negative count shifts right. */
  function BigShl(x: nat, k: int): nat {
    if k >= 0 then x * Pow2(k) else High(x, -k)
  }

  predicate MaskContains(p: Prefix, c: Prefix) {
    p.family == c.family && p.len < c.len &&
    var mask := BigShl(Pow2(p.len) - 1, p.family.Width() - p.len);
    And(p.bits, mask) == And(c.bits, mask)
  }

  predicate CidrContains(parent: CidrText, child: CidrText) {
    var p, c := Parsed(parent), Parsed(child);
    p.Some? && c.Some? && MaskContains(p.value, c.value)
  }

  /** Strict containment of address blocks: longer length, and the child's address
      lies in the block `parent` fixes, by division. */
  ghost predicate StrictlyInside(p: Prefix, c: Prefix) {
    p.family == c.family && p.len < c.len && p.bits / Pow2(p.Free()) == c.bits / Pow2(p.Free())
  }

  lemma {:induction false} HighOnes(len: nat, k: nat)
    requires k <= len
    ensures High(Pow2(len) - 1, k) == Pow2(len - k) - 1
    decreases k
  {
    if k > 0 {
      assert (Pow2(len) - 1) / 2 == Pow2(len - 1) - 1;
      HighOnes(len - 1, k - 1);
    }
  }

  /** The mask for a length within the width. */
  lemma ShortMask(p: Prefix, c: Prefix)
    requires p.Fits() && c.Fits() && p.family == c.family && p.len < c.len && p.len <= p.family.Width()
    ensures MaskContains(p, c) <==> StrictlyInside(p, c)
  {
    hide And, High, Pow2;
    HighIsQuotient(p.bits, p.Free());
    HighIsQuotient(c.bits, p.Free());
    MaskedEqual(p.bits, c.bits, p.len, p.family.Width() - p.len);
  }

  /** Past the width the count is negative and the mask is all ones. */
  lemma LongMask(p: Prefix, c: Prefix)
    requires p.Fits() && c.Fits() && p.family == c.family && p.len < c.len && p.len > p.family.Width()
    ensures MaskContains(p, c) <==> StrictlyInside(p, c)
  {
    hide And, High;
    var width := p.family.Width();
    HighIsQuotient(p.bits, p.Free());
    HighIsQuotient(c.bits, p.Free());
    HighOnes(p.len, p.len - width);
    AndOnes(p.bits, width);
    AndOnes(c.bits, width);
  }

  lemma MaskIsDivision(p: Prefix, c: Prefix)
    requires p.Fits() && c.Fits()
    ensures MaskContains(p, c) <==> StrictlyInside(p, c)
  {
    if p.family == c.family && p.len < c.len {
      hide MaskContains, StrictlyInside;
      if p.len <= p.family.Width() { ShortMask(p, c); } else { LongMask(p, c); }
    }
  }

  /** The mask test agrees with block containment of what the two texts denote,
      except that an IPv6 text with address zero neither contains nor is contained. */
  lemma ContainsExactly(a: CidrText, b: CidrText)
    ensures CidrContains(a, b) <==>
            Denotes(a).Some? && Denotes(b).Some? && StrictlyInside(Denotes(a).value, Denotes(b).value)
            && !ZeroV6(a) && !ZeroV6(b)
  {
    DenotesFits(a);
    DenotesFits(b);
    if Denotes(a).Some? && Denotes(b).Some? {
      MaskIsDivision(Denotes(a).value, Denotes(b).value);
    }
  }

  /** "::/0" after splitting. */
  const ANY_V6 := CidrText(Colons([[], []]), Some(0))

  lemma AnyV6Denotes()
    ensures Denotes(ANY_V6) == Some(Prefix(V6, 0, 0))
  {
    var zeros := Groups(ANY_V6.addr.halves).value;
    assert forall z :: z in zeros ==> z == Some(0);
    var vs := Values(zeros, 0xffff);
    forall d | d in vs ensures d == 0 {
      var i :| 0 <= i < |vs| && vs[i] == d;
      assert zeros[i] in zeros;
    }
    ZeroPositional(vs, 16);
  }

  /** What the zero test costs: "::/0" denotes a block holding every longer IPv6
      prefix, and the tree never nests one under it. */
  lemma DefaultV6ContainsNothing(t: CidrText)
    requires Denotes(t).Some? && Denotes(t).value.family.V6? && Denotes(t).value.len > 0
    ensures Denotes(ANY_V6).Some? && StrictlyInside(Denotes(ANY_V6).value, Denotes(t).value)
    ensures !CidrContains(ANY_V6, t) && !CidrContains(t, ANY_V6)
  {
    AnyV6Denotes();
    DenotesFits(t);
    var b := Denotes(t).value.bits;
    HighIsQuotient(b, 128);
    HighIsQuotient(0, 128);
    FitsHighZero(b, 128);
    FitsHighZero(0, 128);
  }

  lemma {:induction false} ZeroPositional(digits: seq<nat>, k: nat)
    requires forall d :: d in digits ==> d == 0
    ensures Positional(digits, k) == 0
    decreases |digits|
  {
    if digits != [] {
      var front := digits[..|digits| - 1];
      forall d | d in front ensures d == 0 { assert d in digits; }
      ZeroPositional(front, k);
      assert digits[|digits| - 1] in digits;
      assert 0 * Pow2(k) == 0;
    }
  }

  lemma {:induction false} FitsHighZero(x: nat, k: nat)
    requires x < Pow2(k)
    ensures High(x, k) == 0
    decreases k
  {
    if k > 0 { FitsHighZero(x / 2, k - 1); }
  }

  // ----- the laminar order ----------------------------------------------

  /** Both texts are read as the same block. */
  ghost predicate SameBlock(a: CidrText, b: CidrText) {
    var p, q := Parsed(a), Parsed(b);
    p.Some? && q.Some? && p.value.family == q.value.family && p.value.len == q.value.len
    && p.value.bits / Pow2(p.value.Free()) == q.value.bits / Pow2(q.value.Free())
  }

  lemma Coarsen(x: nat, y: nat, s: nat, t: nat)
    requires s <= t && x / Pow2(s) == y / Pow2(s)
    ensures x / Pow2(t) == y / Pow2(t)
  {
    HighIsQuotient(x, s);
    HighIsQuotient(y, s);
    HighIsQuotient(x, t);
    HighIsQuotient(y, t);
    HighCoarsen(x, y, s, t);
  }

  lemma ContainsTransitive(a: CidrText, b: CidrText, c: CidrText)
    ensures CidrContains(a, b) && CidrContains(b, c) ==> CidrContains(a, c)
  {
    ContainsExactly(a, b);
    ContainsExactly(b, c);
    ContainsExactly(a, c);
    if CidrContains(a, b) && CidrContains(b, c) {
      var p, q, r := Denotes(a).value, Denotes(b).value, Denotes(c).value;
      Coarsen(q.bits, r.bits, q.Free(), p.Free());
    }
  }

  /** Containers of one block are nested in each other or are the same block. */
  lemma ContainersNest(a: CidrText, b: CidrText, c: CidrText)
    ensures CidrContains(a, c) && CidrContains(b, c) ==>
            CidrContains(a, b) || CidrContains(b, a) || SameBlock(a, b)
  {
    ContainsExactly(a, c);
    ContainsExactly(b, c);
    ContainsExactly(a, b);
    ContainsExactly(b, a);
    if CidrContains(a, c) && CidrContains(b, c) {
      var p, q, r := Denotes(a).value, Denotes(b).value, Denotes(c).value;
      if p.len < q.len {
        Coarsen(q.bits, r.bits, q.Free(), p.Free());
      } else if q.len < p.len {
        Coarsen(p.bits, r.bits, p.Free(), q.Free());
      }
    }
  }

  lemma SameBlockContains(a: CidrText, b: CidrText, c: CidrText)
    ensures SameBlock(a, b) && CidrContains(b, c) ==> CidrContains(a, c)
  {
    ContainsExactly(b, c);
    ContainsExactly(a, c);
  }

  // ----- the tree over destinations -------------------------------------

  lemma ContainsAsymmetric(a: CidrText, b: CidrText)
    ensures CidrContains(a, b) || SameBlock(a, b) ==> !CidrContains(b, a)
  {
  }

  lemma PrefixesAreLaminar()
    ensures Laminar(CidrContains, SameBlock)
  {
    hide CidrContains, SameBlock;
    forall a, b ensures CidrContains(a, b) || SameBlock(a, b) ==> !CidrContains(b, a) { ContainsAsymmetric(a, b); }
    forall a, b, c ensures CidrContains(a, b) && CidrContains(b, c) ==> CidrContains(a, c) {
      ContainsTransitive(a, b, c);
    }
    forall a, b, c ensures CidrContains(a, c) && CidrContains(b, c) ==>
                             CidrContains(a, b) || CidrContains(b, a) || SameBlock(a, b)
    {
      ContainersNest(a, b, c);
    }
    forall a, b, c ensures SameBlock(a, b) && CidrContains(b, c) ==> CidrContains(a, c) {
      SameBlockContains(a, b, c);
    }
    forall a, b ensures SameBlock(a, b) ==> SameBlock(b, a) { SameBlockSymmetric(a, b); }
  }

  lemma SameBlockSymmetric(a: CidrText, b: CidrText)
    ensures SameBlock(a, b) ==> SameBlock(b, a)
  {
  }

  /** For every list of destinations: each entry's ancestors are exactly the entries
      that strictly contain it if and only if the list is well listed. Whatever the
      list, an entry's ancestors contain it and are listed tightest first. */
  lemma RouteTreeExact(dests: seq<CidrText>)
    ensures ExactAncestry(dests, CidrContains) <==> WellListed(dests, CidrContains, SameBlock)
    ensures forall i :: 0 <= i < |dests| ==>
              TightestFirst(Chain(i, dests, CidrContains), i, dests, CidrContains)
  {
    PrefixesAreLaminar();
    AncestryExact(dests, CidrContains, SameBlock);
    forall i | 0 <= i < |dests| ensures TightestFirst(Chain(i, dests, CidrContains), i, dests, CidrContains) {
      ChainOrder(i, dests, CidrContains, SameBlock);
    }
  }

  /** In any list, the branch marker of entry `i` shows exactly when some later entry denotes a
      strictly smaller part of its block. */
  lemma BranchMarkerMeans(i: nat, dests: seq<CidrText>)
    requires i < |dests|
    ensures HasChildren(i, dests, CidrContains) <==>
            exists k :: i < k < |dests| && ReadablyInside(dests[i], dests[k])
  {
    hide CidrContains, ReadablyInside;
    forall k | 0 <= k < |dests| ensures CidrContains(dests[i], dests[k]) <==> ReadablyInside(dests[i], dests[k]) {
      InsideExactly(dests[i], dests[k]);
    }
  }

  ghost predicate ReadablyInside(a: CidrText, b: CidrText) {
    Denotes(a).Some? && Denotes(b).Some? && StrictlyInside(Denotes(a).value, Denotes(b).value)
    && !ZeroV6(a) && !ZeroV6(b)
  }

  lemma InsideExactly(a: CidrText, b: CidrText)
    ensures CidrContains(a, b) <==> ReadablyInside(a, b)
  {
    ContainsExactly(a, b);
  }

  /** In a well-listed list, the branch marker of entry `i` shows exactly when `i`
      is an ancestor of some entry. */
  lemma BranchMarkerExact(i: nat, dests: seq<CidrText>)
    requires i < |dests| && WellListed(dests, CidrContains, SameBlock)
    ensures HasChildren(i, dests, CidrContains) <==>
            exists k :: 0 <= k < |dests| && i in Chain(k, dests, CidrContains)
  {
    PrefixesAreLaminar();
    ChildrenAreDescendants(i, dests, CidrContains, SameBlock);
  }

  /** Order matters: listed before its container, an entry has no ancestor. */
  lemma UnsortedListLosesParent(inner: CidrText, outer: CidrText)
    requires CidrContains(outer, inner)
    ensures Chain(0, [inner, outer], CidrContains) == []
    ensures !ExactAncestry([inner, outer], CidrContains)
  {
    var dests := [inner, outer];
    assert Chain(0, dests, CidrContains) == [];
    assert 1 in Containers(0, dests, CidrContains);
    assert 1 !in Elements(Chain(0, dests, CidrContains));
  }
}
