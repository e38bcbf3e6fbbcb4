/** IPv4 text and 32-bit prefix tests, as src/intentDoctor.ts and src/sandbox/backend.ts
    compute them with JavaScript's signed 32-bit operators. */
module Ipv4 {
  import opened Prelude
  import opened Text
  import opened Bits
  import Cidr

  // ----- dotted text ----------------------------------------------------

  predicate OctetText(part: string) {
    1 <= |part| <= 3 && AllDigits(part) && Decimal(part) <= 255
  }

  predicate IsIp(ip: string) {
    var parts := Split(ip, '.');
    |parts| == 4 && forall i :: 0 <= i < 4 ==> OctetText(parts[i])
  }

  function Octets(ip: string): (r: seq<nat>)
    requires IsIp(ip)
    ensures |r| == 4 && forall i :: 0 <= i < 4 ==> r[i] <= 255
  {
    var parts := Split(ip, '.');
    [Decimal(parts[0]), Decimal(parts[1]), Decimal(parts[2]), Decimal(parts[3])]
  }

  /** The address as a number: the four octets read in base 256. */
  function IpValue(ip: string): Option<nat> {
    if IsIp(ip) then Some(Cidr.Positional(Octets(ip), 8)) else None
  }

  /** Four runs of one to three digits, each at most 255. */
  ghost predicate IpRuns(ip: string, a: string, b: string, c: string, d: string) {
    FourRuns(ip, a, b, c, d) && |a| <= 3 && |b| <= 3 && |c| <= 3 && |d| <= 3
    && Decimal(a) <= 255 && Decimal(b) <= 255 && Decimal(c) <= 255 && Decimal(d) <= 255
  }

  /** An address is four such runs. */
  lemma IpExactly(ip: string)
    ensures IsIp(ip) <==> exists a, b, c, d :: IpRuns(ip, a, b, c, d)
  {
    hide IpRuns, IsIp;
    if IsIp(ip) { IpHasRuns(ip); }
    forall a, b, c, d | IpRuns(ip, a, b, c, d) ensures IsIp(ip) { RunsValue(ip, a, b, c, d); }
  }

  lemma IpHasRuns(ip: string)
    requires IsIp(ip)
    ensures exists a, b, c, d :: IpRuns(ip, a, b, c, d)
  {
    hide Decimal, Join;
    var p := Split(ip, '.');
    JoinSplit(ip, '.');
    hide Split;
    assert p == [p[0], p[1], p[2], p[3]];
    JoinFour(p[0], p[1], p[2], p[3]);
    assert OctetText(p[0]) && OctetText(p[1]) && OctetText(p[2]) && OctetText(p[3]);
    assert IpRuns(ip, p[0], p[1], p[2], p[3]);
  }

  /** The value of an address is its runs in base 256. */
  lemma RunsValue(ip: string, a: string, b: string, c: string, d: string)
    requires IpRuns(ip, a, b, c, d)
    ensures IsIp(ip)
    ensures IpValue(ip) == Some(((Decimal(a) * 256 + Decimal(b)) * 256 + Decimal(c)) * 256 + Decimal(d))
  {
    hide Decimal, Cidr.Positional, Split;
    SplitFour(ip, a, b, c, d);
    Pow2Values();
    hide Pow2;
    Cidr.FourDigits(Octets(ip), 8);
  }

  /** The base and the length of a slashed text. */
  lemma SlashedParts(net: string, bits: string)
    requires '/' !in net && '/' !in bits
    ensures BaseOf(net + "/" + bits) == net && LenOf(net + "/" + bits) == ToNumber(bits)
  {
    hide Split, ToNumber;
    assert net + "/" + bits == net + ['/'] + bits;
    SplitAtSep(net, '/', bits);
    SplitNoSep(bits, '/');
  }

  /** A text without a slash has no length, so it covers nothing. */
  lemma UnslashedCoversNothing(cidr: string, ip: string)
    requires '/' !in cidr
    ensures BaseOf(cidr) == cidr && LenOf(cidr).None? && !CidrCovers(cidr, ip)
  {
    hide Split, IpValue;
    SplitNoSep(cidr, '/');
  }

  lemma IpValueFits(ip: string)
    requires IsIp(ip)
    ensures IpValue(ip).value < TWO32
  {
    Pow2Values();
    Cidr.PositionalFits(Octets(ip), 8);
    assert Cidr.Room(8, 4) == 32;
  }

  lemma Int32RoundTrip(x: int)
    ensures ToUint32(ToInt32(x)) == ToUint32(x)
    ensures ToInt32(ToUint32(x)) == ToInt32(x)
  {
  }

  lemma Shl8(x: int)
    ensures ToUint32(JsShl(x, 8)) == (ToUint32(x) * 256) % TWO32
  {
    Pow2Values();
    hide Pow2;
    var v := ToInt32(x);
    var k := if x % TWO32 >= 0x8000_0000 then -256 else 0;
    Int32RoundTrip(v * 256);
    SameModulo(v * 256, ToUint32(x) * 256, k);
  }

  lemma OrOctet(p: nat, octet: nat)
    requires octet <= 255
    ensures Or(p * 256, octet) == p * 256 + octet
  {
    assert Pow2(8) == 256;
    OrShifted(p, 8, octet);
  }

  lemma OrAppend(shifted: int, p: nat, octet: nat)
    requires octet <= 255 && p < 0x100_0000 && ToUint32(shifted) == p * 256
    ensures ToUint32(JsOr(shifted, octet)) == p * 256 + octet
  {
    hide Or, JsOr;
    JsOrValue(shifted, octet);
    assert Or(ToUint32(shifted), octet) == p * 256 + octet by { OrOctet(p, octet); }
    Int32RoundTrip(p * 256 + octet);
    SmallUint(p * 256 + octet);
  }

  /** One shift-or step on the signed accumulator appends an octet. */
  lemma AppendOctet(value: int, p: nat, octet: nat)
    requires octet <= 255 && p < 0x100_0000 && ToUint32(value) == p
    ensures ToUint32(JsOr(JsShl(value, 8), octet)) == p * 256 + octet
  {
    hide JsOr, JsShl;
    Shl8(value);
    SmallUint(p * 256);
    OrAppend(JsShl(value, 8), p, octet);
  }

  lemma JsOrValue(x: int, octet: nat)
    requires octet <= 255
    ensures JsOr(x, octet) == ToInt32(Or(ToUint32(x), octet))
  {
    SmallUint(octet);
  }

  lemma PositionalAppend(prefix: seq<nat>, octet: nat)
    ensures Cidr.Positional(prefix + [octet], 8) == Cidr.Positional(prefix, 8) * 256 + octet
  {
  }

  lemma EmptyPositional()
    ensures Cidr.Positional([], 8) == 0
  {
  }

  lemma ThreeOctetsFit(prefix: seq<nat>)
    requires |prefix| <= 3 && forall i :: 0 <= i < |prefix| ==> prefix[i] <= 255
    ensures Cidr.Positional(prefix, 8) < 0x100_0000
  {
    Pow2Values();
    Cidr.PositionalFits(prefix, 8);
    assert Cidr.Room(8, 3) == 24 && Cidr.Room(8, 2) == 16 && Cidr.Room(8, 1) == 8 && Cidr.Room(8, 0) == 0;
    Pow2Grows(Cidr.Room(8, |prefix|), 24);
  }

  method IpToInt(ip: string) returns (r: Option<nat>)
    ensures r == IpValue(ip)
  {
    hide Split, JsOr, JsShl, Cidr.Positional;
    var parts := Split(ip, '.');
    if |parts| != 4 { return None; }
    assert Cidr.Positional([], 8) == 0 by { EmptyPositional(); }
    var value, k := 0, 0;
    ghost var octets: seq<nat> := [];
    while k < 4
      invariant 0 <= k <= 4
      invariant forall i :: 0 <= i < k ==> OctetText(parts[i])
      invariant |octets| == k && forall i :: 0 <= i < k ==> octets[i] == Decimal(parts[i])
      invariant ToUint32(value) == Cidr.Positional(octets, 8)
    {
      var part := parts[k];
      if !(1 <= |part| <= 3 && AllDigits(part)) { return None; }
      var octet := Decimal(part);
      if octet > 255 { return None; }
      ThreeOctetsFit(octets);
      AppendOctet(value, Cidr.Positional(octets, 8), octet);
      PositionalAppend(octets, octet);
      octets := octets + [octet];
      value := JsOr(JsShl(value, 8), octet);
      k := k + 1;
    }
    assert octets == Octets(ip);
    r := Some(ToUint32(value));
  }

  lemma {:induction false} Pow2Grows(a: nat, b: nat)
    ensures a <= b ==> Pow2(a) <= Pow2(b)
    decreases b
  {
    if a < b { Pow2Grows(a, b - 1); }
  }

  // ----- the sandbox's reader -------------------------------------------

  /** The reducer `(a << 8) + Number(o)`, before the final `>>> 0`. */
  function SandboxFold(octets: seq<nat>): int {
    if octets == [] then 0
    else JsShl(SandboxFold(octets[..|octets| - 1]), 8) + octets[|octets| - 1]
  }

  function SandboxToInt(octets: seq<nat>): nat {
    ToUint32(SandboxFold(octets))
  }

  lemma FoldStep(a: int, p: nat, octet: nat)
    requires ToUint32(a) == p % TWO32
    ensures ToUint32(JsShl(a, 8) + octet) == (p * 256 + octet) % TWO32
  {
    Shl8(a);
    ModStep(JsShl(a, 8), ToUint32(a), p, octet);
  }

  lemma ModStep(shifted: int, u: nat, p: nat, octet: nat)
    requires u == p % TWO32 && shifted % TWO32 == (u * 256) % TWO32
    ensures (shifted + octet) % TWO32 == (p * 256 + octet) % TWO32
  {
    var q := p / TWO32;
    var k := shifted / TWO32 - (u * 256) / TWO32 - 256 * q;
    SameModulo(shifted + octet, p * 256 + octet, k);
  }

  lemma SameModulo(x: int, y: int, k: int)
    requires x == y + k * TWO32
    ensures x % TWO32 == y % TWO32
  {
  }

  /** The sandbox's reader gives the base-256 value modulo 2^32, for octets of any size. */
  lemma {:induction false} SandboxToIntIsPositional(octets: seq<nat>)
    ensures SandboxToInt(octets) == Cidr.Positional(octets, 8) % TWO32
    decreases |octets|
  {
    if octets != [] {
      var front, last := octets[..|octets| - 1], octets[|octets| - 1];
      SandboxToIntIsPositional(front);
      assert front + [last] == octets;
      PositionalAppend(front, last);
      FoldStep(SandboxFold(front), Cidr.Positional(front, 8), last);
    }
  }

  // ----- prefix masks ---------------------------------------------------

  /** `(0xffffffff << k) >>> 0`. */
  function ShiftedMask(k: int): nat {
    ToUint32(JsShl(0xffff_ffff, k))
  }

  lemma MaskComplement(len: nat)
    requires len <= 32
    ensures Mask(len, 32 - len) == TWO32 - Pow2(32 - len)
  {
    assert Pow2(len) * Pow2(32 - len) == TWO32 by {
      Pow2Add(len, 32 - len);
      Pow2Values();
    }
    PredTimes(Pow2(len), Pow2(32 - len));
  }

  lemma PredTimes(p: nat, q: nat)
    ensures (p - 1) * q == p * q - q
  {
  }

  /** The shifted word is `len` ones above `32 - len` zeros, for every length but zero,
      where the shift count 32 wraps to 0. */
  lemma ShiftedMaskBits(len: nat)
    requires 1 <= len <= 32
    ensures ShiftedMask(32 - len) == Mask(len, 32 - len)
  {
    var q: int := Pow2(32 - len);
    MaskComplement(len);
    assert q <= 0x8000_0000 by {
      Pow2Grows(32 - len, 31);
      Pow2Values();
      Pow2Add(31, 1);
    }
    ShlMinusOne(32 - len);
    NegativeUint(q);
  }

  lemma ShlMinusOne(k: nat)
    requires k < 32
    ensures JsShl(0xffff_ffff, k) == ToInt32(-1 * (Pow2(k) as int))
  {
    assert ToInt32(0xffff_ffff) == -1;
    assert k % 32 == k;
  }

  lemma NegativeUint(q: int)
    requires 1 <= q <= 0x8000_0000
    ensures ToUint32(ToInt32(-1 * q)) == TWO32 - q
  {
  }

  lemma SmallUint(x: nat)
    requires x < TWO32
    ensures ToUint32(x) == x
  {
  }

  lemma Int32Injective(u: nat, v: nat)
    requires u < TWO32 && v < TWO32
    ensures ToInt32(u) == ToInt32(v) <==> u == v
  {
  }

  lemma JsAndEqual(a: nat, b: nat, mask: nat)
    requires a < TWO32 && b < TWO32 && mask < TWO32
    ensures JsAnd(a, mask) == JsAnd(b, mask) <==> And(a, mask) == And(b, mask)
  {
    var u, v := And(a, mask), And(b, mask);
    assert u < TWO32 by { AndBound(a, mask); }
    assert v < TWO32 by { AndBound(b, mask); }
    assert JsAnd(a, mask) == ToInt32(u) by { SmallUint(a); SmallUint(mask); }
    assert JsAnd(b, mask) == ToInt32(v) by { SmallUint(b); SmallUint(mask); }
    Int32Injective(u, v);
  }

  /** Comparing signed masked words is comparing the words above the host bits. */
  lemma SignedMaskTest(a: nat, b: nat, len: nat)
    requires a < TWO32 && b < TWO32 && 1 <= len <= 32
    ensures var mask := ShiftedMask(32 - len);
            JsAnd(a, mask) == JsAnd(b, mask) <==> a / Pow2(32 - len) == b / Pow2(32 - len)
  {
    ShiftedMaskBits(len);
    Pow2Values();
    MaskedEqual(a, b, len, 32 - len);
    HighIsQuotient(a, 32 - len);
    HighIsQuotient(b, 32 - len);
    JsAndEqual(a, b, ShiftedMask(32 - len));
  }

  /** The route lookup's test: mask 0 for length 0, and both sides made unsigned. */
  predicate LookupMatches(network: nat, len: nat, address: nat) {
    var mask := if len == 0 then 0 else ShiftedMask(32 - len);
    ToUint32(JsAnd(network, mask)) == ToUint32(JsAnd(address, mask))
  }

  lemma LookupIsDivision(network: nat, len: nat, address: nat)
    requires network < TWO32 && address < TWO32 && len <= 32
    ensures LookupMatches(network, len, address) <==> network / Pow2(32 - len) == address / Pow2(32 - len)
  {
    if len == 0 {
      Pow2Values();
    } else {
      SignedMaskTest(network, address, len);
      var mask := ShiftedMask(32 - len);
      Int32RoundTrip(And(ToUint32(network), ToUint32(mask)));
      Int32RoundTrip(And(ToUint32(address), ToUint32(mask)));
    }
  }

  // ----- the doctor's coverage test -------------------------------------

  /** The length text after the first slash; `None` when it is missing or not a number. */
  function LenOf(cidr: string): Option<nat> {
    var pieces := Split(cidr, '/');
    if |pieces| < 2 then None else ToNumber(pieces[1])
  }

  function BaseOf(cidr: string): string {
    Split(cidr, '/')[0]
  }

  predicate CidrCovers(cidr: string, ip: string) {
    var address, base, len := IpValue(ip), IpValue(BaseOf(cidr)), LenOf(cidr);
    address.Some? && base.Some? && len.Some? && len.value <= 32 &&
    (len.value == 0 ||
     var mask := if len.value == 32 then 0xffff_ffff else ShiftedMask(32 - len.value);
     JsAnd(address.value, mask) == JsAnd(base.value, mask))
  }

  /** `cidr` is a readable prefix whose block holds the address `ip`. */
  ghost predicate InBlock(cidr: string, ip: string) {
    IsIp(ip) && IsIp(BaseOf(cidr)) && LenOf(cidr).Some? && LenOf(cidr).value <= 32 &&
    IpValue(ip).value / Pow2(32 - LenOf(cidr).value) == IpValue(BaseOf(cidr)).value / Pow2(32 - LenOf(cidr).value)
  }

  lemma FullMask()
    ensures ShiftedMask(0) == 0xffff_ffff
  {
    ShiftedMaskBits(32);
    Pow2Values();
  }

  lemma CoversIsInBlock(cidr: string, ip: string)
    ensures CidrCovers(cidr, ip) <==> InBlock(cidr, ip)
  {
    hide JsAnd, ShiftedMask, Pow2, Octets, Cidr.Positional, LenOf, BaseOf, IsIp;
    if IsIp(ip) && IsIp(BaseOf(cidr)) && LenOf(cidr).Some? && LenOf(cidr).value <= 32 {
      IpValueFits(ip);
      IpValueFits(BaseOf(cidr));
      var a, b, len := IpValue(ip).value, IpValue(BaseOf(cidr)).value, LenOf(cidr).value;
      if len == 0 { Pow2Values(); } else { SignedMaskTest(a, b, len); }
      if len == 32 { FullMask(); }
    }
  }

  /** The 32-bit test agrees with the route map's BigInt test: a prefix covers an
      address when it is that address's own /32 or strictly contains it. */
  lemma CoversIsContainment(base: nat, len: nat, address: nat)
    requires base < TWO32 && address < TWO32 && len <= 32
    ensures LookupMatches(base, len, address) <==>
            (len == 32 && base == address)
            || Cidr.MaskContains(Cidr.Prefix(Cidr.V4, base, len), Cidr.Prefix(Cidr.V4, address, 32))
  {
    Pow2Values();
    hide LookupMatches, Cidr.MaskContains;
    LookupIsDivision(base, len, address);
    Cidr.MaskIsDivision(Cidr.Prefix(Cidr.V4, base, len), Cidr.Prefix(Cidr.V4, address, 32));
  }

  /** The same for the doctor's own test, on all texts. */
  lemma DoctorCoversIsContainment(cidr: string, ip: string)
    ensures CidrCovers(cidr, ip) <==>
            && IsIp(ip) && IsIp(BaseOf(cidr)) && LenOf(cidr).Some? && LenOf(cidr).value <= 32
            && ((LenOf(cidr).value == 32 && IpValue(BaseOf(cidr)) == IpValue(ip))
                || Cidr.MaskContains(Cidr.Prefix(Cidr.V4, IpValue(BaseOf(cidr)).value, LenOf(cidr).value),
                                     Cidr.Prefix(Cidr.V4, IpValue(ip).value, 32)))
  {
    hide CidrCovers, Cidr.MaskContains, LookupMatches, LenOf, BaseOf, Octets, Cidr.Positional;
    CoversIsInBlock(cidr, ip);
    if IsIp(ip) && IsIp(BaseOf(cidr)) && LenOf(cidr).Some? && LenOf(cidr).value <= 32 {
      IpValueFits(ip);
      IpValueFits(BaseOf(cidr));
      var b, len, a := IpValue(BaseOf(cidr)).value, LenOf(cidr).value, IpValue(ip).value;
      LookupIsDivision(b, len, a);
      CoversIsContainment(b, len, a);
    }
  }

  // ----- host prefixes --------------------------------------------------

  lemma IpHasNoSlash(ip: string)
    requires IsIp(ip)
    ensures '/' !in ip && !exists c :: c in ip && IsSpace(c)
  {
    forall c | c in ip ensures IsDigit(c) || c == '.' {
      if c != '.' {
        var i := SplitKeeps(ip, '.', c);
        assert OctetText(Split(ip, '.')[i]);
      }
    }
  }

  lemma {:induction false} SplitKeeps(s: string, sep: char, c: char) returns (i: nat)
    requires c in s && c != sep
    ensures i < |Split(s, sep)| && c in Split(s, sep)[i]
    decreases |s|
  {
    var all := Split(s, sep);
    if s[0] == c {
      i := 0;
    } else {
      var rest := Split(s[1..], sep);
      i := SplitKeeps(s[1..], sep, c);
      if s[0] == sep {
        i := i + 1;
      } else if i > 0 {
        assert all[i] == rest[i];
      }
    }
  }

  /** `ip/32` covers exactly the addresses equal to `ip`. */
  lemma HostPrefixCovers(ip: string, other: string)
    requires IsIp(ip)
    ensures CidrCovers(ip + "/32", other) <==> IpValue(other) == IpValue(ip)
  {
    IpHasNoSlash(ip);
    ThirtyTwo();
    assert Pow2(0) == 1;
    hide IsIp, Octets, Cidr.Positional, Split, ToNumber, CidrCovers, Pow2;
    assert ip + "/32" == ip + ['/'] + "32";
    SplitAtSep(ip, '/', "32");
    SplitNoSep("32", '/');
    assert Split(ip + "/32", '/') == [ip, "32"];
    CoversIsInBlock(ip + "/32", other);
  }

  lemma ThirtyTwo()
    ensures ToNumber("32") == Some(32)
  {
    assert Trimmed("32");
    TrimProps("32");
    assert "32"[..1] == "3" && "3"[..0] == "";
    assert Decimal("3") == 3;
    assert Decimal("32") == 32;
  }
}
