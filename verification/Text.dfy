/** The text operations the source uses: split, join, trim, decimal numerals,
    ASCII lower case, and sorting by code units. */
module Text {
  import opened Prelude

  // ----- split and join -------------------------------------------------

  function Split(s: string, sep: char): (parts: seq<string>)
    ensures |parts| > 0
    ensures forall p :: p in parts ==> sep !in p
  {
    if s == [] then [""]
    else
      var rest := Split(s[1..], sep);
      if s[0] == sep then [""] + rest
      else [[s[0]] + rest[0]] + rest[1..]
  }

  function Join(parts: seq<string>, sep: char): string {
    if |parts| == 0 then ""
    else if |parts| == 1 then parts[0]
    else parts[0] + [sep] + Join(parts[1..], sep)
  }

  lemma {:induction false} SplitAtSep(a: string, sep: char, b: string)
    requires sep !in a
    ensures Split(a + [sep] + b, sep) == [a] + Split(b, sep)
    decreases |a|
  {
    var s := a + [sep] + b;
    if a == [] {
      assert s[1..] == b;
    } else {
      assert s[1..] == a[1..] + [sep] + b;
      SplitAtSep(a[1..], sep, b);
      assert [a[0]] + a[1..] == a;
    }
  }

  lemma {:induction false} SplitNoSep(s: string, sep: char)
    requires sep !in s
    ensures Split(s, sep) == [s]
    decreases |s|
  {
    if s != [] {
      SplitNoSep(s[1..], sep);
      assert [s[0]] + s[1..] == s;
    }
  }

  /** Splitting undoes joining, provided there is a part and none holds the separator. */
  lemma {:induction false} SplitJoin(parts: seq<string>, sep: char)
    requires |parts| > 0
    requires forall p :: p in parts ==> sep !in p
    ensures Split(Join(parts, sep), sep) == parts
    decreases |parts|
  {
    if |parts| == 1 {
      SplitNoSep(parts[0], sep);
    } else {
      SplitJoin(parts[1..], sep);
      SplitAtSep(parts[0], sep, Join(parts[1..], sep));
      assert [parts[0]] + parts[1..] == parts;
    }
  }

  /** Joining undoes splitting. */
  lemma {:induction false} JoinSplit(s: string, sep: char)
    ensures Join(Split(s, sep), sep) == s
    decreases |s|
  {
    if s != [] {
      JoinSplit(s[1..], sep);
      var rest := Split(s[1..], sep);
      assert s == [s[0]] + s[1..];
      if s[0] == sep {
        assert ([""] + rest)[1..] == rest;
      } else {
        JoinLonger(s[0], rest, sep);
      }
    }
  }

  lemma JoinLonger(c: char, parts: seq<string>, sep: char)
    requires parts != []
    ensures Join([[c] + parts[0]] + parts[1..], sep) == [c] + Join(parts, sep)
  {
    var longer := [[c] + parts[0]] + parts[1..];
    assert longer[1..] == parts[1..];
  }

  lemma {:induction false} JoinConcat(a: seq<string>, b: seq<string>, sep: char)
    requires a != [] && b != []
    ensures Join(a + b, sep) == Join(a, sep) + [sep] + Join(b, sep)
    decreases |a|
  {
    if |a| == 1 {
      assert (a + b)[1..] == b;
    } else {
      assert (a + b)[1..] == a[1..] + b;
      JoinConcat(a[1..], b, sep);
    }
  }

  /** The parts of a text around any separator are the parts of both sides. */
  lemma {:induction false} SplitConcat(a: string, sep: char, b: string)
    ensures Split(a + [sep] + b, sep) == Split(a, sep) + Split(b, sep)
    decreases |a|
  {
    var s := a + [sep] + b;
    if a == [] {
      assert s[1..] == b;
    } else {
      assert s[1..] == a[1..] + [sep] + b;
      SplitConcat(a[1..], sep, b);
    }
  }

  /** The list ends with `tail`. */
  predicate IsTail(tail: seq<string>, whole: seq<string>) {
    |tail| <= |whole| && whole[|whole| - |tail|..] == tail
  }

  /** Being a text or ending in a separator and that text is having its parts at the end. */
  lemma TailOfParts(s: string, part: string, sep: char)
    ensures s == part || EndsWith(s, [sep] + part) <==> IsTail(Split(part, sep), Split(s, sep))
  {
    hide Split, Join;
    var p, w := Split(part, sep), Split(s, sep);
    JoinSplit(s, sep);
    JoinSplit(part, sep);
    if EndsWith(s, [sep] + part) {
      var front := s[..|s| - |part| - 1];
      assert s == front + [sep] + part;
      SplitConcat(front, sep, part);
    }
    if IsTail(p, w) && |p| < |w| {
      var front := w[..|w| - |p|];
      assert w == front + p;
      JoinConcat(front, p, sep);
    }
  }

  /** Starting with a part and its separator is having that part first. */
  lemma FirstPart(s: string, part: string, sep: char)
    requires sep !in part
    ensures StartsWith(s, part + [sep]) <==> |Split(s, sep)| >= 2 && Split(s, sep)[0] == part
    ensures StartsWith(s, part + [sep]) ==> Split(s[|part| + 1..], sep) == Split(s, sep)[1..]
  {
    hide Split, Join;
    var parts := Split(s, sep);
    JoinSplit(s, sep);
    if StartsWith(s, part + [sep]) {
      var rest := s[|part| + 1..];
      assert s == part + [sep] + rest;
      SplitAtSep(part, sep, rest);
    }
    if |parts| >= 2 && parts[0] == part {
      assert parts == [part] + parts[1..];
      JoinConcat([part], parts[1..], sep);
      JoinOne(part, sep);
    }
  }

  lemma JoinOne(part: string, sep: char)
    ensures Join([part], sep) == part
  {
  }

  predicate StartsWith(s: string, prefix: string) {
    prefix <= s
  }

  predicate EndsWith(s: string, suffix: string) {
    |suffix| <= |s| && s[|s| - |suffix|..] == suffix
  }

  /** JavaScript's `includes` on strings. */
  predicate Includes(s: string, part: string) {
    exists i {:trigger s[i..]} :: 0 <= i <= |s| - |part| && part <= s[i..]
  }

  ghost predicate SliceOf(part: string, s: string) {
    exists i, j :: 0 <= i <= j <= |s| && s[i..j] == part
  }

  lemma IncludesSlice(s: string, part: string)
    ensures Includes(s, part) <==> SliceOf(part, s)
  {
    if Includes(s, part) {
      var i :| 0 <= i <= |s| - |part| && part <= s[i..];
      var j := i + |part|;
      assert s[i..j] == s[i..][..|part|] == part;
    }
    if SliceOf(part, s) {
      var i, j :| 0 <= i <= j <= |s| && s[i..j] == part;
      assert s[i..][..|part|] == part;
    }
  }

  // ----- trim -----------------------------------------------------------

  /** The white space and line terminators that `trim` removes. */
  predicate IsSpace(c: char) {
    c in {' ', '\t', '\n', '\r', '\U{0B}', '\U{0C}', '\U{A0}', '\U{1680}', '\U{2028}', '\U{2029}',
          '\U{202F}', '\U{205F}', '\U{3000}', '\U{FEFF}'}
    || '\U{2000}' <= c <= '\U{200A}'
  }

  function TrimStart(s: string): string {
    if s != [] && IsSpace(s[0]) then TrimStart(s[1..]) else s
  }

  function TrimEnd(s: string): string {
    if s != [] && IsSpace(s[|s| - 1]) then TrimEnd(s[..|s| - 1]) else s
  }

  function Trim(s: string): string {
    TrimEnd(TrimStart(s))
  }

  predicate Trimmed(s: string) {
    s == [] || (!IsSpace(s[0]) && !IsSpace(s[|s| - 1]))
  }

  lemma {:induction false} TrimStartSlice(s: string) returns (i: nat)
    ensures i <= |s| && TrimStart(s) == s[i..]
    ensures TrimStart(s) != [] ==> !IsSpace(TrimStart(s)[0])
    decreases |s|
  {
    if s != [] && IsSpace(s[0]) {
      var j := TrimStartSlice(s[1..]);
      i := j + 1;
    } else {
      i := 0;
    }
  }

  lemma {:induction false} TrimEndSlice(s: string) returns (j: nat)
    ensures j <= |s| && TrimEnd(s) == s[..j]
    ensures TrimEnd(s) != [] ==> !IsSpace(TrimEnd(s)[j - 1])
    decreases |s|
  {
    if s != [] && IsSpace(s[|s| - 1]) {
      j := TrimEndSlice(s[..|s| - 1]);
    } else {
      j := |s|;
    }
  }

  /** Trimming yields trimmed text, adds no character, and leaves trimmed text alone. */
  lemma TrimProps(s: string)
    ensures Trimmed(Trim(s))
    ensures forall c :: c in Trim(s) ==> c in s
    ensures Trimmed(s) ==> Trim(s) == s
  {
    var i := TrimStartSlice(s);
    var j := TrimEndSlice(TrimStart(s));
  }

  predicate AllSpace(s: string) {
    forall c :: c in s ==> IsSpace(c)
  }

  lemma {:induction false} TrimStartDrops(s: string) returns (i: nat)
    ensures i <= |s| && TrimStart(s) == s[i..] && AllSpace(s[..i])
    decreases |s|
  {
    i := 0;
    if s != [] && IsSpace(s[0]) {
      i := TrimStartDrops(s[1..]);
      i := i + 1;
      assert s[..i] == [s[0]] + s[1..][..i - 1];
    }
  }

  lemma {:induction false} TrimEndDrops(s: string) returns (j: nat)
    ensures j <= |s| && TrimEnd(s) == s[..j] && AllSpace(s[j..])
    decreases |s|
  {
    j := |s|;
    if s != [] && IsSpace(s[|s| - 1]) {
      var front, last := s[..|s| - 1], s[|s| - 1];
      j := TrimEndDrops(front);
      hide IsSpace, TrimEnd;
      assert s == front + [last];
      assert s[j..] == front[j..] + [last];
    }
  }

  /** Trimming takes white space off both ends and nothing else. */
  lemma TrimExactly(s: string) returns (before: string, after: string)
    ensures s == before + Trim(s) + after && AllSpace(before) && AllSpace(after) && Trimmed(Trim(s))
  {
    hide TrimStart, TrimEnd;
    var i := TrimStartDrops(s);
    var j := TrimEndDrops(TrimStart(s));
    before, after := s[..i], TrimStart(s)[j..];
    TrimProps(s);
    assert s == s[..i] + s[i..];
    assert TrimStart(s) == TrimStart(s)[..j] + TrimStart(s)[j..];
  }

  lemma BlankTrim(s: string)
    ensures Trim(s) == "" <==> AllSpace(s)
  {
    hide Trim;
    var before, after := TrimExactly(s);
    if Trim(s) != "" { assert s[|before|] == Trim(s)[0]; }
  }

  // ----- decimal numerals -----------------------------------------------

  predicate IsDigit(c: char) {
    '0' <= c <= '9'
  }

  predicate AllDigits(s: string) {
    forall c :: c in s ==> IsDigit(c)
  }

  function DigitValue(c: char): nat
    requires IsDigit(c)
  {
    c as int - '0' as int
  }

  /** The number a string of decimal digits denotes. */
  function Decimal(s: string): nat
    requires AllDigits(s)
  {
    if s == [] then 0
    else 10 * Decimal(s[..|s| - 1]) + DigitValue(s[|s| - 1])
  }

  /** Four runs of digits with dots between them. */
  ghost predicate FourRuns(s: string, a: string, b: string, c: string, d: string) {
    s == a + "." + b + "." + c + "." + d && a != "" && b != "" && c != "" && d != ""
    && AllDigits(a) && AllDigits(b) && AllDigits(c) && AllDigits(d)
  }

  lemma JoinFour(a: string, b: string, c: string, d: string)
    ensures Join([a, b, c, d], '.') == a + "." + b + "." + c + "." + d
  {
    assert [a, b, c, d][1..] == [b, c, d] && [b, c, d][1..] == [c, d] && [c, d][1..] == [d];
    assert Join([d], '.') == d;
    assert Join([c, d], '.') == c + "." + d;
    assert Join([b, c, d], '.') == b + "." + (c + "." + d);
  }

  lemma SplitFour(s: string, a: string, b: string, c: string, d: string)
    requires FourRuns(s, a, b, c, d)
    ensures Split(s, '.') == [a, b, c, d]
  {
    hide Split;
    var cd, bcd := c + ['.'] + d, b + ['.'] + (c + ['.'] + d);
    assert s == a + ['.'] + bcd;
    SplitAtSep(a, '.', bcd);
    SplitAtSep(b, '.', cd);
    SplitAtSep(c, '.', d);
    SplitNoSep(d, '.');
  }

  /** The decimal numeral of a natural number, as string interpolation writes it. */
  function Numeral(n: nat): (s: string)
    ensures |s| > 0 && AllDigits(s)
    ensures Decimal(s) == n
  {
    var d := (n % 10) as char + '0';
    if n < 10 then [d]
    else
      var front := Numeral(n / 10);
      assert (front + [d])[..|front|] == front;
      front + [d]
  }

  /** JavaScript's `Number` on text: blank is 0, decimal digits are their value.
      Signs, fractions, exponents and radix prefixes are taken as not a number. */
  function ToNumber(s: string): Option<nat> {
    var t := Trim(s);
    if AllDigits(t) then Some(Decimal(t)) else None
  }

  /** A numeral reads back as its number, white space around it aside. */
  lemma NumeralReadsBack(n: nat)
    ensures ToNumber(Numeral(n)) == Some(n)
    ensures ToNumber("") == Some(0)
  {
    hide Numeral, Trim;
    var s := Numeral(n);
    assert forall c :: IsDigit(c) ==> !IsSpace(c);
    assert s[0] in s && s[|s| - 1] in s;
    TrimProps(s);
    TrimProps("");
  }

  /** A character of some numeric form that `Number` reads beside plain digits: signs,
      fractions, exponents, radix prefixes with their digits, and "Infinity". */
  predicate NumericChar(c: char) {
    IsDigit(c) || 'a' <= c <= 'f' || 'A' <= c <= 'F' || c in {'x', 'X', 'o', 'O', '.', '+', '-'} || c in "Infinity"
  }

  /** Text on which `ToNumber` is `Number`: digits, or something that is no number. */
  predicate PlainlyRead(s: string) {
    AllDigits(Trim(s)) || exists c :: c in Trim(s) && !NumericChar(c)
  }

  // ----- case -----------------------------------------------------------

  /** Lower case for ASCII and for the basic Cyrillic letters. */
  function LowerChar(c: char): char {
    if 'A' <= c <= 'Z' then (c as int + 32) as char
    else if '\U{410}' <= c <= '\U{42F}' then (c as int + 32) as char
    else if c == '\U{401}' then '\U{451}'
    else c
  }

  function Lower(s: string): (r: string)
    ensures |r| == |s| && forall i :: 0 <= i < |s| ==> r[i] == LowerChar(s[i])
  {
    seq(|s|, i requires 0 <= i < |s| => LowerChar(s[i]))
  }

  /** Capital letters become small ones; no other ASCII character changes. */
  lemma LowerExactly(c: char)
    ensures forall i :: 0 <= i < 26 ==>
              LowerChar("ABCDEFGHIJKLMNOPQRSTUVWXYZ"[i]) == "abcdefghijklmnopqrstuvwxyz"[i]
    ensures c < '\U{80}' && !('A' <= c <= 'Z') ==> LowerChar(c) == c
    ensures LowerChar('\U{401}') == '\U{451}'
    ensures '\U{410}' <= c <= '\U{42F}' ==> LowerChar(c) as int - c as int == '\U{430}' as int - '\U{410}' as int
  {
  }

  // ----- sorting --------------------------------------------------------

  /** The default order of `Array.prototype.sort`: by character code. */
  predicate TextLe(a: string, b: string) {
    a == [] || (b != [] && (a[0] < b[0] || (a[0] == b[0] && TextLe(a[1..], b[1..]))))
  }

  /** One text comes before another when it is the start of it, or is smaller where they first
      differ. */
  lemma {:induction false} TextLeExactly(a: string, b: string)
    ensures TextLe(a, b) <==> a <= b || exists i :: 0 <= i < |a| && i < |b| && a[i] < b[i] && a[..i] == b[..i]
    decreases |a|
  {
    if a != [] && b != [] && a[0] == b[0] {
      var x, y := a[1..], b[1..];
      TextLeExactly(x, y);
      assert a <= b <==> x <= y;
      if i :| 0 <= i < |x| && i < |y| && x[i] < y[i] && x[..i] == y[..i] {
        assert a[..i + 1] == [a[0]] + x[..i] && b[..i + 1] == [b[0]] + y[..i] && a[i + 1] < b[i + 1];
      }
      if i :| 0 <= i < |a| && i < |b| && a[i] < b[i] && a[..i] == b[..i] {
        assert i > 0 && x[..i - 1] == a[..i][1..] && y[..i - 1] == b[..i][1..] && x[i - 1] < y[i - 1];
      }
    }
  }

  function InsertBy<T>(x: T, s: seq<T>, key: T -> string): (r: seq<T>)
    ensures multiset(r) == multiset{x} + multiset(s)
  {
    if s == [] then [x]
    else if TextLe(key(x), key(s[0])) then [x] + s
    else
      assert s == [s[0]] + s[1..];
      [s[0]] + InsertBy(x, s[1..], key)
  }

  /** Stable sort by a text key. */
  function SortBy<T>(s: seq<T>, key: T -> string): (r: seq<T>)
    ensures multiset(r) == multiset(s)
    ensures |r| == |s|
  {
    if s == [] then []
    else
      assert s == [s[0]] + s[1..];
      var r := InsertBy(s[0], SortBy(s[1..], key), key);
      assert |r| == |multiset(r)|;
      r
  }

  function SortText(s: seq<string>): (r: seq<string>)
    ensures multiset(r) == multiset(s)
    ensures |r| == |s|
  {
    SortBy(s, (x: string) => x)
  }

  ghost predicate SortedBy<T>(s: seq<T>, key: T -> string) {
    forall i, j :: 0 <= i < j < |s| ==> TextLe(key(s[i]), key(s[j]))
  }

  lemma {:induction false} TextLeTotal(a: string, b: string)
    ensures TextLe(a, b) || TextLe(b, a)
    decreases |a|
  {
    if a != [] && b != [] && a[0] == b[0] {
      TextLeTotal(a[1..], b[1..]);
    }
  }

  lemma {:induction false} TextLeTransitive(a: string, b: string, c: string)
    requires TextLe(a, b) && TextLe(b, c)
    ensures TextLe(a, c)
    decreases |a|
  {
    if a != [] && a[0] == b[0] && b[0] == c[0] {
      TextLeTransitive(a[1..], b[1..], c[1..]);
    }
  }

  lemma InsertedMember<T>(x: T, s: seq<T>, key: T -> string, j: nat)
    requires j < |InsertBy(x, s, key)|
    ensures InsertBy(x, s, key)[j] == x || InsertBy(x, s, key)[j] in s
  {
    hide InsertBy;
    var t := InsertBy(x, s, key);
    assert t[j] in multiset(t);
    assert t[j] in multiset{x} + multiset(s);
  }

  lemma {:induction false} InsertBySorted<T>(x: T, s: seq<T>, key: T -> string)
    requires SortedBy(s, key)
    ensures SortedBy(InsertBy(x, s, key), key)
    decreases |s|
  {
    if s != [] {
      var r := InsertBy(x, s, key);
      if TextLe(key(x), key(s[0])) {
        forall j | 0 <= j < |s| ensures TextLe(key(x), key(s[j])) {
          if j > 0 { TextLeTransitive(key(x), key(s[0]), key(s[j])); }
        }
      } else {
        TextLeTotal(key(x), key(s[0]));
        InsertBySorted(x, s[1..], key);
        var t := InsertBy(x, s[1..], key);
        forall j | 0 <= j < |t| ensures TextLe(key(s[0]), key(t[j])) {
          InsertedMember(x, s[1..], key, j);
        }
      }
    }
  }

  lemma {:induction false} SortBySorted<T>(s: seq<T>, key: T -> string)
    ensures SortedBy(SortBy(s, key), key)
    decreases |s|
  {
    if s != [] {
      SortBySorted(s[1..], key);
      InsertBySorted(s[0], SortBy(s[1..], key), key);
    }
  }
}
