// Chunk file names: the start index, zero-padded to twelve digits, and their order as strings
// (common/snapshot_manager.py).

module FileNames {

  const PAD_WIDTH: nat := 12
  const SUFFIX: string := ".json.gz"

  function Digit(d: nat): (c: char)
    requires d < 10
    ensures '0' <= c <= '9' && c as int == 48 + d
  {
    (48 + d) as char
  }

  predicate IsNumeral(s: string) {
    forall i | 0 <= i < |s| :: '0' <= s[i] <= '9'
  }

  /** str(n) */
  function Decimal(n: nat): (s: string)
    ensures s != [] && IsNumeral(s)
  {
    if n < 10 then [Digit(n)] else Decimal(n / 10) + [Digit(n % 10)]
  }

  /** int(s) */
  function Parse(s: string): nat
    requires IsNumeral(s)
  {
    if s == [] then 0 else Parse(s[..|s| - 1]) * 10 + (s[|s| - 1] as int - 48)
  }

  function Zeros(k: nat): (s: string)
    ensures |s| == k && IsNumeral(s)
    ensures forall i | 0 <= i < k :: s[i] == '0'
  {
    seq(k, _ => '0')
  }

  /** zfill */
  function Padded(s: string): (r: string)
    requires IsNumeral(s)
    ensures IsNumeral(r) && |r| >= PAD_WIDTH && |r| >= |s|
    ensures |s| <= PAD_WIDTH ==> |r| == PAD_WIDTH
  {
    if |s| >= PAD_WIDTH then s else Zeros(PAD_WIDTH - |s|) + s
  }

  /** _get_snapshot_filename */
  function FileName(start: nat): string {
    Padded(Decimal(start)) + SUFFIX
  }

  /** Twelve digits and the suffix. */
  lemma NameOfFirst()
    ensures FileName(1) == "000000000001.json.gz"
  {
    assert Decimal(1) == "1" && Zeros(PAD_WIDTH - 1) == "00000000000";
  }

  /** Python's comparison of strings. */
  predicate Less(a: string, b: string) {
    if b == [] then false
    else if a == [] then true
    else a[0] < b[0] || (a[0] == b[0] && Less(a[1..], b[1..]))
  }

  function Pow10(k: nat): nat {
    if k == 0 then 1 else 10 * Pow10(k - 1)
  }

  /** The start index a file name stands for: int(name.removesuffix(".json.gz")). */
  function StartOf(name: string): nat
    requires |name| >= |SUFFIX| && IsNumeral(name[..|name| - |SUFFIX|])
  {
    Parse(name[..|name| - |SUFFIX|])
  }

  function Stem(name: string): string
    requires |name| >= |SUFFIX|
  {
    name[..|name| - |SUFFIX|]
  }

  /** The files that are chunks, and those whose name is a number besides. */
  predicate IsChunkFile(name: string) {
    |name| >= |SUFFIX| && name[|name| - |SUFFIX|..] == SUFFIX
  }

  predicate IsNumbered(name: string) {
    IsChunkFile(name) && Stem(name) != [] && IsNumeral(Stem(name))
  }

  lemma {:induction false} ParseDecimal(n: nat)
    ensures Parse(Decimal(n)) == n
  {
    if n >= 10 {
      ParseDecimal(n / 10);
      assert Decimal(n)[..|Decimal(n)| - 1] == Decimal(n / 10);
    }
  }

  lemma {:induction false} ParseZeros(k: nat, s: string)
    requires IsNumeral(s)
    ensures Parse(Zeros(k) + s) == Parse(s)
  {
    if s != [] {
      ParseZeros(k, s[..|s| - 1]);
      assert (Zeros(k) + s)[..k + |s| - 1] == Zeros(k) + s[..|s| - 1];
    } else if k > 0 {
      ParseZeros(k - 1, []);
      assert Zeros(k)[..k - 1] == Zeros(k - 1);
      assert Zeros(k) + [] == Zeros(k) && Zeros(k - 1) + [] == Zeros(k - 1);
    }
  }

  /** Reading a file name back gives the start index it was made from. */
  lemma NameRoundTrip(start: nat)
    ensures |FileName(start)| >= |SUFFIX| && IsNumeral(FileName(start)[..|FileName(start)| - |SUFFIX|])
    ensures IsNumbered(FileName(start)) && StartOf(FileName(start)) == start
  {
    var s := Decimal(start);
    assert FileName(start)[..|FileName(start)| - |SUFFIX|] == Padded(s);
    ParseDecimal(start);
    if |s| < PAD_WIDTH {
      ParseZeros(PAD_WIDTH - |s|, s);
    }
  }

  lemma NameInjective(s: nat, t: nat)
    requires FileName(s) == FileName(t)
    ensures s == t
  {
    NameRoundTrip(s);
    NameRoundTrip(t);
  }

  lemma {:induction false} DecimalLength(n: nat, k: nat)
    requires k > 0 && n < Pow10(k)
    ensures |Decimal(n)| <= k
  {
    if n >= 10 {
      DecimalLength(n / 10, k - 1);
    }
  }

  lemma {:induction false} ParseBound(s: string)
    requires IsNumeral(s)
    ensures Parse(s) < Pow10(|s|)
  {
    if s != [] {
      ParseBound(s[..|s| - 1]);
    }
  }

  lemma {:induction false} ParseHead(s: string)
    requires IsNumeral(s) && s != []
    ensures Parse(s) == Worth(s[0], |s| - 1) + Parse(s[1..])
  {
    if |s| > 1 {
      var n := |s| - 1;
      ParseHead(s[..n]);
      assert s[..n][1..] == s[1..][..n - 1] && s[1..][n - 1] == s[n];
      var h, p, q, l := s[0] as int - 48, Pow10(n - 1), Parse(s[..n][1..]), s[n] as int - 48;
      assert Parse(s) == (h * p + q) * 10 + l;
      assert Parse(s[1..]) == q * 10 + l;
      ShiftDigit(h, p, q, l);
    }
  }

  lemma ShiftDigit(h: int, p: int, q: int, l: int)
    ensures (h * p + q) * 10 + l == h * (10 * p) + (q * 10 + l)
  {
  }

  /** The first characters decide, and if they are equal, what follows. */
  lemma LessStep(a: string, b: string, tail: string)
    requires a != [] && b != []
    ensures Less(a + tail, b + tail) <==> a[0] < b[0] || (a[0] == b[0] && Less(a[1..] + tail, b[1..] + tail))
  {
    assert (a + tail)[1..] == a[1..] + tail && (b + tail)[1..] == b[1..] + tail;
  }

  /** On numerals of one length the order of strings is the order of numbers. */
  lemma {:induction false} NumeralOrder(a: string, b: string, tail: string)
    requires IsNumeral(a) && IsNumeral(b) && |a| == |b|
    ensures Less(a + tail, b + tail) <==> Parse(a) < Parse(b)
  {
    if a == [] {
      assert a + tail == tail && b + tail == tail;
      NotLessItself(tail);
    } else {
      LessStep(a, b, tail);
      NumeralOrder(a[1..], b[1..], tail);
      HeadsCompared(a, b);
    }
  }

  /** What a digit is worth with k digits behind it. */
  function Worth(c: char, k: nat): int { (c as int - 48) * Pow10(k) }

  lemma WorthGrows(c: char, d: char, k: nat)
    requires c < d
    ensures Worth(c, k) + Pow10(k) <= Worth(d, k)
  {
    AtLeastOne(d as int - c as int, Pow10(k));
    Spread(c as int - 48, d as int - 48, Pow10(k));
  }

  /** Two numerals of one length compare by their first digits, and if they are equal, by the rest. */
  lemma HeadsCompared(a: string, b: string)
    requires IsNumeral(a) && IsNumeral(b) && |a| == |b| > 0
    ensures Parse(a) < Parse(b) <==> a[0] < b[0] || (a[0] == b[0] && Parse(a[1..]) < Parse(b[1..]))
    ensures Parse(a) <= Parse(b) <==> a[0] < b[0] || (a[0] == b[0] && Parse(a[1..]) <= Parse(b[1..]))
  {
    ParseHead(a);
    ParseHead(b);
    ParseBound(a[1..]);
    ParseBound(b[1..]);
    if a[0] < b[0] {
      WorthGrows(a[0], b[0], |a| - 1);
    } else if b[0] < a[0] {
      WorthGrows(b[0], a[0], |a| - 1);
    }
  }

  lemma AtLeastOne(d: int, p: int)
    requires d >= 1 && p >= 0
    ensures d * p >= p
  {
    assert (d - 1) * p >= 0;
  }

  lemma Spread(x: int, y: int, p: int)
    ensures y * p == x * p + (y - x) * p
  {
  }

  lemma {:induction false} NotLessItself(s: string)
    ensures !Less(s, s)
  {
    if s != [] {
      NotLessItself(s[1..]);
    }
  }

  // ---- Names of different lengths ----

  /** How many characters the padded numeral of a start index has. */
  function Width(n: nat): nat { |Padded(Decimal(n))| }

  lemma {:induction false} DecimalGrows(s: nat, t: nat)
    requires s <= t
    ensures |Decimal(s)| <= |Decimal(t)|
  {
    if s >= 10 {
      DecimalGrows(s / 10, t / 10);
    }
  }

  lemma {:induction false} DecimalLong(n: nat, k: nat)
    requires n >= Pow10(k)
    ensures |Decimal(n)| > k
  {
    if k > 0 {
      PowPositive(k - 1);
      DecimalLong(n / 10, k - 1);
    }
  }

  lemma DivisionUnique(x: nat, m: nat, v: nat)
    requires m > 0 && m * v <= x < m * v + m
    ensures x / m == v
  {
    var q, r := x / m, x % m;
    assert x == m * q + r && 0 <= r < m;
    if q < v {
      AtLeastOne(v - q, m);
      Spread(q, v, m);
    } else if q > v {
      AtLeastOne(q - v, m);
      Spread(v, q, m);
    }
  }

  lemma TenthOfQuotient(x: nat, q: nat)
    requires q > 0
    ensures x / (10 * q) == (x / 10) / q
  {
    var u, r := x / 10, x % 10;
    var v, w := u / q, u % q;
    assert u == q * v + w && 0 <= w < q;
    assert 10 * (q * v) == (10 * q) * v;
    DivisionUnique(x, 10 * q, v);
  }

  /** Cutting d digits off a numeral divides by 10^d. */
  lemma {:induction false} ParsePrefix(p: string, d: nat)
    requires IsNumeral(p) && d <= |p|
    ensures Pow10(d) > 0 && Parse(p[..|p| - d]) == Parse(p) / Pow10(d)
  {
    PowPositive(d);
    if d == 0 {
      assert p[..|p|] == p;
    } else {
      var q := p[..|p| - 1];
      ParsePrefix(q, d - 1);
      assert q[..|q| - (d - 1)] == p[..|p| - d];
      TenthOfQuotient(Parse(p), Pow10(d - 1));
    }
  }

  /** Against a longer numeral the shorter one competes with as many of its digits; ending sooner wins a tie. */
  lemma {:induction false} ShorterOrder(a: string, b: string, tail: string)
    requires IsNumeral(a) && IsNumeral(b) && |a| < |b| && tail != [] && tail[0] < '0'
    ensures Less(a + tail, b + tail) <==> Parse(a) <= Parse(b[..|a|])
  {
    if a == [] {
      assert a + tail == tail && (b + tail)[0] == b[0];
    } else {
      var head := b[..|a|];
      assert head[1..] == b[1..][..|a[1..]|];
      LessStep(a, b, tail);
      ShorterOrder(a[1..], b[1..], tail);
      HeadsCompared(a, head);
    }
  }

  lemma NumeralsCompared(a: string, b: string, tail: string)
    requires IsNumeral(a) && IsNumeral(b) && |a| <= |b| && tail != [] && tail[0] < '0' && Parse(a) < Parse(b)
    ensures Pow10(|b| - |a|) > 0
    ensures Less(a + tail, b + tail) <==> Parse(a) <= Parse(b) / Pow10(|b| - |a|)
  {
    ParsePrefix(b, |b| - |a|);
    if |a| == |b| {
      NumeralOrder(a, b, tail);
      assert b[..|b| - 0] == b;
    } else {
      ShorterOrder(a, b, tail);
      assert b[..|b| - (|b| - |a|)] == b[..|a|];
    }
  }

  /** For s < t the names sort the same way exactly if s is not above what is left of t when t's numeral
      is cut to the length of that of s. */
  lemma NameOrderExactly(s: nat, t: nat)
    requires s < t
    ensures Width(s) <= Width(t) && Pow10(Width(t) - Width(s)) > 0
    ensures Less(FileName(s), FileName(t)) <==> s <= t / Pow10(Width(t) - Width(s))
  {
    var a, b := Padded(Decimal(s)), Padded(Decimal(t));
    WidthGrows(s, t);
    PaddedValue(s, a);
    PaddedValue(t, b);
    NumeralsCompared(a, b, SUFFIX);
  }

  lemma WidthGrows(s: nat, t: nat)
    requires s <= t
    ensures Width(s) <= Width(t)
  {
    DecimalGrows(s, t);
  }

  lemma PaddedValue(n: nat, p: string)
    requires p == Padded(Decimal(n))
    ensures IsNumeral(p) && Parse(p) == n && FileName(n) == p + SUFFIX
  {
    NameRoundTrip(n);
    assert FileName(n)[..|FileName(n)| - |SUFFIX|] == p;
  }

  /** So below 10^12 sorting the names sorts the start indices, */
  lemma NameOrder(s: nat, t: nat)
    requires s < t < Pow10(PAD_WIDTH)
    ensures Less(FileName(s), FileName(t))
  {
    DecimalLength(s, PAD_WIDTH);
    DecimalLength(t, PAD_WIDTH);
    NameOrderExactly(s, t);
  }

  /** and at 10^12 it does not any more. */
  lemma NameOrderBreaks()
    ensures !Less(FileName(Pow10(PAD_WIDTH) - 1), FileName(Pow10(PAD_WIDTH)))
  {
    var t := Pow10(PAD_WIDTH);
    assert t == 1000000000000;
    DecimalLength(t - 1, PAD_WIDTH);
    DecimalLong(t, PAD_WIDTH);
    DecimalLength(t, PAD_WIDTH + 1);
    NameOrderExactly(t - 1, t);
    assert Pow10(1) == 10;
  }

  lemma {:induction false} PowPositive(k: nat)
    ensures Pow10(k) >= 1
  {
    if k > 0 {
      PowPositive(k - 1);
    }
  }

  ghost predicate SortedNames(names: seq<string>) {
    forall i, j | 0 <= i < j < |names| :: Less(names[i], names[j])
  }

  lemma {:induction false} LessTransitive(a: string, b: string, c: string)
    requires Less(a, b) && Less(b, c)
    ensures Less(a, c)
  {
    if a != [] && a[0] == b[0] == c[0] {
      LessTransitive(a[1..], b[1..], c[1..]);
    }
  }

  /** A set of names has only one sorted listing. */
  lemma {:induction false} SortedUnique(a: seq<string>, b: seq<string>)
    requires SortedNames(a) && SortedNames(b)
    requires forall s :: s in a <==> s in b
    ensures a == b
  {
    BothEmpty(a, b);
    if a != [] {
      assert a[0] in a && a[0] in b;
      assert b[0] in b && b[0] in a;
      FirstEqual(a, b);
      forall s
        ensures s in a[1..] <==> s in b[1..]
      {
        RestIsRest(a, b, s);
        RestIsRest(b, a, s);
      }
      SortedUnique(a[1..], b[1..]);
    }
  }

  lemma BothEmpty(a: seq<string>, b: seq<string>)
    requires forall s :: s in a <==> s in b
    ensures a == [] <==> b == []
  {
    if a != [] { assert a[0] in a; }
    if b != [] { assert b[0] in b; }
  }

  lemma RestIsRest(a: seq<string>, b: seq<string>, s: string)
    requires SortedNames(a) && a != [] && b != [] && a[0] == b[0]
    requires forall t :: t in a ==> t in b
    ensures s in a[1..] ==> s in b[1..]
  {
    if s in a[1..] {
      NotLessItself(s);
      assert Less(a[0], s);
      assert s in b && b == [b[0]] + b[1..];
    }
  }

  lemma FirstEqual(a: seq<string>, b: seq<string>)
    requires SortedNames(a) && SortedNames(b) && a != [] && b != []
    requires a[0] in b && b[0] in a
    ensures a[0] == b[0]
  {
    if a[0] != b[0] {
      var i :| 0 < i < |b| && b[i] == a[0];
      var j :| 0 < j < |a| && a[j] == b[0];
      LessTransitive(a[0], b[0], a[0]);
      NotLessItself(a[0]);
    }
  }

  lemma {:induction false} LessTotal(a: string, b: string)
    ensures a == b || Less(a, b) || Less(b, a)
  {
    if a != [] && b != [] && a[0] == b[0] {
      LessTotal(a[1..], b[1..]);
      assert a == [a[0]] + a[1..] && b == [b[0]] + b[1..];
    }
  }

  /** sorted(), for the distinct names of a directory. */
  method SortNames(names: seq<string>) returns (sorted: seq<string>)
    requires forall i, j | 0 <= i < j < |names| :: names[i] != names[j]
    ensures SortedNames(sorted)
    ensures forall s :: s in sorted <==> s in names
  {
    sorted := [];
    for i := 0 to |names|
      invariant SortedNames(sorted)
      invariant forall s :: s in sorted <==> s in names[..i]
    {
      sorted := InsertName(sorted, names[i]);
      assert names[..i + 1] == names[..i] + [names[i]];
    }
    assert names[..|names|] == names;
  }

  method InsertName(sorted: seq<string>, name: string) returns (more: seq<string>)
    requires SortedNames(sorted) && name !in sorted
    ensures SortedNames(more)
    ensures forall s :: s in more <==> s in sorted || s == name
  {
    var p := |sorted|;
    while p > 0 && Less(name, sorted[p - 1])
      invariant 0 <= p <= |sorted|
      invariant p < |sorted| ==> Less(name, sorted[p])
    {
      p := p - 1;
    }
    more := sorted[..p] + [name] + sorted[p..];
    InsertedSorted(sorted, name, p);
  }

  lemma InsertedSorted(sorted: seq<string>, name: string, p: nat)
    requires SortedNames(sorted) && name !in sorted && p <= |sorted|
    requires p < |sorted| ==> Less(name, sorted[p])
    requires p > 0 ==> !Less(name, sorted[p - 1])
    ensures var more := sorted[..p] + [name] + sorted[p..];
      SortedNames(more) && forall s :: s in more <==> s in sorted || s == name
  {
    var more := sorted[..p] + [name] + sorted[p..];
    if p > 0 {
      LessTotal(name, sorted[p - 1]);
    }
    InsertedNames(sorted, name, p);
    forall i, j | 0 <= i < j < |more|
      ensures Less(more[i], more[j])
    {
      if i < p && j == p && i < p - 1 {
        LessTransitive(sorted[i], sorted[p - 1], name);
      }
      if i == p && j > p + 1 {
        LessTransitive(name, sorted[p], sorted[j - 1]);
      }
    }
  }

  lemma InsertedNames(sorted: seq<string>, name: string, p: nat)
    requires p <= |sorted|
    ensures forall s :: s in sorted[..p] + [name] + sorted[p..] <==> s in sorted || s == name
  {
    assert sorted == sorted[..p] + sorted[p..];
  }
}
