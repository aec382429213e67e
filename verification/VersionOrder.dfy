/** Comparing version strings (src/ldfd/forge/github.go, and the same code in
    src/ldfd/download/discovery.go). */
module VersionOrder {
  import opened Text
  import opened Int64

  // ---------- parts ----------

  /** A dot-separated part: its leading number and what follows it. */
  datatype Part = Part(num: int, suffix: string)

  predicate IsDigit(c: char) {
    '0' <= c <= '9'
  }

  function DigitValue(c: char): nat {
    if IsDigit(c) then c as int - '0' as int else 0
  }

  function DigitRun(s: string): nat {
    if s != "" && IsDigit(s[0]) then 1 + DigitRun(s[1..]) else 0
  }

  function DecValue(digits: string): nat {
    if digits == "" then 0
    else DecValue(digits[..|digits| - 1]) * 10 + DigitValue(digits[|digits| - 1])
  }

  lemma {:induction false} RunShape(s: string)
    ensures DigitRun(s) <= |s|
    ensures forall i | 0 <= i < DigitRun(s) :: IsDigit(s[i])
    ensures DigitRun(s) < |s| ==> !IsDigit(s[DigitRun(s)])
  {
    if s != "" && IsDigit(s[0]) {
      RunShape(s[1..]);
      assert forall i | 1 <= i < DigitRun(s) :: s[i] == s[1..][i - 1];
    }
  }

  /** The part as its text reads, over the unbounded integers. */
  function PartOf(part: string): (p: Part)
    ensures p.num >= 0
  {
    RunShape(part);
    Part(DecValue(part[..DigitRun(part)]), part[DigitRun(part)..])
  }

  /** The part as a 64-bit program holds it. */
  function Stored(p: Part): Part {
    p.(num := Wrap(p.num))
  }

  method SplitVersionPart(part: string) returns (num: int, suffix: string)
    ensures Part(num, suffix) == Stored(PartOf(part))
  {
    num, suffix := 0, "";
    RunShape(part);
    if part == "" {
      return;
    }
    var i := 0;
    while i < |part| && '0' <= part[i] <= '9'
      invariant 0 <= i <= DigitRun(part) <= |part|
      invariant num == Wrap(DecValue(part[..i]))
    {
      assert part[..i + 1][..i] == part[..i];
      WrapMulAdd(DecValue(part[..i]), 10, DigitValue(part[i]));
      num := Wrap(Wrap(num * 10) + (part[i] as int - '0' as int));
      i := i + 1;
    }
    if i < |part| {
      suffix := part[i..];
    }
  }

  /** Part `i` of a version; a version continues with empty parts for ever. */
  function PartAt(v: string, i: nat): (p: Part)
    ensures p.num >= 0
  {
    var parts := Split(v, '.');
    if i < |parts| then PartOf(parts[i]) else Part(0, "")
  }

  /** The same part as a 64-bit program holds it. */
  function Held(v: string, i: nat): Part {
    Stored(PartAt(v, i))
  }

  // ---------- the order ----------

  predicate StrLess(s: string, t: string) {
    t != "" && (s == "" || s[0] < t[0] || (s[0] == t[0] && StrLess(s[1..], t[1..])))
  }

  /** A part without a suffix comes after every part with one: 1.0 follows 1.0-rc1. */
  predicate SuffixLess(s: string, t: string) {
    s != "" && (t == "" || StrLess(s, t))
  }

  predicate PartLess(p: Part, q: Part) {
    p.num < q.num || (p.num == q.num && SuffixLess(p.suffix, q.suffix))
  }

  ghost predicate AgreeUpTo(v: string, w: string, n: nat) {
    forall j: nat | j < n :: PartAt(v, j) == PartAt(w, j)
  }

  /** The first part in which the versions differ decides. */
  ghost predicate BelowAt(v: string, w: string, i: nat) {
    AgreeUpTo(v, w, i) && PartLess(PartAt(v, i), PartAt(w, i))
  }

  ghost predicate Below(v: string, w: string) {
    exists i: nat :: BelowAt(v, w, i)
  }

  ghost predicate Same(v: string, w: string) {
    forall i: nat :: PartAt(v, i) == PartAt(w, i)
  }

  lemma {:induction false} StrLessTrichotomy(s: string, t: string)
    ensures StrLess(s, t) || StrLess(t, s) || s == t
    ensures !(StrLess(s, t) && StrLess(t, s)) && !StrLess(s, s)
  {
    if s == "" {
    } else {
      StrLessTrichotomy(s[1..], s[1..]);
    }
    if s != "" && t != "" {
      StrLessTrichotomy(s[1..], t[1..]);
      assert s == [s[0]] + s[1..] && t == [t[0]] + t[1..];
    }
  }

  lemma {:induction false} StrLessTransitive(s: string, t: string, u: string)
    requires StrLess(s, t) && StrLess(t, u)
    ensures StrLess(s, u)
  {
    if s != "" && s[0] == t[0] == u[0] {
      StrLessTransitive(s[1..], t[1..], u[1..]);
    }
  }

  lemma PartTrichotomy(p: Part, q: Part)
    ensures PartLess(p, q) || PartLess(q, p) || p == q
    ensures !(PartLess(p, q) && PartLess(q, p)) && !PartLess(p, p)
  {
    StrLessTrichotomy(p.suffix, q.suffix);
    StrLessTrichotomy(p.suffix, p.suffix);
  }

  lemma PartTransitive(p: Part, q: Part, r: Part)
    requires PartLess(p, q) && PartLess(q, r)
    ensures PartLess(p, r)
  {
    if StrLess(p.suffix, q.suffix) && StrLess(q.suffix, r.suffix) {
      StrLessTransitive(p.suffix, q.suffix, r.suffix);
    }
  }

  // ---------- comparing ----------

  /** strings.Compare */
  function StringsCompare(s: string, t: string): int {
    if s == t then 0 else if StrLess(s, t) then -1 else 1
  }

  /** One round of the comparison loop; 0 means go on. */
  function ComparePart(p: Part, q: Part): int {
    if p.num != q.num then Wrap(p.num - q.num)
    else if p.suffix != q.suffix then
      if p.suffix == "" then 1
      else if q.suffix == "" then -1
      else StringsCompare(p.suffix, q.suffix)
    else 0
  }

  function Rounds(v1: string, v2: string): nat {
    var n1, n2 := |Split(v1, '.')|, |Split(v2, '.')|;
    if n2 > n1 then n2 else n1
  }

  function CompareFrom(v1: string, v2: string, i: nat): int
    decreases Rounds(v1, v2) - i
  {
    if i >= Rounds(v1, v2) then 0
    else
      var p, q := Held(v1, i), Held(v2, i);
      if p != q then ComparePart(p, q) else CompareFrom(v1, v2, i + 1)
  }

  function Compare(v1: string, v2: string): int {
    CompareFrom(v1, v2, 0)
  }

  lemma NoText()
    ensures PartOf("") == Part(0, "")
  {
    assert DigitRun("") == 0;
    assert ""[..0] == "" && ""[0..] == "";
  }

  /** The text of part `i`, empty past the end. */
  lemma PartIs(v: string, i: nat, p: string)
    requires p == if i < |Split(v, '.')| then Split(v, '.')[i] else ""
    ensures PartAt(v, i) == PartOf(p)
  {
    NoText();
  }

  method CompareVersions(v1: string, v2: string) returns (order: int)
    ensures order == Compare(v1, v2)
  {
    var parts1, parts2 := Split(v1, '.'), Split(v2, '.');
    var maxLen := |parts1|;
    if |parts2| > maxLen {
      maxLen := |parts2|;
    }
    var i := 0;
    while i < maxLen
      invariant 0 <= i <= maxLen
      invariant Compare(v1, v2) == CompareFrom(v1, v2, i)
    {
      var p1, p2 := "", "";
      if i < |parts1| {
        p1 := parts1[i];
      }
      if i < |parts2| {
        p2 := parts2[i];
      }
      var n1, s1 := SplitVersionPart(p1);
      var n2, s2 := SplitVersionPart(p2);
      PartIs(v1, i, p1);
      PartIs(v2, i, p2);
      assert Part(n1, s1) == Held(v1, i) && Part(n2, s2) == Held(v2, i);
      if n1 != n2 {
        return Wrap(n1 - n2);
      }
      if s1 != s2 {
        if s1 == "" {
          return 1;
        }
        if s2 == "" {
          return -1;
        }
        return StringsCompare(s1, s2);
      }
      i := i + 1;
    }
    return 0;
  }

  // ---------- when the 64-bit comparison is the order ----------

  /** No number in the version is held as a negative one. */
  ghost predicate NonNegative(v: string) {
    forall i: nat :: Held(v, i).num >= 0
  }

  /** Every number in the version fits in 63 bits. */
  ghost predicate Representable(v: string) {
    forall i: nat :: PartAt(v, i).num < TWO63
  }

  /** The comparison of two versions has the sign of their order. */
  ghost predicate Faithful(v: string, w: string) {
    && (Compare(v, w) < 0 <==> Below(v, w))
    && (Compare(v, w) > 0 <==> Below(w, v))
    && (Compare(v, w) == 0 <==> Same(v, w))
  }

  lemma ComparePartSign(p: Part, q: Part)
    requires 0 <= p.num < TWO63 && 0 <= q.num < TWO63
    ensures ComparePart(p, q) < 0 <==> PartLess(p, q)
    ensures ComparePart(p, q) > 0 <==> PartLess(q, p)
  {
    StrLessTrichotomy(p.suffix, q.suffix);
  }

  lemma BelowExcludes(v: string, w: string, i: nat)
    requires BelowAt(v, w, i)
    ensures Below(v, w) && !Below(w, v) && !Same(v, w)
  {
    PartTrichotomy(PartAt(v, i), PartAt(w, i));
    if Below(w, v) {
      var j: nat :| BelowAt(w, v, j);
      PartTrichotomy(PartAt(v, j), PartAt(w, j));
    }
  }

  lemma SameIsNotBelow(v: string, w: string)
    requires Same(v, w)
    ensures !Below(v, w) && !Below(w, v)
  {
    forall i: nat {
      PartTrichotomy(PartAt(v, i), PartAt(v, i));
    }
  }

  lemma PastTheEnd(v: string, w: string, i: nat)
    requires i >= Rounds(v, w) && AgreeUpTo(v, w, i)
    ensures Same(v, w)
  {
    forall j: nat
      ensures PartAt(v, j) == PartAt(w, j)
    {
    }
  }

  lemma {:induction false} CompareFromMeaning(v: string, w: string, i: nat)
    requires Representable(v) && Representable(w)
    requires AgreeUpTo(v, w, i)
    ensures var c := CompareFrom(v, w, i);
            && (c < 0 <==> Below(v, w))
            && (c > 0 <==> Below(w, v))
            && (c == 0 <==> Same(v, w))
    decreases Rounds(v, w) - i
  {
    var p, q := PartAt(v, i), PartAt(w, i);
    if i >= Rounds(v, w) {
      PastTheEnd(v, w, i);
      SameIsNotBelow(v, w);
    } else if p != q {
      PartTrichotomy(p, q);
      ComparePartSign(p, q);
      assert Stored(p) == p && Stored(q) == q;
      if PartLess(p, q) {
        BelowExcludes(v, w, i);
      } else {
        BelowExcludes(w, v, i);
      }
    } else {
      CompareFromMeaning(v, w, i + 1);
    }
  }

  /** On versions whose numbers fit, the comparison is the order. */
  lemma CompareMeaning(v: string, w: string)
    requires Representable(v) && Representable(w)
    ensures Faithful(v, w)
  {
    CompareFromMeaning(v, w, 0);
  }

  // ---------- the order is a total preorder ----------

  lemma BelowTransitive(a: string, b: string, c: string)
    requires Below(a, b) && Below(b, c)
    ensures Below(a, c)
  {
    var i: nat :| BelowAt(a, b, i);
    var j: nat :| BelowAt(b, c, j);
    if i == j {
      PartTransitive(PartAt(a, i), PartAt(b, i), PartAt(c, i));
    }
    assert BelowAt(a, c, if i < j then i else j);
  }

  lemma SameBelow(a: string, b: string, c: string)
    requires Same(a, b)
    ensures Below(a, c) <==> Below(b, c)
    ensures Below(c, a) <==> Below(c, b)
  {
    if i: nat :| BelowAt(a, c, i) {
      assert BelowAt(b, c, i);
    }
    if i: nat :| BelowAt(b, c, i) {
      assert BelowAt(a, c, i);
    }
    if i: nat :| BelowAt(c, a, i) {
      assert BelowAt(c, b, i);
    }
    if i: nat :| BelowAt(c, b, i) {
      assert BelowAt(c, a, i);
    }
  }

  /** What sorting needs of a comparison, for three versions. */
  ghost predicate Lawful(a: string, b: string, c: string) {
    && Compare(a, a) == 0
    && (Compare(a, b) < 0 <==> Compare(b, a) > 0)
    && (Compare(a, b) <= 0 && Compare(b, c) <= 0 ==> Compare(a, c) <= 0)
    && (Compare(a, b) <= 0 && Compare(b, c) < 0 ==> Compare(a, c) < 0)
    && (Compare(a, b) < 0 && Compare(b, c) <= 0 ==> Compare(a, c) < 0)
  }

  lemma FittingIsLawful(a: string, b: string, c: string)
    requires Representable(a) && Representable(b) && Representable(c)
    ensures Lawful(a, b, c)
  {
    CompareMeaning(a, a);
    CompareMeaning(a, b);
    CompareMeaning(b, a);
    CompareMeaning(b, c);
    CompareMeaning(a, c);
    if Same(a, b) {
      SameBelow(a, b, c);
    }
    if Same(b, c) {
      SameBelow(b, c, a);
    }
    if Below(a, b) && Below(b, c) {
      BelowTransitive(a, b, c);
    }
  }

  // ---------- when numbers fit ----------

  function Pow10(n: nat): nat {
    if n == 0 then 1 else 10 * Pow10(n - 1)
  }

  lemma {:induction false} DecValueBound(digits: string)
    ensures DecValue(digits) < Pow10(|digits|)
  {
    if digits == "" {
    } else {
      DecValueBound(digits[..|digits| - 1]);
    }
  }

  lemma {:induction false} Pow10Monotonic(m: nat, n: nat)
    requires m <= n
    ensures Pow10(m) <= Pow10(n)
  {
    if m >= n {
    } else {
      Pow10Monotonic(m, n - 1);
    }
  }

  /** Eighteen digits always fit. */
  lemma EighteenDigitsFit(v: string)
    requires forall i: int | 0 <= i < |Split(v, '.')| :: DigitRun(Split(v, '.')[i]) <= 18
    ensures Representable(v)
  {
    forall i: nat
      ensures PartAt(v, i).num < TWO63
    {
      var parts := Split(v, '.');
      if i < |parts| {
        RunShape(parts[i]);
        DecValueBound(parts[i][..DigitRun(parts[i])]);
        Pow10Monotonic(DigitRun(parts[i]), 18);
        assert Pow10(9) == 1_000_000_000;
        assert Pow10(18) == 1_000_000_000_000_000_000;
      }
    }
  }

  // ---------- and only then ----------

  function Decimal(n: nat): string {
    if n < 10 then [(n + '0' as int) as char] else Decimal(n / 10) + [(n % 10 + '0' as int) as char]
  }

  predicate AllDigits(s: string) {
    forall i | 0 <= i < |s| :: IsDigit(s[i])
  }

  lemma {:induction false} DecimalValue(n: nat)
    ensures AllDigits(Decimal(n)) && DecValue(Decimal(n)) == n && '.' !in Decimal(n)
  {
    if n >= 10 {
      DecimalValue(n / 10);
      assert Decimal(n)[..|Decimal(n)| - 1] == Decimal(n / 10);
    } else {
      assert Decimal(n)[..0] == "";
    }
  }

  lemma {:induction false} RunOf(digits: string, rest: string)
    requires AllDigits(digits) && (rest == "" || !IsDigit(rest[0]))
    ensures DigitRun(digits + rest) == |digits|
  {
    if digits == "" {
      assert digits + rest == rest;
    } else {
      assert (digits + rest)[1..] == digits[1..] + rest;
      RunOf(digits[1..], rest);
    }
  }

  /** A part that reads as `n` without suffix. */
  lemma DecimalPart(n: nat)
    ensures PartOf(Decimal(n)) == Part(n, "") && '.' !in Decimal(n)
  {
    DecimalValue(n);
    RunOf(Decimal(n), "");
    assert Decimal(n) + "" == Decimal(n);
    assert Decimal(n)[..|Decimal(n)|] == Decimal(n);
  }

  // ---------- a version for given parts ----------

  /** A part a version can hold with a number that fits. */
  predicate Writable(p: Part) {
    0 <= p.num < TWO63 && '.' !in p.suffix && (p.suffix == "" || !IsDigit(p.suffix[0]))
  }

  function Written(p: Part): string
    requires p.num >= 0
  {
    Decimal(p.num) + p.suffix
  }

  lemma WrittenReadsBack(p: Part)
    requires Writable(p)
    ensures PartOf(Written(p)) == p && '.' !in Written(p)
  {
    var digits := Decimal(p.num);
    DecimalValue(p.num);
    RunOf(digits, p.suffix);
    assert Written(p)[..|digits|] == digits && Written(p)[|digits|..] == p.suffix;
  }

  lemma HeldWritable(v: string, i: nat)
    requires Held(v, i).num >= 0
    ensures Writable(Held(v, i))
  {
    var parts := Split(v, '.');
    SplitShape(v, '.');
    if i < |parts| {
      RunShape(parts[i]);
    }
  }

  function AllWritten(parts: seq<Part>): (texts: seq<string>)
    requires forall k | 0 <= k < |parts| :: parts[k].num >= 0
    ensures |texts| == |parts|
    ensures forall k | 0 <= k < |parts| :: texts[k] == Written(parts[k])
  {
    seq(|parts|, k requires 0 <= k < |parts| => Written(parts[k]))
  }

  lemma FromParts(parts: seq<Part>) returns (w: string)
    requires parts != [] && forall k | 0 <= k < |parts| :: Writable(parts[k])
    ensures Representable(w) && |Split(w, '.')| == |parts|
    ensures forall j: nat | j < |parts| :: PartAt(w, j) == parts[j]
  {
    var texts := AllWritten(parts);
    forall k | 0 <= k < |parts|
      ensures PartOf(texts[k]) == parts[k] && '.' !in texts[k]
    {
      WrittenReadsBack(parts[k]);
    }
    SplitJoin(texts, '.');
    w := Join(texts, '.');
  }

  /** The first `i` parts of `v` as they are stored. */
  function HeldParts(v: string, i: nat): (parts: seq<Part>)
    ensures |parts| == i
    ensures forall j: nat | j < i :: parts[j] == Held(v, j)
  {
    seq(i, (j: int) requires 0 <= j < i => Held(v, j))
  }

  /** The first `i` parts of `v` as they are stored, then the given ones. */
  lemma Prefixed(v: string, i: nat, more: seq<Part>) returns (w: string)
    requires more != [] && (forall j: nat | j < i :: Held(v, j).num >= 0)
    requires forall k | 0 <= k < |more| :: Writable(more[k])
    ensures Representable(w) && |Split(w, '.')| == i + |more|
    ensures forall j: nat | j < i :: PartAt(w, j) == Held(v, j)
    ensures forall j: nat | i <= j < i + |more| :: PartAt(w, j) == more[j - i]
  {
    forall j: nat | j < i {
      HeldWritable(v, j);
    }
    w := FromParts(HeldParts(v, i) + more);
  }

  /** A representable number the stored part of `v` is compared below, or equal to. */
  function Cap(v: string, j: nat): (n: nat)
    ensures n < TWO63
  {
    if Wrap(PartAt(v, j).num) >= -1 then MAX else 0
  }

  function Caps(v: string, from: nat, count: nat): (caps: seq<Part>)
    ensures |caps| == count
    ensures forall k | 0 <= k < count :: caps[k] == Part(Cap(v, from + k), "")
    decreases count
  {
    if count == 0 then [] else [Part(Cap(v, from), "")] + Caps(v, from + 1, count - 1)
  }

  /** Against such a number in every remaining part, and in one part more than `v` has,
      the comparison says "smaller". */
  lemma {:induction false} CappedIsLess(v: string, w: string, i: nat)
    requires |Split(w, '.')| == |Split(v, '.')| + 1 && i < |Split(w, '.')|
    requires forall j: nat | i <= j < |Split(w, '.')| :: PartAt(w, j) == Part(Cap(v, j), "")
    ensures CompareFrom(v, w, i) < 0
    decreases |Split(w, '.')| - i
  {
    var p, q := Stored(PartAt(v, i)), Stored(PartAt(w, i));
    assert q == Part(Cap(v, i), "");
    if p == q {
      CappedIsLess(v, w, i + 1);
    }
  }

  ghost predicate HeldAgree(v: string, w: string, n: nat) {
    forall j: nat | j < n :: Held(v, j) == Held(w, j)
  }

  lemma {:induction false} SkipAgreed(v: string, w: string, i: nat)
    requires HeldAgree(v, w, i) && i <= Rounds(v, w)
    ensures Compare(v, w) == CompareFrom(v, w, i)
  {
    if i == 0 {
    } else {
      SkipAgreed(v, w, i - 1);
    }
  }

  lemma {:induction false} FirstUnrepresentable(v: string, n: nat) returns (i: nat)
    requires PartAt(v, n).num >= TWO63
    ensures PartAt(v, i).num >= TWO63
    ensures forall j: nat | j < i :: PartAt(v, j).num < TWO63
  {
    if j: nat :| j < n && PartAt(v, j).num >= TWO63 {
      i := FirstUnrepresentable(v, j);
    } else {
      i := n;
    }
  }

  /** A version with a number that does not fit is ordered wrongly against some version that fits. */
  lemma Unrepresentable(v: string) returns (w: string)
    requires !Representable(v)
    ensures Representable(w) && Below(w, v) && Compare(v, w) < 0
  {
    var n: nat :| PartAt(v, n).num >= TWO63;
    var i := FirstUnrepresentable(v, n);
    w := Prefixed(v, i, Caps(v, i, |Split(v, '.')| + 1 - i));
    CappedIsLess(v, w, i);
    SkipAgreed(v, w, i);
    assert BelowAt(w, v, i);
  }

  /** The exact condition: a version is compared faithfully with every version that fits
      if and only if its own numbers fit. */
  lemma RepresentableIsExact(v: string)
    ensures Representable(v) <==> forall w | Representable(w) :: Faithful(v, w)
  {
    if Representable(v) {
      forall w | Representable(w)
        ensures Faithful(v, w)
      {
        CompareMeaning(v, w);
      }
    } else {
      var w := Unrepresentable(v);
      var i: nat :| BelowAt(w, v, i);
      BelowExcludes(w, v, i);
    }
  }

  // ---------- when the comparison is an order at all ----------

  lemma {:induction false} CompareAlike(v: string, w: string, v2: string, w2: string, i: nat)
    requires |Split(v, '.')| == |Split(v2, '.')| && |Split(w, '.')| == |Split(w2, '.')|
    requires forall j: nat | j < Rounds(v, w) :: Held(v, j) == Held(v2, j) && Held(w, j) == Held(w2, j)
    ensures CompareFrom(v, w, i) == CompareFrom(v2, w2, i)
    decreases Rounds(v, w) - i
  {
    if i >= Rounds(v, w) {
    } else {
      CompareAlike(v, w, v2, w2, i + 1);
    }
  }

  /** The comparison cannot tell the two versions apart. */
  ghost predicate Alike(v: string, w: string) {
    |Split(v, '.')| == |Split(w, '.')| && forall j: nat :: Held(v, j) == Held(w, j)
  }

  lemma StoredTwice(p: Part)
    ensures Stored(Stored(p)) == Stored(p)
  {
  }

  lemma AlikeAt(v: string, w: string, j: nat)
    requires |Split(v, '.')| == |Split(w, '.')|
    requires j < |Split(v, '.')| ==> PartAt(w, j) == Held(v, j)
    ensures Held(v, j) == Held(w, j)
  {
    StoredTwice(PartAt(v, j));
  }

  /** The parts of a version as they are stored, written out. */
  lemma WrittenOut(v: string) returns (w: string)
    requires NonNegative(v)
    ensures Representable(w) && |Split(w, '.')| == |Split(v, '.')|
    ensures forall j: nat | j < |Split(v, '.')| :: PartAt(w, j) == Held(v, j)
  {
    var n := |Split(v, '.')|;
    forall j: nat | j < n {
      HeldWritable(v, j);
    }
    w := FromParts(HeldParts(v, n));
  }

  /** A version whose stored numbers are not negative compares like one whose numbers fit. */
  lemma Canonical(v: string) returns (w: string)
    requires NonNegative(v)
    ensures Representable(w) && Alike(v, w)
  {
    w := WrittenOut(v);
    forall j: nat
      ensures Held(v, j) == Held(w, j)
    {
      AlikeAt(v, w, j);
    }
  }

  /** compareVersions is a total preorder on versions with no number held as a negative one,
      whatever their lengths. */
  lemma CompareIsTotalPreorder(a: string, b: string, c: string)
    requires NonNegative(a) && NonNegative(b) && NonNegative(c)
    ensures Lawful(a, b, c)
  {
    var a2 := Canonical(a);
    var b2 := Canonical(b);
    var c2 := Canonical(c);
    CompareAlike(a, a, a2, a2, 0);
    CompareAlike(a, b, a2, b2, 0);
    CompareAlike(b, a, b2, a2, 0);
    CompareAlike(b, c, b2, c2, 0);
    CompareAlike(a, c, a2, c2, 0);
    FittingIsLawful(a2, b2, c2);
  }

  lemma FirstDifference(v: string, w: string, i: nat)
    requires HeldAgree(v, w, i) && i < Rounds(v, w) && Held(v, i) != Held(w, i)
    ensures Compare(v, w) == ComparePart(Held(v, i), Held(w, i))
  {
    SkipAgreed(v, w, i);
  }

  lemma {:induction false} FirstNegative(v: string, n: nat) returns (i: nat)
    requires Held(v, n).num < 0
    ensures Held(v, i).num < 0 && i < |Split(v, '.')|
    ensures forall j: nat | j < i :: Held(v, j).num >= 0
  {
    if j: nat :| j < n && Held(v, j).num < 0 {
      i := FirstNegative(v, j);
    } else {
      i := n;
    }
  }

  /** 0 is below the largest number, which is below every negative one, which is below 0. */
  predicate CycleStep(m: int, n: int) {
    (m == 0 && n == MAX) || (m == MAX && n < 0) || (m < 0 && n == 0)
  }

  lemma CycleOfParts(p: Part, q: Part)
    requires Fits64(p.num) && Fits64(q.num) && CycleStep(p.num, q.num)
    ensures ComparePart(p, q) < 0
  {
    if p.num == MAX {
      WrapOnce(MAX - q.num);
    }
  }

  lemma CycleAt(v: string, w: string, i: nat)
    requires HeldAgree(v, w, i) && i < Rounds(v, w) && CycleStep(Held(v, i).num, Held(w, i).num)
    ensures Compare(v, w) < 0
  {
    CycleOfParts(Held(v, i), Held(w, i));
    FirstDifference(v, w, i);
  }

  /** The version that is held like `v` in the first `i` parts and ends with the given number. */
  lemma Ending(v: string, i: nat, num: nat) returns (w: string)
    requires num < TWO63 && forall j: nat | j < i :: Held(v, j).num >= 0
    ensures Representable(w) && |Split(w, '.')| == i + 1
    ensures HeldAgree(v, w, i) && Held(w, i) == Part(num, "")
  {
    w := Prefixed(v, i, [Part(num, "")]);
  }

  /** A number held as a negative one puts its version on a cycle with two whose numbers fit. */
  lemma NegativeMakesCycle(v: string) returns (low: string, high: string)
    requires !NonNegative(v)
    ensures Representable(low) && Representable(high)
    ensures Compare(low, high) < 0 && Compare(high, v) < 0 && Compare(v, low) < 0
  {
    var n: nat :| Held(v, n).num < 0;
    var i := FirstNegative(v, n);
    low := Ending(v, i, 0);
    high := Ending(v, i, MAX);
    CycleAt(low, high, i);
    CycleAt(high, v, i);
    CycleAt(v, low, i);
  }

  lemma RepresentableIsNonNegative(v: string)
    requires Representable(v)
    ensures NonNegative(v)
  {
  }

  /** The exact condition: the laws hold between a version and all others of its kind
      if and only if none of its numbers is held as a negative one. */
  lemma NonNegativeIsExact(v: string)
    ensures NonNegative(v) <==> forall a, c | NonNegative(a) && NonNegative(c) :: Lawful(a, v, c)
  {
    if NonNegative(v) {
      forall a, c | NonNegative(a) && NonNegative(c)
        ensures Lawful(a, v, c)
      {
        CompareIsTotalPreorder(a, v, c);
      }
    } else {
      var low, high := NegativeMakesCycle(v);
      RepresentableIsNonNegative(low);
      RepresentableIsNonNegative(high);
      FittingIsLawful(high, low, low);
      FittingIsLawful(low, high, low);
      assert !Lawful(high, v, low);
    }
  }

  // ---------- what the order is for ----------

  /** A version of the given parts. */
  function Dotted(parts: seq<string>): string {
    Join(parts, '.')
  }

  lemma LastPart(before: seq<string>, part: string)
    requires Free(before, '.') && '.' !in part
    ensures var v := Dotted(before + [part]);
            |Split(v, '.')| == |before| + 1 && PartAt(v, |before|) == PartOf(part)
            && forall j: nat | j < |before| :: PartAt(v, j) == PartOf(before[j])
  {
    SplitJoin(before + [part], '.');
  }

  /** The first part that is held differently decides. */
  lemma LastDecides(before: seq<string>, a: string, b: string)
    requires Free(before, '.') && '.' !in a && '.' !in b && Stored(PartOf(a)) != Stored(PartOf(b))
    ensures Compare(Dotted(before + [a]), Dotted(before + [b])) == ComparePart(Stored(PartOf(a)), Stored(PartOf(b)))
  {
    LastPart(before, a);
    LastPart(before, b);
    FirstDifference(Dotted(before + [a]), Dotted(before + [b]), |before|);
  }

  lemma NumberWithSuffix(n: nat, suffix: string)
    requires n < TWO63 && Writable(Part(n, suffix))
    ensures PartOf(Decimal(n) + suffix) == Part(n, suffix) && '.' !in Decimal(n) + suffix
  {
    WrittenReadsBack(Part(n, suffix));
  }

  /** Numbers are compared as numbers: 1.9 comes before 1.10, whatever follows the number. */
  lemma NumbersAreCompared(before: seq<string>, m: nat, n: nat, s: string, t: string)
    requires Free(before, '.') && m < n < TWO63 && Writable(Part(m, s)) && Writable(Part(n, t))
    ensures Compare(Dotted(before + [Decimal(m) + s]), Dotted(before + [Decimal(n) + t])) < 0
  {
    NumberWithSuffix(m, s);
    NumberWithSuffix(n, t);
    LastDecides(before, Decimal(m) + s, Decimal(n) + t);
  }

  /** A release comes after everything that only adds a suffix to it: 1.0-rc1 before 1.0. */
  lemma ReleaseComesLast(before: seq<string>, n: nat, suffix: string)
    requires Free(before, '.') && n < TWO63 && Writable(Part(n, suffix)) && suffix != ""
    ensures Compare(Dotted(before + [Decimal(n) + suffix]), Dotted(before + [Decimal(n)])) < 0
    ensures Compare(Dotted(before + [Decimal(n)]), Dotted(before + [Decimal(n) + suffix])) > 0
  {
    NumberWithSuffix(n, suffix);
    NumberWithSuffix(n, "");
    assert Decimal(n) + "" == Decimal(n);
    LastDecides(before, Decimal(n) + suffix, Decimal(n));
    LastDecides(before, Decimal(n), Decimal(n) + suffix);
  }

  /** One text comes before another when it is a proper beginning of it, or smaller at the first difference. */
  ghost predicate Lexicographic(s: string, t: string) {
    exists k: nat | k <= |s| && k < |t| :: s[..k] == t[..k] && (k == |s| || s[k] < t[k])
  }

  lemma {:induction false} StrLessMeaning(s: string, t: string)
    ensures StrLess(s, t) <==> Lexicographic(s, t)
  {
    if t == "" || s == "" {
      assert t != "" ==> s[..0] == t[..0];
    } else if s[0] != t[0] {
      assert s[..0] == t[..0];
    } else {
      StrLessMeaning(s[1..], t[1..]);
      if Lexicographic(s[1..], t[1..]) {
        var k: nat :| k <= |s[1..]| && k < |t[1..]| && s[1..][..k] == t[1..][..k]
                      && (k == |s[1..]| || s[1..][k] < t[1..][k]);
        assert s[..k + 1] == [s[0]] + s[1..][..k] && t[..k + 1] == [t[0]] + t[1..][..k];
      }
      if Lexicographic(s, t) {
        var k: nat :| k <= |s| && k < |t| && s[..k] == t[..k] && (k == |s| || s[k] < t[k]);
        assert s[1..][..k - 1] == s[..k][1..] && t[1..][..k - 1] == t[..k][1..];
      }
    }
  }

  /** Suffixes of the same number are compared as texts: 1.0-alpha before 1.0-beta. */
  lemma SuffixesAreTexts(before: seq<string>, n: nat, s: string, t: string)
    requires Free(before, '.') && n < TWO63 && Writable(Part(n, s)) && Writable(Part(n, t))
    requires s != "" && Lexicographic(s, t)
    ensures Compare(Dotted(before + [Decimal(n) + s]), Dotted(before + [Decimal(n) + t])) < 0
  {
    StrLessMeaning(s, t);
    StrLessTrichotomy(s, t);
    NumberWithSuffix(n, s);
    NumberWithSuffix(n, t);
    LastDecides(before, Decimal(n) + s, Decimal(n) + t);
  }

  /** A further zero makes no difference: 1.2 and 1.2.0 are the same version. */
  lemma TrailingZero(parts: seq<string>)
    requires parts != [] && Free(parts, '.')
    ensures Compare(Dotted(parts), Dotted(parts + ["0"])) == 0
  {
    var v, w := Dotted(parts), Dotted(parts + ["0"]);
    SplitJoin(parts, '.');
    DecimalPart(0);
    assert Decimal(0) == "0";
    LastPart(parts, "0");
    SkipAgreed(v, w, |parts| + 1);
  }

  lemma DecDigits(digits: string, d: char)
    requires IsDigit(d)
    ensures DecValue(digits + [d]) == DecValue(digits) * 10 + (d as int - '0' as int)
  {
    assert (digits + [d])[..|digits|] == digits;
  }

  /** Digits are read in base ten, most significant first, and the rest is the suffix. */
  lemma ThreeDigits(a: char, b: char, c: char, suffix: string)
    requires IsDigit(a) && IsDigit(b) && IsDigit(c) && (suffix == "" || !('0' <= suffix[0] <= '9'))
    ensures PartOf([a, b, c] + suffix)
            == Part(100 * (a as int - 48) + 10 * (b as int - 48) + (c as int - 48), suffix)
  {
    var digits := [a, b, c];
    RunOf(digits, suffix);
    assert (digits + suffix)[..3] == digits && (digits + suffix)[3..] == suffix;
    assert [] + [a] == [a] && [a] + [b] == [a, b] && [a, b] + [c] == digits;
    DecDigits([], a);
    DecDigits([a], b);
    DecDigits([a, b], c);
  }

  // ---------- inputs that break it ----------

  lemma SinglePart(n: nat)
    ensures Split(Decimal(n), '.') == [Decimal(n)] && PartAt(Decimal(n), 0) == Part(n, "")
  {
    DecimalPart(n);
    SplitJoin([Decimal(n)], '.');
  }

  lemma FirstPartDecides(v: string, w: string)
    requires Stored(PartAt(v, 0)) != Stored(PartAt(w, 0))
    ensures Compare(v, w) == ComparePart(Stored(PartAt(v, 0)), Stored(PartAt(w, 0)))
  {
  }

  lemma OverflowedPart(p: Part, q: Part)
    requires TWO63 <= p.num < 2 * TWO63 && q.num == 0
    ensures ComparePart(Stored(p), Stored(q)) < 0 && Stored(p) != Stored(q)
  {
    WrapOnce(p.num);
  }

  lemma OverflowedRanksLow(big: string, small: string)
    requires TWO63 <= PartAt(big, 0).num < 2 * TWO63 && PartAt(small, 0) == Part(0, "")
    ensures Below(small, big) && Compare(big, small) < 0
  {
    OverflowedPart(PartAt(big, 0), PartAt(small, 0));
    FirstPartDecides(big, small);
    assert BelowAt(small, big, 0);
  }

  /** The numbers from 2^63 to 2^64 - 1, 9223372036854775808 the first of them,
      are read as negative numbers and rank below 0. */
  lemma OverflowCounterexample(n: nat)
    requires TWO63 <= n < 2 * TWO63
    ensures Below(Decimal(0), Decimal(n)) && Compare(Decimal(n), Decimal(0)) < 0
  {
    SinglePart(n);
    SinglePart(0);
    OverflowedRanksLow(Decimal(n), Decimal(0));
  }

  /** Either of 9223372036854775808 and 0 is ranked below the other. */
  lemma AntisymmetryFails()
    ensures Compare(Decimal(TWO63), Decimal(0)) < 0 && Compare(Decimal(0), Decimal(TWO63)) < 0
  {
    SinglePart(TWO63);
    SinglePart(0);
    WrapOnce(TWO63);
    FirstPartDecides(Decimal(TWO63), Decimal(0));
    FirstPartDecides(Decimal(0), Decimal(TWO63));
  }
}
