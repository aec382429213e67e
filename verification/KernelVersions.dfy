/** Kernel version types (src/ldfd/forge/generic.go) against the kernel-lts preset
    (src/ldfd/forge/filter.go). */
module KernelVersions {
  import opened Text
  import opened Glob
  import opened Versions
  import opened VersionFilters

  const LTS_VERSIONS: seq<string> := ["6.12", "6.6", "6.1", "5.15", "5.10", "5.4", "4.19", "4.14"]

  /** The text "6.12.*,6.6.*,6.1.*,5.15.*,5.10.*,5.4.*,4.19.*,4.14.*,!*-rc*", item by item. */
  const KERNEL_LTS :=
    "6.12.*" + "," + ("6.6.*" + "," + ("6.1.*" + "," + ("5.15.*" + "," + (
    "5.10.*" + "," + ("5.4.*" + "," + ("4.19.*" + "," + ("4.14.*" + "," + "!*-rc*")))))))

  function DetermineKernelVersionType(version: string): VersionType {
    var lower := ToLower(version);
    if "next-" <= lower then LinuxNext
    else if Contains(lower, "-rc") then Mainline
    else
      var parts := Split(version, '.');
      if |parts| >= 2 && parts[0] + "." + parts[1] in LTS_VERSIONS then Longterm
      else Stable
  }

  const LTS_PATTERNS: seq<string> :=
    ["6.12.*", "6.6.*", "6.1.*", "5.15.*", "5.10.*", "5.4.*", "4.19.*", "4.14.*"]

  /** Digits and dots only: what a series looks like, and what lower-casing leaves alone. */
  predicate Numeric(s: string) {
    forall i | 0 <= i < |s| :: s[i] == '.' || '0' <= s[i] <= '9'
  }

  lemma NumericPrefixOfLower(s: string, v: string)
    requires Numeric(s)
    ensures s <= ToLower(v) <==> s <= v
  {
    if s <= ToLower(v) {
      forall i | 0 <= i < |s|
        ensures s[i] == v[i]
      {
        assert s[i] == ToLower(v)[i] == LowerChar(v[i]);
      }
    }
  }

  /** The two halves of a series. */
  lemma SeriesShape(n: int) returns (a: string, b: string)
    requires 0 <= n < |LTS_VERSIONS|
    ensures LTS_VERSIONS[n] == a + "." + b
    ensures a != "" && '.' !in a && '.' !in b && Numeric(LTS_VERSIONS[n])
    ensures LTS_PATTERNS[n] == LTS_VERSIONS[n] + "." + "*" && '-' !in LTS_VERSIONS[n]
  {
    var s := LTS_VERSIONS[n];
    a, b := s[..1], s[2..];
    assert n == 0 || n == 1 || n == 2 || n == 3 || n == 4 || n == 5 || n == 6 || n == 7;
    assert s == a + "." + b;
  }

  lemma TwoPartsAre(v: string)
    requires |Split(v, '.')| >= 2
    ensures var parts := Split(v, '.'); var s := parts[0] + "." + parts[1];
            if |parts| == 2 then v == s else s + "." <= v
  {
    var parts := Split(v, '.');
    SplitShape(v, '.');
    if |parts| == 2 {
      assert parts[1..] == [parts[1]];
    } else {
      assert parts[1..][1..] == parts[2..];
      assert v == parts[0] + "." + (parts[1] + "." + Join(parts[2..], '.'));
      assert v == (parts[0] + "." + parts[1]) + "." + Join(parts[2..], '.');
    }
  }

  lemma SplitOfTwo(a: string, b: string)
    requires '.' !in a && '.' !in b
    ensures Split(a + "." + b, '.') == [a, b]
  {
    assert [a, b][1..] == [b];
    SplitJoin([a, b], '.');
  }

  lemma SplitOfMore(a: string, b: string, rest: string)
    requires '.' !in a && '.' !in b
    ensures Split(a + "." + b + "." + rest, '.') == [a, b] + Split(rest, '.')
  {
    var more := Split(rest, '.');
    SplitShape(rest, '.');
    var all := [a, b] + more;
    assert all[1..] == [b] + more && all[1..][1..] == more;
    assert a + "." + (b + "." + rest) == a + "." + b + "." + rest;
    SplitJoin(all, '.');
  }

  /** Splitting and taking the first two parts finds `a.b` exactly on `a.b` itself
      and on what extends it by a further dot. */
  lemma FirstTwoParts(a: string, b: string, v: string)
    requires '.' !in a && '.' !in b
    ensures var parts := Split(v, '.'); var s := a + "." + b;
            (|parts| >= 2 && parts[0] + "." + parts[1] == s) <==> (v == s || s + "." <= v)
    ensures a + "." + b + "." <= v ==> |Split(v, '.')| >= 3
    ensures Split(a + "." + b, '.') == [a, b]
  {
    var s := a + "." + b;
    SplitOfTwo(a, b);
    if |Split(v, '.')| >= 2 {
      TwoPartsAre(v);
    }
    if s + "." <= v {
      var rest := v[|s| + 1..];
      assert v == s + "." + rest;
      SplitOfMore(a, b, rest);
    }
  }

  lemma JoinCons(p: string, rest: seq<string>)
    requires rest != []
    ensures Join([p] + rest, ',') == p + "," + Join(rest, ',')
  {
    assert ([p] + rest)[1..] == rest;
  }

  lemma PresetPrinted()
    ensures Join(LTS_PATTERNS + ["!*-rc*"], ',') == KERNEL_LTS
  {
    var a := ["4.14.*"] + ["!*-rc*"];
    var b := ["4.19.*"] + a;
    var c := ["5.4.*"] + b;
    var d := ["5.10.*"] + c;
    var e := ["5.15.*"] + d;
    var f := ["6.1.*"] + e;
    var g := ["6.6.*"] + f;
    JoinCons("4.14.*", ["!*-rc*"]);
    JoinCons("4.19.*", a);
    JoinCons("5.4.*", b);
    JoinCons("5.10.*", c);
    JoinCons("5.15.*", d);
    JoinCons("6.1.*", e);
    JoinCons("6.6.*", f);
    JoinCons("6.12.*", g);
    assert ["6.12.*"] + g == LTS_PATTERNS + ["!*-rc*"];
  }

  lemma PresetWellformed()
    ensures AllWellformed(LTS_PATTERNS) && AllReadBack(LTS_PATTERNS)
  {
    forall n | 0 <= n < |LTS_PATTERNS|
      ensures Wellformed(LTS_PATTERNS[n]) && ReadsBack(LTS_PATTERNS[n])
    {
      var a, b := SeriesShape(n);
      assert LTS_PATTERNS[n][0] == LTS_VERSIONS[n][0];
    }
  }

  lemma BangRc()
    ensures Bang(["*-rc*"]) == ["!*-rc*"]
  {
    assert "!" + "*-rc*" == "!*-rc*";
    assert Bang(["*-rc*"])[0] == "!" + "*-rc*";
  }

  lemma ReadText(f: Filter, bangs: seq<string>, text: string)
    requires AllWellformed(f.includes) && AllWellformed(f.excludes) && AllReadBack(f.includes)
    requires bangs == Bang(f.excludes) && text == Join(f.includes + bangs, ',')
    ensures Parsed(text) == f
  {
    PrintedReadsBack(f);
  }

  /** The preset text, read by the parser. */
  lemma PresetParses()
    ensures Parsed(KERNEL_LTS) == Filter(LTS_PATTERNS, ["*-rc*"])
  {
    PresetWellformed();
    BangRc();
    PresetPrinted();
    ReadText(Filter(LTS_PATTERNS, ["*-rc*"]), ["!*-rc*"], KERNEL_LTS);
  }

  lemma SeriesPattern(n: int, v: string)
    requires 0 <= n < |LTS_VERSIONS|
    ensures Matching(LTS_PATTERNS[n], v) <==> LTS_VERSIONS[n] + "." <= v
  {
    var a, b := SeriesShape(n);
    var s := LTS_VERSIONS[n] + ".";
    assert IsLower(LTS_PATTERNS[n]);
    LowerOfLower(LTS_PATTERNS[n]);
    PrefixPattern(s, ToLower(v));
    NumericPrefixOfLower(s, v);
  }

  lemma NoNext(n: int, v: string)
    requires 0 <= n < |LTS_VERSIONS| && LTS_VERSIONS[n] <= v
    ensures !("next-" <= ToLower(v))
  {
    var a, b := SeriesShape(n);
    assert ToLower(v)[0] == LowerChar(LTS_VERSIONS[n][0]);
  }

  lemma NoRc(n: int)
    requires 0 <= n < |LTS_VERSIONS|
    ensures !Contains(ToLower(LTS_VERSIONS[n]), "-rc")
  {
    var a, b := SeriesShape(n);
    var s := LTS_VERSIONS[n];
    forall i | 0 <= i <= |s|
      ensures !OccursAt(ToLower(s), "-rc", i)
    {
      if i + 3 <= |s| {
        assert ToLower(s)[i..i + 3][0] == LowerChar(s[i]);
      }
    }
  }

  lemma RcPattern(v: string)
    ensures MatchesAny(["*-rc*"], v) <==> Contains(ToLower(v), "-rc")
  {
    assert IsLower("*-rc*") && "*-rc*" == "*" + "-rc" + "*";
    LowerOfLower("*-rc*");
    InfixPattern("-rc", ToLower(v));
    assert Matching(["*-rc*"][0], v) <==> Contains(ToLower(v), "-rc");
  }

  /** Is `v` in one of the series? */
  ghost predicate InSeries(v: string) {
    exists n | 0 <= n < |LTS_VERSIONS| :: LTS_VERSIONS[n] + "." <= v
  }

  lemma LongtermIsInSeries(v: string)
    requires DetermineKernelVersionType(v) == Longterm
    ensures !Contains(ToLower(v), "-rc") && (InSeries(v) || v in LTS_VERSIONS)
  {
    var parts := Split(v, '.');
    var n :| 0 <= n < |LTS_VERSIONS| && LTS_VERSIONS[n] == parts[0] + "." + parts[1];
    var a, b := SeriesShape(n);
    FirstTwoParts(a, b, v);
  }

  lemma SeriesIsLongterm(v: string, n: int)
    requires !Contains(ToLower(v), "-rc") && 0 <= n < |LTS_VERSIONS|
    requires LTS_VERSIONS[n] + "." <= v || LTS_VERSIONS[n] == v
    ensures DetermineKernelVersionType(v) == Longterm
  {
    var a, b := SeriesShape(n);
    FirstTwoParts(a, b, v);
    NoNext(n, v);
    var parts := Split(v, '.');
    assert parts[0] + "." + parts[1] == LTS_VERSIONS[n];
  }

  lemma TypeMeaning(v: string)
    ensures DetermineKernelVersionType(v) == Longterm <==>
            !Contains(ToLower(v), "-rc") && (InSeries(v) || v in LTS_VERSIONS)
  {
    if DetermineKernelVersionType(v) == Longterm {
      LongtermIsInSeries(v);
    }
    if !Contains(ToLower(v), "-rc") && (InSeries(v) || v in LTS_VERSIONS) {
      var n :| 0 <= n < |LTS_VERSIONS| && (LTS_VERSIONS[n] + "." <= v || LTS_VERSIONS[n] == v);
      SeriesIsLongterm(v, n);
    }
  }

  lemma PresetMeaning(v: string)
    ensures Accepts(Parsed(KERNEL_LTS), v) <==> !Contains(ToLower(v), "-rc") && InSeries(v)
  {
    PresetParses();
    RcPattern(v);
    forall n | 0 <= n < |LTS_VERSIONS|
      ensures Matching(LTS_PATTERNS[n], v) <==> LTS_VERSIONS[n] + "." <= v
    {
      SeriesPattern(n, v);
    }
    assert |LTS_PATTERNS| == |LTS_VERSIONS|;
  }

  /** A bare series has one dot only, so no pattern of the preset reaches it. */
  lemma BareSeries(v: string)
    requires v in LTS_VERSIONS
    ensures !InSeries(v) && !Contains(ToLower(v), "-rc")
  {
    var m :| 0 <= m < |LTS_VERSIONS| && LTS_VERSIONS[m] == v;
    NoRc(m);
    var a, b := SeriesShape(m);
    FirstTwoParts(a, b, v);
    if InSeries(v) {
      var n :| 0 <= n < |LTS_VERSIONS| && LTS_VERSIONS[n] + "." <= v;
      var c, d := SeriesShape(n);
      FirstTwoParts(c, d, v);
    }
  }

  /** Split-and-lookup and the glob preset agree on a version exactly when it is not
      one of the eight bare series names. */
  lemma KernelLtsAgrees(v: string)
    ensures (DetermineKernelVersionType(v) == Longterm <==> Accepts(Parsed(KERNEL_LTS), v)) <==> v !in LTS_VERSIONS
  {
    TypeMeaning(v);
    PresetMeaning(v);
    if v in LTS_VERSIONS {
      BareSeries(v);
    }
  }

  lemma {:induction false} DotsAreParts(v: string)
    ensures |Split(v, '.')| == multiset(v)['.'] + 1
  {
    if v == "" {
    } else {
      assert v == [v[0]] + v[1..];
      DotsAreParts(v[1..]);
    }
  }

  /** In particular they agree on every version with at least two dots. */
  lemma KernelLtsAgreesOnFullVersions(v: string)
    requires multiset(v)['.'] >= 2
    ensures DetermineKernelVersionType(v) == Longterm <==> Accepts(Parsed(KERNEL_LTS), v)
  {
    KernelLtsAgrees(v);
    DotsAreParts(v);
    if v in LTS_VERSIONS {
      var m :| 0 <= m < |LTS_VERSIONS| && LTS_VERSIONS[m] == v;
      var a, b := SeriesShape(m);
      FirstTwoParts(a, b, v);
    }
  }

  // ---------- the other types ----------

  /** The text "!*-rc*,!next-*". */
  const KERNEL_STABLE := "!*-rc*" + "," + "!next-*"

  lemma BangBoth()
    ensures Bang(["*-rc*", "next-*"]) == ["!*-rc*", "!next-*"]
  {
    assert "!" + "*-rc*" == "!*-rc*" && "!" + "next-*" == "!next-*";
    var b := Bang(["*-rc*", "next-*"]);
    assert b[0] == "!" + "*-rc*" && b[1] == "!" + "next-*";
  }

  lemma StablePresetParses()
    ensures Parsed(KERNEL_STABLE) == Filter([], ["*-rc*", "next-*"])
  {
    BangBoth();
    JoinCons("!*-rc*", ["!next-*"]);
    assert [] + ["!*-rc*", "!next-*"] == ["!*-rc*"] + ["!next-*"];
    ReadText(Filter([], ["*-rc*", "next-*"]), ["!*-rc*", "!next-*"], KERNEL_STABLE);
  }

  lemma NextPattern(v: string)
    ensures Matching("next-*", v) <==> "next-" <= ToLower(v)
  {
    assert IsLower("next-*") && "next-*" == "next-" + "*";
    LowerOfLower("next-*");
    PrefixPattern("next-", ToLower(v));
  }

  lemma RcMatching(v: string)
    ensures Matching("*-rc*", v) <==> Contains(ToLower(v), "-rc")
  {
    RcPattern(v);
    assert ["*-rc*"][0] == "*-rc*";
    assert MatchesAny(["*-rc*"], v) <==> Matching("*-rc*", v);
  }

  /** The other three types by patterns: linux-next versions first, then release candidates, and what is left. */
  lemma OtherTypes(v: string)
    ensures DetermineKernelVersionType(v) == LinuxNext <==> Matching("next-*", v)
    ensures DetermineKernelVersionType(v) == Mainline <==> Matching("*-rc*", v) && !Matching("next-*", v)
  {
    NextPattern(v);
    RcMatching(v);
  }

  /** The kernel-stable preset accepts exactly what is typed as long-term or stable. */
  lemma KernelStableAgrees(v: string)
    ensures Accepts(Parsed(KERNEL_STABLE), v) <==> DetermineKernelVersionType(v) in {Longterm, Stable}
  {
    StablePresetParses();
    OtherTypes(v);
    var patterns := ["*-rc*", "next-*"];
    assert patterns[0] == "*-rc*" && patterns[1] == "next-*";
    assert MatchesAny(patterns, v) <==> Matching("*-rc*", v) || Matching("next-*", v);
  }
}
