/** Prerelease markers and the default filter built from them
    (src/ldfd/forge/forge.go, src/ldfd/forge/github.go). */
module Prereleases {
  import opened Text
  import opened Glob
  import opened Versions
  import opened VersionFilters
  import opened Sequences

  /** The markers, grouped as the extraction groups them: meeting one marker of a family
      among the prereleases excludes every marker of that family. */
  const FAMILIES: seq<seq<string>> :=
    [["-rc", ".rc", "_rc"], ["alpha"], ["beta"], ["-dev"], ["-pre"], ["-snapshot"], ["-nightly"]]

  ghost predicate IsMarker(k: int, j: int) {
    0 <= k < |FAMILIES| && 0 <= j < |FAMILIES[k]|
  }

  /** The version carries a marker of family `k`, in any letter case. */
  ghost predicate Carries(version: string, k: int)
    requires 0 <= k < |FAMILIES|
  {
    exists j :: IsMarker(k, j) && Contains(ToLower(version), FAMILIES[k][j])
  }

  /** Some version flagged as a prerelease carries a marker of family `k`. */
  ghost predicate Observed(versions: seq<DiscoveredVersion>, k: int)
    requires 0 <= k < |FAMILIES|
  {
    exists i | 0 <= i < |versions| :: versions[i].isPrerelease && Carries(versions[i].version, k)
  }

  function ExcludeItem(marker: string): string {
    "!*" + marker + "*"
  }

  // ---------- isPrerelease ----------

  predicate IsPrerelease(version: string) {
    var lower := ToLower(version);
    || Contains(lower, "-rc")
    || Contains(lower, "-alpha")
    || Contains(lower, "-beta")
    || Contains(lower, "-dev")
    || Contains(lower, "-pre")
    || Contains(lower, ".rc")
    || Contains(lower, "_rc")
    || Contains(lower, "alpha")
    || Contains(lower, "beta")
  }

  lemma DashedMarkers(s: string)
    ensures Contains(s, "-alpha") ==> Contains(s, "alpha")
    ensures Contains(s, "-beta") ==> Contains(s, "beta")
  {
    if Contains(s, "-alpha") {
      ContainsPart(s, "-alpha", 1, 6);
      assert "-alpha"[1..6] == "alpha";
    }
    if Contains(s, "-beta") {
      ContainsPart(s, "-beta", 1, 5);
      assert "-beta"[1..5] == "beta";
    }
  }

  lemma CarriesOne(version: string, k: int, m: string)
    requires 0 <= k < |FAMILIES| && FAMILIES[k] == [m]
    ensures Carries(version, k) <==> Contains(ToLower(version), m)
  {
    assert IsMarker(k, 0);
  }

  lemma CarriesRc(version: string)
    ensures Carries(version, 0) <==>
            || Contains(ToLower(version), "-rc")
            || Contains(ToLower(version), ".rc")
            || Contains(ToLower(version), "_rc")
  {
    assert IsMarker(0, 0) && IsMarker(0, 1) && IsMarker(0, 2);
  }

  /** The nine tests of isPrerelease ask for a marker of one of the first five families. */
  lemma PrereleaseCarries(version: string)
    ensures IsPrerelease(version) <==> exists k | 0 <= k < 5 :: Carries(version, k)
  {
    DashedMarkers(ToLower(version));
    CarriesRc(version);
    CarriesOne(version, 1, "alpha");
    CarriesOne(version, 2, "beta");
    CarriesOne(version, 3, "-dev");
    CarriesOne(version, 4, "-pre");
    if exists k | 0 <= k < 5 :: Carries(version, k) {
      var k :| 0 <= k < 5 && Carries(version, k);
      assert k == 0 || k == 1 || k == 2 || k == 3 || k == 4;
    }
  }

  // ---------- extractExcludePatterns ----------

  /** The items one prerelease adds, test by test. */
  function ItemsFor(lower: string): set<string> {
    (if Contains(lower, "-rc") || Contains(lower, ".rc") || Contains(lower, "_rc")
     then {"!*-rc*", "!*.rc*", "!*_rc*"} else {}) +
    (if Contains(lower, "-alpha") || Contains(lower, "alpha") then {"!*alpha*"} else {}) +
    (if Contains(lower, "-beta") || Contains(lower, "beta") then {"!*beta*"} else {}) +
    (if Contains(lower, "-dev") then {"!*-dev*"} else {}) +
    (if Contains(lower, "-pre") then {"!*-pre*"} else {}) +
    (if Contains(lower, "-snapshot") then {"!*-snapshot*"} else {}) +
    (if Contains(lower, "-nightly") then {"!*-nightly*"} else {})
  }

  ghost predicate Excludes(k: int, j: int, item: string) {
    IsMarker(k, j) && item == ExcludeItem(FAMILIES[k][j])
  }

  lemma SpelledOut()
    ensures ExcludeItem("-rc") == "!*-rc*" && ExcludeItem(".rc") == "!*.rc*" && ExcludeItem("_rc") == "!*_rc*"
    ensures ExcludeItem("alpha") == "!*alpha*" && ExcludeItem("beta") == "!*beta*"
    ensures ExcludeItem("-dev") == "!*-dev*" && ExcludeItem("-pre") == "!*-pre*"
    ensures ExcludeItem("-snapshot") == "!*-snapshot*" && ExcludeItem("-nightly") == "!*-nightly*"
  {
  }

  /** The tests of the code are the families, one by one. */
  lemma FamilyTests(version: string)
    ensures var s := ToLower(version);
            && (Carries(version, 0) <==> Contains(s, "-rc") || Contains(s, ".rc") || Contains(s, "_rc"))
            && (Carries(version, 1) <==> Contains(s, "-alpha") || Contains(s, "alpha"))
            && (Carries(version, 2) <==> Contains(s, "-beta") || Contains(s, "beta"))
            && (Carries(version, 3) <==> Contains(s, "-dev"))
            && (Carries(version, 4) <==> Contains(s, "-pre"))
            && (Carries(version, 5) <==> Contains(s, "-snapshot"))
            && (Carries(version, 6) <==> Contains(s, "-nightly"))
  {
    DashedMarkers(ToLower(version));
    CarriesRc(version);
    CarriesOne(version, 1, "alpha");
    CarriesOne(version, 2, "beta");
    CarriesOne(version, 3, "-dev");
    CarriesOne(version, 4, "-pre");
    CarriesOne(version, 5, "-snapshot");
    CarriesOne(version, 6, "-nightly");
  }

  /** The test that contributed the item tells its family. */
  lemma ItemOfFamily(version: string, item: string) returns (k: int, j: int)
    requires item in ItemsFor(ToLower(version))
    ensures Excludes(k, j, item) && Carries(version, k)
  {
    FamilyTests(version);
    SpelledOut();
    k, j := 0, 0;
    if Carries(version, 0) && item in {"!*-rc*", "!*.rc*", "!*_rc*"} {
      j := if item == "!*-rc*" then 0 else if item == "!*.rc*" then 1 else 2;
    } else if Carries(version, 1) && item == "!*alpha*" {
      k := 1;
    } else if Carries(version, 2) && item == "!*beta*" {
      k := 2;
    } else if Carries(version, 3) && item == "!*-dev*" {
      k := 3;
    } else if Carries(version, 4) && item == "!*-pre*" {
      k := 4;
    } else if Carries(version, 5) && item == "!*-snapshot*" {
      k := 5;
    } else {
      k := 6;
    }
  }

  lemma FamilyOfItem(version: string, k: int, j: int)
    requires IsMarker(k, j) && Carries(version, k)
    ensures ExcludeItem(FAMILIES[k][j]) in ItemsFor(ToLower(version))
  {
    FamilyTests(version);
    SpelledOut();
    assert k == 0 || k == 1 || k == 2 || k == 3 || k == 4 || k == 5 || k == 6;
  }

  lemma ItemsForMeaning(version: string, item: string)
    ensures item in ItemsFor(ToLower(version)) <==>
            exists k, j :: Excludes(k, j, item) && Carries(version, k)
  {
    if item in ItemsFor(ToLower(version)) {
      var k, j := ItemOfFamily(version, item);
    }
    if exists k, j :: Excludes(k, j, item) && Carries(version, k) {
      var k, j :| Excludes(k, j, item) && Carries(version, k);
      FamilyOfItem(version, k, j);
    }
  }

  /** The item excludes a marker of a family observed among the flagged versions. */
  ghost predicate Wanted(versions: seq<DiscoveredVersion>, item: string) {
    exists k, j :: Excludes(k, j, item) && Observed(versions, k)
  }

  lemma ObservedSnoc(versions: seq<DiscoveredVersion>, n: nat, k: int)
    requires n < |versions| && 0 <= k < |FAMILIES|
    ensures Observed(versions[..n + 1], k) <==>
            Observed(versions[..n], k) || (versions[n].isPrerelease && Carries(versions[n].version, k))
  {
    var longer, shorter := versions[..n + 1], versions[..n];
    assert longer == shorter + [versions[n]];
    if versions[n].isPrerelease && Carries(versions[n].version, k) {
      assert longer[n] == versions[n];
    }
    if i: int :| 0 <= i < |shorter| && shorter[i].isPrerelease && Carries(shorter[i].version, k) {
      assert longer[i] == shorter[i];
    }
  }

  lemma WantedSnoc(versions: seq<DiscoveredVersion>, n: nat, item: string)
    requires n < |versions|
    ensures Wanted(versions[..n + 1], item) <==>
            || Wanted(versions[..n], item)
            || (versions[n].isPrerelease && item in ItemsFor(ToLower(versions[n].version)))
  {
    ItemsForMeaning(versions[n].version, item);
    forall k | 0 <= k < |FAMILIES| {
      ObservedSnoc(versions, n, k);
    }
  }

  /** Exactly the wanted items, each once, in the order the map happens to yield them. */
  method ExtractExcludePatterns(versions: seq<DiscoveredVersion>) returns (result: seq<string>)
    ensures forall item :: item in result <==> Wanted(versions, item)
    ensures NoRepeats(result)
  {
    var patterns: set<string> := {};
    var n := 0;
    while n < |versions|
      invariant 0 <= n <= |versions|
      invariant forall item :: item in patterns <==> Wanted(versions[..n], item)
    {
      var v := versions[n];
      forall item {
        WantedSnoc(versions, n, item);
      }
      n := n + 1;
      if !v.isPrerelease {
        continue;
      }
      patterns := patterns + ItemsFor(ToLower(v.version));
    }
    assert versions[..n] == versions;
    result := [];
    var remaining := patterns;
    while remaining != {}
      invariant remaining <= patterns
      invariant forall item :: item in result <==> item in patterns && item !in remaining
      invariant NoRepeats(result)
      decreases |remaining|
    {
      var p :| p in remaining;
      result := result + [p];
      remaining := remaining - {p};
    }
  }

  // ---------- the filter made of the items ----------

  /** A marker whose pattern survives printing and is its own lower case. */
  predicate Sound(marker: string) {
    Wellformed("*" + marker + "*") && IsLower("*" + marker + "*") && Literal(marker)
  }

  lemma MarkerFacts(k: int, j: int)
    requires IsMarker(k, j)
    ensures Sound(FAMILIES[k][j])
  {
    assert k == 0 || k == 1 || k == 2 || k == 3 || k == 4 || k == 5 || k == 6;
    assert j == 0 || j == 1 || j == 2;
  }

  /** Every item spells out the exclusion of the marker beside it. */
  ghost predicate Spells(items: seq<string>, markers: seq<string>) {
    && |items| == |markers|
    && forall i | 0 <= i < |items| :: items[i] == ExcludeItem(markers[i]) && Sound(markers[i])
  }

  function Patterns(markers: seq<string>): (patterns: seq<string>)
    ensures |patterns| == |markers|
    ensures forall i | 0 <= i < |markers| :: patterns[i] == "*" + markers[i] + "*"
  {
    seq(|markers|, i requires 0 <= i < |markers| => "*" + markers[i] + "*")
  }

  /** Reading the joined items gives back their patterns, as excludes only. */
  lemma JoinedItemsParse(items: seq<string>, markers: seq<string>)
    requires Spells(items, markers)
    ensures Parsed(Join(items, ',')) == Filter([], Patterns(markers))
  {
    var f := Filter([], Patterns(markers));
    forall i | 0 <= i < |items|
      ensures items[i] == Bang(f.excludes)[i]
    {
      assert "!*" + markers[i] + "*" == "!" + ("*" + markers[i] + "*");
    }
    assert Items(f) == items;
    PrintedReadsBack(f);
  }

  lemma MarkerPattern(marker: string, version: string)
    requires Sound(marker)
    ensures Matching("*" + marker + "*", version) <==> Contains(ToLower(version), marker)
  {
    LowerOfLower("*" + marker + "*");
    InfixPattern(marker, ToLower(version));
  }

  /** The joined items reject exactly the versions that contain one of their markers. */
  lemma JoinedItemsReject(items: seq<string>, markers: seq<string>, version: string)
    requires Spells(items, markers)
    ensures !Accepts(Parsed(Join(items, ',')), version) <==>
            exists i | 0 <= i < |markers| :: Contains(ToLower(version), markers[i])
  {
    JoinedItemsParse(items, markers);
    forall i | 0 <= i < |markers|
      ensures Matching(Patterns(markers)[i], version) <==> Contains(ToLower(version), markers[i])
    {
      MarkerPattern(markers[i], version);
    }
  }

  lemma WantedMarker(versions: seq<DiscoveredVersion>, item: string) returns (marker: string)
    requires Wanted(versions, item)
    ensures item == ExcludeItem(marker) && Sound(marker)
    ensures exists k, j :: IsMarker(k, j) && marker == FAMILIES[k][j] && Observed(versions, k)
  {
    var k, j :| Excludes(k, j, item) && Observed(versions, k);
    MarkerFacts(k, j);
    marker := FAMILIES[k][j];
  }

  lemma {:induction false} WantedMarkers(versions: seq<DiscoveredVersion>, items: seq<string>)
    returns (markers: seq<string>)
    requires forall i | 0 <= i < |items| :: Wanted(versions, items[i])
    ensures Spells(items, markers)
    ensures forall i | 0 <= i < |markers| ::
              exists k, j :: IsMarker(k, j) && markers[i] == FAMILIES[k][j] && Observed(versions, k)
  {
    markers := [];
    if items == [] {
    } else {
      var last := |items| - 1;
      var before := WantedMarkers(versions, items[..last]);
      var marker := WantedMarker(versions, items[last]);
      markers := before + [marker];
    }
  }

  lemma ExcludeItemInjective(m: string, n: string)
    requires ExcludeItem(m) == ExcludeItem(n)
    ensures m == n
  {
    assert ExcludeItem(m)[2..|m| + 2] == m && ExcludeItem(n)[2..|n| + 2] == n;
  }

  lemma ObservedIsListed(versions: seq<DiscoveredVersion>, items: seq<string>, markers: seq<string>, k: int, j: int)
    requires forall item :: item in items <==> Wanted(versions, item)
    requires Spells(items, markers)
    requires IsMarker(k, j) && Observed(versions, k)
    ensures exists i | 0 <= i < |markers| :: markers[i] == FAMILIES[k][j]
  {
    var item := ExcludeItem(FAMILIES[k][j]);
    assert Excludes(k, j, item);
    assert item in items;
    var i :| 0 <= i < |items| && items[i] == item;
    ExcludeItemInjective(markers[i], FAMILIES[k][j]);
  }

  /** The filter rejects a version exactly when the version carries a marker of a family
      that was observed among the prereleases it was built from. */
  lemma DiscoveredFilter(versions: seq<DiscoveredVersion>, items: seq<string>, version: string)
    requires forall item :: item in items <==> Wanted(versions, item)
    ensures !Accepts(Parsed(Join(items, ',')), version) <==>
            exists k | 0 <= k < |FAMILIES| :: Carries(version, k) && Observed(versions, k)
  {
    var markers := WantedMarkers(versions, items);
    JoinedItemsReject(items, markers, version);
    if k :| 0 <= k < |FAMILIES| && Carries(version, k) && Observed(versions, k) {
      var j :| IsMarker(k, j) && Contains(ToLower(version), FAMILIES[k][j]);
      ObservedIsListed(versions, items, markers, k, j);
    }
    if i: int :| 0 <= i < |markers| && Contains(ToLower(version), markers[i]) {
      var k, j :| IsMarker(k, j) && markers[i] == FAMILIES[k][j] && Observed(versions, k);
      assert Carries(version, k);
    }
  }

  /** Discovering, extracting, joining and parsing: the text a provider offers as its default. */
  method DefaultVersionFilter(versions: seq<DiscoveredVersion>) returns (text: string)
    ensures forall version ::
              !Accepts(Parsed(text), version) <==>
              exists k | 0 <= k < |FAMILIES| :: Carries(version, k) && Observed(versions, k)
  {
    var patterns := ExtractExcludePatterns(versions);
    forall version {
      DiscoveredFilter(versions, patterns, version);
    }
    if |patterns| == 0 {
      assert Join(patterns, ',') == "";
      return "";
    }
    text := Join(patterns, ',');
  }

  /** What the default filter is for: it rejects every listed prerelease that looks like one,
      and keeps every version that carries no marker at all. */
  lemma DefaultFilterSeparates(versions: seq<DiscoveredVersion>, items: seq<string>, version: string)
    requires forall item :: item in items <==> Wanted(versions, item)
    ensures (exists i | 0 <= i < |versions| ::
               versions[i].version == version && versions[i].isPrerelease && IsPrerelease(version)) ==>
            !Accepts(Parsed(Join(items, ',')), version)
    ensures (forall k, j | IsMarker(k, j) :: !Contains(ToLower(version), FAMILIES[k][j])) ==>
            Accepts(Parsed(Join(items, ',')), version)
  {
    DiscoveredFilter(versions, items, version);
    if i: int :| 0 <= i < |versions| && versions[i].version == version && versions[i].isPrerelease
                 && IsPrerelease(version) {
      PrereleaseCarries(version);
      var k :| 0 <= k < 5 && Carries(version, k);
      assert Observed(versions, k);
    }
  }
}
