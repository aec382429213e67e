/** Merging releases with tags, sorting and choosing a default version
    (src/ldfd/forge/github.go, src/ldfd/download/discovery.go). */
module Discovery {
  import opened Versions
  import opened VersionOrder

  // ---------- merging ----------

  /** `v` is the last element of the list for its version. */
  ghost predicate LastOf(list: seq<DiscoveredVersion>, v: DiscoveredVersion) {
    exists i | 0 <= i < |list| :: list[i] == v && forall j | i < j < |list| :: list[j].version != v.version
  }

  ghost predicate Mentions(list: seq<DiscoveredVersion>, version: string) {
    exists i | 0 <= i < |list| :: list[i].version == version
  }

  /** Release data wins over tag data; within each list the last entry wins. */
  ghost predicate Wins(tags: seq<DiscoveredVersion>, releases: seq<DiscoveredVersion>, v: DiscoveredVersion) {
    LastOf(releases, v) || (!Mentions(releases, v.version) && LastOf(tags, v))
  }

  /** A map filled from the lists holds, under each version, the entry that wins. */
  ghost predicate Holds(
    m: map<string, DiscoveredVersion>, tags: seq<DiscoveredVersion>, releases: seq<DiscoveredVersion>)
  {
    && (forall k | k in m :: m[k].version == k)
    && (forall v :: Wins(tags, releases, v) <==> v.version in m && m[v.version] == v)
  }

  lemma LastOfSnoc(list: seq<DiscoveredVersion>, n: nat, v: DiscoveredVersion)
    requires n < |list|
    ensures LastOf(list[..n + 1], v) <==>
            v == list[n] || (LastOf(list[..n], v) && v.version != list[n].version)
    ensures Mentions(list[..n + 1], v.version) <==> Mentions(list[..n], v.version) || list[n].version == v.version
  {
    var longer, shorter := list[..n + 1], list[..n];
    assert longer == shorter + [list[n]];
    if i: int :| 0 <= i < |longer| && longer[i] == v && forall j | i < j < |longer| :: longer[j].version != v.version {
      if i < n {
        assert shorter[i] == v && longer[n].version != v.version;
        assert forall j | i < j < n :: shorter[j] == longer[j];
      }
    }
    if v == list[n] {
      assert longer[n] == v;
    } else if LastOf(shorter, v) && v.version != list[n].version {
      var i :| 0 <= i < |shorter| && shorter[i] == v && forall j | i < j < |shorter| :: shorter[j].version != v.version;
      assert longer[i] == v;
    }
    if i: int :| 0 <= i < |shorter| && shorter[i].version == v.version {
      assert longer[i].version == v.version;
    }
    assert longer[n] == list[n];
  }

  lemma NoneOfNothing(v: DiscoveredVersion)
    ensures !LastOf([], v) && !Mentions([], v.version)
  {
  }

  lemma HoldsTag(m: map<string, DiscoveredVersion>, tags: seq<DiscoveredVersion>, n: nat)
    requires n < |tags| && Holds(m, tags[..n], [])
    ensures Holds(m[tags[n].version := tags[n]], tags[..n + 1], [])
  {
    var m' := m[tags[n].version := tags[n]];
    forall v
      ensures Wins(tags[..n + 1], [], v) <==> v.version in m' && m'[v.version] == v
    {
      NoneOfNothing(v);
      LastOfSnoc(tags, n, v);
      assert Wins(tags[..n], [], v) <==> v.version in m && m[v.version] == v;
    }
  }

  lemma HoldsRelease(
    m: map<string, DiscoveredVersion>, tags: seq<DiscoveredVersion>, releases: seq<DiscoveredVersion>, n: nat)
    requires n < |releases| && Holds(m, tags, releases[..n])
    ensures Holds(m[releases[n].version := releases[n]], tags, releases[..n + 1])
  {
    var m' := m[releases[n].version := releases[n]];
    forall v
      ensures Wins(tags, releases[..n + 1], v) <==> v.version in m' && m'[v.version] == v
    {
      LastOfSnoc(releases, n, v);
      assert Wins(tags, releases[..n], v) <==> v.version in m && m[v.version] == v;
    }
  }

  // ---------- sorting ----------

  ghost predicate Ordered(list: seq<DiscoveredVersion>) {
    forall i, j | 0 <= i < j < |list| :: Compare(list[i].version, list[j].version) >= 0
  }

  ghost predicate AllNonNegative(list: seq<DiscoveredVersion>) {
    forall v | v in list :: NonNegative(v.version)
  }

  /** The first `n` elements are in order, but for the one at `hole`, which may belong further up. */
  ghost predicate OrderedBut(list: seq<DiscoveredVersion>, n: nat, hole: int) {
    forall i, j | 0 <= i < j < n && j < |list| && j != hole :: Compare(list[i].version, list[j].version) >= 0
  }

  ghost function Swapped(list: seq<DiscoveredVersion>, j: nat): seq<DiscoveredVersion>
    requires 0 < j < |list|
  {
    list[j - 1 := list[j]][j := list[j - 1]]
  }

  lemma SwapDown(list: seq<DiscoveredVersion>, n: nat, j: nat)
    requires 0 < j < n <= |list| && AllNonNegative(list)
    requires OrderedBut(list, n, j) && Compare(list[j].version, list[j - 1].version) > 0
    ensures OrderedBut(Swapped(list, j), n, j - 1)
  {
    var s := Swapped(list, j);
    CompareIsTotalPreorder(list[j].version, list[j - 1].version, list[j].version);
    forall a, b | 0 <= a < b < n && b != j - 1
      ensures Compare(s[a].version, s[b].version) >= 0
    {
      if b == j {
        assert s[b] == list[j - 1];
        if a < j - 1 {
          assert Compare(list[a].version, list[j - 1].version) >= 0;
        }
      } else {
        var a' := if a == j - 1 then j else if a == j then j - 1 else a;
        assert s[a] == list[a'] && s[b] == list[b];
        assert a' < b;
      }
    }
  }

  lemma Settled(list: seq<DiscoveredVersion>, n: nat, j: nat)
    requires j < n <= |list| && AllNonNegative(list)
    requires OrderedBut(list, n, j)
    requires j > 0 ==> Compare(list[j].version, list[j - 1].version) <= 0
    ensures OrderedBut(list, n, n)
  {
    if j > 0 {
      CompareIsTotalPreorder(list[j - 1].version, list[j].version, list[j].version);
      forall a | 0 <= a < j
        ensures Compare(list[a].version, list[j].version) >= 0
      {
        if a < j - 1 {
          CompareIsTotalPreorder(list[j].version, list[j - 1].version, list[a].version);
          CompareIsTotalPreorder(list[a].version, list[j - 1].version, list[j].version);
          CompareIsTotalPreorder(list[a].version, list[j].version, list[j].version);
        }
      }
    }
  }

  lemma SameElements(a: seq<DiscoveredVersion>, b: seq<DiscoveredVersion>)
    requires multiset(a) == multiset(b)
    ensures AllNonNegative(a) ==> AllNonNegative(b)
  {
    forall v | v in b
      ensures v in a
    {
      assert v in multiset(b);
    }
  }

  /** One swap of an insertion into the first `n` elements. */
  method Swap(versions: array<DiscoveredVersion>, n: nat, j: nat, ghost sane: bool)
    requires 0 < j < n <= versions.Length
    requires Compare(versions[j].version, versions[j - 1].version) > 0
    requires sane ==> AllNonNegative(versions[..]) && OrderedBut(versions[..], n, j)
    modifies versions
    ensures multiset(versions[..]) == multiset(old(versions[..]))
    ensures sane ==> AllNonNegative(versions[..]) && OrderedBut(versions[..], n, j - 1)
  {
    ghost var before := versions[..];
    if sane {
      SwapDown(before, n, j);
    }
    versions[j - 1], versions[j] := versions[j], versions[j - 1];
    assert versions[..] == Swapped(before, j);
    SameElements(before, versions[..]);
  }

  method InsertAt(versions: array<DiscoveredVersion>, n: nat, ghost sane: bool)
    requires n < versions.Length
    requires sane ==> AllNonNegative(versions[..]) && OrderedBut(versions[..], n, n)
    modifies versions
    ensures multiset(versions[..]) == multiset(old(versions[..]))
    ensures sane ==> AllNonNegative(versions[..]) && OrderedBut(versions[..], n + 1, n + 1)
  {
    var j := n;
    while j > 0
      invariant 0 <= j <= n
      invariant multiset(versions[..]) == multiset(old(versions[..]))
      invariant sane ==> AllNonNegative(versions[..]) && OrderedBut(versions[..], n + 1, j)
    {
      var order := CompareVersions(versions[j].version, versions[j - 1].version);
      if order <= 0 {
        break;
      }
      Swap(versions, n + 1, j, sane);
      j := j - 1;
    }
    if sane {
      Settled(versions[..], n + 1, j);
    }
  }

  /** sort.Slice with compareVersions(i, j) > 0 as "less": a descending permutation,
      provided the comparison is an order on what is sorted. */
  method SortVersionsDescending(versions: array<DiscoveredVersion>)
    modifies versions
    ensures multiset(versions[..]) == multiset(old(versions[..]))
    ensures AllNonNegative(old(versions[..])) ==> Ordered(versions[..])
  {
    ghost var sane := AllNonNegative(versions[..]);
    var n := 0;
    while n < versions.Length
      invariant 0 <= n <= versions.Length
      invariant multiset(versions[..]) == multiset(old(versions[..]))
      invariant sane ==> AllNonNegative(versions[..]) && OrderedBut(versions[..], n, n)
    {
      InsertAt(versions, n, sane);
      n := n + 1;
    }
  }

  // ---------- discovering ----------

  ghost predicate EachVersionOnce(list: seq<DiscoveredVersion>) {
    forall i, j | 0 <= i < j < |list| :: list[i].version != list[j].version
  }

  method MergeVersions(releases: seq<DiscoveredVersion>, tags: seq<DiscoveredVersion>)
    returns (versionMap: map<string, DiscoveredVersion>)
    ensures Holds(versionMap, tags, releases)
  {
    versionMap := map[];
    forall v {
      NoneOfNothing(v);
    }
    var n := 0;
    while n < |tags|
      invariant 0 <= n <= |tags|
      invariant Holds(versionMap, tags[..n], [])
    {
      HoldsTag(versionMap, tags, n);
      versionMap := versionMap[tags[n].version := tags[n]];
      n := n + 1;
    }
    assert tags[..n] == tags;
    n := 0;
    while n < |releases|
      invariant 0 <= n <= |releases|
      invariant Holds(versionMap, tags, releases[..n])
    {
      HoldsRelease(versionMap, tags, releases, n);
      versionMap := versionMap[releases[n].version := releases[n]];
      n := n + 1;
    }
    assert releases[..n] == releases;
  }

  /** The values of the map, in the order the map happens to yield them. */
  method ToSlice(versionMap: map<string, DiscoveredVersion>) returns (list: seq<DiscoveredVersion>)
    requires forall k | k in versionMap :: versionMap[k].version == k
    ensures EachVersionOnce(list)
    ensures forall v :: v in list <==> v.version in versionMap && versionMap[v.version] == v
  {
    list := [];
    var keys := versionMap.Keys;
    while keys != {}
      invariant keys <= versionMap.Keys
      invariant forall v :: v in list <==> v.version in versionMap && v.version !in keys && versionMap[v.version] == v
      invariant EachVersionOnce(list)
      decreases |keys|
    {
      var k :| k in keys;
      list := list + [versionMap[k]];
      keys := keys - {k};
    }
  }

  lemma WinnersNonNegative(tags: seq<DiscoveredVersion>, releases: seq<DiscoveredVersion>, list: seq<DiscoveredVersion>)
    requires AllNonNegative(tags) && AllNonNegative(releases)
    requires forall v :: v in list <==> Wins(tags, releases, v)
    ensures AllNonNegative(list)
  {
    forall v | v in list
      ensures NonNegative(v.version)
    {
      assert Wins(tags, releases, v);
    }
  }

  lemma Twice(b: seq<DiscoveredVersion>, i: int, j: int)
    requires 0 <= i < j < |b| && b[i] == b[j]
    ensures multiset(b)[b[i]] >= 2
  {
    assert b == b[..j] + [b[j]] + b[j + 1..];
    assert b[..j][i] == b[i];
    assert b[i] in multiset(b[..j]);
  }

  lemma OnlyOnce(a: seq<DiscoveredVersion>, x: int)
    requires 0 <= x < |a| && EachVersionOnce(a)
    ensures multiset(a)[a[x]] == 1
  {
    assert a == a[..x] + [a[x]] + a[x + 1..];
    assert a[x] !in a[..x] && a[x] !in a[x + 1..];
  }

  lemma Permuted(a: seq<DiscoveredVersion>, b: seq<DiscoveredVersion>)
    requires multiset(a) == multiset(b) && EachVersionOnce(a)
    ensures EachVersionOnce(b) && forall v :: v in b <==> v in a
  {
    forall v
      ensures v in b <==> v in a
    {
      assert v in multiset(a) <==> v in multiset(b);
    }
    forall i, j | 0 <= i < j < |b|
      ensures b[i].version != b[j].version
    {
      if b[i].version == b[j].version {
        assert b[i] in b && b[j] in b;
        assert b[i] in a && b[j] in a;
        var x :| 0 <= x < |a| && a[x] == b[i];
        var y :| 0 <= y < |a| && a[y] == b[j];
        assert x == y;
        Twice(b, i, j);
        OnlyOnce(a, x);
      }
    }
  }

  /** The merged list: every version once, with the data that wins, in descending order. */
  method DiscoverVersions(releases: seq<DiscoveredVersion>, tags: seq<DiscoveredVersion>)
    returns (result: array<DiscoveredVersion>)
    ensures EachVersionOnce(result[..])
    ensures forall v :: v in result[..] <==> Wins(tags, releases, v)
    ensures AllNonNegative(tags) && AllNonNegative(releases) ==> Ordered(result[..])
  {
    var versionMap := MergeVersions(releases, tags);
    var list := ToSlice(versionMap);
    result := new DiscoveredVersion[|list|](i requires 0 <= i < |list| => list[i]);
    assert result[..] == list;
    if AllNonNegative(tags) && AllNonNegative(releases) {
      WinnersNonNegative(tags, releases, list);
    }
    SortVersionsDescending(result);
    Permuted(list, result[..]);
  }

  // ---------- the default version ----------

  /** No version of the list satisfying the test is newer. */
  ghost predicate Newest(list: seq<DiscoveredVersion>, stableOnly: bool, version: string) {
    && (exists i | 0 <= i < |list| :: list[i].version == version && (stableOnly ==> list[i].isStable))
    && forall i | 0 <= i < |list| && (stableOnly ==> list[i].isStable) :: Compare(version, list[i].version) >= 0
  }

  ghost predicate FirstStable(list: seq<DiscoveredVersion>, i: int) {
    0 <= i < |list| && list[i].isStable && forall j | 0 <= j < i :: !list[j].isStable
  }

  ghost predicate SomeStable(list: seq<DiscoveredVersion>) {
    exists i | 0 <= i < |list| :: list[i].isStable
  }

  /** A newest stable version; a newest version when none is stable; nothing for an empty list. */
  method FindFirstStableVersion(discovered: seq<DiscoveredVersion>) returns (version: string)
    ensures discovered == [] ==> version == ""
    ensures SomeStable(discovered) ==> exists i :: FirstStable(discovered, i) && discovered[i].version == version
    ensures discovered != [] && !SomeStable(discovered) ==> version == discovered[0].version
    ensures discovered != [] && Ordered(discovered) && AllNonNegative(discovered) ==>
              Newest(discovered, SomeStable(discovered), version)
  {
    var n := 0;
    while n < |discovered|
      invariant 0 <= n <= |discovered|
      invariant forall i | 0 <= i < n :: !discovered[i].isStable
    {
      if discovered[n].isStable {
        assert FirstStable(discovered, n);
        if Ordered(discovered) && AllNonNegative(discovered) {
          var v := discovered[n].version;
          CompareIsTotalPreorder(v, v, v);
          assert SomeStable(discovered);
        }
        return discovered[n].version;
      }
      n := n + 1;
    }
    if |discovered| > 0 {
      if Ordered(discovered) && AllNonNegative(discovered) {
        var v := discovered[0].version;
        CompareIsTotalPreorder(v, v, v);
      }
      return discovered[0].version;
    }
    return "";
  }

  /** The whole chain for a source without a published "latest release": over the winners of the
      merge, the chosen default is a newest stable version, or a newest one when none is stable. */
  method DetectDefaultVersion(releases: seq<DiscoveredVersion>, tags: seq<DiscoveredVersion>, latestRelease: string)
    returns (version: string, ghost merged: seq<DiscoveredVersion>)
    ensures forall v :: v in merged <==> Wins(tags, releases, v)
    ensures latestRelease != "" ==> version == latestRelease
    ensures latestRelease == "" && merged == [] ==> version == ""
    ensures latestRelease == "" && merged != [] && AllNonNegative(tags) && AllNonNegative(releases) ==>
              Newest(merged, SomeStable(merged), version)
  {
    var discovered := DiscoverVersions(releases, tags);
    merged := discovered[..];
    if latestRelease != "" {
      return latestRelease, merged;
    }
    if AllNonNegative(tags) && AllNonNegative(releases) {
      WinnersNonNegative(tags, releases, merged);
    }
    version := FindFirstStableVersion(discovered[..]);
  }
}
