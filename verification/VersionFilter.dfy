/** Version filters: parsing, printing and applying them (src/ldfd/forge/filter.go). */
module VersionFilters {
  import opened Text
  import opened Glob
  import opened Versions

  /** The two pattern lists of a filter. */
  datatype Filter = Filter(includes: seq<string>, excludes: seq<string>)

  const NOTHING := Filter([], [])

  function Append(f: Filter, g: Filter): Filter {
    Filter(f.includes + g.includes, f.excludes + g.excludes)
  }

  // ---------- the syntax of a filter text ----------

  /** The patterns a trimmed item adds. */
  function PartPatterns(part: string): Filter {
    if part == "" then NOTHING
    else if part[0] == '!' then
      if part[1..] != "" then Filter([], [part[1..]]) else NOTHING
    else if part[0] == '+' then
      if part[1..] != "" then Filter([part[1..]], []) else NOTHING
    else Filter([part], [])
  }

  /** The patterns one comma-separated item adds. */
  function ItemPatterns(item: string): Filter {
    PartPatterns(TrimSpace(item))
  }

  function ItemsPatterns(items: seq<string>): Filter {
    if items == [] then NOTHING else Append(ItemPatterns(items[0]), ItemsPatterns(items[1..]))
  }

  lemma AppendAssociates(f: Filter, g: Filter, h: Filter)
    ensures Append(Append(f, g), h) == Append(f, Append(g, h))
    ensures Append(NOTHING, f) == f == Append(f, NOTHING)
  {
    assert f.includes + g.includes + h.includes == f.includes + (g.includes + h.includes);
    assert f.excludes + g.excludes + h.excludes == f.excludes + (g.excludes + h.excludes);
    assert [] + f.includes == f.includes == f.includes + [];
    assert [] + f.excludes == f.excludes == f.excludes + [];
  }

  lemma ItemsCons(item: string, items: seq<string>)
    ensures ItemsPatterns([item] + items) == Append(ItemPatterns(item), ItemsPatterns(items))
  {
    assert ([item] + items)[1..] == items;
  }

  lemma {:induction false} ItemsAppend(a: seq<string>, b: seq<string>)
    ensures ItemsPatterns(a + b) == Append(ItemsPatterns(a), ItemsPatterns(b))
  {
    if a == [] {
      assert a + b == b;
      AppendAssociates(ItemsPatterns(b), NOTHING, NOTHING);
    } else {
      ItemsAppend(a[1..], b);
      assert a + b == [a[0]] + (a[1..] + b);
      ItemsCons(a[0], a[1..] + b);
      AppendAssociates(ItemPatterns(a[0]), ItemsPatterns(a[1..]), ItemsPatterns(b));
    }
  }

  lemma ItemsSnoc(items: seq<string>, n: nat)
    requires n < |items|
    ensures ItemsPatterns(items[..n + 1]) == Append(ItemsPatterns(items[..n]), PartPatterns(TrimSpace(items[n])))
  {
    assert items[..n + 1] == items[..n] + [items[n]];
    ItemsAppend(items[..n], [items[n]]);
    assert [items[n]] == [items[n]] + [];
    ItemsCons(items[n], []);
    AppendAssociates(ItemPatterns(items[n]), NOTHING, NOTHING);
  }

  /** What a filter text says. */
  function Parsed(text: string): Filter {
    if text == "" then NOTHING else ItemsPatterns(Split(text, ','))
  }

  function Bang(patterns: seq<string>): (items: seq<string>)
    ensures |items| == |patterns|
    ensures forall i | 0 <= i < |items| :: items[i] == "!" + patterns[i]
  {
    seq(|patterns|, i requires 0 <= i < |patterns| => "!" + patterns[i])
  }

  function Items(f: Filter): seq<string> {
    f.includes + Bang(f.excludes)
  }

  function Printed(f: Filter): string {
    Join(Items(f), ',')
  }

  /** What an item with a pattern says, whatever blanks surround it: a plain pattern and one after `+` are included,
      one after `!` is excluded. */
  lemma ItemForms(l: string, pattern: string, r: string)
    requires Blank(l) && Blank(r) && pattern != "" && !IsSpace(pattern[|pattern| - 1])
    ensures ItemPatterns(l + ("!" + pattern + r)) == Filter([], [pattern])
    ensures ItemPatterns(l + ("+" + pattern + r)) == Filter([pattern], [])
    ensures !IsSpace(pattern[0]) && pattern[0] != '!' && pattern[0] != '+' ==>
              ItemPatterns(l + (pattern + r)) == Filter([pattern], [])
  {
    TrimSpaceMeaning(l, "!" + pattern, r);
    TrimSpaceMeaning(l, "+" + pattern, r);
    assert ("!" + pattern)[1..] == pattern && ("+" + pattern)[1..] == pattern;
    if !IsSpace(pattern[0]) {
      TrimSpaceMeaning(l, pattern, r);
    }
  }

  // ---------- what a filter accepts ----------

  ghost predicate MatchesAny(patterns: seq<string>, version: string) {
    exists i | 0 <= i < |patterns| :: Matching(patterns[i], version)
  }

  ghost predicate Accepts(f: Filter, version: string) {
    && (f.includes == [] || MatchesAny(f.includes, version))
    && !MatchesAny(f.excludes, version)
  }

  ghost function Selected(f: Filter, versions: seq<DiscoveredVersion>): seq<DiscoveredVersion> {
    if versions == [] then []
    else if Accepts(f, versions[0].version) then [versions[0]] + Selected(f, versions[1..])
    else Selected(f, versions[1..])
  }

  /** `i` is the position of the first pattern that matches. */
  ghost predicate FirstMatch(patterns: seq<string>, version: string, i: int) {
    && 0 <= i < |patterns|
    && Matching(patterns[i], version)
    && forall j | 0 <= j < i :: !Matching(patterns[j], version)
  }

  datatype FilterResult = FilterResult(version: string, included: bool, reason: string)

  /** A verdict, with the pattern that decided it. */
  ghost predicate Explains(f: Filter, version: string, r: FilterResult) {
    && r.version == version
    && (r.included <==> Accepts(f, version))
    && (r.reason == "" ==> r.included && f.includes == [])
    && (f.includes == [] && r.included ==> r.reason == "")
    && (f.includes != [] && r.included ==>
          exists i :: FirstMatch(f.includes, version, i) && r.reason == "matches " + f.includes[i])
    && (f.includes != [] && !MatchesAny(f.includes, version) ==> r.reason == "no include pattern matched")
    && ((f.includes == [] || MatchesAny(f.includes, version)) && !r.included ==>
          exists i :: FirstMatch(f.excludes, version, i) && r.reason == "excluded by !" + f.excludes[i])
  }

  lemma {:induction false} SelectedByNothing(versions: seq<DiscoveredVersion>)
    ensures Selected(NOTHING, versions) == versions
  {
    if versions == [] {
    } else {
      SelectedByNothing(versions[1..]);
      assert Accepts(NOTHING, versions[0].version);
    }
  }

  class VersionFilter {
    var includePatterns: seq<string>
    var excludePatterns: seq<string>

    function View(): Filter
      reads this
    {
      Filter(includePatterns, excludePatterns)
    }

    constructor Parse(filterStr: string)
      ensures View() == Parsed(filterStr)
    {
      includePatterns := [];
      excludePatterns := [];
      new;
      if filterStr != "" {
        var parts := Split(filterStr, ',');
        var n := 0;
        while n < |parts|
          invariant 0 <= n <= |parts|
          invariant View() == ItemsPatterns(parts[..n])
        {
          ItemsSnoc(parts, n);
          AppendAssociates(View(), NOTHING, NOTHING);
          var part := TrimSpace(parts[n]);
          n := n + 1;
          if part == "" {
            continue;
          }
          if part[0] == '!' {
            var pattern := part[1..];
            if pattern != "" {
              excludePatterns := excludePatterns + [pattern];
            }
          } else if part[0] == '+' {
            var pattern := part[1..];
            if pattern != "" {
              includePatterns := includePatterns + [pattern];
            }
          } else {
            includePatterns := includePatterns + [part];
          }
        }
        assert parts[..n] == parts;
      }
    }

    method Matches(version: string) returns (accepted: bool)
      ensures accepted <==> Accepts(View(), version)
    {
      if |includePatterns| > 0 {
        var matched := false;
        var n := 0;
        while n < |includePatterns|
          invariant 0 <= n <= |includePatterns|
          invariant !MatchesAny(includePatterns[..n], version)
          invariant !matched
        {
          var hit := GlobMatch(includePatterns[n], version);
          if hit {
            matched := true;
            break;
          }
          n := n + 1;
        }
        if !matched {
          assert includePatterns[..n] == includePatterns;
          return false;
        }
        assert MatchesAny(includePatterns, version);
      }
      var n := 0;
      while n < |excludePatterns|
        invariant 0 <= n <= |excludePatterns|
        invariant !MatchesAny(excludePatterns[..n], version)
      {
        var hit := GlobMatch(excludePatterns[n], version);
        if hit {
          return false;
        }
        n := n + 1;
      }
      assert excludePatterns[..n] == excludePatterns;
      return true;
    }

    method IsEmpty() returns (empty: bool)
      ensures empty <==> View() == NOTHING
    {
      empty := |includePatterns| == 0 && |excludePatterns| == 0;
    }

    method String() returns (text: string)
      ensures text == Printed(View())
    {
      var parts := includePatterns;
      var n := 0;
      while n < |excludePatterns|
        invariant 0 <= n <= |excludePatterns|
        invariant parts == includePatterns + Bang(excludePatterns)[..n]
      {
        parts := parts + ["!" + excludePatterns[n]];
        n := n + 1;
      }
      assert Bang(excludePatterns)[..n] == Bang(excludePatterns);
      text := Join(parts, ',');
    }

    method FilterVersions(versions: seq<DiscoveredVersion>) returns (result: seq<DiscoveredVersion>)
      ensures result == Selected(View(), versions)
    {
      var empty := IsEmpty();
      if empty {
        SelectedByNothing(versions);
        return versions;
      }
      result := [];
      var n := 0;
      while n < |versions|
        invariant 0 <= n <= |versions|
        invariant result + Selected(View(), versions[n..]) == Selected(View(), versions)
      {
        assert versions[n..][1..] == versions[n + 1..];
        var accepted := Matches(versions[n].version);
        if accepted {
          result := result + [versions[n]];
        }
        n := n + 1;
      }
    }

    method FilterWithReasons(versions: seq<string>) returns (results: seq<FilterResult>)
      ensures |results| == |versions|
      ensures forall i | 0 <= i < |versions| :: Explains(View(), versions[i], results[i])
    {
      results := [];
      var n := 0;
      while n < |versions|
        invariant 0 <= n <= |versions| && |results| == n
        invariant forall i | 0 <= i < n :: Explains(View(), versions[i], results[i])
      {
        var version := versions[n];
        var result := FilterResult(version, true, "");
        if |includePatterns| > 0 {
          var matched := false;
          var k := 0;
          while k < |includePatterns|
            invariant 0 <= k <= |includePatterns|
            invariant !matched && result == FilterResult(version, true, "")
            invariant forall j | 0 <= j < k :: !Matching(includePatterns[j], version)
          {
            var hit := GlobMatch(includePatterns[k], version);
            if hit {
              matched := true;
              result := result.(reason := "matches " + includePatterns[k]);
              assert FirstMatch(includePatterns, version, k);
              break;
            }
            k := k + 1;
          }
          if !matched {
            result := result.(included := false, reason := "no include pattern matched");
          }
        }
        ghost var admitted := result;
        if result.included {
          var k := 0;
          while k < |excludePatterns|
            invariant 0 <= k <= |excludePatterns|
            invariant result == admitted
            invariant forall j | 0 <= j < k :: !Matching(excludePatterns[j], version)
          {
            var hit := GlobMatch(excludePatterns[k], version);
            if hit {
              result := result.(included := false, reason := "excluded by !" + excludePatterns[k]);
              assert FirstMatch(excludePatterns, version, k);
              break;
            }
            k := k + 1;
          }
        }
        assert Explains(View(), version, result);
        results := results + [result];
        n := n + 1;
      }
    }
  }

  // ---------- selection ----------

  /** The selection keeps exactly the accepted versions, each as often as it was listed. */
  lemma {:induction false} SelectedKeepsAccepted(f: Filter, versions: seq<DiscoveredVersion>, v: DiscoveredVersion)
    ensures multiset(Selected(f, versions))[v] ==
            if Accepts(f, v.version) then multiset(versions)[v] else 0
  {
    if versions == [] {
    } else {
      SelectedKeepsAccepted(f, versions[1..], v);
      assert versions == [versions[0]] + versions[1..];
    }
  }

  /** Order: selecting from a concatenation selects from the parts in turn. */
  lemma {:induction false} SelectedInOrder(f: Filter, a: seq<DiscoveredVersion>, b: seq<DiscoveredVersion>)
    ensures Selected(f, a + b) == Selected(f, a) + Selected(f, b)
  {
    if a == [] {
      assert a + b == b;
    } else {
      assert (a + b)[1..] == a[1..] + b;
      SelectedInOrder(f, a[1..], b);
    }
  }

  lemma {:induction false} SelectedIdempotent(f: Filter, versions: seq<DiscoveredVersion>)
    ensures Selected(f, Selected(f, versions)) == Selected(f, versions)
  {
    if versions == [] {
    } else {
      SelectedIdempotent(f, versions[1..]);
      if Accepts(f, versions[0].version) {
        assert Selected(f, versions)[1..] == Selected(f, versions[1..]);
      }
    }
  }

  // ---------- parse, print, parse ----------

  /** An include pattern that is read back as itself when printed without a `+`. */
  predicate ReadsBack(pattern: string) {
    pattern != "" && pattern[0] != '+' && pattern[0] != '!' && !IsSpace(pattern[0])
  }

  /** What every parsed pattern satisfies. */
  predicate Wellformed(pattern: string) {
    pattern != "" && !IsSpace(pattern[|pattern| - 1]) && ',' !in pattern
  }

  predicate AllWellformed(patterns: seq<string>) {
    forall i | 0 <= i < |patterns| :: Wellformed(patterns[i])
  }

  lemma {:induction false} ItemsWellformed(items: seq<string>)
    requires Free(items, ',')
    ensures AllWellformed(ItemsPatterns(items).includes)
    ensures AllWellformed(ItemsPatterns(items).excludes)
  {
    if items == [] {
    } else {
      TrimSpaceShape(items[0]);
      ItemsWellformed(items[1..]);
    }
  }

  lemma ParsedWellformed(text: string)
    ensures AllWellformed(Parsed(text).includes)
    ensures AllWellformed(Parsed(text).excludes)
  {
    if text != "" {
      SplitShape(text, ',');
      ItemsWellformed(Split(text, ','));
    }
  }

  /** Printed excludes are always read back. */
  lemma {:induction false} BangReadsBack(patterns: seq<string>)
    requires AllWellformed(patterns)
    ensures ItemsPatterns(Bang(patterns)) == Filter([], patterns)
  {
    if patterns == [] {
    } else {
      BangReadsBack(patterns[1..]);
      assert Bang(patterns)[1..] == Bang(patterns[1..]);
      TrimSpaceShape("!" + patterns[0]);
    }
  }

  /** One printed include is read back as itself, or is lost from the includes, or changed. */
  lemma IncludeReadsBack(pattern: string)
    requires Wellformed(pattern)
    ensures ReadsBack(pattern) <==> ItemPatterns(pattern) == Filter([pattern], [])
    ensures |ItemPatterns(pattern).includes| <= 1
    ensures ItemPatterns(pattern).includes == [pattern] ==> ReadsBack(pattern)
  {
    TrimSpaceShape(pattern);
  }

  predicate AllReadBack(patterns: seq<string>) {
    forall i | 0 <= i < |patterns| :: ReadsBack(patterns[i])
  }

  lemma AllReadBackSplit(a: seq<string>, b: seq<string>)
    ensures AllReadBack(a + b) <==> AllReadBack(a) && AllReadBack(b)
  {
    if AllReadBack(a + b) {
      forall i | 0 <= i < |b| ensures ReadsBack(b[i]) {
        assert (a + b)[|a| + i] == b[i];
      }
      forall i | 0 <= i < |a| ensures ReadsBack(a[i]) {
        assert (a + b)[i] == a[i];
      }
    }
  }

  lemma {:induction false} IncludesReadBack(patterns: seq<string>)
    requires AllWellformed(patterns)
    ensures |ItemsPatterns(patterns).includes| <= |patterns|
    ensures AllReadBack(patterns) ==> ItemsPatterns(patterns) == Filter(patterns, [])
    ensures ItemsPatterns(patterns).includes == patterns ==> AllReadBack(patterns)
  {
    if patterns == [] {
    } else {
      IncludeReadsBack(patterns[0]);
      IncludesReadBack(patterns[1..]);
      var head, tail := ItemPatterns(patterns[0]).includes, ItemsPatterns(patterns[1..]).includes;
      if head + tail == patterns {
        assert |head| == 1;
        assert head == [patterns[0]] && tail == (head + tail)[1..];
      }
    }
  }

  lemma ParsedJoin(items: seq<string>)
    requires Free(items, ',')
    ensures Parsed(Join(items, ',')) == ItemsPatterns(items)
  {
    if items != [] {
      SplitJoin(items, ',');
      if Join(items, ',') == "" {
        assert items == [""] + [];
        ItemsAppend([""], []);
        assert ItemPatterns("") == NOTHING;
      }
    }
  }

  lemma ItemsFree(f: Filter)
    requires AllWellformed(f.includes) && AllWellformed(f.excludes)
    ensures Free(Items(f), ',')
  {
  }

  lemma PrintedParsed(f: Filter)
    requires AllWellformed(f.includes) && AllWellformed(f.excludes)
    ensures Parsed(Printed(f)) == Append(ItemsPatterns(f.includes), Filter([], f.excludes))
  {
    ItemsFree(f);
    ParsedJoin(Items(f));
    ItemsAppend(f.includes, Bang(f.excludes));
    BangReadsBack(f.excludes);
  }

  /** A filter whose includes all read back is what its printed text says. */
  lemma PrintedReadsBack(f: Filter)
    requires AllWellformed(f.includes) && AllWellformed(f.excludes) && AllReadBack(f.includes)
    ensures Parsed(Printed(f)) == f
  {
    PrintedParsed(f);
    IncludesReadBack(f.includes);
    assert f.includes + [] == f.includes && [] + f.excludes == f.excludes;
  }

  /** Printing a parsed filter and parsing it again gives the same filter
      exactly when every include pattern reads back. */
  lemma RoundTrip(text: string)
    ensures Parsed(Printed(Parsed(text))) == Parsed(text) <==> AllReadBack(Parsed(text).includes)
  {
    var f := Parsed(text);
    ParsedWellformed(text);
    PrintedParsed(f);
    IncludesReadBack(f.includes);
    var again := ItemsPatterns(f.includes);
    assert Parsed(Printed(f)).includes == again.includes + [] == again.includes;
    assert [] + f.excludes == f.excludes;
  }

  /** The items on which the round trip fails: a `+` followed by another mark or a blank. */
  predicate MisprintedItem(item: string) {
    var part := TrimSpace(item);
    |part| >= 2 && part[0] == '+' && (part[1] == '+' || part[1] == '!' || IsSpace(part[1]))
  }

  predicate NoneMisprinted(items: seq<string>) {
    forall i | 0 <= i < |items| :: !MisprintedItem(items[i])
  }

  lemma MisprintedIsUnread(item: string)
    ensures AllReadBack(ItemPatterns(item).includes) <==> !MisprintedItem(item)
  {
    TrimSpaceShape(item);
    var part := TrimSpace(item);
    if |part| >= 2 && part[0] == '+' {
      assert ItemPatterns(item).includes[0] == part[1..];
    }
  }

  lemma {:induction false} MisprintedItems(items: seq<string>)
    ensures AllReadBack(ItemsPatterns(items).includes) <==> NoneMisprinted(items)
  {
    if items == [] {
    } else {
      MisprintedIsUnread(items[0]);
      MisprintedItems(items[1..]);
      AllReadBackSplit(ItemPatterns(items[0]).includes, ItemsPatterns(items[1..]).includes);
      assert items == [items[0]] + items[1..];
    }
  }

  /** The same condition on the text itself: no comma-separated item is misprinted.
      In particular a text with no `+` item always makes the round trip. */
  lemma RoundTripOfText(text: string)
    ensures Parsed(Printed(Parsed(text))) == Parsed(text) <==> NoneMisprinted(Split(text, ','))
  {
    RoundTrip(text);
    if text == "" {
      assert Split(text, ',') == [""];
    } else {
      MisprintedItems(Split(text, ','));
    }
  }

  /** A text that is one item. */
  lemma OneItem(item: string)
    requires ',' !in item
    ensures Parsed(item) == ItemPatterns(item)
  {
    assert Free([item], ',') && Join([item], ',') == item;
    ParsedJoin([item]);
    assert [item] == [item] + [];
    ItemsCons(item, []);
    AppendAssociates(ItemPatterns(item), NOTHING, NOTHING);
  }

  lemma PrintedAlone(pattern: string)
    ensures Printed(Filter([pattern], [])) == pattern
  {
    assert Items(Filter([pattern], [])) == [pattern];
  }

  /** Lower-case text without marks matches nothing but itself. */
  lemma OnlyItself(w: string, version: string)
    requires Literal(w) && IsLower(w)
    ensures Matching(w, version) <==> ToLower(version) == w
  {
    LowerOfLower(w);
    var str := ToLower(version);
    LiteralPrefix(w, "", str);
    assert w + "" == w;
    if w <= str {
      DenotesEmpty(str[|w|..]);
    }
  }

  lemma VerdictsDiffer()
    ensures !Accepts(Filter(["!x"], []), "y") && Accepts(Filter([], ["x"]), "y")
  {
    OnlyItself("!x", "y");
    OnlyItself("x", "y");
    assert ToLower("y")[0] == 'y';
  }

  /** An explicit include of `!x` comes back as an exclude of `x`: `y` is rejected before and accepted after. */
  lemma RoundTripCounterexample()
    ensures Parsed("+!x") == Filter(["!x"], [])
    ensures Parsed(Printed(Parsed("+!x"))) == Filter([], ["x"])
    ensures !Accepts(Parsed("+!x"), "y") && Accepts(Parsed(Printed(Parsed("+!x"))), "y")
  {
    OneItem("+!x");
    assert "+!x"[1..] == "!x" && "!x"[1..] == "x";
    OneItem("!x");
    PrintedAlone("!x");
    VerdictsDiffer();
  }
}
