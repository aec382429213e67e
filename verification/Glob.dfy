/** The glob matcher of src/ldfd/forge/filter.go and its meaning. */
module Glob {
  import opened Text

  // ---------- what a pattern means ----------

  /** What one pattern byte may stand for. */
  predicate Fits(p: char, piece: string) {
    if p == '*' then true else if p == '?' then |piece| == 1 else piece == [p]
  }

  function Flatten(pieces: seq<string>): string {
    if pieces == [] then "" else pieces[0] + Flatten(pieces[1..])
  }

  ghost predicate SplitsAs(pattern: string, str: string, pieces: seq<string>) {
    && |pieces| == |pattern|
    && Flatten(pieces) == str
    && forall i | 0 <= i < |pattern| :: Fits(pattern[i], pieces[i])
  }

  /** `str` can be cut into one piece per pattern byte, each piece fitting its byte. */
  ghost predicate Denotes(pattern: string, str: string) {
    exists pieces :: SplitsAs(pattern, str, pieces)
  }

  /** Some suffix of `str` is denoted. */
  ghost predicate SomeSuffix(pattern: string, str: string) {
    exists k | 0 <= k <= |str| :: Denotes(pattern, str[k..])
  }

  lemma DenotesEmpty(str: string)
    ensures Denotes("", str) <==> str == ""
  {
    assert SplitsAs("", "", []);
  }

  lemma DenotesIntro(pattern: string, str: string, k: nat)
    requires pattern != "" && k <= |str|
    requires Fits(pattern[0], str[..k]) && Denotes(pattern[1..], str[k..])
    ensures Denotes(pattern, str)
  {
    var rest :| SplitsAs(pattern[1..], str[k..], rest);
    var pieces := [str[..k]] + rest;
    assert pieces[1..] == rest;
    assert str[..k] + str[k..] == str;
    forall i | 0 <= i < |pattern|
      ensures Fits(pattern[i], pieces[i])
    {
      if i > 0 {
        assert pattern[1..][i - 1] == pattern[i];
      }
    }
    assert SplitsAs(pattern, str, pieces);
  }

  lemma DenotesElim(pattern: string, str: string) returns (k: nat)
    requires pattern != "" && Denotes(pattern, str)
    ensures k <= |str| && Fits(pattern[0], str[..k]) && Denotes(pattern[1..], str[k..])
  {
    var pieces :| SplitsAs(pattern, str, pieces);
    k := |pieces[0]|;
    assert str[..k] == pieces[0] && str[k..] == Flatten(pieces[1..]);
    assert SplitsAs(pattern[1..], str[k..], pieces[1..]);
  }

  /** A pattern byte other than a star consumes exactly one byte. */
  lemma DenotesByte(pattern: string, str: string)
    requires pattern != "" && pattern[0] != '*'
    ensures Denotes(pattern, str) <==>
            str != "" && (pattern[0] == '?' || pattern[0] == str[0]) && Denotes(pattern[1..], str[1..])
  {
    if Denotes(pattern, str) {
      var k := DenotesElim(pattern, str);
      assert k == 1;
    }
    if str != "" && (pattern[0] == '?' || pattern[0] == str[0]) && Denotes(pattern[1..], str[1..]) {
      DenotesIntro(pattern, str, 1);
    }
  }

  lemma DenotesStar(pattern: string, str: string)
    requires pattern != "" && pattern[0] == '*'
    ensures Denotes(pattern, str) <==> SomeSuffix(pattern[1..], str)
  {
    if Denotes(pattern, str) {
      var k := DenotesElim(pattern, str);
    }
    if SomeSuffix(pattern[1..], str) {
      var k :| 0 <= k <= |str| && Denotes(pattern[1..], str[k..]);
      DenotesIntro(pattern, str, k);
    }
  }

  /** A second star adds nothing to a first. */
  lemma StarsCollapse(pattern: string, str: string)
    requires pattern != "" && pattern[0] == '*'
    ensures SomeSuffix(pattern, str) <==> SomeSuffix(pattern[1..], str)
  {
    if SomeSuffix(pattern, str) {
      var k :| 0 <= k <= |str| && Denotes(pattern, str[k..]);
      DenotesStar(pattern, str[k..]);
      var m :| 0 <= m <= |str[k..]| && Denotes(pattern[1..], str[k..][m..]);
      assert str[k..][m..] == str[k + m..];
    }
    if SomeSuffix(pattern[1..], str) {
      DenotesStar(pattern, str);
      assert str[0..] == str;
    }
  }

  lemma AnySuffix(str: string)
    ensures SomeSuffix("", str)
  {
    DenotesEmpty(str[|str|..]);
  }

  // ---------- the matcher ----------

  method GlobMatchInternal(pattern0: string, str0: string) returns (matched: bool)
    ensures matched <==> Denotes(pattern0, str0)
    decreases |pattern0|
  {
    var pattern, str := pattern0, str0;
    while |pattern| > 0
      invariant |pattern| <= |pattern0|
      invariant Denotes(pattern, str) <==> Denotes(pattern0, str0)
      decreases |pattern|
    {
      if pattern[0] == '*' {
        DenotesStar(pattern, str);
        pattern := pattern[1..];
        while |pattern| > 0 && pattern[0] == '*'
          invariant |pattern| < |pattern0|
          invariant SomeSuffix(pattern, str) <==> Denotes(pattern0, str0)
          decreases |pattern|
        {
          StarsCollapse(pattern, str);
          pattern := pattern[1..];
        }
        if |pattern| == 0 {
          AnySuffix(str);
          return true;
        }
        var i := 0;
        while i <= |str|
          invariant 0 <= i <= |str| + 1
          invariant forall k | 0 <= k < i :: !Denotes(pattern, str[k..])
        {
          var here := GlobMatchInternal(pattern, str[i..]);
          if here {
            return true;
          }
          i := i + 1;
        }
        return false;
      } else {
        DenotesByte(pattern, str);
        if pattern[0] == '?' {
          if |str| == 0 {
            return false;
          }
        } else {
          if |str| == 0 || pattern[0] != str[0] {
            return false;
          }
        }
        pattern := pattern[1..];
        str := str[1..];
      }
    }
    DenotesEmpty(str);
    return |str| == 0;
  }

  /** The meaning of a pattern for a version: both are compared in lower case. */
  ghost predicate Matching(pattern: string, str: string) {
    Denotes(ToLower(pattern), ToLower(str))
  }

  method GlobMatch(pattern: string, str: string) returns (matched: bool)
    ensures matched <==> Matching(pattern, str)
  {
    matched := GlobMatchInternal(ToLower(pattern), ToLower(str));
  }

  // ---------- patterns the presets and the discovered filters are made of ----------

  /** No byte with a special meaning. */
  predicate Literal(w: string) {
    '*' !in w && '?' !in w
  }

  lemma {:induction false} LiteralPrefix(w: string, pattern: string, str: string)
    requires Literal(w)
    ensures Denotes(w + pattern, str) <==> w <= str && Denotes(pattern, str[|w|..])
  {
    if w == "" {
      assert w + pattern == pattern && str[0..] == str;
    } else {
      DenotesByte(w + pattern, str);
      assert (w + pattern)[1..] == w[1..] + pattern;
      if str != "" {
        LiteralPrefix(w[1..], pattern, str[1..]);
        assert w <= str <==> w[0] == str[0] && w[1..] <= str[1..];
        assert w <= str ==> str[1..][|w| - 1..] == str[|w|..];
      }
    }
  }

  lemma StarMeansAnything(str: string)
    ensures Denotes("*", str)
  {
    DenotesStar("*", str);
    AnySuffix(str);
    assert "*"[1..] == "";
  }

  /** `w*` is a prefix test. */
  lemma PrefixPattern(w: string, str: string)
    requires Literal(w)
    ensures Denotes(w + "*", str) <==> w <= str
  {
    LiteralPrefix(w, "*", str);
    if w <= str {
      StarMeansAnything(str[|w|..]);
    }
  }

  /** `*w*` is a substring test. */
  lemma InfixPattern(w: string, str: string)
    requires Literal(w)
    ensures Denotes("*" + w + "*", str) <==> Contains(str, w)
  {
    var p := "*" + w + "*";
    assert p[1..] == w + "*";
    DenotesStar(p, str);
    if SomeSuffix(w + "*", str) {
      var k :| 0 <= k <= |str| && Denotes(w + "*", str[k..]);
      PrefixPattern(w, str[k..]);
      assert OccursAt(str, w, k);
    }
    if Contains(str, w) {
      var k :| 0 <= k <= |str| && OccursAt(str, w, k);
      PrefixPattern(w, str[k..]);
    }
  }
}
