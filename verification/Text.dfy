/** The fragment of Go's `strings` package that the download pipeline relies on.
    A string is a sequence of ASCII bytes, one `char` each. */
module Text {

  // ---------- letters ----------

  function LowerChar(c: char): char {
    if 'A' <= c <= 'Z' then (c as int + 32) as char else c
  }

  function ToLower(s: string): (r: string)
    ensures |r| == |s|
    ensures forall i | 0 <= i < |s| :: r[i] == LowerChar(s[i])
  {
    seq(|s|, i requires 0 <= i < |s| => LowerChar(s[i]))
  }

  /** Text without upper-case letters is its own lower case. */
  predicate IsLower(s: string) {
    forall i | 0 <= i < |s| :: !('A' <= s[i] <= 'Z')
  }

  lemma LowerOfLower(s: string)
    requires IsLower(s)
    ensures ToLower(s) == s
  {
  }

  /** The twenty-six letters change, one by one, and nothing else does. */
  lemma LowerAlphabet(c: char)
    ensures ToLower("ABCDEFGHIJKLMNOPQRSTUVWXYZ") == "abcdefghijklmnopqrstuvwxyz"
    ensures c !in "ABCDEFGHIJKLMNOPQRSTUVWXYZ" ==> ToLower([c]) == [c]
  {
    var upper, lower := "ABCDEFGHIJKLMNOPQRSTUVWXYZ", "abcdefghijklmnopqrstuvwxyz";
    assert forall i | 0 <= i < 26 :: upper[i] as int == 'A' as int + i && lower[i] as int == 'a' as int + i;
    if 'A' <= c <= 'Z' {
      assert upper[c as int - 'A' as int] == c;
    }
  }

  predicate IsSpace(c: char) {
    c == ' ' || c == '\t' || c == '\n' || c == '\r' || c == '\U{B}' || c == '\U{C}'
  }

  function TrimLeft(s: string): string {
    if s != "" && IsSpace(s[0]) then TrimLeft(s[1..]) else s
  }

  function TrimRight(s: string): string {
    if s != "" && IsSpace(s[|s| - 1]) then TrimRight(s[..|s| - 1]) else s
  }

  function TrimSpace(s: string): string {
    TrimRight(TrimLeft(s))
  }

  /** Nothing to trim at either end. */
  predicate Trimmed(s: string) {
    s == "" || (!IsSpace(s[0]) && !IsSpace(s[|s| - 1]))
  }

  lemma TrimLeftShape(s: string)
    ensures var t := TrimLeft(s);
            |t| <= |s| && t == s[|s| - |t|..] && (t == "" || !IsSpace(t[0]))
  {
  }

  lemma TrimRightShape(s: string)
    ensures var t := TrimRight(s);
            t <= s && (t == "" || !IsSpace(t[|t| - 1]))
  {
  }

  lemma TrimSpaceShape(s: string)
    ensures Trimmed(TrimSpace(s)) && |TrimSpace(s)| <= |s|
    ensures forall c | c in TrimSpace(s) :: c in s
    ensures Trimmed(s) ==> TrimSpace(s) == s
  {
    var left := TrimLeft(s);
    var t := TrimRight(left);
    TrimLeftShape(s);
    TrimRightShape(left);
    assert t != "" ==> t[0] == left[0];
    forall c | c in t
      ensures c in s
    {
      var i :| 0 <= i < |t| && t[i] == c;
      assert left[i] == c && s[|s| - |left| + i] == c;
    }
    if Trimmed(s) {
      assert left == s;
    }
  }

  predicate Blank(s: string) {
    forall i | 0 <= i < |s| :: IsSpace(s[i])
  }

  lemma {:induction false} TrimLeftBlank(l: string, s: string)
    requires Blank(l) && (s == "" || !IsSpace(s[0]))
    ensures TrimLeft(l + s) == s
  {
    if l == "" {
      assert l + s == s;
    } else {
      assert (l + s)[1..] == l[1..] + s;
      TrimLeftBlank(l[1..], s);
    }
  }

  lemma {:induction false} TrimRightBlank(s: string, r: string)
    requires Blank(r) && (s == "" || !IsSpace(s[|s| - 1]))
    ensures TrimRight(s + r) == s
  {
    if r == "" {
      assert s + r == s;
    } else {
      var t := s + r;
      assert t[..|t| - 1] == s + r[..|r| - 1] && t[|t| - 1] == r[|r| - 1];
      TrimRightBlank(s, r[..|r| - 1]);
    }
  }

  /** Blanks on either side go, and nothing else. */
  lemma TrimSpaceMeaning(l: string, s: string, r: string)
    requires Blank(l) && Blank(r) && s != "" && Trimmed(s)
    ensures TrimSpace(l + (s + r)) == s
  {
    assert (s + r)[0] == s[0];
    TrimLeftBlank(l, s + r);
    TrimRightBlank(s, r);
  }

  // ---------- substrings ----------

  predicate OccursAt(s: string, w: string, i: nat) {
    i + |w| <= |s| && s[i..i + |w|] == w
  }

  /** strings.Contains */
  predicate Contains(s: string, w: string) {
    exists i | 0 <= i <= |s| :: OccursAt(s, w, i)
  }

  lemma ContainsPart(s: string, w: string, from: nat, to: nat)
    requires from <= to <= |w|
    requires Contains(s, w)
    ensures Contains(s, w[from..to])
  {
    var i :| 0 <= i <= |s| && OccursAt(s, w, i);
    forall j | 0 <= j < to - from
      ensures s[i + from..i + to][j] == w[from..to][j]
    {
      assert s[i..i + |w|][from + j] == w[from + j];
    }
    assert s[i + from..i + to] == w[from..to];
    assert OccursAt(s, w[from..to], i + from);
  }

  /** strings.ReplaceAll for a non-empty `old`: leftmost occurrences, none overlapping. */
  function ReplaceAll(s: string, old_: string, new_: string): string
    requires old_ != ""
    decreases |s|
  {
    if s == "" then ""
    else if old_ <= s then new_ + ReplaceAll(s[|old_|..], old_, new_)
    else [s[0]] + ReplaceAll(s[1..], old_, new_)
  }

  // ---------- splitting and joining at one separator ----------

  /** strings.Split with a one-byte separator; never empty. */
  function Split(s: string, sep: char): (parts: seq<string>)
    ensures |parts| >= 1
  {
    if s == "" then [""]
    else
      var rest := Split(s[1..], sep);
      if s[0] == sep then [""] + rest else [[s[0]] + rest[0]] + rest[1..]
  }

  /** strings.Join with a one-byte separator. */
  function Join(parts: seq<string>, sep: char): string {
    if |parts| == 0 then ""
    else if |parts| == 1 then parts[0]
    else parts[0] + [sep] + Join(parts[1..], sep)
  }

  predicate Free(parts: seq<string>, sep: char) {
    forall i | 0 <= i < |parts| :: sep !in parts[i]
  }

  lemma {:induction false} SplitShape(s: string, sep: char)
    ensures Free(Split(s, sep), sep)
    ensures Join(Split(s, sep), sep) == s
  {
    if s == "" {
    } else {
      SplitShape(s[1..], sep);
      var rest := Split(s[1..], sep);
      if s[0] == sep {
        assert ([""] + rest)[1..] == rest;
      } else {
        assert ([[s[0]] + rest[0]] + rest[1..])[1..] == rest[1..];
      }
    }
  }

  lemma {:induction false} SplitPrepend(t: string, s: string, sep: char)
    requires sep !in t
    ensures Split(t + s, sep) == [t + Split(s, sep)[0]] + Split(s, sep)[1..]
  {
    if t == "" {
      assert t + s == s;
      assert t + Split(s, sep)[0] == Split(s, sep)[0];
    } else {
      assert (t + s)[1..] == t[1..] + s;
      SplitPrepend(t[1..], s, sep);
      assert [t[0]] + (t[1..] + Split(s, sep)[0]) == t + Split(s, sep)[0];
    }
  }

  /** Split undoes Join: with SplitShape, the parts of a text are determined by the text. */
  lemma {:induction false} SplitJoin(parts: seq<string>, sep: char)
    requires |parts| >= 1
    requires Free(parts, sep)
    ensures Split(Join(parts, sep), sep) == parts
  {
    if |parts| == 1 {
      SplitPrepend(parts[0], "", sep);
      assert parts[0] + "" == parts[0];
    } else {
      SplitJoin(parts[1..], sep);
      var tail := [sep] + Join(parts[1..], sep);
      assert tail[1..] == Join(parts[1..], sep);
      SplitPrepend(parts[0], tail, sep);
      assert parts[0] + [sep] + Join(parts[1..], sep) == parts[0] + tail;
      assert parts[0] + "" == parts[0];
    }
  }
}
