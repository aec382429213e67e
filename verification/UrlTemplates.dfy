/** Download URL templates (src/ldfd/download/url_builder.go). */
module UrlTemplates {
  import opened Text
  import opened Wrappers

  datatype Substitution = Substitution(name: string, value: string)

  predicate BraceFree(s: string) {
    '{' !in s && '}' !in s
  }

  /** No placeholder can start in the text. */
  predicate NoOpening(s: string) {
    '{' !in s
  }

  function Hole(name: string): string {
    "{" + name + "}"
  }

  // ---------- replacing one placeholder after the other, and all at once ----------

  function Sequentially(template: string, subs: seq<Substitution>): string
    decreases |subs|
  {
    if subs == [] then template
    else Sequentially(ReplaceAll(template, Hole(subs[0].name), subs[0].value), subs[1..])
  }

  /** The position of the first substitution whose placeholder starts the text; |subs| if there is none. */
  function HoleAt(template: string, subs: seq<Substitution>): (i: nat)
    ensures i <= |subs|
    ensures i < |subs| ==> Hole(subs[i].name) <= template
  {
    if subs == [] then 0
    else if Hole(subs[0].name) <= template then 0
    else 1 + HoleAt(template, subs[1..])
  }

  /** One pass over the template; what a placeholder was replaced by is not looked at again. */
  function Simultaneously(template: string, subs: seq<Substitution>): string
    decreases |template|
  {
    if template == "" then ""
    else
      var i := HoleAt(template, subs);
      if i < |subs| then subs[i].value + Simultaneously(template[|Hole(subs[i].name)|..], subs)
      else [template[0]] + Simultaneously(template[1..], subs)
  }

  // ---------- templates in pieces ----------

  /** Text, a placeholder, or a brace that is never closed. */
  datatype Segment = Plain(text: string) | Placeholder(name: string) | Unclosed(text: string) {
    predicate Sound() {
      match this
      case Plain(text) => '{' !in text
      case Placeholder(name) => BraceFree(name)
      case Unclosed(text) => BraceFree(text)
    }

    function Text(): string {
      match this
      case Plain(text) => text
      case Placeholder(name) => Hole(name)
      case Unclosed(text) => "{" + text
    }
  }

  ghost predicate AllSound(segs: seq<Segment>) {
    forall i | 0 <= i < |segs| :: segs[i].Sound() && (segs[i].Unclosed? ==> i == |segs| - 1)
  }

  function Render(segs: seq<Segment>): string {
    if segs == [] then "" else segs[0].Text() + Render(segs[1..])
  }

  /** No brace is opened inside another. */
  predicate Flat(template: string) {
    forall i, j | 0 <= i < j < |template| && template[i] == '{' && template[j] == '{' ::
      '}' in template[i..j]
  }

  function First(c: char, s: string): (i: nat)
    ensures i <= |s| && c !in s[..i]
    ensures i < |s| ==> s[i] == c
  {
    if s == "" || s[0] == c then 0
    else
      var i := 1 + First(c, s[1..]);
      assert s[..i] == [s[0]] + s[1..][..i - 1];
      i
  }

  lemma FlatTail(template: string, k: nat)
    requires Flat(template) && k <= |template|
    ensures Flat(template[k..])
  {
    var t := template[k..];
    forall i, j | 0 <= i < j < |t| && t[i] == '{' && t[j] == '{'
      ensures '}' in t[i..j]
    {
      assert t[i..j] == template[k + i..k + j];
    }
  }

  lemma PrependSound(head: Segment, tail: seq<Segment>)
    requires AllSound(tail) && head.Sound() && !head.Unclosed?
    ensures AllSound([head] + tail)
  {
  }

  lemma RenderCons(seg: Segment, segs: seq<Segment>)
    ensures Render([seg] + segs) == seg.Text() + Render(segs)
  {
    assert ([seg] + segs)[1..] == segs;
  }

  lemma NoneOpenedBefore(after: string, k: nat)
    requires k <= |after| && Flat("{" + after) && '}' !in after[..k]
    ensures '{' !in after[..k]
  {
    var t := "{" + after;
    forall j | 0 <= j < k
      ensures after[j] != '{'
    {
      assert t[j + 1] == after[j];
      assert t[0..j + 1] == ['{'] + after[..k][..j];
    }
  }

  lemma ClosedSegments(plain: string, name: string, rest: string, more: seq<Segment>) returns (segs: seq<Segment>)
    requires '{' !in plain && BraceFree(name) && AllSound(more) && Render(more) == rest
    ensures AllSound(segs) && Render(segs) == plain + (Hole(name) + rest)
  {
    var tail := [Placeholder(name)] + more;
    PrependSound(Placeholder(name), more);
    RenderCons(Placeholder(name), more);
    segs := [Plain(plain)] + tail;
    PrependSound(Plain(plain), tail);
    RenderCons(Plain(plain), tail);
  }

  lemma OpenSegments(plain: string, text: string) returns (segs: seq<Segment>)
    requires '{' !in plain && BraceFree(text)
    ensures AllSound(segs) && Render(segs) == plain + ("{" + text)
  {
    segs := [Plain(plain)] + ([Unclosed(text)] + []);
    RenderCons(Unclosed(text), []);
    RenderCons(Plain(plain), [Unclosed(text)] + []);
    assert "{" + text + "" == "{" + text;
  }

  lemma AtByte(s: string, k: nat)
    requires k < |s|
    ensures s == s[..k] + ([s[k]] + s[k + 1..])
  {
  }

  lemma Cut(template: string, i: nat) returns (plain: string, after: string)
    requires Flat(template) && i == First('{', template) < |template|
    ensures template == plain + ("{" + after) && '{' !in plain
    ensures Flat("{" + after)
  {
    plain, after := template[..i], template[i + 1..];
    FlatTail(template, i);
    AtByte(template, i);
    assert template[i..] == "{" + after;
  }

  lemma Associates(a: string, b: string, c: string)
    ensures a + b + c == a + (b + c)
  {
  }

  lemma HoleThen(name: string, rest: string)
    ensures Hole(name) + rest == "{" + (name + ("}" + rest))
  {
    Associates("{" + name, "}", rest);
    Associates("{", name, "}" + rest);
  }

  lemma CutName(after: string, k: nat) returns (name: string, rest: string)
    requires Flat("{" + after) && k == First('}', after) < |after|
    ensures BraceFree(name) && Flat(rest) && |rest| < |after|
    ensures "{" + after == Hole(name) + rest
  {
    name, rest := after[..k], after[k + 1..];
    NoneOpenedBefore(after, k);
    FlatTail("{" + after, k + 2);
    assert ("{" + after)[k + 2..] == rest;
    AtByte(after, k);
    HoleThen(name, rest);
  }

  /** A flat template is a sequence of such pieces. */
  lemma {:induction false} FlatSegments(template: string) returns (segs: seq<Segment>)
    requires Flat(template)
    ensures AllSound(segs) && Render(segs) == template
    decreases |template|
  {
    var i := First('{', template);
    if i == |template| {
      assert template[..i] == template;
      segs := [Plain(template)] + [];
      RenderCons(Plain(template), []);
      assert template + "" == template;
    } else {
      var plain, after := Cut(template, i);
      var k := First('}', after);
      if k == |after| {
        NoneOpenedBefore(after, k);
        assert after[..k] == after;
        segs := OpenSegments(plain, after);
      } else {
        var name, rest := CutName(after, k);
        var more := FlatSegments(rest);
        segs := ClosedSegments(plain, name, rest, more);
      }
    }
  }

  // ---------- what one replacement does to the pieces ----------

  function Replaced(seg: Segment, name: string, value: string): Segment {
    if seg == Placeholder(name) then Plain(value) else seg
  }

  function ReplacedAll(segs: seq<Segment>, name: string, value: string): (r: seq<Segment>)
    ensures |r| == |segs|
    ensures forall i | 0 <= i < |segs| :: r[i] == Replaced(segs[i], name, value)
  {
    seq(|segs|, i requires 0 <= i < |segs| => Replaced(segs[i], name, value))
  }

  /** Text without an opening brace is passed over. */
  lemma {:induction false} ReplaceSkips(plain: string, rest: string, name: string, value: string)
    requires '{' !in plain
    ensures ReplaceAll(plain + rest, Hole(name), value) == plain + ReplaceAll(rest, Hole(name), value)
  {
    if plain == "" {
      assert plain + rest == rest;
    } else {
      var s := plain + rest;
      assert s[0] == plain[0] && s[1..] == plain[1..] + rest;
      ReplaceSkips(plain[1..], rest, name, value);
    }
  }

  /** Two placeholders start the same text only if they are the same. */
  lemma HolesDiffer(name: string, other: string, rest: string)
    requires BraceFree(name) && BraceFree(other)
    ensures Hole(name) <= Hole(other) + rest <==> name == other
  {
    var s := Hole(other) + rest;
    var m, n := |name|, |other|;
    assert s[n + 1] == '}' && forall i | 0 <= i < n :: s[i + 1] == other[i] != '}';
    assert Hole(name)[m + 1] == '}' && forall i | 0 <= i < m :: Hole(name)[i + 1] == name[i] != '}';
    if Hole(name) <= s {
      assert m == n;
      assert name == other;
    }
  }

  lemma NoHoleInUnclosed(name: string, text: string)
    requires BraceFree(text)
    ensures !(Hole(name) <= "{" + text)
  {
    assert Hole(name)[|name| + 1] == '}';
    assert forall i | 0 <= i < |"{" + text| :: ("{" + text)[i] != '}';
  }

  lemma ReplacePlaceholder(other: string, rest: string, name: string, value: string)
    requires BraceFree(name) && BraceFree(other)
    ensures ReplaceAll(Hole(other) + rest, Hole(name), value)
            == (if name == other then value else Hole(other)) + ReplaceAll(rest, Hole(name), value)
  {
    var s := Hole(other) + rest;
    HolesDiffer(name, other, rest);
    if name == other {
      assert s[|Hole(name)|..] == rest;
    } else {
      assert s[1..] == (other + "}") + rest && s[0] == '{';
      ReplaceSkips(other + "}", rest, name, value);
      var r := ReplaceAll(rest, Hole(name), value);
      assert ['{'] + ((other + "}") + r) == Hole(other) + r;
    }
  }

  lemma ReplaceUnclosed(text: string, name: string, value: string)
    requires BraceFree(name) && BraceFree(text)
    ensures ReplaceAll("{" + text, Hole(name), value) == "{" + text
  {
    var s := "{" + text;
    NoHoleInUnclosed(name, text);
    assert s[0] == '{' && s[1..] == text;
    ReplaceSkips(text, "", name, value);
    assert text + "" == text;
  }

  lemma ReplaceSegment(seg: Segment, rest: string, name: string, value: string)
    requires seg.Sound() && BraceFree(name) && (seg.Unclosed? ==> rest == "")
    ensures ReplaceAll(seg.Text() + rest, Hole(name), value)
            == Replaced(seg, name, value).Text() + ReplaceAll(rest, Hole(name), value)
  {
    match seg
    case Plain(text) =>
      ReplaceSkips(text, rest, name, value);
    case Placeholder(other) =>
      ReplacePlaceholder(other, rest, name, value);
    case Unclosed(text) =>
      ReplaceUnclosed(text, name, value);
      assert "{" + text + rest == "{" + text;
  }

  lemma {:induction false} ReplaceSegments(segs: seq<Segment>, name: string, value: string)
    requires AllSound(segs) && BraceFree(name)
    ensures ReplaceAll(Render(segs), Hole(name), value) == Render(ReplacedAll(segs, name, value))
  {
    if segs == [] {
    } else {
      ReplaceSegments(segs[1..], name, value);
      assert segs[0].Unclosed? ==> segs[1..] == [];
      ReplaceSegment(segs[0], Render(segs[1..]), name, value);
      assert ReplacedAll(segs, name, value)[1..] == ReplacedAll(segs[1..], name, value);
    }
  }

  // ---------- what the substitutions mean ----------

  /** The first substitution for the name decides; an unknown placeholder stays. */
  function Meaning(seg: Segment, subs: seq<Substitution>): Segment {
    if subs == [] || !seg.Placeholder? then seg
    else if subs[0].name == seg.name then Plain(subs[0].value)
    else Meaning(seg, subs[1..])
  }

  function Meanings(segs: seq<Segment>, subs: seq<Substitution>): (r: seq<Segment>)
    ensures |r| == |segs|
    ensures forall i | 0 <= i < |segs| :: r[i] == Meaning(segs[i], subs)
  {
    seq(|segs|, i requires 0 <= i < |segs| => Meaning(segs[i], subs))
  }

  ghost predicate ProperNames(subs: seq<Substitution>) {
    forall i | 0 <= i < |subs| :: BraceFree(subs[i].name)
  }

  /** No value can be the start of a placeholder that a later replacement would take for one of the template's. */
  ghost predicate NoneOpens(subs: seq<Substitution>) {
    forall i | 0 <= i < |subs| :: NoOpening(subs[i].value)
  }

  lemma {:induction false} SequentialMeaning(segs: seq<Segment>, subs: seq<Substitution>)
    requires AllSound(segs) && ProperNames(subs) && NoneOpens(subs)
    ensures Sequentially(Render(segs), subs) == Render(Meanings(segs, subs))
    decreases |subs|
  {
    if subs == [] {
      assert Meanings(segs, subs) == segs;
    } else {
      var next := ReplacedAll(segs, subs[0].name, subs[0].value);
      ReplaceSegments(segs, subs[0].name, subs[0].value);
      SequentialMeaning(next, subs[1..]);
      forall i | 0 <= i < |segs|
        ensures Meaning(segs[i], subs) == Meaning(next[i], subs[1..])
      {
      }
      assert Meanings(segs, subs) == Meanings(next, subs[1..]);
    }
  }

  lemma {:induction false} HolesOpen(s: string, subs: seq<Substitution>)
    requires s != "" && s[0] != '{'
    ensures HoleAt(s, subs) == |subs|
  {
    if subs == [] {
    } else {
      assert Hole(subs[0].name)[0] == '{';
      HolesOpen(s, subs[1..]);
    }
  }

  lemma {:induction false} SimultaneousSkips(plain: string, rest: string, subs: seq<Substitution>)
    requires '{' !in plain
    ensures Simultaneously(plain + rest, subs) == plain + Simultaneously(rest, subs)
  {
    if plain == "" {
      assert plain + rest == rest;
    } else {
      var s := plain + rest;
      assert s[0] == plain[0] && s[1..] == plain[1..] + rest;
      HolesOpen(s, subs);
      SimultaneousSkips(plain[1..], rest, subs);
    }
  }

  lemma {:induction false} HoleAtMeaning(name: string, rest: string, subs: seq<Substitution>)
    requires BraceFree(name) && ProperNames(subs)
    ensures var i := HoleAt(Hole(name) + rest, subs);
            if i < |subs| then subs[i].name == name && Meaning(Placeholder(name), subs) == Plain(subs[i].value)
            else Meaning(Placeholder(name), subs) == Placeholder(name)
  {
    if subs == [] {
    } else {
      HolesDiffer(subs[0].name, name, rest);
      if subs[0].name != name {
        HoleAtMeaning(name, rest, subs[1..]);
      }
    }
  }

  lemma {:induction false} NoHoleAt(text: string, subs: seq<Substitution>)
    requires BraceFree(text)
    ensures HoleAt("{" + text, subs) == |subs|
  {
    if subs == [] {
    } else {
      NoHoleInUnclosed(subs[0].name, text);
      NoHoleAt(text, subs[1..]);
    }
  }

  lemma OneOver(c: char, tail: string, subs: seq<Substitution>)
    requires HoleAt([c] + tail, subs) == |subs|
    ensures Simultaneously([c] + tail, subs) == [c] + Simultaneously(tail, subs)
  {
    assert ([c] + tail)[1..] == tail;
  }

  /** A placeholder that nobody knows is passed over. */
  lemma PassedOver(name: string, rest: string, subs: seq<Substitution>)
    requires BraceFree(name) && HoleAt(Hole(name) + rest, subs) == |subs|
    ensures Simultaneously(Hole(name) + rest, subs) == Hole(name) + Simultaneously(rest, subs)
  {
    var close, r := name + "}", Simultaneously(rest, subs);
    Associates("{", name, "}");
    Associates("{", close, rest);
    OneOver('{', close + rest, subs);
    SimultaneousSkips(close, rest, subs);
    Associates("{", close, r);
  }

  lemma SimultaneousPlaceholder(name: string, rest: string, subs: seq<Substitution>)
    requires BraceFree(name) && ProperNames(subs)
    ensures Simultaneously(Hole(name) + rest, subs)
            == Meaning(Placeholder(name), subs).Text() + Simultaneously(rest, subs)
  {
    var s := Hole(name) + rest;
    HoleAtMeaning(name, rest, subs);
    if HoleAt(s, subs) < |subs| {
      assert s[|Hole(name)|..] == rest;
    } else {
      PassedOver(name, rest, subs);
    }
  }

  lemma SimultaneousUnclosed(text: string, subs: seq<Substitution>)
    requires BraceFree(text)
    ensures Simultaneously("{" + text, subs) == "{" + text
  {
    var s := "{" + text;
    NoHoleAt(text, subs);
    assert s[0] == '{' && s[1..] == text;
    SimultaneousSkips(text, "", subs);
    assert text + "" == text;
  }

  lemma SimultaneousSegment(seg: Segment, rest: string, subs: seq<Substitution>)
    requires seg.Sound() && ProperNames(subs) && (seg.Unclosed? ==> rest == "")
    ensures Simultaneously(seg.Text() + rest, subs) == Meaning(seg, subs).Text() + Simultaneously(rest, subs)
  {
    match seg
    case Plain(text) =>
      SimultaneousSkips(text, rest, subs);
    case Placeholder(name) =>
      SimultaneousPlaceholder(name, rest, subs);
    case Unclosed(text) =>
      SimultaneousUnclosed(text, subs);
      assert "{" + text + rest == "{" + text;
  }

  lemma {:induction false} SimultaneousMeaning(segs: seq<Segment>, subs: seq<Substitution>)
    requires AllSound(segs) && ProperNames(subs)
    ensures Simultaneously(Render(segs), subs) == Render(Meanings(segs, subs))
  {
    if segs == [] {
    } else {
      SimultaneousMeaning(segs[1..], subs);
      SimultaneousSegment(segs[0], Render(segs[1..]), subs);
      assert Meanings(segs, subs)[1..] == Meanings(segs[1..], subs);
    }
  }

  // ---------- order does not matter ----------

  ghost predicate DistinctNames(subs: seq<Substitution>) {
    forall i, j | 0 <= i < j < |subs| :: subs[i].name != subs[j].name
  }

  lemma {:induction false} MeaningOf(seg: Segment, subs: seq<Substitution>, i: nat)
    requires DistinctNames(subs) && i < |subs| && seg == Placeholder(subs[i].name)
    ensures Meaning(seg, subs) == Plain(subs[i].value)
  {
    if i == 0 {
    } else {
      assert subs[0].name != subs[i].name && subs[1..][i - 1] == subs[i];
      MeaningOf(seg, subs[1..], i - 1);
    }
  }

  lemma {:induction false} UnknownMeaning(seg: Segment, subs: seq<Substitution>)
    requires forall i | 0 <= i < |subs| :: seg != Placeholder(subs[i].name)
    ensures Meaning(seg, subs) == seg
  {
    if subs == [] {
    } else {
      assert forall i | 0 <= i < |subs[1..]| :: subs[1..][i] == subs[i + 1];
      UnknownMeaning(seg, subs[1..]);
    }
  }

  ghost predicate Reordered(subs: seq<Substitution>, others: seq<Substitution>) {
    DistinctNames(subs) && DistinctNames(others) && forall s :: s in subs <==> s in others
  }

  lemma MeaningReordered(seg: Segment, subs: seq<Substitution>, others: seq<Substitution>)
    requires Reordered(subs, others)
    ensures Meaning(seg, subs) == Meaning(seg, others)
  {
    if i: nat :| i < |subs| && seg == Placeholder(subs[i].name) {
      MeaningOf(seg, subs, i);
      assert subs[i] in others;
      var j: nat :| j < |others| && others[j] == subs[i];
      MeaningOf(seg, others, j);
    } else {
      forall j | 0 <= j < |others|
        ensures seg != Placeholder(others[j].name)
      {
        assert others[j] in subs;
      }
      UnknownMeaning(seg, subs);
      UnknownMeaning(seg, others);
    }
  }

  /** On a flat template the replacements, one after the other in any order,
      are one simultaneous substitution. */
  lemma SequentialIsSimultaneous(template: string, subs: seq<Substitution>, others: seq<Substitution>)
    requires Flat(template) && ProperNames(subs) && NoneOpens(subs) && Reordered(subs, others)
    ensures Sequentially(template, others) == Simultaneously(template, subs)
  {
    var segs := FlatSegments(template);
    forall i | 0 <= i < |others|
      ensures BraceFree(others[i].name) && NoOpening(others[i].value)
    {
      assert others[i] in subs;
    }
    SequentialMeaning(segs, others);
    SimultaneousMeaning(segs, subs);
    forall i | 0 <= i < |segs| {
      MeaningReordered(segs[i], subs, others);
    }
    assert Meanings(segs, subs) == Meanings(segs, others);
  }

  ghost predicate NoneUnclosed(segs: seq<Segment>) {
    forall i | 0 <= i < |segs| :: !segs[i].Unclosed?
  }

  /** Pieces that are closed are substituted on their own. */
  lemma {:induction false} SimultaneousAfter(segs: seq<Segment>, rest: string, subs: seq<Substitution>)
    requires AllSound(segs) && NoneUnclosed(segs) && ProperNames(subs)
    ensures Simultaneously(Render(segs) + rest, subs) == Render(Meanings(segs, subs)) + Simultaneously(rest, subs)
  {
    if segs == [] {
      assert Render(segs) + rest == rest;
    } else {
      var tail := Render(segs[1..]);
      SimultaneousAfter(segs[1..], rest, subs);
      SimultaneousSegment(segs[0], tail + rest, subs);
      Associates(segs[0].Text(), tail, rest);
      assert Meanings(segs, subs)[1..] == Meanings(segs[1..], subs);
      Associates(Meaning(segs[0], subs).Text(), Render(Meanings(segs[1..], subs)), Simultaneously(rest, subs));
    }
  }

  lemma {:induction false} RenderSnoc(segs: seq<Segment>, seg: Segment)
    ensures Render(segs + [seg]) == Render(segs) + seg.Text()
  {
    if segs == [] {
      assert segs + [seg] == [seg] + [];
      RenderCons(seg, []);
    } else {
      assert (segs + [seg])[1..] == segs[1..] + [seg];
      RenderSnoc(segs[1..], seg);
      Associates(segs[0].Text(), Render(segs[1..]), seg.Text());
    }
  }

  lemma FlatHead(template: string, rest: string)
    requires Flat(template + rest)
    ensures Flat(template)
  {
    forall i, j | 0 <= i < j < |template| && template[i] == '{' && template[j] == '{'
      ensures '}' in template[i..j]
    {
      assert (template + rest)[i..j] == template[i..j];
    }
  }

  lemma OpenThenOpen(head: string, text: string, after: string)
    requires BraceFree(text)
    ensures !Flat(head + ("{" + text) + ("{" + after))
  {
    var before := head + ("{" + text);
    var t := before + ("{" + after);
    assert t[|head|] == before[|head|] == '{' && t[|before|] == '{';
    assert t[|head|..|before|] == before[|head|..] == "{" + text;
    assert '}' !in "{" + text;
  }

  /** In a flat template nothing before a brace is left open. */
  lemma ClosedBefore(before: string, after: string, segs: seq<Segment>)
    requires Flat(before + ("{" + after)) && AllSound(segs) && Render(segs) == before
    ensures NoneUnclosed(segs)
  {
    if i: int :| 0 <= i < |segs| && segs[i].Unclosed? {
      assert i == |segs| - 1;
      var init := segs[..i];
      assert segs == init + [segs[i]];
      RenderSnoc(init, segs[i]);
      assert before == Render(init) + ("{" + segs[i].text);
      OpenThenOpen(Render(init), segs[i].text, after);
    }
  }

  lemma SimultaneousPrefix(before: string, after: string, subs: seq<Substitution>)
    requires Flat(before + ("{" + after)) && ProperNames(subs)
    ensures Simultaneously(before + ("{" + after), subs)
            == Simultaneously(before, subs) + Simultaneously("{" + after, subs)
  {
    FlatHead(before, "{" + after);
    var segs := FlatSegments(before);
    ClosedBefore(before, after, segs);
    SimultaneousAfter(segs, "{" + after, subs);
    SimultaneousMeaning(segs, subs);
  }

  /** One after the other in the order of the list, the first substitution for a name decides as in one pass. */
  lemma SequentialAsListed(template: string, subs: seq<Substitution>)
    requires Flat(template) && ProperNames(subs) && NoneOpens(subs)
    ensures Sequentially(template, subs) == Simultaneously(template, subs)
  {
    var segs := FlatSegments(template);
    SequentialMeaning(segs, subs);
    SimultaneousMeaning(segs, subs);
  }

  lemma FlatAround(before: string, middle: string, rest: string)
    requires Flat(before + (middle + rest))
    ensures Flat(before) && Flat(rest)
  {
    var t := before + (middle + rest);
    FlatHead(before, middle + rest);
    FlatTail(t, |before| + |middle|);
    assert t[|before| + |middle|..] == rest;
  }

  /** A placeholder nobody knows is left as it is, wherever it stands in a flat template,
      and what surrounds it is substituted as if it were alone. */
  lemma UnknownPlaceholdersStay(before: string, name: string, rest: string, subs: seq<Substitution>)
    requires Flat(before + (Hole(name) + rest)) && BraceFree(name) && ProperNames(subs)
    requires forall i | 0 <= i < |subs| :: subs[i].name != name
    ensures Simultaneously(before + (Hole(name) + rest), subs)
            == Simultaneously(before, subs) + (Hole(name) + Simultaneously(rest, subs))
    ensures NoneOpens(subs) ==>
              Sequentially(before + (Hole(name) + rest), subs)
              == Sequentially(before, subs) + (Hole(name) + Sequentially(rest, subs))
  {
    var after := name + "}" + rest;
    assert "{" + after == Hole(name) + rest;
    SimultaneousPrefix(before, after, subs);
    UnknownMeaning(Placeholder(name), subs);
    SimultaneousPlaceholder(name, rest, subs);
    if NoneOpens(subs) {
      FlatAround(before, Hole(name), rest);
      SequentialAsListed(before + (Hole(name) + rest), subs);
      SequentialAsListed(before, subs);
      SequentialAsListed(rest, subs);
    }
  }

  // ---------- a value that opens a brace ----------

  lemma {:induction false} ErasingShrinks(s: string, old_: string)
    requires old_ != ""
    ensures |ReplaceAll(s, old_, "")| <= |s|
    ensures Contains(s, old_) ==> |ReplaceAll(s, old_, "")| < |s|
    decreases |s|
  {
    if s == "" {
    } else if old_ <= s {
      ErasingShrinks(s[|old_|..], old_);
    } else {
      ErasingShrinks(s[1..], old_);
      if Contains(s, old_) {
        var i :| 0 <= i <= |s| && OccursAt(s, old_, i);
        assert i > 0;
        assert s[1..][i - 1..i - 1 + |old_|] == s[i..i + |old_|];
        assert OccursAt(s[1..], old_, i - 1);
      }
    }
  }

  lemma ContainsBehind(head: string, tail: string, w: string)
    requires Contains(tail, w)
    ensures Contains(head + tail, w)
  {
    var j :| 0 <= j <= |tail| && OccursAt(tail, w, j);
    assert (head + tail)[|head| + j..|head| + j + |w|] == tail[j..j + |w|];
    assert OccursAt(head + tail, w, |head| + j);
  }

  lemma ContainsInFront(w: string, rest: string)
    ensures Contains(w + rest, w)
  {
    assert OccursAt(w + rest, w, 0);
  }

  lemma ClosedName(after: string) returns (m: string)
    requires NoOpening(after)
    ensures BraceFree(m) && Contains("{" + (after + "}"), Hole(m))
  {
    var s := after + "}";
    var k := First('}', s);
    assert s[|after|] == '}';
    m := s[..k];
    var rest := s[k + 1..];
    assert s == m + s[k..] && s[k..] == "}" + rest;
    ContainsInFront(Hole(m), rest);
    Associates("{" + m, "}", rest);
    Associates("{", m, "}" + rest);
  }

  /** A closing brace after text that opens one makes a placeholder. */
  lemma {:induction false} PlaceholderIn(v: string) returns (m: string)
    requires !NoOpening(v)
    ensures BraceFree(m) && Contains(v + "}", Hole(m))
    decreases |v|
  {
    var i := First('{', v);
    var after := v[i + 1..];
    if NoOpening(after) {
      m := ClosedName(after);
    } else {
      m := PlaceholderIn(after);
      ContainsBehind("{", after + "}", Hole(m));
    }
    ContainsBehind(v[..i], "{" + (after + "}"), Hole(m));
    assert v + "}" == v[..i] + ("{" + (after + "}"));
  }

  lemma FirstOf(text: string, sub: Substitution, rest: seq<Substitution>)
    ensures Sequentially(text, [sub] + rest) == Sequentially(ReplaceAll(text, Hole(sub.name), sub.value), rest)
  {
    assert ([sub] + rest)[1..] == rest;
  }

  function TwoSubstitutions(n: string, v: string, m: string): seq<Substitution> {
    [Substitution(n, v), Substitution(m, "")]
  }

  lemma ClosingStays(n: string, v: string)
    ensures ReplaceAll("}", Hole(n), v) == "}"
  {
    ReplaceSkips("}", "", n, v);
    assert "}" + "" == "}";
  }

  lemma OneAfterTheOther(n: string, v: string, m: string)
    requires BraceFree(n)
    ensures Sequentially(Hole(n) + "}", TwoSubstitutions(n, v, m)) == ReplaceAll(v + "}", Hole(m), "")
  {
    var first, second := Substitution(n, v), Substitution(m, "");
    ReplacePlaceholder(n, "}", n, v);
    ClosingStays(n, v);
    assert TwoSubstitutions(n, v, m) == [first] + ([second] + []);
    FirstOf(Hole(n) + "}", first, [second] + []);
    FirstOf(v + "}", second, []);
  }

  lemma BothAtOnce(n: string, v: string, m: string)
    requires BraceFree(n) && BraceFree(m)
    ensures Simultaneously(Hole(n) + "}", TwoSubstitutions(n, v, m)) == v + "}"
  {
    var subs := TwoSubstitutions(n, v, m);
    SimultaneousPlaceholder(n, "}", subs);
    SimultaneousSkips("}", "", subs);
    assert "}" + "" == "}";
  }

  /** With such a value there is a flat template, of one placeholder and one brace, and another
      substitution, for which the two differ. */
  lemma OpeningBreaks(v: string) returns (template: string, subs: seq<Substitution>)
    requires !NoOpening(v)
    ensures Flat(template) && ProperNames(subs) && DistinctNames(subs)
    ensures |subs| == 2 && subs[0].value == v && NoOpening(subs[1].value)
    ensures Sequentially(template, subs) != Simultaneously(template, subs)
  {
    var m := PlaceholderIn(v);
    var n := m + "a";
    template, subs := Hole(n) + "}", TwoSubstitutions(n, v, m);
    OneAfterTheOther(n, v, m);
    BothAtOnce(n, v, m);
    ErasingShrinks(v + "}", Hole(m));
  }

  /** The value, first in a list of two, never makes a difference between the two ways. */
  ghost predicate Harmless(v: string) {
    forall template: string, subs: seq<Substitution> |
      Flat(template) && ProperNames(subs) && DistinctNames(subs)
      && |subs| == 2 && subs[0].value == v && NoOpening(subs[1].value) ::
      Sequentially(template, subs) == Simultaneously(template, subs)
  }

  /** The exact condition: a value is harmless if and only if it opens no brace. */
  lemma NoOpeningIsExact(v: string)
    ensures NoOpening(v) <==> Harmless(v)
  {
    if NoOpening(v) {
      forall template: string, subs: seq<Substitution> |
        Flat(template) && ProperNames(subs) && DistinctNames(subs)
        && |subs| == 2 && subs[0].value == v && NoOpening(subs[1].value)
        ensures Sequentially(template, subs) == Simultaneously(template, subs)
      {
        SequentialAsListed(template, subs);
      }
    } else {
      var template, subs := OpeningBreaks(v);
    }
  }

  // ---------- the nine placeholders ----------

  /** Part `i` of the version, "0" when it is missing or empty. */
  function Component(version: string, i: nat): string {
    var parts := Split(version, '.');
    if i < |parts| && parts[i] != "" then parts[i] else "0"
  }

  method ParseVersionComponents(version: string) returns (major: string, minor: string, patch: string)
    ensures major == Component(version, 0) && minor == Component(version, 1) && patch == Component(version, 2)
  {
    var parts := Split(version, '.');
    major, minor, patch := "0", "0", "0";
    if |parts| > 0 && parts[0] != "" {
      major := parts[0];
    }
    if |parts| > 1 && parts[1] != "" {
      minor := parts[1];
    }
    if |parts| > 2 && parts[2] != "" {
      patch := parts[2];
    }
  }

  function BuildCompactVersion(version: string): string {
    ReplaceAll(version, ".", "")
  }

  function Concatenated(parts: seq<string>): string {
    if parts == [] then "" else parts[0] + Concatenated(parts[1..])
  }

  lemma CompactStep(version: string)
    requires version != ""
    ensures BuildCompactVersion(version)
            == (if version[0] == '.' then "" else [version[0]]) + BuildCompactVersion(version[1..])
  {
    assert "." <= version <==> version[0] == '.';
    assert version[|"."|..] == version[1..];
  }

  lemma ConcatenatedCons(part: string, parts: seq<string>)
    ensures Concatenated([part] + parts) == part + Concatenated(parts)
  {
    assert ([part] + parts)[1..] == parts;
  }

  lemma ConcatenatedStep(version: string)
    requires version != ""
    ensures Concatenated(Split(version, '.'))
            == (if version[0] == '.' then "" else [version[0]]) + Concatenated(Split(version[1..], '.'))
  {
    var rest := Split(version[1..], '.');
    if version[0] == '.' {
      ConcatenatedCons("", rest);
    } else {
      ConcatenatedCons([version[0]] + rest[0], rest[1..]);
    }
  }

  /** The compact version is the dot-separated parts run together. */
  lemma {:induction false} CompactIsParts(version: string)
    ensures BuildCompactVersion(version) == Concatenated(Split(version, '.'))
    ensures '.' !in BuildCompactVersion(version)
  {
    if version == "" {
      assert [""] == [""] + [];
      ConcatenatedCons("", []);
    } else {
      CompactIsParts(version[1..]);
      CompactStep(version);
      ConcatenatedStep(version);
    }
  }

  function Substitutions(baseURL: string, version: string): seq<Substitution> {
    var major, minor, patch := Component(version, 0), Component(version, 1), Component(version, 2);
    [ Substitution("base_url", baseURL),
      Substitution("version", version),
      Substitution("tag", "v" + version),
      Substitution("tag_short", "v" + major + "." + minor),
      Substitution("tag_compact", "v" + BuildCompactVersion(version)),
      Substitution("major", major),
      Substitution("minor", minor),
      Substitution("patch", patch),
      Substitution("major_x", major + ".x") ]
  }

  lemma {:induction false} JoinHolds(parts: seq<string>, i: nat, c: char)
    requires i < |parts| && c in parts[i]
    ensures c in Join(parts, '.')
  {
    if |parts| > 1 && i > 0 {
      JoinHolds(parts[1..], i - 1, c);
    }
  }

  lemma ComponentOpensNone(version: string, i: nat)
    requires NoOpening(version)
    ensures NoOpening(Component(version, i))
  {
    var parts := Split(version, '.');
    SplitShape(version, '.');
    if i < |parts| && '{' in parts[i] {
      JoinHolds(parts, i, '{');
    }
  }

  lemma {:induction false} CompactOpensNone(version: string)
    requires NoOpening(version)
    ensures NoOpening(BuildCompactVersion(version))
  {
    if version == "" {
    } else {
      CompactOpensNone(version[1..]);
      CompactStep(version);
    }
  }

  lemma ConcatOpensNone(a: string, b: string)
    requires NoOpening(a) && NoOpening(b)
    ensures NoOpening(a + b)
  {
  }

  lemma ValuesOpenNone(baseURL: string, version: string)
    requires NoOpening(baseURL) && NoOpening(version)
    ensures forall s | s in Substitutions(baseURL, version) :: NoOpening(s.value)
  {
    var major, minor := Component(version, 0), Component(version, 1);
    ComponentOpensNone(version, 0);
    ComponentOpensNone(version, 1);
    ComponentOpensNone(version, 2);
    CompactOpensNone(version);
    ConcatOpensNone("v", version);
    ConcatOpensNone("v", major);
    ConcatOpensNone("v" + major, ".");
    ConcatOpensNone("v" + major + ".", minor);
    ConcatOpensNone("v", BuildCompactVersion(version));
    ConcatOpensNone(major, ".x");
  }

  lemma PlainNames()
    ensures BraceFree("base_url") && BraceFree("version")
    ensures BraceFree("tag") && BraceFree("tag_short") && BraceFree("tag_compact")
    ensures BraceFree("major") && BraceFree("minor") && BraceFree("patch") && BraceFree("major_x")
  {
  }

  lemma NamesBraceFree(baseURL: string, version: string)
    ensures forall s | s in Substitutions(baseURL, version) :: BraceFree(s.name)
  {
    PlainNames();
  }

  lemma SubstitutionsProper(baseURL: string, version: string)
    ensures ProperNames(Substitutions(baseURL, version))
    ensures NoOpening(baseURL) && NoOpening(version) ==> NoneOpens(Substitutions(baseURL, version))
  {
    var subs := Substitutions(baseURL, version);
    NamesBraceFree(baseURL, version);
    forall i | 0 <= i < |subs|
      ensures BraceFree(subs[i].name)
      ensures NoOpening(baseURL) && NoOpening(version) ==> NoOpening(subs[i].value)
    {
      assert subs[i] in subs;
      if NoOpening(baseURL) && NoOpening(version) {
        ValuesOpenNone(baseURL, version);
      }
    }
  }

  lemma SubstitutionsDistinct(baseURL: string, version: string)
    ensures DistinctNames(Substitutions(baseURL, version))
  {
    var names := ["base_url", "version", "tag", "tag_short", "tag_compact", "major", "minor", "patch", "major_x"];
    assert forall i | 0 <= i < 9 :: Substitutions(baseURL, version)[i].name == names[i];
    assert |"base_url"| == 8 && |"version"| == 7 && |"tag"| == 3 && |"tag_short"| == 9 && |"tag_compact"| == 11;
    assert |"major"| == 5 && |"minor"| == 5 && |"patch"| == 5 && |"major_x"| == 7;
    assert "major"[1] == 'a' && "minor"[1] == 'i' && "patch"[0] == 'p' && "major"[0] == 'm' && "minor"[0] == 'm';
    assert "version"[0] == 'v' && "major_x"[0] == 'm';
  }

  lemma NextReplacement(text: string, subs: seq<Substitution>, k: nat)
    requires k < |subs|
    ensures Sequentially(text, subs[k..])
            == Sequentially(ReplaceAll(text, Hole(subs[k].name), subs[k].value), subs[k + 1..])
  {
    assert subs[k..][1..] == subs[k + 1..];
  }

  /** The k-th replacement of the nine. */
  method Replace(text: string, ghost subs: seq<Substitution>, ghost k: nat, name: string, value: string)
    returns (result: string)
    requires k < |subs| && subs[k] == Substitution(name, value)
    ensures Sequentially(result, subs[k + 1..]) == Sequentially(text, subs[k..])
  {
    result := ReplaceAll(text, Hole(name), value);
    NextReplacement(text, subs, k);
  }

  /** The nine replacements, in any order, are one simultaneous substitution. */
  lemma TemplateMeaning(template: string, baseURL: string, version: string, others: seq<Substitution>)
    requires Flat(template) && NoOpening(baseURL) && NoOpening(version)
    requires Reordered(Substitutions(baseURL, version), others)
    ensures Sequentially(template, others) == Simultaneously(template, Substitutions(baseURL, version))
  {
    SubstitutionsProper(baseURL, version);
    SequentialIsSimultaneous(template, Substitutions(baseURL, version), others);
  }

  lemma InCodeOrder(baseURL: string, version: string)
    ensures Reordered(Substitutions(baseURL, version), Substitutions(baseURL, version))
  {
    SubstitutionsDistinct(baseURL, version);
  }

  lemma {:induction false} SequentiallyAppend(text: string, a: seq<Substitution>, b: seq<Substitution>)
    ensures Sequentially(text, a + b) == Sequentially(Sequentially(text, a), b)
    decreases |a|
  {
    if a == [] {
      assert a + b == b;
    } else {
      assert (a + b)[1..] == a[1..] + b;
      SequentiallyAppend(ReplaceAll(text, Hole(a[0].name), a[0].value), a[1..], b);
    }
  }

  /** The nine replacements, in the order of the code, which is the order of the list. */
  lemma NineReplacements(text: string, subs: seq<Substitution>)
    requires |subs| == 9
    ensures Sequentially(text, subs)
            == Sequentially(Sequentially(text, subs[..5]), subs[5..])
  {
    SequentiallyAppend(text, subs[..5], subs[5..]);
    assert subs[..5] + subs[5..] == subs;
  }

  method ReplaceTags(
    text: string, baseURL: string, version: string, tagShort: string, tagCompact: string,
    ghost subs: seq<Substitution>)
    returns (result: string)
    requires subs == [Substitution("base_url", baseURL), Substitution("version", version),
                      Substitution("tag", "v" + version),
                      Substitution("tag_short", tagShort), Substitution("tag_compact", tagCompact)]
    ensures result == Sequentially(text, subs)
  {
    result := text;
    result := Replace(result, subs, 0, "base_url", baseURL);
    result := Replace(result, subs, 1, "version", version);
    result := Replace(result, subs, 2, "tag", "v" + version);
    result := Replace(result, subs, 3, "tag_short", tagShort);
    result := Replace(result, subs, 4, "tag_compact", tagCompact);
    assert subs[0..] == subs && subs[5..] == [];
  }

  method ReplaceComponents(text: string, major: string, minor: string, patch: string, ghost subs: seq<Substitution>)
    returns (result: string)
    requires subs == [Substitution("major", major), Substitution("minor", minor), Substitution("patch", patch),
                      Substitution("major_x", major + ".x")]
    ensures result == Sequentially(text, subs)
  {
    result := text;
    result := Replace(result, subs, 0, "major", major);
    result := Replace(result, subs, 1, "minor", minor);
    result := Replace(result, subs, 2, "patch", patch);
    result := Replace(result, subs, 3, "major_x", major + ".x");
    assert subs[0..] == subs && subs[4..] == [];
  }

  method ApplyTemplate(template: string, baseURL: string, version: string) returns (result: string)
    ensures result == Sequentially(template, Substitutions(baseURL, version))
  {
    var major, minor, patch := ParseVersionComponents(version);
    var tagShort := "v" + major + "." + minor;
    var tagCompact := "v" + BuildCompactVersion(version);
    ghost var subs := Substitutions(baseURL, version);
    result := ReplaceTags(template, baseURL, version, tagShort, tagCompact, subs[..5]);
    result := ReplaceComponents(result, major, minor, patch, subs[5..]);
    NineReplacements(template, subs);
  }

  // ---------- a version that opens a brace ----------

  /** Replacements for other names than those of the pieces change nothing, whatever their values. */
  lemma {:induction false} Untouched(segs: seq<Segment>, subs: seq<Substitution>)
    requires AllSound(segs) && ProperNames(subs)
    requires forall i, j | 0 <= i < |segs| && 0 <= j < |subs| :: segs[i] != Placeholder(subs[j].name)
    ensures Sequentially(Render(segs), subs) == Render(segs)
    decreases |subs|
  {
    if subs == [] {
    } else {
      ReplaceSegments(segs, subs[0].name, subs[0].value);
      assert ReplacedAll(segs, subs[0].name, subs[0].value) == segs;
      Untouched(segs, subs[1..]);
    }
  }

  /** Replacements for other names, and then one for a name of the pieces. */
  lemma OneHit(segs: seq<Segment>, before: seq<Substitution>, sub: Substitution, after: seq<Substitution>)
    requires AllSound(segs) && ProperNames(before) && BraceFree(sub.name)
    requires forall i, j | 0 <= i < |segs| && 0 <= j < |before| :: segs[i] != Placeholder(before[j].name)
    ensures Sequentially(Render(segs), before + ([sub] + after))
            == Sequentially(Render(ReplacedAll(segs, sub.name, sub.value)), after)
  {
    SequentiallyAppend(Render(segs), before, [sub] + after);
    Untouched(segs, before);
    FirstOf(Render(segs), sub, after);
    ReplaceSegments(segs, sub.name, sub.value);
  }

  lemma RenderTwo(a: Segment, b: Segment)
    ensures Render([a, b]) == a.Text() + b.Text()
  {
    RenderCons(a, [b]);
    RenderCons(b, []);
    assert [a, b] == [a] + [b] && [b] == [b] + [];
    assert b.Text() + "" == b.Text();
  }

  lemma RenderPlaceholder(name: string)
    ensures Render([Placeholder(name)]) == Hole(name)
  {
    assert Hole(name) + "" == Hole(name);
  }

  lemma RenderPlain(text: string)
    ensures Render([Plain(text)]) == text
  {
    assert text + "" == text;
  }

  ghost predicate Absent(name: string, subs: seq<Substitution>) {
    forall i | 0 <= i < |subs| :: subs[i].name != name
  }

  /** A placeholder alone is replaced by its value, if that opens none. */
  lemma Alone(before: seq<Substitution>, sub: Substitution, after: seq<Substitution>)
    requires ProperNames(before) && BraceFree(sub.name) && ProperNames(after)
    requires Absent(sub.name, before) && NoOpening(sub.value)
    ensures Sequentially(Hole(sub.name), before + ([sub] + after)) == sub.value
  {
    var segs, plain := [Placeholder(sub.name)], [Plain(sub.value)];
    RenderPlaceholder(sub.name);
    OneHit(segs, before, sub, after);
    assert ReplacedAll(segs, sub.name, sub.value) == plain;
    Untouched(plain, after);
    RenderPlain(sub.value);
  }

  /** The first replacement for a placeholder turns it into its value, whatever that is. */
  lemma FirstHit(before: seq<Substitution>, sub: Substitution, after: seq<Substitution>, tail: string)
    requires ProperNames(before) && BraceFree(sub.name) && Absent(sub.name, before) && NoOpening(tail)
    ensures Sequentially(Hole(sub.name) + tail, before + ([sub] + after)) == Sequentially(sub.value + tail, after)
  {
    var segs := [Placeholder(sub.name), Plain(tail)];
    RenderTwo(Placeholder(sub.name), Plain(tail));
    OneHit(segs, before, sub, after);
    assert ReplacedAll(segs, sub.name, sub.value) == [Plain(sub.value), Plain(tail)];
    RenderTwo(Plain(sub.value), Plain(tail));
  }

  /** A value that opens a brace can make a placeholder for a later replacement. */
  lemma InTurn(
    a: seq<Substitution>, x: Substitution, b: seq<Substitution>, y: Substitution, c: seq<Substitution>)
    requires ProperNames(a) && BraceFree(x.name) && ProperNames(b) && BraceFree(y.name) && ProperNames(c)
    requires Absent(x.name, a) && Absent(y.name, b) && x.value == "{" && NoOpening(y.value)
    ensures Sequentially(Hole(x.name) + (y.name + "}"), a + ([x] + (b + ([y] + c)))) == y.value
  {
    FirstHit(a, x, b + ([y] + c), y.name + "}");
    Associates("{", y.name, "}");
    Alone(b, y, c);
  }

  lemma AtOnce(subs: seq<Substitution>, k: nat, tail: string)
    requires ProperNames(subs) && DistinctNames(subs) && k < |subs| && NoOpening(tail)
    ensures Simultaneously(Hole(subs[k].name) + tail, subs) == subs[k].value + tail
  {
    MeaningOf(Placeholder(subs[k].name), subs, k);
    SimultaneousPlaceholder(subs[k].name, tail, subs);
    SimultaneousSkips(tail, "", subs);
    assert tail + "" == tail;
  }

  lemma VersionHoleFlat()
    ensures Flat(Hole("version") + "patch}") && NoOpening("patch}") && "patch}" == "patch" + "}"
  {
  }

  lemma OnePart()
    ensures Component("{", 2) == "0" && NoOpening("0")
  {
    SplitJoin(["{"], '.');
  }

  /** For the version `{` the flat template `{version}patch}` becomes `0`, where one pass gives `{patch}`. */
  lemma OpeningVersion(baseURL: string)
    ensures var template, subs := Hole("version") + "patch}", Substitutions(baseURL, "{");
            && Flat(template)
            && Sequentially(template, subs) == "0"
            && Simultaneously(template, subs) == "{" + "patch}"
  {
    var subs := Substitutions(baseURL, "{");
    SubstitutionsProper(baseURL, "{");
    SubstitutionsDistinct(baseURL, "{");
    VersionHoleFlat();
    OnePart();
    assert subs[1] == Substitution("version", "{") && subs[7] == Substitution("patch", "0");
    assert subs == subs[..1] + ([subs[1]] + (subs[2..7] + ([subs[7]] + subs[8..])));
    InTurn(subs[..1], subs[1], subs[2..7], subs[7], subs[8..]);
    AtOnce(subs, 1, "patch}");
  }

  // ---------- what each placeholder becomes ----------

  function Becomes(name: string, baseURL: string, version: string): string {
    Simultaneously(Hole(name), Substitutions(baseURL, version))
  }

  lemma HoleBecomes(baseURL: string, version: string, i: nat)
    requires i < 9
    ensures var sub := Substitutions(baseURL, version)[i]; Becomes(sub.name, baseURL, version) == sub.value
  {
    var subs := Substitutions(baseURL, version);
    SubstitutionsProper(baseURL, version);
    SubstitutionsDistinct(baseURL, version);
    AtOnce(subs, i, "");
    assert Hole(subs[i].name) + "" == Hole(subs[i].name) && subs[i].value + "" == subs[i].value;
  }

  lemma FollowedBy(baseURL: string, version: string, i: nat, rest: string)
    requires i < 9
    ensures var sub, subs := Substitutions(baseURL, version)[i], Substitutions(baseURL, version);
            Simultaneously(Hole(sub.name) + rest, subs)
            == Becomes(sub.name, baseURL, version) + Simultaneously(rest, subs)
  {
    var subs := Substitutions(baseURL, version);
    SubstitutionsProper(baseURL, version);
    SubstitutionsDistinct(baseURL, version);
    MeaningOf(Placeholder(subs[i].name), subs, i);
    SimultaneousPlaceholder(subs[i].name, rest, subs);
    HoleBecomes(baseURL, version, i);
  }

  /** The placeholders that do not look into the version. */
  lemma WholeVersion(baseURL: string, version: string)
    ensures Becomes("base_url", baseURL, version) == baseURL
    ensures Becomes("version", baseURL, version) == version
    ensures Becomes("tag", baseURL, version) == "v" + version
  {
    HoleBecomes(baseURL, version, 0);
    HoleBecomes(baseURL, version, 1);
    HoleBecomes(baseURL, version, 2);
  }

  function OrZero(part: string): string {
    if part == "" then "0" else part
  }

  lemma ComponentOf(parts: seq<string>, i: nat)
    requires |parts| >= 1 && Free(parts, '.')
    ensures Component(Join(parts, '.'), i) == if i < |parts| then OrZero(parts[i]) else "0"
  {
    SplitJoin(parts, '.');
  }

  /** The placeholders made of parts: the first three parts in their order, "0" for a missing or empty one. */
  lemma PartsOfVersion(baseURL: string, parts: seq<string>)
    requires |parts| >= 1 && Free(parts, '.')
    ensures var version := Join(parts, '.');
            var a, b := OrZero(parts[0]), if |parts| > 1 then OrZero(parts[1]) else "0";
            && Becomes("major", baseURL, version) == a
            && Becomes("minor", baseURL, version) == b
            && Becomes("patch", baseURL, version) == (if |parts| > 2 then OrZero(parts[2]) else "0")
            && Becomes("major_x", baseURL, version) == a + ".x"
            && Becomes("tag_short", baseURL, version) == "v" + a + "." + b
            && Becomes("tag_compact", baseURL, version) == "v" + Concatenated(parts)
  {
    var version := Join(parts, '.');
    ComponentOf(parts, 0);
    ComponentOf(parts, 1);
    ComponentOf(parts, 2);
    CompactIsParts(version);
    SplitJoin(parts, '.');
    HoleBecomes(baseURL, version, 3);
    HoleBecomes(baseURL, version, 4);
    HoleBecomes(baseURL, version, 5);
    HoleBecomes(baseURL, version, 6);
    HoleBecomes(baseURL, version, 7);
    HoleBecomes(baseURL, version, 8);
  }

  lemma ThreeJoined(a: string, b: string, c: string)
    ensures Join([a, b, c], '.') == a + "." + (b + "." + c)
    ensures Concatenated([a, b, c]) == a + (b + c)
  {
    assert [a, b, c][1..] == [b, c] && [b, c][1..] == [c];
    assert Join([b, c], '.') == b + "." + c;
    assert Join([a, b, c], '.') == a + "." + (b + "." + c);
    assert [c] == [c] + [] && [b, c] == [b] + [c] && [a, b, c] == [a] + [b, c];
    ConcatenatedCons(c, []);
    ConcatenatedCons(b, [c]);
    ConcatenatedCons(a, [b, c]);
    assert c + "" == c;
  }

  /** A full version a.b.c. */
  lemma FullVersion(baseURL: string, a: string, b: string, c: string)
    requires a != "" && b != "" && c != "" && '.' !in a && '.' !in b && '.' !in c
    ensures var version := a + "." + (b + "." + c);
            && Becomes("major", baseURL, version) == a
            && Becomes("minor", baseURL, version) == b
            && Becomes("patch", baseURL, version) == c
            && Becomes("major_x", baseURL, version) == a + ".x"
            && Becomes("tag_short", baseURL, version) == "v" + a + "." + b
            && Becomes("tag_compact", baseURL, version) == "v" + (a + (b + c))
  {
    ThreeJoined(a, b, c);
    PartsOfVersion(baseURL, [a, b, c]);
  }

  /** A version of one part. */
  lemma ShortVersion(baseURL: string, a: string)
    requires a != "" && '.' !in a
    ensures Becomes("major", baseURL, a) == a
    ensures Becomes("minor", baseURL, a) == "0" && Becomes("patch", baseURL, a) == "0"
    ensures Becomes("major_x", baseURL, a) == a + ".x" && Becomes("tag_short", baseURL, a) == "v" + a + "." + "0"
    ensures Becomes("tag_compact", baseURL, a) == "v" + a
  {
    assert Concatenated([a]) == a + "" == a;
    PartsOfVersion(baseURL, [a]);
  }

  /** The nine replacements give the same for a placeholder on its own. */
  lemma BecomesInTurn(name: string, baseURL: string, version: string)
    requires BraceFree(name) && NoOpening(baseURL) && NoOpening(version)
    ensures Sequentially(Hole(name), Substitutions(baseURL, version)) == Becomes(name, baseURL, version)
  {
    InCodeOrder(baseURL, version);
    TemplateMeaning(Hole(name), baseURL, version, Substitutions(baseURL, version));
  }

  function KernelTemplate(): string {
    Hole("base_url") + ("/v" + (Hole("major_x") + ("/linux-" + (Hole("version") + ".tar.xz"))))
  }

  lemma KernelTemplateText()
    ensures KernelTemplate() == "{base_url}/v{major_x}/linux-{version}.tar.xz"
  {
  }

  lemma TextThen(text: string, rest: string, subs: seq<Substitution>)
    requires NoOpening(text)
    ensures Simultaneously(text + rest, subs) == text + Simultaneously(rest, subs)
  {
    SimultaneousSkips(text, rest, subs);
  }

  lemma EndsWithText(text: string, subs: seq<Substitution>)
    requires NoOpening(text)
    ensures Simultaneously(text, subs) == text
  {
    SimultaneousSkips(text, "", subs);
    assert text + "" == text;
  }

  lemma KernelTexts()
    ensures NoOpening("/v") && NoOpening("/linux-") && NoOpening(".tar.xz")
  {
  }

  /** The default template for kernels: the archive of a.b.c lies under va.x. */
  lemma KernelURL(baseURL: string, a: string, b: string, c: string)
    requires a != "" && b != "" && c != "" && '.' !in a && '.' !in b && '.' !in c
    ensures var version := a + "." + (b + "." + c);
            Simultaneously(KernelTemplate(), Substitutions(baseURL, version))
            == baseURL + ("/v" + (a + ".x" + ("/linux-" + (version + ".tar.xz"))))
  {
    var version := a + "." + (b + "." + c);
    var subs := Substitutions(baseURL, version);
    KernelTexts();
    WholeVersion(baseURL, version);
    FullVersion(baseURL, a, b, c);
    EndsWithText(".tar.xz", subs);
    FollowedBy(baseURL, version, 1, ".tar.xz");
    var after := Hole("version") + ".tar.xz";
    TextThen("/linux-", after, subs);
    FollowedBy(baseURL, version, 8, "/linux-" + after);
    TextThen("/v", Hole("major_x") + ("/linux-" + after), subs);
    FollowedBy(baseURL, version, 0, "/v" + (Hole("major_x") + ("/linux-" + after)));
  }

  // ---------- building a URL ----------

  datatype UpstreamSource = UpstreamSource(url: string, urlTemplate: string)

  datatype ComponentTemplates = ComponentTemplates(gitHubNormalizedTemplate: string, defaultURLTemplate: string)

  datatype URLResult = URL(url: string) | Failed(reason: string)

  function TrimSuffix(s: string, suffix: string): string {
    if |suffix| <= |s| && s[|s| - |suffix|..] == suffix then s[..|s| - |suffix|] else s
  }

  function NormalizeBaseURL(url: string): string {
    TrimSuffix(TrimSuffix(url, "/"), ".git")
  }

  function SelectTemplate(source: UpstreamSource, component: ComponentTemplates): string {
    if source.urlTemplate != "" then source.urlTemplate
    else if Contains(source.url, "github.com") && component.gitHubNormalizedTemplate != "" then
      component.gitHubNormalizedTemplate
    else component.defaultURLTemplate
  }

  /** One slash, then one `.git`, is taken off the end, and nothing else. */
  lemma BaseURLs(url: string)
    requires url != "" && url[|url| - 1] != '/' && !(|url| >= 4 && url[|url| - 4..] == ".git")
    ensures NormalizeBaseURL(url) == url && NormalizeBaseURL(url + "/") == url
    ensures NormalizeBaseURL(url + ".git") == url && NormalizeBaseURL(url + ".git" + "/") == url
  {
    assert (url + "/")[|url|..] == "/" && (url + "/")[..|url|] == url;
    assert (url + ".git")[|url|..] == ".git" && (url + ".git")[..|url|] == url;
    assert (url + ".git" + "/")[|url| + 4..] == "/" && (url + ".git" + "/")[..|url| + 4] == url + ".git";
    assert url[|url| - 1..] == [url[|url| - 1]] && (url + ".git")[|url| + 3..] == "t";
  }

  /** The source's own template comes first; else, for GitHub, the component's template for it; else its default. */
  lemma TemplateChoice(source: UpstreamSource, component: ComponentTemplates)
    ensures var chosen, gitHub := SelectTemplate(source, component), Contains(source.url, "github.com");
            && (source.urlTemplate != "" ==> chosen == source.urlTemplate)
            && (source.urlTemplate == "" && gitHub && component.gitHubNormalizedTemplate != "" ==>
                  chosen == component.gitHubNormalizedTemplate)
            && (source.urlTemplate == "" && !(gitHub && component.gitHubNormalizedTemplate != "") ==>
                  chosen == component.defaultURLTemplate)
  {
  }

  method BuildURL(source: Option<UpstreamSource>, component: Option<ComponentTemplates>, version: string)
    returns (r: URLResult)
    ensures r.Failed? <==> source.None? || component.None? || version == ""
    ensures r.URL? ==>
              var template := SelectTemplate(source.value, component.value);
              var baseURL := NormalizeBaseURL(source.value.url);
              && (template == "" ==> r.url == baseURL)
              && (template != "" ==> r.url == Sequentially(template, Substitutions(baseURL, version)))
              && (template != "" && Flat(template) && NoOpening(source.value.url) && NoOpening(version) ==>
                    r.url == Simultaneously(template, Substitutions(baseURL, version)))
  {
    if source.None? {
      return Failed("source is nil");
    }
    if component.None? {
      return Failed("component is nil");
    }
    if version == "" {
      return Failed("version is empty");
    }
    var baseURL := NormalizeBaseURL(source.value.url);
    var template := SelectTemplate(source.value, component.value);
    if template == "" {
      return URL(baseURL);
    }
    var url := ApplyTemplate(template, baseURL, version);
    if Flat(template) && NoOpening(source.value.url) && NoOpening(version) {
      InCodeOrder(baseURL, version);
      TemplateMeaning(template, baseURL, version, Substitutions(baseURL, version));
    }
    return URL(url);
  }
}
