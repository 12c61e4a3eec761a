/**
 * `parse_wikipedia_page` / `process_sections`: a pre-order walk over a
 * page's section tree that emits one indented `"- title"` line per kept
 * section, down to three levels. The same code appears in main.py and in
 * backend/main.py.
 */
module Outline {
  import opened Text

  /** A Wikipedia section: its raw title and its sub-sections, in page order. */
  datatype Section = Section(title: string, children: seq<Section>)

  /** Sections deeper than this level are never visited. */
  const MaxLevel: nat := 3

  /** Boilerplate sections: a raw title containing one of these drops the whole subtree. */
  predicate Excluded(title: string) {
    Contains(title, "See also") || Contains(title, "References") || Contains(title, "External links")
    || Contains(title, "Notes") || Contains(title, "Further reading")
  }

  /**
   * A token `[` + one or more word characters + `]` of length `n` at the
   * start of `s` (what the pattern `\[\w+\]` matches there).
   */
  ghost predicate TokenPrefix(s: string, n: nat) {
    3 <= n <= |s| && s[0] == '[' && s[n - 1] == ']'
    && forall j :: 1 <= j < n - 1 ==> IsWordChar(s[j])
  }

  /** The length of the run of word characters that starts `s`. */
  function WordRun(s: string): (k: nat)
    ensures k <= |s|
    ensures forall j :: 0 <= j < k ==> IsWordChar(s[j])
    ensures k == |s| || !IsWordChar(s[k])
  {
    if s != [] && IsWordChar(s[0]) then 1 + WordRun(s[1..]) else 0
  }

  /** A run of exactly `k` word characters starts `t`. */
  lemma {:induction false} WordRunExact(t: string, k: nat)
    requires k <= |t|
    requires forall j :: 0 <= j < k ==> IsWordChar(t[j])
    requires k == |t| || !IsWordChar(t[k])
    ensures WordRun(t) == k
  {
    if k > 0 {
      WordRunExact(t[1..], k - 1);
    }
  }

  /** The length of the `\[\w+\]` match at the start of `s`, or 0 if the pattern does not match there. */
  function TokenAt(s: string): (n: nat)
    ensures n == 0 || TokenPrefix(s, n)
  {
    if s == [] || s[0] != '[' then 0
    else
      var k := WordRun(s[1..]);
      if k > 0 && k + 1 < |s| && s[k + 1] == ']' then
        assert TokenPrefix(s, k + 2);
        k + 2
      else 0
  }

  /** `TokenAt` finds the match whenever there is one: the pattern matches at most one length. */
  lemma TokenAtComplete(s: string, m: nat)
    requires TokenPrefix(s, m)
    ensures TokenAt(s) == m
  {
    assert s[1..][m - 2] == s[m - 1];
    WordRunExact(s[1..], m - 2);
  }

  /**
   * `re.sub(r'\[\w+\]', '', s)`: one left-to-right pass that deletes every
   * non-overlapping `[word]` token; what the deletion brings together is not
   * matched again.
   */
  function RemoveWordTokens(s: string): (r: string)
    ensures Subsequence(r, s)
    // the next two follow from `Subsequence`; they are kept as convenience facts
    ensures |r| <= |s|
    ensures forall c :: c in r ==> c in s
    decreases |s|
  {
    if s == [] then []
    else
      var n := TokenAt(s);
      if n > 0 then
        assert TokenPrefix(s, n);
        SubsequenceDrop(RemoveWordTokens(s[n..]), s, n);
        RemoveWordTokens(s[n..])
      else
        assert ([s[0]] + RemoveWordTokens(s[1..]))[1..] == RemoveWordTokens(s[1..]);
        [s[0]] + RemoveWordTokens(s[1..])
  }

  /** A title without `[` holds no token and passes through unchanged. */
  lemma {:induction false} NoBracketUnchanged(s: string)
    requires '[' !in s
    ensures RemoveWordTokens(s) == s
    decreases |s|
  {
    if s != [] {
      assert s[0] != '[';
      assert '[' !in s[1..] by {
        forall i | 0 <= i < |s[1..]| ensures s[1..][i] != '[' { assert s[1..][i] == s[i + 1]; }
      }
      NoBracketUnchanged(s[1..]);
      assert [s[0]] + s[1..] == s;
    }
  }

  /** A stripped title without `[` is shown as it is. */
  lemma PlainTitleShownAsIs(title: string)
    requires '[' !in title && IsStripped(title)
    ensures CleanTitle(title) == title
  {
    NoBracketUnchanged(title);
    StripStripped(title);
  }

  /** The title as shown: tokens removed, then stripped. */
  function CleanTitle(title: string): (t: string)
    ensures IsStripped(t)
    ensures |t| <= |title|
  {
    StripSpec(RemoveWordTokens(title));
    Strip(RemoveWordTokens(title))
  }

  /** `"  " * n` */
  function Indent(n: nat): (r: string)
    ensures |r| == 2 * n
    ensures forall i :: 0 <= i < |r| ==> r[i] == ' '
  {
    if n == 0 then "" else "  " + Indent(n - 1)
  }

  /** The line emitted for a kept section at `level`. */
  function Line(level: nat, title: string): string
    requires 1 <= level
  {
    Indent(level - 1) + "- " + title
  }

  /** Whether a section at `level` with this raw title produces a line. */
  predicate Emits(level: nat, title: string) {
    level <= MaxLevel && !Excluded(title) && CleanTitle(title) != ""
  }

  /**
   * The lines `process_sections(secs, level)` appends, in order: the lines
   * of each section in turn.
   */
  function Flatten(secs: seq<Section>, level: nat): (lines: seq<string>)
    requires 1 <= level
    ensures level > MaxLevel ==> lines == []
    decreases secs
  {
    if secs == [] then [] else FlattenOne(secs[0], level) + Flatten(secs[1..], level)
  }

  /** What one section contributes: its own line, then its children's lines one level deeper. */
  function FlattenOne(s: Section, level: nat): (lines: seq<string>)
    requires 1 <= level
    ensures level > MaxLevel ==> lines == []
    decreases s
  {
    if Emits(level, s.title) then [Line(level, CleanTitle(s.title))] + Flatten(s.children, level + 1) else []
  }

  /** The three ways a section is dropped, and what a kept section contributes. */
  lemma FlattenOneCases(s: Section, level: nat)
    requires 1 <= level
    ensures level > MaxLevel || Excluded(s.title) || CleanTitle(s.title) == "" ==> FlattenOne(s, level) == []
    ensures level <= MaxLevel && !Excluded(s.title) && CleanTitle(s.title) != "" ==>
      FlattenOne(s, level) == [Line(level, CleanTitle(s.title))] + Flatten(s.children, level + 1)
  {
  }

  /** The lines of a one-section list. */
  lemma FlattenSingle(s: Section, level: nat)
    requires 1 <= level
    ensures Flatten([s], level) == FlattenOne(s, level)
  {
    assert [s][1..] == [];
  }

  /** Sibling order is kept: the lines of `a + b` are those of `a`, then those of `b`. */
  lemma {:induction false} FlattenAppend(a: seq<Section>, b: seq<Section>, level: nat)
    requires 1 <= level
    ensures Flatten(a + b, level) == Flatten(a, level) + Flatten(b, level)
    decreases a
  {
    if a == [] {
      assert a + b == b;
    } else {
      assert (a + b)[0] == a[0];
      assert (a + b)[1..] == a[1..] + b;
      FlattenAppend(a[1..], b, level);
    }
  }

  /** One more section of a list: its lines follow those of the sections before it. */
  lemma FlattenPrefixStep(secs: seq<Section>, i: nat, level: nat)
    requires 1 <= level && i < |secs|
    ensures Flatten(secs[..i + 1], level) == Flatten(secs[..i], level) + FlattenOne(secs[i], level)
  {
    assert secs[..i + 1] == secs[..i] + [secs[i]];
    FlattenAppend(secs[..i], [secs[i]], level);
    FlattenSingle(secs[i], level);
  }

  /**
   * Pre-order: a kept section's line comes first, then its descendants'
   * lines, then the lines of the siblings after it.
   */
  lemma PreOrder(s: Section, rest: seq<Section>, level: nat)
    requires 1 <= level && Emits(level, s.title)
    ensures Flatten([s] + rest, level)
         == [Line(level, CleanTitle(s.title))] + Flatten(s.children, level + 1) + Flatten(rest, level)
  {
    FlattenAppend([s], rest, level);
  }

  /**
   * A section that does not emit (too deep, boilerplate, or a title that
   * cleans to nothing) takes its whole subtree with it, whatever it holds.
   */
  lemma SubtreeDropped(before: seq<Section>, s: Section, after: seq<Section>, level: nat)
    requires 1 <= level && !Emits(level, s.title)
    ensures Flatten(before + [s] + after, level) == Flatten(before, level) + Flatten(after, level)
  {
    FlattenAppend(before + [s], after, level);
    FlattenAppend(before, [s], level);
  }

  /** A line of the outline: indentation for a level in 1..3, a bullet, a non-empty stripped title. */
  ghost predicate OutlineLine(line: string, minLevel: nat) {
    exists lvl: nat, t: string :: minLevel <= lvl <= MaxLevel && 1 <= lvl && t != "" && IsStripped(t)
      && line == Line(lvl, t)
  }

  /** Every emitted line is `"  " * (lvl - 1) + "- " + title` with `level <= lvl <= 3`. */
  lemma {:induction false} FlattenLinesWellFormed(secs: seq<Section>, level: nat)
    requires 1 <= level
    ensures forall line :: line in Flatten(secs, level) ==> OutlineLine(line, level)
    decreases secs
  {
    if secs != [] {
      FlattenOneLinesWellFormed(secs[0], level);
      FlattenLinesWellFormed(secs[1..], level);
    }
  }

  lemma {:induction false} FlattenOneLinesWellFormed(s: Section, level: nat)
    requires 1 <= level
    ensures forall line :: line in FlattenOne(s, level) ==> OutlineLine(line, level)
    decreases s
  {
    if Emits(level, s.title) {
      var t := CleanTitle(s.title);
      var rest := Flatten(s.children, level + 1);
      assert FlattenOne(s, level) == [Line(level, t)] + rest;
      assert OutlineLine(Line(level, t), level);
      FlattenLinesWellFormed(s.children, level + 1);
      forall line | line in rest
        ensures OutlineLine(line, level)
      {
        OutlineLineDeeper(line, level);
      }
    }
  }

  /** A line of the outline from some level on is one from any lower level on. */
  lemma OutlineLineDeeper(line: string, level: nat)
    requires OutlineLine(line, level + 1)
    ensures OutlineLine(line, level)
  {
    var lvl: nat, u: string :| level + 1 <= lvl <= MaxLevel && 1 <= lvl && u != "" && IsStripped(u)
      && line == Line(lvl, u);
    assert level <= lvl;
  }

  /** `secs` with everything deeper than `depth` levels cut off. */
  function Prune(secs: seq<Section>, depth: nat): (r: seq<Section>)
    ensures |r| == |secs|
    decreases secs
  {
    if secs == [] then []
    else
      [Section(secs[0].title, if depth <= 1 then [] else Prune(secs[0].children, depth - 1))]
      + Prune(secs[1..], depth)
  }

  /**
   * Nothing below level 3 influences the outline: cutting the tree off
   * after level 3 leaves the output unchanged.
   */
  lemma {:induction false} DeepSectionsIgnored(secs: seq<Section>, level: nat)
    requires 1 <= level <= MaxLevel
    ensures Flatten(secs, level) == Flatten(Prune(secs, MaxLevel + 1 - level), level)
    decreases secs
  {
    if secs != [] {
      var s := secs[0];
      var p := Prune(secs, MaxLevel + 1 - level);
      assert p[1..] == Prune(secs[1..], MaxLevel + 1 - level);
      assert p[0].title == s.title;
      DeepSectionsIgnored(secs[1..], level);
      if level < MaxLevel {
        DeepSectionsIgnored(s.children, level + 1);
      }
    }
  }

  /** A substring cannot occur where its first character never appears early enough. */
  lemma {:induction false} NotContains(s: string, sub: string)
    requires sub != []
    requires forall i :: 0 <= i < |s| && |sub| <= |s| - i ==> s[i] != sub[0]
    ensures !Contains(s, sub)
    decreases |s|
  {
    if |s| > 0 {
      if |sub| <= |s| {
        assert s[..|sub|][0] != sub[0];
      }
      forall i | 0 <= i < |s[1..]| && |sub| <= |s[1..]| - i
        ensures s[1..][i] != sub[0]
      {
        assert s[1..][i] == s[i + 1];
      }
      NotContains(s[1..], sub);
    }
  }

  /** Python's `in` is case-sensitive: "Footnotes" holds "notes" but not "Notes", so it is kept. */
  lemma FootnotesKept()
    ensures !Excluded("Footnotes")
    ensures Excluded("Notes and references")
    ensures Excluded("General References")
  {
    FootnotesHoldsNoMarker();
    assert StartsWith("Notes and references", "Notes");
    GeneralReferencesExcluded();
  }

  lemma FootnotesHoldsNoMarker()
    ensures !Contains("Footnotes", "See also") && !Contains("Footnotes", "References")
    ensures !Contains("Footnotes", "External links") && !Contains("Footnotes", "Notes")
    ensures !Contains("Footnotes", "Further reading")
  {
    var f := "Footnotes";
    NotContains(f, "See also");
    NotContains(f, "Notes");
    LongerNotContained(f, "References");
    LongerNotContained(f, "External links");
    LongerNotContained(f, "Further reading");
  }

  /** Nothing longer than `s` occurs in it. */
  lemma {:induction false} LongerNotContained(s: string, sub: string)
    requires |sub| > |s|
    ensures !Contains(s, sub)
    decreases |s|
  {
    if |s| > 0 {
      LongerNotContained(s[1..], sub);
    }
  }

  lemma GeneralReferencesExcluded()
    ensures Contains("General References", "References")
  {
    var g := "General References";
    assert StartsWith(g[8..], "References");
    ContainsSuffix(g, 8, "References");
  }

  /** A string contains whatever one of its suffixes contains. */
  lemma {:induction false} ContainsSuffix(s: string, i: nat, sub: string)
    requires i <= |s| && Contains(s[i..], sub)
    ensures Contains(s, sub)
    decreases i
  {
    if i > 0 {
      assert s[1..][i - 1..] == s[i..];
      ContainsSuffix(s[1..], i - 1, sub);
    } else {
      assert s[0..] == s;
    }
  }

  /** Where no token starts, the first character is kept. */
  lemma RemoveKeeps(s: string)
    requires s != [] && TokenAt(s) == 0
    ensures RemoveWordTokens(s) == [s[0]] + RemoveWordTokens(s[1..])
  {
  }

  /** Where a token of length `n` starts, it is deleted. */
  lemma RemoveSkips(s: string, n: nat)
    requires s != [] && TokenAt(s) == n && n > 0
    ensures RemoveWordTokens(s) == RemoveWordTokens(s[n..])
  {
  }

  /**
   * Token removal is a single pass: in `"[a[b]]"` for word characters `a`
   * and `b` only `"[b]"` matches, and the `"[a]"` its removal leaves is kept.
   */
  lemma SinglePassRemoval(a: char, b: char)
    requires IsWordChar(a) && IsWordChar(b)
    ensures RemoveWordTokens(['[', a, '[', b, ']', ']']) == ['[', a, ']']
  {
    var s := ['[', a, '[', b, ']', ']'];
    OpenTokenNotMatched(s);
    RemoveKeeps(s);
    assert s[1..][1..] == s[2..];
    assert s[1..][0] == a;
    RemoveKeeps(s[1..]);
    assert s[2..] == ['[', b, ']', ']'];
    InnerTokenRemoved(b);
  }

  /** `"[a[..."` does not start with a token: the word run is followed by `[`, not `]`. */
  lemma OpenTokenNotMatched(s: string)
    requires |s| >= 3 && s[0] == '[' && IsWordChar(s[1]) && s[2] == '['
    ensures TokenAt(s) == 0
  {
    assert s[1..][1] == '[';
    WordRunExact(s[1..], 1);
  }

  /** The token `"[b]"` is removed from `"[b]]"`, leaving `"]"`. */
  lemma InnerTokenRemoved(b: char)
    requires IsWordChar(b)
    ensures RemoveWordTokens(['[', b, ']', ']']) == [']']
  {
    var s := ['[', b, ']', ']'];
    assert TokenPrefix(s, 3);
    TokenAtComplete(s, 3);
    RemoveSkips(s, 3);
    assert s[3..] == [']'];
    RemoveKeeps([']']);
    assert [']'][1..] == [];
  }

  /** A title without `[` followed by one `[word]` token, such as a citation mark, loses the token. */
  lemma {:induction false} TrailingTokenRemoved(t: string, m: string)
    requires '[' !in t && TokenPrefix(m, |m|)
    ensures RemoveWordTokens(t + m) == t
    decreases |t|
  {
    if t == [] {
      assert t + m == m;
      TokenAtComplete(m, |m|);
      RemoveSkips(m, |m|);
      assert m[|m|..] == [];
    } else {
      assert (t + m)[1..] == t[1..] + m;
      assert '[' !in t[1..] by {
        forall i | 0 <= i < |t[1..]| ensures t[1..][i] != '[' { assert t[1..][i] == t[i + 1]; }
      }
      TrailingTokenRemoved(t[1..], m);
      assert (t + m)[0] == t[0];
      RemoveKeeps(t + m);
      assert [t[0]] + t[1..] == t;
    }
  }

  /** A citation mark such as "[1]" after a plain stripped title is removed: `"Art[1]"` shows as `"Art"`. */
  lemma CitationRemoved(t: string, m: string)
    requires '[' !in t && IsStripped(t) && TokenPrefix(m, |m|)
    ensures CleanTitle(t + m) == t
  {
    TrailingTokenRemoved(t, m);
    StripStripped(t);
  }

  /** A title that is only a citation mark cleans to nothing: the section and its children yield no lines. */
  lemma EmptyTitleDropsChildren(m: string, children: seq<Section>, level: nat)
    requires 1 <= level && TokenPrefix(m, |m|)
    ensures FlattenOne(Section(m, children), level) == []
  {
    TrailingTokenRemoved([], m);
    assert [] + m == m;
    assert CleanTitle(m) == "";
  }

  /**
   * The outline builder: `process_sections` appends to the `roadmap` list of
   * the enclosing `parse_wikipedia_page` call.
   */
  class OutlineBuilder {
    var roadmap: seq<string>

    constructor ()
      ensures roadmap == []
    {
      roadmap := [];
    }

    /** `process_sections(sections, level)` */
    method ProcessSections(sections: seq<Section>, level: nat)
      requires 1 <= level
      modifies this
      ensures roadmap == old(roadmap) + Flatten(sections, level)
      decreases MaxLevel + 1 - level, 2
    {
      for i := 0 to |sections|
        invariant roadmap == old(roadmap) + Flatten(sections[..i], level)
      {
        ProcessSection(sections[i], level);
        FlattenPrefixStep(sections, i, level);
        AppendAssoc(old(roadmap), Flatten(sections[..i], level), FlattenOne(sections[i], level));
      }
      assert sections[..|sections|] == sections;
    }

    /** One iteration of the loop in `process_sections`: a section and, if it is kept, its subtree. */
    method ProcessSection(s: Section, level: nat)
      requires 1 <= level
      modifies this
      ensures roadmap == old(roadmap) + FlattenOne(s, level)
      decreases MaxLevel + 1 - level, 1
    {
      FlattenOneCases(s, level);
      if !(level > MaxLevel || Excluded(s.title)) {
        var title := CleanTitle(s.title);
        if title != "" {
          EmitSection(level, title, s.children);
        }
      }
    }

    /** A kept section: its line, then its children one level deeper when it has any. */
    method EmitSection(level: nat, title: string, children: seq<Section>)
      requires 1 <= level <= MaxLevel
      modifies this
      ensures roadmap == old(roadmap) + ([Line(level, title)] + Flatten(children, level + 1))
      decreases MaxLevel + 1 - level, 0
    {
      roadmap := roadmap + [Line(level, title)];
      if children != [] {
        ProcessSections(children, level + 1);
      }
      AppendAssoc(old(roadmap), [Line(level, title)], Flatten(children, level + 1));
    }
  }

  /** `parse_wikipedia_page(page)`, given the page's top-level sections. */
  method ParseWikipediaPage(pageSections: seq<Section>) returns (roadmap: seq<string>)
    ensures roadmap == Flatten(pageSections, 1)
  {
    var builder := new OutlineBuilder();
    builder.ProcessSections(pageSections, 1);
    roadmap := builder.roadmap;
  }
}
