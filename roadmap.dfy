/**
 * The list logic of main.py: turning the model's raw answer into items,
 * merging them into the Wikipedia outline, and choosing which roadmap
 * lines become tutorial articles and under which file name.
 */
module Roadmap {
  import opened Wrappers
  import opened Text
  import Outline

  // ---------------------------------------------------------------------
  // Bullet parsing (get_llm_enhancement)
  // ---------------------------------------------------------------------

  /** A line holding only whitespace. */
  predicate Blank(line: string) {
    Strip(line) == ""
  }

  /**
   * The item one response line yields: the stripped line without its
   * leading `"- "` (stripped again), the stripped line itself, or nothing
   * for a blank line. An item is never empty and never padded.
   */
  function BulletItem(line: string): (item: Option<string>)
    ensures item.None? <==> Blank(line)
    ensures item.Some? ==> item.value != "" && IsStripped(item.value)
  {
    var t := Strip(line);
    StrippedLineFacts(line);
    if StartsWith(t, "- ") then Some(Strip(t[2..]))
    else if t != "" then Some(t)
    else None
  }

  /** After stripping, a line that starts with `"- "` has something after the bullet. */
  lemma StrippedLineFacts(line: string)
    ensures IsStripped(Strip(line))
    ensures StartsWith(Strip(line), "- ") ==> Strip(Strip(line)[2..]) != "" && IsStripped(Strip(Strip(line)[2..]))
  {
    var t := Strip(line);
    StripSpec(line);
    if StartsWith(t, "- ") {
      BulletPrefix(t);
      AfterBullet(t);
    }
  }

  lemma BulletPrefix(t: string)
    requires StartsWith(t, "- ")
    ensures |t| >= 2 && t[1] == ' '
  {
    assert t[..2][1] == ' ';
  }

  /** A stripped text whose second character is a space goes on after it, and the rest strips to something. */
  lemma AfterBullet(t: string)
    requires IsStripped(t) && |t| >= 2 && t[1] == ' '
    ensures Strip(t[2..]) != "" && IsStripped(Strip(t[2..]))
  {
    var rest := t[2..];
    assert IsSpace(t[1]);
    assert |t| > 2;
    assert rest[|rest| - 1] == t[|t| - 1];
    StripSpec(rest);
  }


  /** The items of a sequence of lines, in order. */
  function BulletItems(lines: seq<string>): (items: seq<string>)
    ensures |items| <= |lines|
    ensures forall k :: 0 <= k < |items| ==> items[k] != "" && IsStripped(items[k])
  {
    if lines == [] then []
    else
      var rest := BulletItems(lines[1..]);
      match BulletItem(lines[0])
      case Some(item) => PrependItem(item, rest); [item] + rest
      case None => rest
  }

  lemma PrependItem(item: string, rest: seq<string>)
    requires item != "" && IsStripped(item)
    requires forall k :: 0 <= k < |rest| ==> rest[k] != "" && IsStripped(rest[k])
    ensures forall k :: 0 <= k < |[item] + rest| ==> ([item] + rest)[k] != "" && IsStripped(([item] + rest)[k])
  {
    forall k | 0 <= k < |[item] + rest|
      ensures ([item] + rest)[k] != "" && IsStripped(([item] + rest)[k])
    {
      if k > 0 {
        assert ([item] + rest)[k] == rest[k - 1];
      }
    }
  }

  /** How many of the lines are not blank. */
  function NonBlankCount(lines: seq<string>): (n: nat)
    ensures n <= |lines|
  {
    if lines == [] then 0 else (if Blank(lines[0]) then 0 else 1) + NonBlankCount(lines[1..])
  }

  lemma {:induction false} BulletItemsAppend(a: seq<string>, b: seq<string>)
    ensures BulletItems(a + b) == BulletItems(a) + BulletItems(b)
  {
    if a == [] {
      assert a + b == b;
    } else {
      assert (a + b)[1..] == a[1..] + b;
      BulletItemsAppend(a[1..], b);
    }
  }

  lemma {:induction false} NonBlankCountAppend(a: seq<string>, b: seq<string>)
    ensures NonBlankCount(a + b) == NonBlankCount(a) + NonBlankCount(b)
  {
    if a == [] {
      assert a + b == b;
    } else {
      assert (a + b)[1..] == a[1..] + b;
      NonBlankCountAppend(a[1..], b);
    }
  }

  /**
   * One item per non-blank line, in order: the item of the `k`-th line, when
   * it is not blank, sits after the items of the non-blank lines before it.
   */
  lemma {:induction false} BulletItemsPerLine(lines: seq<string>, k: nat)
    requires k < |lines| && !Blank(lines[k])
    ensures |BulletItems(lines)| == NonBlankCount(lines)
    ensures NonBlankCount(lines[..k]) < |BulletItems(lines)|
    ensures BulletItems(lines)[NonBlankCount(lines[..k])] == BulletItem(lines[k]).value
  {
    var pre, one, post := lines[..k], [lines[k]], lines[k + 1..];
    assert lines == (pre + one) + post;
    BulletItemsAppend(pre + one, post);
    BulletItemsAppend(pre, one);
    NonBlankCountAppend(pre + one, post);
    NonBlankCountAppend(pre, one);
    BulletItemsCount(pre);
    BulletItemsCount(post);
    BulletItemsSingle(lines[k]);
    var b, v := BulletItems(pre), BulletItem(lines[k]).value;
    assert BulletItems(lines) == (b + [v]) + BulletItems(post);
    assert ((b + [v]) + BulletItems(post))[|b|] == v;
  }

  lemma BulletItemsSingle(line: string)
    requires !Blank(line)
    ensures BulletItems([line]) == [BulletItem(line).value]
    ensures NonBlankCount([line]) == 1
  {
    assert [line][1..] == [];
  }

  lemma {:induction false} BulletItemsCount(lines: seq<string>)
    ensures |BulletItems(lines)| == NonBlankCount(lines)
  {
    if lines != [] {
      BulletItemsCount(lines[1..]);
    }
  }

  /** One step of the parsing loop: the items of one more line. */
  lemma BulletItemsStep(lines: seq<string>, i: nat)
    requires i < |lines|
    ensures BulletItems(lines[..i + 1]) == BulletItems(lines[..i]) +
      (match BulletItem(lines[i]) case Some(x) => [x] case None => [])
  {
    assert lines[..i + 1] == lines[..i] + [lines[i]];
    BulletItemsAppend(lines[..i], [lines[i]]);
    assert BulletItems([lines[i]]) == match BulletItem(lines[i]) case Some(x) => [x] case None => [];
  }

  /** The loop of `get_llm_enhancement` over the stripped response, split at newlines. */
  method ParseEnhancements(content: string) returns (enhancements: seq<string>)
    ensures enhancements == BulletItems(Split(Strip(content), '\n'))
  {
    var lines := Split(Strip(content), '\n');
    enhancements := [];
    for i := 0 to |lines|
      invariant enhancements == BulletItems(lines[..i])
    {
      var line := lines[i];
      BulletItemsStep(lines, i);
      var stripped := Strip(line);
      if StartsWith(stripped, "- ") {
        enhancements := enhancements + [Strip(stripped[2..])];
      } else if stripped != "" {
        enhancements := enhancements + [stripped];
      }
    }
    assert lines[..|lines|] == lines;
  }

  /**
   * `get_llm_enhancement` in main.py: no key, or a failed request (timeout,
   * HTTP error, any other exception), gives no items; otherwise the items of
   * the answer's text.
   */
  method GetLlmEnhancement(hasKey: bool, answer: Option<string>) returns (enhancements: seq<string>)
    ensures !hasKey || answer.None? ==> enhancements == []
    ensures hasKey && answer.Some? ==> enhancements == BulletItems(Split(Strip(answer.value), '\n'))
  {
    if !hasKey {
      return [];
    }
    match answer
    case None =>
      enhancements := [];
    case Some(content) =>
      enhancements := ParseEnhancements(content);
  }

  // ---------------------------------------------------------------------
  // Merging (generate_learning_roadmap)
  // ---------------------------------------------------------------------

  /** Roadmap lines whose subject starts like this get no article. */
  const SkipPrefix := "Modern & Advanced Topics"

  /** The header's text, "Modern & Advanced Topics (LLM-Enhanced)". */
  const HeaderTitle := SkipPrefix + " (LLM-Enhanced)"

  /** The line that separates the outline from the model's items: "\n- Modern & Advanced Topics (LLM-Enhanced)". */
  const Header := "\n- " + HeaderTitle

  /** How an enhancement item is written into the merged roadmap. */
  function Bullet(item: string): string {
    "  - " + item
  }

  /**
   * The append loop: each item, unless the item itself is already one of
   * the lines, is appended as `"  - " + item`. The result extends `acc`,
   * every item ends up present raw or bulleted, and every new line is the
   * bullet of some item.
   */
  function AppendNew(acc: seq<string>, items: seq<string>): (r: seq<string>)
    ensures |acc| <= |r| <= |acc| + |items|
    ensures r[..|acc|] == acc
    ensures forall j :: 0 <= j < |items| ==> items[j] in r || Bullet(items[j]) in r
    decreases items
  {
    if items == [] then acc
    else
      var next := if items[0] in acc then acc else acc + [Bullet(items[0])];
      var r := AppendNew(next, items[1..]);
      assert r[..|acc|] == r[..|next|][..|acc|];
      assert items[0] in r || Bullet(items[0]) in r by {
        if items[0] in acc {
          var i :| 0 <= i < |acc| && acc[i] == items[0];
          assert r[i] == items[0];
        } else {
          assert r[|acc|] == Bullet(items[0]);
        }
      }
      assert forall j :: 1 <= j < |items| ==> items[j] == items[1..][j - 1];
      r
  }

  /** Every line the append loop adds is the bullet of one of the items. */
  lemma {:induction false} AppendNewOnlyBullets(acc: seq<string>, items: seq<string>)
    ensures forall k :: |acc| <= k < |AppendNew(acc, items)| ==>
      exists j :: 0 <= j < |items| && AppendNew(acc, items)[k] == Bullet(items[j])
    decreases items
  {
    if items != [] {
      var next := if items[0] in acc then acc else acc + [Bullet(items[0])];
      var r := AppendNew(next, items[1..]);
      AppendNewUnfold(acc, items);
      AppendNewOnlyBullets(next, items[1..]);
      OnlyBulletsStep(acc, next, r, items);
      assert AppendNew(acc, items) == r;
    } else {
      assert AppendNew(acc, items) == acc;
    }
  }

  /**
   * One step of either append loop: if the first item added at most its
   * own bullet and the rest of the loop added only bullets of the other
   * items, then every added line is the bullet of an item.
   */
  lemma OnlyBulletsStep(acc: seq<string>, next: seq<string>, r: seq<string>, items: seq<string>)
    requires items != []
    requires next == acc || next == acc + [Bullet(items[0])]
    requires |next| <= |r| && r[..|next|] == next
    requires forall k :: |next| <= k < |r| ==> exists j :: 0 <= j < |items[1..]| && r[k] == Bullet(items[1..][j])
    ensures forall k :: |acc| <= k < |r| ==> exists j :: 0 <= j < |items| && r[k] == Bullet(items[j])
  {
    forall k | |acc| <= k < |r|
      ensures exists j :: 0 <= j < |items| && r[k] == Bullet(items[j])
    {
      if k < |next| {
        assert r[k] == next[k] == Bullet(items[0]);
      } else {
        var j :| 0 <= j < |items[1..]| && r[k] == Bullet(items[1..][j]);
        assert r[k] == Bullet(items[j + 1]);
      }
    }
  }

  /**
   * The merged roadmap. No items: the outline as it is. No outline: the
   * items as they are. Both: the outline, then the header, then the items
   * that are not already lines, bulleted and in their order.
   */
  function Merged(base: seq<string>, enhancements: seq<string>): (r: seq<string>)
    ensures enhancements == [] ==> r == base
    ensures base == [] ==> r == enhancements
    ensures base != [] && enhancements != [] ==>
      && |base| < |r| <= |base| + 1 + |enhancements|
      && r[..|base|] == base
      && r[|base|] == Header
      && (forall j :: 0 <= j < |enhancements| ==> enhancements[j] in r || Bullet(enhancements[j]) in r)
      && (forall k :: |base| < k < |r| ==> exists j :: 0 <= j < |enhancements| && r[k] == Bullet(enhancements[j]))
  {
    if enhancements == [] then base
    else if base == [] then enhancements
    else
      var r := AppendNew(base + [Header], enhancements);
      AppendNewOnlyBullets(base + [Header], enhancements);
      assert r[..|base|] == r[..|base| + 1][..|base|];
      r
  }

  /** The merge as main.py writes it: copy the outline, then append. */
  method MergeRoadmap(base: seq<string>, enhancements: seq<string>) returns (final: seq<string>)
    ensures final == Merged(base, enhancements)
  {
    final := base;
    if enhancements != [] {
      if base == [] {
        final := enhancements;
      } else {
        final := final + [Header];
        for i := 0 to |enhancements|
          invariant AppendNew(final, enhancements[i..]) == Merged(base, enhancements)
        {
          var item := enhancements[i];
          assert enhancements[i..][1..] == enhancements[i + 1..];
          if item !in final {
            final := final + [Bullet(item)];
          }
        }
      }
    }
  }

  /** `"\n".join(lines)`, which is "" for no lines. */
  function JoinLines(lines: seq<string>): string {
    if lines == [] then "" else Join(lines, '\n')
  }

  /**
   * `generate_learning_roadmap` in main.py, with the Wikipedia lookup's
   * outcome and the model call (`enhance`, applied to the existing roadmap
   * text) as parameters.
   */
  method GenerateLearningRoadmap(wikipedia: Option<seq<string>>, hasKey: bool, enhance: string -> seq<string>)
    returns (final: seq<string>)
    ensures wikipedia.None? ==> final == Merged([], if hasKey then enhance("") else [])
    ensures wikipedia.Some? ==>
      final == Merged(wikipedia.value, if hasKey then enhance(JoinLines(wikipedia.value)) else [])
  {
    var base, enhancements := RoadmapInputs(wikipedia, hasKey, enhance);
    final := MergeRoadmap(base, enhancements);
  }

  /** The same steps with the corrected membership test in the merge (see `MergedDeduplicated`). */
  method GenerateLearningRoadmapCorrected(wikipedia: Option<seq<string>>, hasKey: bool, enhance: string -> seq<string>)
    returns (final: seq<string>)
    ensures wikipedia.None? ==> final == MergedDeduplicated([], if hasKey then enhance("") else [])
    ensures wikipedia.Some? ==>
      final == MergedDeduplicated(wikipedia.value, if hasKey then enhance(JoinLines(wikipedia.value)) else [])
  {
    var base, enhancements := RoadmapInputs(wikipedia, hasKey, enhance);
    final := MergeRoadmapDeduplicated(base, enhancements);
  }

  /**
   * The steps before the merge: no page gives an empty outline and an empty
   * existing-roadmap text, a page gives its outline joined by newlines; the
   * model is asked only when there is a key.
   */
  method RoadmapInputs(wikipedia: Option<seq<string>>, hasKey: bool, enhance: string -> seq<string>)
    returns (base: seq<string>, enhancements: seq<string>)
    ensures base == (if wikipedia.Some? then wikipedia.value else [])
    ensures enhancements == (if hasKey then enhance(JoinLines(base)) else [])
  {
    var existing: string;
    if wikipedia.None? {
      base := [];
      existing := "";
    } else {
      base := wikipedia.value;
      existing := JoinLines(base);
    }
    enhancements := [];
    if hasKey {
      enhancements := enhance(existing);
    }
  }

  /** The items, bulleted, that are not among the outline's lines. */
  function BulletsNotIn(base: seq<string>, items: seq<string>): seq<string> {
    if items == [] then []
    else (if items[0] in base then [] else [Bullet(items[0])]) + BulletsNotIn(base, items[1..])
  }

  /**
   * For items as the bullet parser produces them (non-empty, stripped), an
   * item is skipped only when it equals an outline line: it can never equal
   * the header or an appended `"  - ..."` line, so repeated items are all kept.
   */
  lemma {:induction false} RawCheckIgnoresAppended(base: seq<string>, enhancements: seq<string>)
    requires base != [] && enhancements != []
    requires forall j :: 0 <= j < |enhancements| ==> enhancements[j] != "" && IsStripped(enhancements[j])
    ensures Merged(base, enhancements) == base + [Header] + BulletsNotIn(base, enhancements)
  {
    assert Header == "\n" + ("- " + HeaderTitle);
    assert Indented(Header);
    AppendNewRaw(base, base + [Header], enhancements);
  }

  /**
   * `generate_learning_roadmap` with the model's answer parsed as
   * `get_llm_enhancement` parses it: the merged roadmap is the outline, the
   * header, then the bullets of the items that are not outline lines,
   * repeats included; either part alone is returned as it is.
   */
  lemma ParsedAnswerMerged(page: seq<string>, answer: string)
    ensures var items := BulletItems(Split(Strip(answer), '\n'));
      Merged(page, items)
      == if page == [] || items == [] then page + items else page + [Header] + BulletsNotIn(page, items)
  {
    var items := BulletItems(Split(Strip(answer), '\n'));
    if page == [] {
      assert page + items == items;
    } else if items == [] {
      assert page + items == page;
    } else {
      RawCheckIgnoresAppended(page, items);
    }
  }

  /** A line that starts with whitespace, as the header and every appended line do. */
  predicate Indented(line: string) {
    line != "" && IsSpace(line[0])
  }

  /** Past the outline, `acc` holds only indented lines, which no item equals. */
  lemma ItemInAccIffInBase(base: seq<string>, acc: seq<string>, x: string)
    requires forall k :: |base| <= k < |acc| ==> Indented(acc[k])
    requires |base| <= |acc| && acc[..|base|] == base
    requires x != "" && IsStripped(x)
    ensures x in acc <==> x in base
  {
    if x in acc {
      var k :| 0 <= k < |acc| && acc[k] == x;
      if k < |base| {
        assert base[k] == x;
      }
    }
    if x in base {
      var k :| 0 <= k < |base| && base[k] == x;
      assert acc[k] == x;
    }
  }

  /** One step of `AppendNew`: the first item is tested against `acc` as it stands. */
  lemma AppendNewUnfold(acc: seq<string>, items: seq<string>)
    requires items != []
    ensures AppendNew(acc, items)
         == AppendNew(if items[0] in acc then acc else acc + [Bullet(items[0])], items[1..])
  {
  }

  /** Appending the bullet of an item keeps `acc` shaped as outline plus indented lines. */
  lemma NextShape(base: seq<string>, acc: seq<string>, x: string, next: seq<string>)
    requires forall k :: |base| <= k < |acc| ==> Indented(acc[k])
    requires |base| <= |acc| && acc[..|base|] == base
    requires next == acc || next == acc + [Bullet(x)]
    ensures forall k :: |base| <= k < |next| ==> Indented(next[k])
    ensures |base| <= |next| && next[..|base|] == base
  {
    assert Bullet(x)[0] == ' ';
    assert next[..|base|] == acc[..|base|];
  }

  lemma {:induction false} AppendNewRaw(base: seq<string>, acc: seq<string>, items: seq<string>)
    requires forall k :: |base| <= k < |acc| ==> Indented(acc[k])
    requires |base| <= |acc| && acc[..|base|] == base
    requires forall j :: 0 <= j < |items| ==> items[j] != "" && IsStripped(items[j])
    ensures AppendNew(acc, items) == acc + BulletsNotIn(base, items)
    decreases items
  {
    if items == [] {
      assert acc + [] == acc;
    } else {
      var x := items[0];
      var rest := items[1..];
      ItemInAccIffInBase(base, acc, x);
      var step := if x in base then [] else [Bullet(x)];
      var next := acc + step;
      assert next == (if x in acc then acc else acc + [Bullet(x)]);
      NextShape(base, acc, x, next);
      assert forall j :: 0 <= j < |rest| ==> rest[j] == items[j + 1];
      AppendNewRaw(base, next, rest);
      AppendNewUnfold(acc, items);
      BulletsNotInUnfold(base, items);
      AppendAssoc(acc, step, BulletsNotIn(base, rest));
    }
  }

  lemma BulletsNotInUnfold(base: seq<string>, items: seq<string>)
    requires items != []
    ensures BulletsNotIn(base, items)
         == (if items[0] in base then [] else [Bullet(items[0])]) + BulletsNotIn(base, items[1..])
  {
  }

  /**
   * An item that appears twice and is not an outline line is appended
   * twice: the membership test never sees the first copy, which was stored
   * as `"  - " + item`.
   */
  lemma RepeatedItemAppendedTwice(base: seq<string>, x: string)
    requires base != [] && x != "" && IsStripped(x) && x !in base
    ensures Merged(base, [x, x]) == base + [Header, Bullet(x), Bullet(x)]
  {
    RawCheckIgnoresAppended(base, [x, x]);
    assert BulletsNotIn(base, [x, x]) == [Bullet(x)] + BulletsNotIn(base, [x]);
    assert BulletsNotIn(base, [x]) == [Bullet(x)] + BulletsNotIn(base, []);
  }

  /** For instance, the outline ["- Python"] with the items ["Loops", "Loops"]. */
  lemma RawItemCheckKeepsDuplicates()
    ensures Merged(["- Python"], ["Loops", "Loops"]) == ["- Python", Header, "  - Loops", "  - Loops"]
  {
    ExampleItemFacts();
    RepeatedItemAppendedTwice(["- Python"], "Loops");
  }

  lemma ExampleItemFacts()
    ensures "Loops" != "" && IsStripped("Loops") && "Loops" !in ["- Python"]
    ensures Bullet("Loops") == "  - Loops"
  {
    assert "Loops"[0] != "- Python"[0];
  }

  /**
   * The append loop with the membership test on the line that would be
   * written, `"  - " + item`: an item already present, in the outline or
   * among the items already appended, is skipped.
   */
  function AppendNewDedup(acc: seq<string>, items: seq<string>): (r: seq<string>)
    ensures |acc| <= |r| <= |acc| + |items|
    ensures r[..|acc|] == acc
    ensures forall j :: 0 <= j < |items| ==> Bullet(items[j]) in r
    decreases items
  {
    if items == [] then acc
    else
      var b := Bullet(items[0]);
      var next := if b in acc then acc else acc + [b];
      var r := AppendNewDedup(next, items[1..]);
      assert r[..|acc|] == r[..|next|][..|acc|];
      assert b in r by {
        var i :| 0 <= i < |next| && next[i] == b;
        assert r[i] == b;
      }
      assert forall j :: 1 <= j < |items| ==> items[j] == items[1..][j - 1];
      r
  }

  /** No line the corrected loop adds repeats an earlier line. */
  lemma {:induction false} AppendNewDedupNoRepeats(acc: seq<string>, items: seq<string>)
    ensures forall k :: |acc| <= k < |AppendNewDedup(acc, items)| ==>
      AppendNewDedup(acc, items)[k] !in AppendNewDedup(acc, items)[..k]
    decreases items
  {
    if items == [] {
      assert AppendNewDedup(acc, items) == acc;
    } else {
      var b := Bullet(items[0]);
      var next := if b in acc then acc else acc + [b];
      var r := AppendNewDedup(next, items[1..]);
      AppendNewDedupUnfold(acc, items);
      AppendNewDedupNoRepeats(next, items[1..]);
      forall k | |acc| <= k < |r|
        ensures r[k] !in r[..k]
      {
        if k < |next| {
          assert r[..k] == acc;
        }
      }
      assert AppendNewDedup(acc, items) == r;
    }
  }

  /** Every line the corrected loop adds is the bullet of one of the items. */
  lemma {:induction false} AppendNewDedupOnlyBullets(acc: seq<string>, items: seq<string>)
    ensures forall k :: |acc| <= k < |AppendNewDedup(acc, items)| ==>
      exists j :: 0 <= j < |items| && AppendNewDedup(acc, items)[k] == Bullet(items[j])
    decreases items
  {
    if items != [] {
      var b := Bullet(items[0]);
      var next := if b in acc then acc else acc + [b];
      var r := AppendNewDedup(next, items[1..]);
      AppendNewDedupUnfold(acc, items);
      AppendNewDedupOnlyBullets(next, items[1..]);
      OnlyBulletsStep(acc, next, r, items);
      assert AppendNewDedup(acc, items) == r;
    } else {
      assert AppendNewDedup(acc, items) == acc;
    }
  }

  /**
   * The merge with the corrected membership test. With both an outline and
   * items: the outline, the header, then only bullets of items, at most one
   * per item, no line repeating an earlier one, and every item present in
   * bulleted form.
   */
  function MergedDeduplicated(base: seq<string>, enhancements: seq<string>): (r: seq<string>)
    ensures enhancements == [] ==> r == base
    ensures base == [] ==> r == enhancements
    ensures base != [] && enhancements != [] ==>
      && |base| < |r| <= |base| + 1 + |enhancements|
      && r[..|base| + 1] == base + [Header]
      && (forall k :: |base| < k < |r| ==> exists j :: 0 <= j < |enhancements| && r[k] == Bullet(enhancements[j]))
      && (forall k :: |base| < k < |r| ==> r[k] !in r[..k])
      && (forall j :: 0 <= j < |enhancements| ==> Bullet(enhancements[j]) in r)
  {
    if enhancements == [] then base
    else if base == [] then enhancements
    else
      AppendNewDedupNoRepeats(base + [Header], enhancements);
      AppendNewDedupOnlyBullets(base + [Header], enhancements);
      AppendNewDedup(base + [Header], enhancements)
  }

  /** One step of `AppendNewDedup`: the first item's bullet is tested against `acc`. */
  lemma AppendNewDedupUnfold(acc: seq<string>, items: seq<string>)
    requires items != []
    ensures AppendNewDedup(acc, items)
         == AppendNewDedup(if Bullet(items[0]) in acc then acc else acc + [Bullet(items[0])], items[1..])
  {
  }

  /**
   * The lines the corrected merge adds after `prefix`, stated without the
   * growing list: the bullet of every item whose bullet is not a line of
   * `prefix` and that no earlier item repeats, in item order.
   */
  function NewBullets(prefix: seq<string>, items: seq<string>): seq<string>
    decreases |items|
  {
    if items == [] then []
    else
      var init := items[..|items| - 1];
      var x := items[|items| - 1];
      NewBullets(prefix, init) + (if Bullet(x) in prefix || x in init then [] else [Bullet(x)])
  }

  /** Different items have different bullets. */
  lemma BulletInjective(a: string, b: string)
    requires Bullet(a) == Bullet(b)
    ensures a == b
  {
    assert a == Bullet(a)[4..] && b == Bullet(b)[4..];
  }

  /** An item's bullet is in the corrected loop's result exactly when it was in `acc` or the item is given. */
  lemma AppendNewDedupMembers(acc: seq<string>, items: seq<string>, x: string)
    ensures Bullet(x) in AppendNewDedup(acc, items) <==> Bullet(x) in acc || x in items
  {
    var r := AppendNewDedup(acc, items);
    if Bullet(x) in r && Bullet(x) !in acc {
      var k :| 0 <= k < |r| && r[k] == Bullet(x);
      AppendNewDedupOnlyBullets(acc, items);
      var j :| 0 <= j < |items| && r[k] == Bullet(items[j]);
      BulletInjective(x, items[j]);
    }
    if Bullet(x) in acc {
      var k :| 0 <= k < |acc| && acc[k] == Bullet(x);
      assert r[k] == r[..|acc|][k];
    }
  }

  /** One more item at the end: its bullet is tested against the list the earlier items left. */
  lemma {:induction false} AppendNewDedupSnoc(acc: seq<string>, items: seq<string>, x: string)
    ensures AppendNewDedup(acc, items + [x])
         == var r := AppendNewDedup(acc, items); if Bullet(x) in r then r else r + [Bullet(x)]
    decreases items
  {
    if items == [] {
      assert items + [x] == [x];
      AppendNewDedupUnfold(acc, [x]);
      assert [x][1..] == [];
    } else {
      var next := if Bullet(items[0]) in acc then acc else acc + [Bullet(items[0])];
      assert (items + [x])[0] == items[0];
      assert (items + [x])[1..] == items[1..] + [x];
      AppendNewDedupUnfold(acc, items + [x]);
      AppendNewDedupUnfold(acc, items);
      AppendNewDedupSnoc(next, items[1..], x);
    }
  }

  /** The corrected loop adds exactly `NewBullets`: each new item's bullet once, in item order. */
  lemma {:induction false} AppendNewDedupIsNewBullets(acc: seq<string>, items: seq<string>)
    ensures AppendNewDedup(acc, items) == acc + NewBullets(acc, items)
    decreases |items|
  {
    if items == [] {
      assert acc + [] == acc;
    } else {
      var init := items[..|items| - 1];
      var x := items[|items| - 1];
      assert items == init + [x];
      AppendNewDedupSnoc(acc, init, x);
      AppendNewDedupIsNewBullets(acc, init);
      AppendNewDedupMembers(acc, init, x);
      AppendAssoc(acc, NewBullets(acc, init), [Bullet(x)]);
    }
  }

  /**
   * The corrected merge in closed form: the outline, the header, then the
   * bullet of each item that is neither an outline line nor a repeat of an
   * earlier item, in item order; either part alone is returned as it is.
   */
  lemma MergedDeduplicatedInOrder(base: seq<string>, enhancements: seq<string>)
    ensures MergedDeduplicated(base, enhancements)
         == if base == [] || enhancements == [] then base + enhancements
            else base + [Header] + NewBullets(base + [Header], enhancements)
  {
    if base == [] {
      assert base + enhancements == enhancements;
    } else if enhancements == [] {
      assert base + enhancements == base;
    } else {
      AppendNewDedupIsNewBullets(base + [Header], enhancements);
    }
  }

  /** Two different items whose bullets are not yet lines are added in the order they are given. */
  lemma NewBulletsPair(prefix: seq<string>, a: string, b: string)
    requires a != b && Bullet(a) !in prefix && Bullet(b) !in prefix
    ensures NewBullets(prefix, [a, b]) == [Bullet(a), Bullet(b)]
  {
    assert [a, b][..1] == [a] && [a][..0] == [];
    assert NewBullets(prefix, [a]) == [Bullet(a)];
  }

  /** The corrected merge writes two different new items in the order they are given. */
  lemma TwoItemsInOrder(base: seq<string>, a: string, b: string)
    requires base != [] && a != b && Bullet(a) !in base && Bullet(b) !in base
    ensures MergedDeduplicated(base, [a, b]) == base + [Header] + [Bullet(a), Bullet(b)]
  {
    MergedDeduplicatedInOrder(base, [a, b]);
    BulletNotHeader(a);
    BulletNotHeader(b);
    NotInExtended(base, Header, Bullet(a));
    NotInExtended(base, Header, Bullet(b));
    NewBulletsPair(base + [Header], a, b);
  }

  /** The merge loop with the corrected test: the line to be written is checked. */
  method MergeRoadmapDeduplicated(base: seq<string>, enhancements: seq<string>) returns (final: seq<string>)
    ensures final == MergedDeduplicated(base, enhancements)
  {
    final := base;
    if enhancements != [] {
      if base == [] {
        final := enhancements;
      } else {
        final := final + [Header];
        for i := 0 to |enhancements|
          invariant AppendNewDedup(final, enhancements[i..]) == MergedDeduplicated(base, enhancements)
        {
          var line := Bullet(enhancements[i]);
          assert enhancements[i..][1..] == enhancements[i + 1..];
          if line !in final {
            final := final + [line];
          }
        }
      }
    }
  }

  /** Under the corrected test a repeated item is written once. */
  lemma RepeatedItemAppendedOnce(base: seq<string>, x: string)
    requires base != [] && Bullet(x) !in base
    ensures MergedDeduplicated(base, [x, x]) == base + [Header, Bullet(x)]
  {
    BulletNotHeader(x);
    NotInExtended(base, Header, Bullet(x));
    DedupOfPair(base + [Header], x);
    MergedDeduplicatedBoth(base, [x, x]);
  }

  lemma NotInExtended(a: seq<string>, h: string, y: string)
    requires y !in a && y != h
    ensures y !in a + [h]
  {
  }

  /** With an outline and items, the corrected merge is the corrected loop after the header. */
  lemma MergedDeduplicatedBoth(base: seq<string>, enhancements: seq<string>)
    requires base != [] && enhancements != []
    ensures MergedDeduplicated(base, enhancements) == AppendNewDedup(base + [Header], enhancements)
  {
  }

  /** No bullet line is the header: the one starts with a space, the other with a newline. */
  lemma BulletNotHeader(x: string)
    ensures Bullet(x) != Header
  {
    assert Bullet(x)[0] == ' ';
    assert Header[0] == '\n';
  }

  /** The corrected loop over `[x, x]` adds the bullet of `x` once, if it is new. */
  lemma DedupOfPair(acc: seq<string>, x: string)
    requires Bullet(x) !in acc
    ensures AppendNewDedup(acc, [x, x]) == acc + [Bullet(x)]
  {
    var next := acc + [Bullet(x)];
    assert next[|acc|] == Bullet(x);
    AppendNewDedupUnfold(acc, [x, x]);
    assert [x, x][1..] == [x];
    AppendNewDedupUnfold(next, [x]);
    assert [x][1..] == [];
  }

  // ---------------------------------------------------------------------
  // Tutorial selection and file names (the __main__ loop)
  // ---------------------------------------------------------------------

  /** A roadmap line as a tutorial subject: stripped, one leading `"- "` removed, stripped again. */
  function CleanItem(item: string): (c: string)
    ensures IsStripped(c)
  {
    var c := Strip(item);
    StripSpec(item);
    if StartsWith(c, "- ") then StripSpec(c[2..]); Strip(c[2..]) else c
  }

  /** Subjects for which no article is requested. */
  predicate Skipped(c: string) {
    c == "" || StartsWith(c, SkipPrefix)
  }

  /** Characters the file-name filter `[^\w\s-]` keeps. */
  predicate FileNameChar(c: char) {
    IsWordChar(c) || IsSpace(c) || c == '-'
  }

  /** `re.sub(r'[^\w\s-]', '', s)` */
  function KeepFileNameChars(s: string): (r: string)
    ensures |r| <= |s|
    ensures forall i :: 0 <= i < |r| ==> FileNameChar(r[i])
    ensures (forall i :: 0 <= i < |s| ==> FileNameChar(s[i])) ==> r == s
  {
    if s == [] then []
    else (if FileNameChar(s[0]) then [s[0]] else []) + KeepFileNameChars(s[1..])
  }

  /** The filter on a single character keeps it exactly when it is allowed. */
  lemma KeepFileNameCharsOne(c: char)
    ensures KeepFileNameChars([c]) == if FileNameChar(c) then [c] else []
  {
    assert [c][1..] == [];
  }

  /**
   * The filter works character by character: filtering `a + b` filters `a`
   * and `b` and keeps them in order. With `KeepFileNameCharsOne` this fixes
   * its value on every string: exactly the allowed characters, in order.
   */
  lemma {:induction false} KeepFileNameCharsAppend(a: string, b: string)
    ensures KeepFileNameChars(a + b) == KeepFileNameChars(a) + KeepFileNameChars(b)
  {
    if a == [] {
      assert a + b == b;
    } else {
      assert (a + b)[1..] == a[1..] + b;
      KeepFileNameCharsAppend(a[1..], b);
      AppendAssoc(if FileNameChar(a[0]) then [a[0]] else [], KeepFileNameChars(a[1..]), KeepFileNameChars(b));
    }
  }

  /** The file-name stem: filtered, stripped, spaces to underscores, cut at 50 characters. */
  function FileStem(c: string): (stem: string)
    ensures |stem| <= 50
    ensures forall i :: 0 <= i < |stem| ==> FileNameChar(stem[i]) && stem[i] != ' '
  {
    var kept := KeepFileNameChars(c);
    StripKeepsFileNameChars(kept);
    ReplaceSpaces(Strip(kept));
    Take(ReplaceChar(Strip(kept), ' ', '_'), 50)
  }

  lemma StripKeepsFileNameChars(kept: string)
    requires forall i :: 0 <= i < |kept| ==> FileNameChar(kept[i])
    ensures forall i :: 0 <= i < |Strip(kept)| ==> FileNameChar(Strip(kept)[i])
  {
    StripMembers(kept);
    forall i | 0 <= i < |Strip(kept)|
      ensures FileNameChar(Strip(kept)[i])
    {
      assert Strip(kept)[i] in Strip(kept);
      var j :| 0 <= j < |kept| && kept[j] == Strip(kept)[i];
    }
  }

  lemma ReplaceSpaces(s: string)
    requires forall i :: 0 <= i < |s| ==> FileNameChar(s[i])
    ensures forall i :: 0 <= i < |ReplaceChar(s, ' ', '_')| ==>
      FileNameChar(ReplaceChar(s, ' ', '_')[i]) && ReplaceChar(s, ' ', '_')[i] != ' '
    ensures forall i :: 0 <= i < |s| && s[i] != ' ' ==> ReplaceChar(s, ' ', '_')[i] == s[i]
  {
  }

  /**
   * A subject made of allowed characters, without whitespace at its ends,
   * followed by characters the filter removes (as "Intro to C" is by "++"),
   * is saved under the subject with spaces as underscores, cut at 50
   * characters: "Intro to C++" gets the stem "Intro_to_C".
   */
  lemma FilteredSubjectStem(t: string, x: string)
    requires forall i :: 0 <= i < |t| ==> FileNameChar(t[i])
    requires forall i :: 0 <= i < |x| ==> !FileNameChar(x[i])
    requires IsStripped(t)
    ensures FileStem(t + x) == Take(ReplaceChar(t, ' ', '_'), 50)
  {
    assert KeepFileNameChars(t + x) == t by {
      KeepFileNameCharsAppend(t, x);
      RemovedCharsDropped(x);
      assert t + [] == t;
    }
    StripStripped(t);
    FileStemUnfold(t + x);
  }

  lemma FileStemUnfold(c: string)
    ensures FileStem(c) == Take(ReplaceChar(Strip(KeepFileNameChars(c)), ' ', '_'), 50)
  {
  }

  /** A string of characters outside `[\w\s-]` is filtered away entirely. */
  lemma {:induction false} RemovedCharsDropped(x: string)
    requires forall i :: 0 <= i < |x| ==> !FileNameChar(x[i])
    ensures KeepFileNameChars(x) == []
  {
    if x != [] {
      assert forall i :: 0 <= i < |x[1..]| ==> x[1..][i] == x[i + 1];
      RemovedCharsDropped(x[1..]);
    }
  }

  /** A name the article loop may write: a safe stem of at most 50 characters, then ".md". */
  predicate SafeFileName(name: string) {
    && 3 <= |name| <= 53
    && name[|name| - 3..] == ".md"
    && forall i :: 0 <= i < |name| - 3 ==> FileNameChar(name[i]) && name[i] != ' '
  }

  /** The article's file name: a stem of at most 50 safe characters, without spaces, then ".md". */
  function TutorialFileName(c: string): (name: string)
    ensures SafeFileName(name)
  {
    var stem := FileStem(c);
    assert (stem + ".md")[|stem|..] == ".md";
    stem + ".md"
  }

  /**
   * Subjects that differ only in characters the filter removes share one
   * file name ("Intro to C++" and "Intro to C#" both give "Intro_to_C.md"),
   * so the later article is written over the earlier one.
   */
  lemma SameStemSameFile(t: string, x: string, y: string)
    requires forall i :: 0 <= i < |t| ==> FileNameChar(t[i])
    requires forall i :: 0 <= i < |x| ==> !FileNameChar(x[i])
    requires forall i :: 0 <= i < |y| ==> !FileNameChar(y[i])
    requires IsStripped(t)
    ensures x != y ==> t + x != t + y
    ensures TutorialFileName(t + x) == TutorialFileName(t + y)
  {
    assert (t + x)[|t|..] == x && (t + y)[|t|..] == y;
    FilteredSubjectStem(t, x);
    FilteredSubjectStem(t, y);
  }

  /**
   * A subject that is already a safe name (word characters and `-` only,
   * at most 50 of them) is its own stem.
   */
  lemma SafeSubjectIsItsOwnStem(c: string)
    requires |c| <= 50
    requires forall i :: 0 <= i < |c| ==> IsWordChar(c[i]) || c[i] == '-'
    ensures FileStem(c) == c
  {
    SafeCharsKept(c);
    SafeCharsStripped(c);
    StripStripped(c);
    SafeCharsNotReplaced(c);
  }

  /** A word character or `-` is neither whitespace nor a space. */
  lemma SafeCharNotSpace(ch: char)
    requires IsWordChar(ch) || ch == '-'
    ensures FileNameChar(ch) && !IsSpace(ch) && ch != ' '
  {
  }

  lemma SafeCharsKept(c: string)
    requires forall i :: 0 <= i < |c| ==> IsWordChar(c[i]) || c[i] == '-'
    ensures KeepFileNameChars(c) == c
  {
    forall i | 0 <= i < |c| ensures FileNameChar(c[i]) {
      SafeCharNotSpace(c[i]);
    }
  }

  lemma SafeCharsStripped(c: string)
    requires forall i :: 0 <= i < |c| ==> IsWordChar(c[i]) || c[i] == '-'
    ensures IsStripped(c)
  {
    if c != [] {
      SafeCharNotSpace(c[0]);
      SafeCharNotSpace(c[|c| - 1]);
    }
  }

  lemma SafeCharsNotReplaced(c: string)
    requires forall i :: 0 <= i < |c| ==> IsWordChar(c[i]) || c[i] == '-'
    ensures ReplaceChar(c, ' ', '_') == c
  {
    forall i | 0 <= i < |c| ensures c[i] != ' ' {
      SafeCharNotSpace(c[i]);
    }
  }

  /** Whether generate_tutorial_article's result is an article to save. */
  predicate IsArticle(article: string) {
    article != "" && !StartsWith(article, "Error:")
  }

  /** One saved article: its file name and the text written to it. */
  datatype TutorialFile = TutorialFile(name: string, text: string)

  /**
   * The file one roadmap line yields, if any: none for a skipped subject or
   * when the generator returns no article, otherwise the article under the
   * subject's heading, saved under the subject's file name.
   */
  function LineFiles(item: string, generate: string -> string): (files: seq<TutorialFile>)
    ensures |files| <= 1
    ensures files != [] ==> SafeFileName(files[0].name)
    ensures files != [] <==> !Skipped(CleanItem(item)) && IsArticle(generate(CleanItem(item)))
  {
    var c := CleanItem(item);
    if Skipped(c) then []
    else
      var article := generate(c);
      if IsArticle(article) then [TutorialFile(TutorialFileName(c), "# " + c + "\n\n" + article)] else []
  }

  /**
   * The files the loop writes, in order, given the article generator for
   * the chosen topic. Every file name is safe, and no file comes from a
   * blank line or from the merge header.
   */
  function TutorialFiles(roadmap: seq<string>, generate: string -> string): (files: seq<TutorialFile>)
    ensures |files| <= |roadmap|
    ensures forall k :: 0 <= k < |files| ==> SafeFileName(files[k].name)
  {
    if roadmap == [] then []
    else
      var first, rest := LineFiles(roadmap[0], generate), TutorialFiles(roadmap[1..], generate);
      PrependFiles(first, rest);
      first + rest
  }

  lemma PrependFiles(first: seq<TutorialFile>, rest: seq<TutorialFile>)
    requires |first| <= 1 && (first != [] ==> SafeFileName(first[0].name))
    requires forall k :: 0 <= k < |rest| ==> SafeFileName(rest[k].name)
    ensures forall k :: 0 <= k < |first + rest| ==> SafeFileName((first + rest)[k].name)
  {
    forall k | 0 <= k < |first + rest|
      ensures SafeFileName((first + rest)[k].name)
    {
      if k >= |first| {
        assert (first + rest)[k] == rest[k - |first|];
      }
    }
  }

  lemma {:induction false} TutorialFilesAppend(a: seq<string>, b: seq<string>, generate: string -> string)
    ensures TutorialFiles(a + b, generate) == TutorialFiles(a, generate) + TutorialFiles(b, generate)
  {
    if a == [] {
      assert a + b == b;
    } else {
      assert (a + b)[1..] == a[1..] + b;
      TutorialFilesAppend(a[1..], b, generate);
      AppendAssoc(LineFiles(a[0], generate), TutorialFiles(a[1..], generate), TutorialFiles(b, generate));
    }
  }

  /** The files of a single roadmap line. */
  lemma {:induction false} TutorialFilesSingle(item: string, generate: string -> string)
    ensures TutorialFiles([item], generate) == LineFiles(item, generate)
  {
    assert [item][1..] == [];
  }

  /** One step of the article loop: the files of one more roadmap line. */
  lemma {:induction false} TutorialFilesStep(roadmap: seq<string>, i: nat, generate: string -> string)
    requires i < |roadmap|
    ensures TutorialFiles(roadmap[..i + 1], generate) == TutorialFiles(roadmap[..i], generate) + LineFiles(roadmap[i], generate)
  {
    assert roadmap[..i + 1] == roadmap[..i] + [roadmap[i]];
    TutorialFilesAppend(roadmap[..i], [roadmap[i]], generate);
    TutorialFilesSingle(roadmap[i], generate);
  }

  /** The body of the `__main__` loop for one roadmap line: the file it saves, if any. */
  method WriteTutorial(item: string, generate: string -> string) returns (file: Option<TutorialFile>)
    ensures (if file.Some? then [file.value] else []) == LineFiles(item, generate)
  {
    var cleanItem := Strip(item);
    if StartsWith(cleanItem, "- ") {
      cleanItem := Strip(cleanItem[2..]);
    }
    assert cleanItem == CleanItem(item);
    file := None;
    if !Skipped(cleanItem) {
      var article := generate(cleanItem);
      if IsArticle(article) {
        file := Some(TutorialFile(TutorialFileName(cleanItem), "# " + cleanItem + "\n\n" + article));
      }
    }
  }

  /** The `__main__` loop over the roadmap; returns the files and the article count. */
  method WriteTutorials(roadmap: seq<string>, generate: string -> string)
    returns (files: seq<TutorialFile>, articleCount: nat)
    ensures files == TutorialFiles(roadmap, generate)
    ensures articleCount == |files|
  {
    files := [];
    articleCount := 0;
    for i := 0 to |roadmap|
      invariant files == TutorialFiles(roadmap[..i], generate)
      invariant articleCount == |files|
    {
      var file := WriteTutorial(roadmap[i], generate);
      TutorialFilesStep(roadmap, i, generate);
      if file.Some? {
        files := files + [file.value];
        articleCount := articleCount + 1;
      }
    }
    assert roadmap[..|roadmap|] == roadmap;
  }

  /** The merge header is cleaned to "Modern & Advanced Topics (LLM-Enhanced)" and never becomes an article. */
  lemma {:induction false} HeaderIsSkipped(generate: string -> string)
    ensures CleanItem(Header) == HeaderTitle
    ensures Skipped(CleanItem(Header))
    ensures TutorialFiles([Header], generate) == []
  {
    HeaderTitleFacts();
    CleanBulleted("\n", HeaderTitle);
    assert Header == "\n" + "- " + HeaderTitle;
    TutorialFilesSingle(Header, generate);
  }

  lemma HeaderTitleFacts()
    ensures HeaderTitle != "" && IsStripped(HeaderTitle)
    ensures StartsWith(HeaderTitle, SkipPrefix)
  {
    assert HeaderTitle[0] == 'M';
    assert HeaderTitle[|HeaderTitle| - 1] == ')';
    assert HeaderTitle[..|SkipPrefix|] == SkipPrefix;
  }

  /** Stripping and removing the bullet give back the title of a bulleted line. */
  lemma {:induction false} CleanBulleted(pad: string, t: string)
    requires forall i :: 0 <= i < |pad| ==> IsSpace(pad[i])
    requires t != "" && IsStripped(t)
    ensures CleanItem(pad + "- " + t) == t
  {
    var line := "- " + t;
    BulletLineFacts(t);
    assert pad + "- " + t == pad + line;
    StripLeadingSpaces(pad, line);
    CleanItemOfBulletLine(pad + line, t);
  }

  lemma BulletLineFacts(t: string)
    requires t != "" && IsStripped(t)
    ensures IsStripped("- " + t) && StartsWith("- " + t, "- ") && ("- " + t)[2..] == t
  {
    var line := "- " + t;
    assert line[0] == '-';
    assert line[|line| - 1] == t[|t| - 1];
    assert line[..2] == "- ";
  }

  /** A line that strips to `"- " + t`, for a stripped `t`, cleans to `t`. */
  lemma CleanItemOfBulletLine(item: string, t: string)
    requires IsStripped(t)
    requires Strip(item) == "- " + t && ("- " + t)[2..] == t
    ensures CleanItem(item) == t
  {
    assert StartsWith(Strip(item), "- ") by {
      assert Strip(item)[..2] == "- ";
    }
    StripStripped(t);
  }

  /** An appended enhancement line cleans back to its item. */
  lemma CleanItemOfBullet(item: string)
    requires item != "" && IsStripped(item)
    ensures CleanItem(Bullet(item)) == item
  {
    CleanBulleted("  ", item);
    assert Bullet(item) == "  " + "- " + item;
  }

  /** An outline line cleans back to its title. */
  lemma CleanItemOfOutlineLine(level: nat, title: string)
    requires 1 <= level && title != "" && IsStripped(title)
    ensures CleanItem(Outline.Line(level, title)) == title
  {
    CleanBulleted(Outline.Indent(level - 1), title);
  }
}
