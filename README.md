# Learning roadmap generator: a Dafny model of its list logic

The system builds a learning roadmap for a topic. It takes the section
outline of a Wikipedia page and flattens it into indented `"- title"` lines.
It asks a language model for further topics and merges what comes back into
the outline. It then asks the model for one tutorial article per roadmap
line and saves each article under a file name derived from the line. The
backend variant asks the model for a JSON array of topics and classifies
the reply.

The model covers the logic between those calls. The Wikipedia client, the
model service and the article generator appear as parameters: a section
tree, an optional answer text, a parsed JSON outcome or a function from
prompt to reply.

Modules:

- `Wrappers`: `Option` and `Result`.
- `Text`: the Python string operations the code uses. These are
  `str.strip()` with Python's whitespace set, `split('\n')`, `"\n".join`,
  slicing and single-character `replace`.
- `Outline`: `parse_wikipedia_page` / `process_sections`. This code is
  identical in `main.py` and `backend/main.py`. It has two parts:
  - a specification function `Flatten` over a `Section` tree, with lemmas
    about its order, exclusions, depth bound and line shape;
  - the class `OutlineBuilder`. Its methods `ProcessSections` (the loop
    over siblings), `ProcessSection` (the tests on one section) and
    `EmitSection` (the append and the recursion into children) append to the
    `roadmap` list exactly as the nested closure does, and each is proved
    against `Flatten`.
- `Roadmap` (`main.py`):
  - the bullet parser of `get_llm_enhancement`;
  - the merge of `generate_learning_roadmap`;
  - the tutorial loop of the `__main__` block: subject cleaning, skipping and
    file-name sanitisation.

  Each loop is a method proved against a function that specifies it.
- `Backend` (`backend/main.py`):
  - JSON reply classification;
  - prompt selection;
  - the missing-key error;
  - the pass-through of `generate_learning_roadmap`.

Behaviour the model follows from the code:

- The exclusion test is Python's case-sensitive `in`. A section titled
  "Footnotes" contains "notes" but not "Notes", so it is kept.
  "General References" is dropped.
- `re.sub(r'\[\w+\]', '', s)` is one pass. `"[a[b]]"` becomes `"[a]"`, and
  that `"[a]"` is not removed again. This holds for any word characters in
  place of `a` and `b`.
- `Roadmap.GenerateLearningRoadmap` takes the model call as a function
  `enhance`. In the program that function is `get_llm_enhancement`, which
  parses the answer with `BulletItems` (`Roadmap.GetLlmEnhancement`);
  `Roadmap.ParsedAnswerMerged` states the merged roadmap for such parsed
  items.
- A section whose title cleans to the empty string emits nothing, and
  neither do its children. A section deeper than level 3, or with an
  excluded title, loses its whole subtree.

## Model

| member | source | states |
|---|---|---|
| Outline.ParseWikipediaPage | main.py:216-231 | the outline is the pre-order flattening of the page's sections starting at level 1 (backend/main.py:231-246 is the same code) |
| Outline.OutlineBuilder.ProcessSections | main.py:219-228 | each call appends to the shared roadmap exactly the lines of its sections at its level, in order, via the recursion into children (backend/main.py:234-243 is the same code) |
| Outline.OutlineBuilder.ProcessSection | main.py:221-228 | one section appends exactly its own lines and its descendants' lines |
| Outline.OutlineBuilder.EmitSection | main.py:225-228 | a kept section appends its line and then, one level deeper, the lines of its children |
| Outline.OutlineBuilder.constructor | main.py:217 | the roadmap list starts empty |
| Outline.Flatten | main.py:220-228 | the lines of a section list are those of each section in turn; nothing is emitted at levels beyond 3 |
| Outline.FlattenOne | main.py:221-228 | a section at a level beyond 3 contributes nothing |
| Outline.FlattenOneCases | main.py:221-228 | (helper) a section that is too deep, excluded or whose title cleans to nothing contributes nothing; any other contributes its cleaned line, then its children's lines one level deeper |
| Outline.FlattenSingle | main.py:220 | a one-section list yields that section's lines |
| Outline.FlattenPrefixStep | main.py:220-228 | one more iteration of the sibling loop appends the lines of one more section |
| Outline.FlattenAppend | main.py:220 | sibling order is kept: the lines of `a + b` are those of `a` followed by those of `b` |
| Outline.PreOrder | main.py:226-228 | a kept section's line precedes its descendants' lines, which precede the later siblings' lines |
| Outline.SubtreeDropped | main.py:221-224 | a section that is too deep, excluded, or whose title cleans to nothing removes its whole subtree and nothing else |
| Outline.FlattenLinesWellFormed | backend/main.py:236-241 | every emitted line is `"  " * (lvl - 1) + "- " + title` with a level between 1 and 3 and a non-empty stripped title |
| Outline.FlattenOneLinesWellFormed | backend/main.py:236-243 | the same for the lines of one section and its descendants |
| Outline.OutlineLineDeeper | backend/main.py:243 | a well-formed line from level `n + 1` on is well formed from level `n` on |
| Outline.DeepSectionsIgnored | main.py:221 | cutting the tree off below level 3 leaves the outline unchanged |
| Outline.FootnotesKept | main.py:221 | "Footnotes" is not excluded (case-sensitive test); "Notes and references" and "General References" are |
| Outline.MaxLevel | main.py:221 | the deepest level that is visited, the `3` of `level > 3` (definition) |
| Outline.Excluded | main.py:221 | a title is excluded when it contains "See also", "References", "External links", "Notes" or "Further reading" (definition) |
| Outline.Emits | main.py:221-224 | a section at a level of at most 3, not excluded, with a non-empty cleaned title emits a line (definition) |
| Outline.FootnotesHoldsNoMarker | main.py:221 | none of the five markers occurs in "Footnotes" |
| Outline.GeneralReferencesExcluded | main.py:221 | "References" occurs in "General References" |
| Outline.ContainsSuffix | main.py:221 | what occurs in a suffix of a string occurs in the string |
| Outline.NotContains | main.py:221 | a substring whose first character never occurs early enough is not contained |
| Outline.LongerNotContained | main.py:221 | nothing longer than a string occurs in it |
| Outline.WordRun | main.py:223 | the length of the maximal run of word characters at the start |
| Outline.WordRunExact | main.py:223 | a run of exactly `k` word characters followed by a non-word character has length `k` |
| Outline.TokenAt | main.py:223 | a non-zero result is the length of a `[`, word characters, `]` token at the start |
| Outline.TokenAtComplete | main.py:223 | whenever a token is at the start, `TokenAt` finds exactly it |
| Outline.RemoveWordTokens | main.py:223 | the result is a subsequence of the title (`Text.Subsequence`): token removal only deletes characters and keeps the rest in order; it is never longer than the title |
| Outline.TokenPrefix | main.py:223 | what `\[\w+\]` matches at the start of a string: `[`, one or more word characters, `]` (definition) |
| Outline.RemoveKeeps | main.py:223 | (helper) where no token starts, the first character is kept and the pass goes on after it |
| Outline.RemoveSkips | main.py:223 | (helper) where a token starts, it is deleted and the pass goes on after it |
| Outline.OpenTokenNotMatched | main.py:223 | `"[a["` with a word character `a` does not start a token |
| Outline.InnerTokenRemoved | main.py:223 | `"[b]]"` becomes `"]"` |
| Outline.TrailingTokenRemoved | main.py:223 | a text without `[` followed by one token loses the token and keeps the rest |
| Outline.NoBracketUnchanged | main.py:223 | a title without `[` is left unchanged by token removal |
| Outline.PlainTitleShownAsIs | main.py:223 | a stripped title without `[` is shown as it is |
| Outline.SinglePassRemoval | main.py:223 | removal is one left-to-right pass: `"[a[b]]"` becomes `"[a]"` for any word characters `a` and `b` |
| Outline.CitationRemoved | main.py:223 | a stripped title without `[` followed by a citation mark such as `"[1]"` is shown without the mark |
| Outline.CleanTitle | main.py:223 | the displayed title is stripped and no longer than the raw one |
| Outline.EmptyTitleDropsChildren | backend/main.py:238-243 | a section whose title is only a `[word]` token yields no line and hides its children, at any level |
| Outline.Indent | main.py:225 | the indentation is `2 * n` spaces |
| Outline.Line | main.py:225-226 | the line of a kept section: `"  " * (level - 1) + "- " + title` (definition) |
| Outline.Prune | main.py:221 | pruning keeps the number of sibling sections |
| Text.IsSpace | main.py:294-305 | Python's whitespace set, as `str.strip()` and regex `\s` use it: the code points `str.isspace` accepts (definition) |
| Text.IsWordChar | main.py:305 | regex `\w` on ASCII: letters, digits and `_` (definition) |
| Text.StartsWith | main.py:296-299 | `s.startswith(prefix)` (definition) |
| Text.Subsequence | main.py:223 | `r` is `s` with some characters deleted and the rest in order (definition) |
| Text.SubsequenceDrop | main.py:223 | (helper) a subsequence of a suffix of `s` is a subsequence of `s` |
| Text.TrimStart | main.py:69 | `lstrip` removes exactly the leading whitespace |
| Text.TrimEnd | main.py:69 | `rstrip` removes exactly the trailing whitespace |
| Text.Contains | main.py:221 | Python's `sub in s` on strings (definition; `Text.ContainsAt` relates it to positions) |
| Text.ContainsAt | main.py:221 | `sub in s` holds exactly when `sub` occurs in `s` at some position |
| Text.OccursAt | main.py:221 | `sub` occurs in `s` starting at position `i` (definition, used by `Text.ContainsAt`) |
| Text.StripSpec | main.py:69 | a stripped line has no whitespace at either end and is empty exactly when the line is all whitespace |
| Text.Strip | main.py:69 | `str.strip()`: trims the end of the string with its leading whitespace trimmed (definition; its properties are `Text.StripSpec`) |
| Text.StripMembers | main.py:295 | stripping only removes characters |
| Text.TrimStartMember | main.py:295 | (helper) `lstrip` only removes characters |
| Text.TrimEndMember | main.py:295 | (helper) `rstrip` only removes characters |
| Text.StripStripped | main.py:71 | stripping a string without whitespace at its ends changes nothing |
| Text.StripIdempotent | main.py:69-71 | stripping twice equals stripping once |
| Text.StripNonSpaceStart | main.py:297 | for a string starting with a non-space, strip only trims its end |
| Text.StripLeadingSpaces | main.py:295 | stripping leading spaces put in front of a stripped string gives that string back |
| Text.Split | main.py:68 | splitting gives at least one piece, no piece holds the separator, and joining the pieces gives back the text |
| Text.SplitJoin | main.py:68 | splitting undoes joining separator-free pieces |
| Text.SplitPiece | main.py:68 | a separator-free text splits into itself alone |
| Text.SplitPrefix | main.py:68 | a piece followed by the separator splits off as the first piece |
| Text.Join | main.py:241 | `sep.join(parts)` for a one-character separator (definition; `Text.Split` and `Text.SplitJoin` relate it to `split`) |
| Text.Take | main.py:305 | `s[:n]` is the first `n` characters of `s`, or all of `s` when it is shorter (an exact length, not only a bound) |
| Text.ReplaceChar | main.py:305 | `replace(' ', '_')` changes exactly the matching characters and keeps the length |
| Roadmap.BulletItem | main.py:69-73 | a line yields an item exactly when it is not blank; the item is non-empty and stripped |
| Roadmap.Blank | main.py:72 | a line that strips to nothing (definition) |
| Roadmap.StrippedLineFacts | main.py:70-71 | after `"- "` on a stripped line there is a non-empty stripped rest |
| Roadmap.BulletPrefix | main.py:70 | a line starting with `"- "` has a space as its second character |
| Roadmap.AfterBullet | main.py:71 | on a stripped line with a space in second place, what follows the first two characters strips to a non-empty stripped text |
| Roadmap.BulletItems | main.py:67-73 | at most one item per line, each non-empty and stripped |
| Roadmap.PrependItem | main.py:70-73 | (helper) putting a non-empty stripped item before such items keeps them all non-empty and stripped |
| Roadmap.NonBlankCount | main.py:72 | the count of non-blank lines is at most the number of lines |
| Roadmap.BulletItemsAppend | main.py:68 | the items of concatenated line lists are concatenated in order |
| Roadmap.NonBlankCountAppend | main.py:68 | non-blank counts add up over concatenation |
| Roadmap.BulletItemsCount | main.py:67-73 | there are exactly as many items as non-blank lines |
| Roadmap.BulletItemsPerLine | main.py:67-73 | the item of the `k`-th non-blank line sits at the position given by the number of non-blank lines before it |
| Roadmap.BulletItemsSingle | main.py:69-73 | a non-blank line alone yields exactly its item |
| Roadmap.BulletItemsStep | main.py:68-73 | one iteration of the loop adds the item of one line |
| Roadmap.ParseEnhancements | main.py:65-73 | the loop's result is the items of the stripped answer split at newlines |
| Roadmap.GetLlmEnhancement | main.py:17-87 | no key or a failed request gives no items; otherwise the items parsed from the answer |
| Roadmap.AppendNew | main.py:260-262 | the loop extends the list, at most one line per item, and leaves every item present raw or bulleted |
| Roadmap.AppendNewOnlyBullets | main.py:262 | every appended line is `"  - "` plus an item |
| Roadmap.OnlyBulletsStep | main.py:261-262 | (helper) if the first item adds at most its own bullet and the rest add only item bullets, every added line is an item's bullet |
| Roadmap.Bullet | main.py:262 | an item as the merge writes it: `"  - " + item` (definition) |
| Roadmap.AppendNewUnfold | main.py:261 | (helper) each item is tested against the list as it has grown so far |
| Roadmap.Merged | main.py:254-262 | without items the outline; without an outline the items; otherwise outline, header, then only item bullets, every item covered |
| Roadmap.MergeRoadmap | main.py:254-264 | the copy-and-append loop returns the merged roadmap |
| Roadmap.JoinLines | main.py:241 | `"\n".join(lines)`, the empty string for no lines (definition) |
| Roadmap.GenerateLearningRoadmap | main.py:233-264 | no page means an empty outline and an empty existing-roadmap text; the model is asked only with a key, with the outline joined by newlines; the result is the as-written merge `Merged` of the outline and the items |
| Roadmap.GenerateLearningRoadmapCorrected | main.py:233-264 | the same steps with the corrected membership test: the result is `MergedDeduplicated` of the outline and the items |
| Roadmap.RoadmapInputs | main.py:234-253 | the outline is the page's outline or empty; the items are the model's answer to the outline joined by newlines when there is a key, and none otherwise |
| Roadmap.ParsedAnswerMerged | main.py:233-264 | with the model's answer parsed as `get_llm_enhancement` parses it, the merged roadmap is the outline, the header, then the bullets of the items that are not outline lines, repeats included; either part alone is returned as it is |
| Roadmap.HeaderTitle | main.py:259 | the header's title, the skip prefix followed by " (LLM-Enhanced)" (definition) |
| Roadmap.Header | main.py:259 | the header line the merge writes before the items (definition) |
| Roadmap.BulletsNotIn | main.py:260-262 | the bullets, in item order and repeats included, of the items that are not outline lines: what the as-written loop appends for parsed items (definition, used by `Roadmap.RawCheckIgnoresAppended`) |
| Roadmap.RawCheckIgnoresAppended | main.py:261 | for parsed items, the merge is outline, header, then the bullet of every item that is not an outline line, repeats included |
| Roadmap.ItemInAccIffInBase | main.py:261 | a parsed item is in the growing list exactly when it is an outline line |
| Roadmap.NextShape | main.py:262 | after an append, the lines past the outline still all start with whitespace |
| Roadmap.AppendNewRaw | main.py:260-262 | the append loop adds the bullets of the items absent from the outline, in order |
| Roadmap.BulletsNotInUnfold | main.py:261-262 | (helper) the first item contributes its bullet exactly when it is not an outline line |
| Roadmap.RepeatedItemAppendedTwice | main.py:261-262 | an item given twice and absent from the outline is appended twice |
| Roadmap.RawItemCheckKeepsDuplicates | main.py:261-262 | outline `["- Python"]` with items `["Loops", "Loops"]` gets two `"  - Loops"` lines |
| Roadmap.ExampleItemFacts | main.py:261-262 | `"Loops"` is a parsed item, not an outline line of `["- Python"]`, and its bullet is `"  - Loops"` |
| Roadmap.AppendNewDedup | main.py:260-262 | with the test on the written line, every item is present in bulleted form |
| Roadmap.AppendNewDedupNoRepeats | main.py:260-262 | with the corrected test, no appended line repeats an earlier line |
| Roadmap.AppendNewDedupOnlyBullets | main.py:262 | with the corrected test, every appended line is `"  - "` plus an item |
| Roadmap.AppendNewDedupUnfold | main.py:261 | (helper) the corrected loop tests each bullet against the list grown so far |
| Roadmap.MergedDeduplicated | main.py:254-262 | without items the outline; without an outline the items; otherwise outline and header, then at most one line per item, each the bullet of an item, none repeating an earlier line, and every item's bullet present; `Roadmap.MergedDeduplicatedInOrder` gives its exact value, in item order |
| Roadmap.NewBullets | main.py:260-262 | the lines the corrected merge adds, stated without the growing list: the bullet of each item that is not a line of the prefix and repeats no earlier item, in item order (definition) |
| Roadmap.BulletInjective | main.py:262 | different items have different bullets |
| Roadmap.AppendNewDedupMembers | main.py:260-262 | an item's bullet is in the corrected loop's result exactly when it was already in the list or the item is among the items |
| Roadmap.AppendNewDedupSnoc | main.py:260-262 | (helper) one more item at the end is tested against the list that the earlier items left |
| Roadmap.AppendNewDedupIsNewBullets | main.py:260-262 | the corrected loop adds exactly `NewBullets`: each new item's bullet once, in item order |
| Roadmap.MergedDeduplicatedInOrder | main.py:254-262 | the corrected merge is the outline, the header, then `NewBullets` of the items; either part alone is returned as it is |
| Roadmap.NewBulletsPair | main.py:260-262 | (helper) two different items whose bullets are not yet lines are added in the order given |
| Roadmap.TwoItemsInOrder | main.py:260-262 | the corrected merge writes two different new items as outline, header, first bullet, second bullet |
| Roadmap.MergedDeduplicatedBoth | main.py:258-262 | (helper) with an outline and items, the corrected merge is the corrected loop run after the header |
| Roadmap.MergeRoadmapDeduplicated | main.py:254-264 | the copy-and-append loop with the corrected test returns the corrected merge |
| Roadmap.RepeatedItemAppendedOnce | main.py:261-262 | under the corrected test an item given twice is written once |
| Roadmap.NotInExtended | main.py:258-262 | (helper) a line that is neither in the list nor the appended line is not in the extended list |
| Roadmap.BulletNotHeader | main.py:258-262 | no appended line equals the header |
| Roadmap.DedupOfPair | main.py:261-262 | the corrected loop over the same item twice adds its bullet once |
| Roadmap.CleanItem | main.py:295-297 | the tutorial subject is stripped |
| Roadmap.SkipPrefix | main.py:299 | the subject prefix for which no article is requested (definition) |
| Roadmap.Skipped | main.py:299-300 | a subject that is empty or starts with "Modern & Advanced Topics" gets no article (definition) |
| Roadmap.IsArticle | main.py:304 | a generated text is saved when it is non-empty and does not start with "Error:" (definition) |
| Roadmap.CleanBulleted | main.py:295-297 | whitespace, `"- "`, then a stripped subject cleans to that subject |
| Roadmap.BulletLineFacts | main.py:296-297 | `"- "` followed by a non-empty stripped text is stripped, starts with `"- "` and has that text after it |
| Roadmap.CleanItemOfBulletLine | main.py:295-297 | a line that strips to `"- "` plus a stripped text cleans to that text |
| Roadmap.CleanItemOfBullet | main.py:295-297 | a merged `"  - item"` line cleans back to its item |
| Roadmap.CleanItemOfOutlineLine | main.py:295-297 | an outline line cleans back to its section title |
| Roadmap.HeaderIsSkipped | main.py:299-300 | the merge header cleans to "Modern & Advanced Topics (LLM-Enhanced)" and never yields an article |
| Roadmap.HeaderTitleFacts | main.py:299 | the header's title is non-empty, stripped and starts with the skip prefix |
| Roadmap.FileNameChar | main.py:305 | the characters `[\w\s-]` that the file-name filter keeps (definition) |
| Roadmap.KeepFileNameChars | main.py:305 | the filter keeps only word characters, whitespace and `-`, never lengthens, and keeps a string made of those unchanged |
| Roadmap.KeepFileNameCharsOne | main.py:305 | one character is kept exactly when it is a word character, whitespace or `-` |
| Roadmap.KeepFileNameCharsAppend | main.py:305 | the filter works character by character: filtering `a + b` gives the filtered `a` followed by the filtered `b` |
| Roadmap.RemovedCharsDropped | main.py:305 | a string of characters outside `[\w\s-]` is removed entirely |
| Roadmap.StripKeepsFileNameChars | main.py:305 | stripping a filtered string leaves only allowed characters |
| Roadmap.ReplaceSpaces | main.py:305 | after replacing spaces, every character is allowed and none is a space, and every character that was not a space is unchanged |
| Roadmap.FileStem | main.py:305 | the stem has at most 50 characters, all allowed and none a space |
| Roadmap.FileStemUnfold | main.py:305 | (helper) the stem is the filtered, stripped subject with spaces as underscores, cut at 50 characters |
| Roadmap.TutorialFileName | main.py:305 | the file name is a safe stem of at most 50 characters followed by ".md" |
| Roadmap.SafeSubjectIsItsOwnStem | main.py:305 | a subject of at most 50 word characters or `-` is its own stem |
| Roadmap.SameStemSameFile | main.py:305-306 | two different subjects that differ only in removed characters get the same file name, as "Intro to C++" and "Intro to C#" do |
| Roadmap.FilteredSubjectStem | main.py:305 | an allowed, stripped subject followed by removed characters gets as stem the subject with spaces as underscores, cut at 50 characters; "Intro to C++" gets "Intro_to_C" |
| Roadmap.SafeCharNotSpace | main.py:305 | a word character or `-` passes the filter and is not whitespace |
| Roadmap.SafeCharsKept | main.py:305 | the filter keeps a subject of word characters and `-` unchanged |
| Roadmap.SafeCharsStripped | main.py:305 | such a subject has no whitespace at its ends |
| Roadmap.SafeCharsNotReplaced | main.py:305 | such a subject holds no space to replace |
| Roadmap.TutorialFile | main.py:305-309 | a written file: its name and its text (definition) |
| Roadmap.LineFiles | main.py:295-311 | one line yields at most one file, exactly when its subject is not skipped and the generated text is an article, under a safe name |
| Roadmap.TutorialFiles | main.py:294-313 | at most one file per roadmap line, every file name safe |
| Roadmap.PrependFiles | main.py:294-311 | (helper) the files of one line followed by files with safe names all have safe names |
| Roadmap.TutorialFilesAppend | main.py:294 | the files of concatenated roadmaps are concatenated in order |
| Roadmap.TutorialFilesSingle | main.py:294 | a one-line roadmap yields that line's file, if any |
| Roadmap.TutorialFilesStep | main.py:294-311 | one iteration of the loop adds the file of one line |
| Roadmap.WriteTutorial | main.py:295-311 | the body of the loop for one line produces exactly that line's file, if any |
| Roadmap.WriteTutorials | main.py:293-311 | the loop writes the files of the roadmap in order, and the article count equals the number of files written; names may repeat (`Roadmap.SameStemSameFile`), so fewer files may remain on disk |
| Backend.Strings | backend/main.py:84-85 | the strings of an all-strings array, one per element |
| Backend.Encode | backend/main.py:85 | a string list as a JSON array, element by element |
| Backend.IsStringArray | backend/main.py:84 | a JSON list whose elements are all strings (definition) |
| Backend.HasErrorKey | backend/main.py:86 | a JSON object with the key "error" (definition) |
| Backend.StringsOfEncode | backend/main.py:84-85 | decoding an encoded list gives the list back |
| Backend.EncodeOfStrings | backend/main.py:84-85 | encoding the strings of an all-strings array gives the array back |
| Backend.UnexpectedFormat | backend/main.py:90 | the fixed message for a reply of any other shape (definition) |
| Backend.ParseFailure | backend/main.py:94 | the fixed message for a reply that is not JSON (definition) |
| Backend.ConnectFailure | backend/main.py:98 | the fixed message for a failed request (definition) |
| Backend.Fixed | backend/main.py:90-98 | the reply `{"error": message}` for one of the fixed messages (definition) |
| Backend.ToJson | backend/main.py:85-87 | a list becomes an all-strings array; an error becomes an object whose only key is "error" |
| Backend.Classify | backend/main.py:82-94 | an all-strings array passes unchanged; an object with "error" keeps that value; any other value gives the unexpected-format error; unparsable text gives the parse error |
| Backend.StringArrayUnchanged | backend/main.py:84-85 | an all-strings array comes back unchanged, the empty array included |
| Backend.ErrorKeyKept | backend/main.py:86-87 | an object with "error" comes back as `{"error": value}` with all other keys dropped |
| Backend.ClassifyStable | backend/main.py:82-94 | every reply is an all-strings array or a one-key error object, and classifying that reply again gives the same reply |
| Backend.ExistingIntro | backend/main.py:52-55 | the fixed instruction text put between the base prompt and the existing roadmap (definition) |
| Backend.SelectPrompt | backend/main.py:51-57 | an empty existing roadmap gives the base prompt; otherwise base prompt, the fixed instruction text, then the existing roadmap |
| Backend.Respond | backend/main.py:74-98 | a failed request gives the connection error; an answer is classified |
| Backend.MissingKey | backend/main.py:253 | the message of the `ValueError` raised without a key (definition) |
| Backend.MissingApiKey | backend/main.py:17 | `not key`: no key or an empty one (definition) |
| Backend.GetLlmEnhancement | backend/main.py:16-98 | a missing or empty key is exactly the failure case, with the fixed message; otherwise the classified reply to the selected prompt |
| Backend.GenerateLearningRoadmap | backend/main.py:252-265 | a missing or empty key is exactly the case that raises the fixed error |
| Backend.Truthy | backend/main.py:259 | a reply is falsy exactly when it is the empty list; an error object is truthy (definition) |
| Backend.GenerateIsEnhancementOfBasePrompt | backend/main.py:257-265 | with a key, the result is the classified reply to the base prompt itself: the falsy guard changes nothing |
| Backend.ErrorsPassedOn | backend/main.py:259-265 | an error object is truthy and is returned as it is |

## Left out

- Network calls: the requests to the model service and to Google Custom
  Search, and the Wikipedia page lookup. The model takes their outcomes as
  parameters: a section tree, an optional answer, a parse outcome or a
  function from prompt to reply.
- `Google_Search` and `generate_tutorial_article`. Article generation is the
  parameter `generate` of the tutorial loop.
- The prompt templates. The base prompt is a parameter; only the rule that
  selects the backend prompt is modelled.
- `json.loads` itself. `Backend.Json` is the already parsed value, and
  numbers are integers only.
- The reply-envelope lookup `result['choices'][0]['message']['content']`.
  When it fails, the backend raises past the handler; `Backend.Respond`
  assumes a well-formed envelope.
- Exceptions inside `main.py`'s `get_llm_enhancement` (timeout, request
  error, any other error). They all give `[]`, which
  `Roadmap.GetLlmEnhancement` takes as `answer = None`.
- Outline.TokenAt: regex `\w` is taken as ASCII letters, digits and `_`.
  Python's `\w` also matches Unicode letters and digits, so some non-ASCII
  `[token]` marks that Python removes are kept by the model.
- Roadmap.GenerateLearningRoadmapCorrected: not a function of the
  source. It is `generate_learning_roadmap` with the corrected membership
  test (see Findings); `Roadmap.GenerateLearningRoadmap` keeps the test as
  written.
- Roadmap.KeepFileNameChars: the file-name filter uses the same ASCII `\w`
  and Python's whitespace set.
- Roadmap.WriteTutorials: the article count is the number of writes. Two
  subjects can map to one file name (`Roadmap.SameStemSameFile`), and the
  later write replaces the earlier file; the model records every write and
  does not model which files remain in the output directory.
- File system effects: `os.makedirs`, opening and writing the article
  files, and joining the output directory. `Roadmap.TutorialFile` records a
  file's name and text.
- `time.sleep`, `print`, `input`, the timing output, and reading
  configuration from the environment. The API key is a parameter (`hasKey`
  or an optional string).
- Lone surrogates. Python's `str` holds any code point, but a Dafny
  `string` holds only Unicode scalar values, so a title or answer with a
  lone surrogate cannot be represented.
- Repeated remote calls. The article generator `generate` and the model
  call `enhance` are fixed functions, so two roadmap lines with the same
  subject get the same article here, while the program makes a new request
  each time and may get a different answer. No property depends on this.
- `backend/app.py` (a web route) and the `src/` front end are not part of
  this model.

## Findings

| source | as written | input that shows it | evidently intended | confidence | as-written member | corrected member |
|---|---|---|---|---|---|---|
| main.py:260-262 | `if item not in final_roadmap` tests the raw item, but lines are stored as `"  - " + item`, so items already appended are never seen | outline `["- Python"]`, items `["Loops", "Loops"]`: two `"  - Loops"` lines | skip an item whose bulleted line is already present, so no line after the header repeats | not executed | Roadmap.RawItemCheckKeepsDuplicates | Roadmap.MergedDeduplicated |
