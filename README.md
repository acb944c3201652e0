# Obama or Bush: a verified model of the game's core

"Obama or Bush" is a guessing game. It shows the player a weekly radio address by Barack Obama
or George W. Bush, with the year masked out. The player guesses the speaker. A linear
support-vector classifier (sklearn's `LinearSVC`) over word and part-of-speech n-gram features
makes the same guess.
The page then displays:

- the feature that decided the classifier, highlighted in the text;
- a bar chart of each feature's contribution to that decision, ranked.

This project models the logic of that pipeline and proves properties of it:

- **Data cleaning** (`make_data.py`):
  - the Unicode-to-ASCII substitution and the whitespace normalisation;
  - the two extractors that cut the address out of a scraped page.
- **Model selection and text preprocessing** (`select_model.py`):
  - choosing every model within one standard error of the best score;
  - the digit and punctuation stripping applied to the tokenizer's sentences.
- **Offline pre-rendering** (`helpers/populate_game_database.py`):
  - naming and classifying features;
  - expanding the sparse contribution matrix into table rows;
  - choosing the most decisive feature;
  - locating its occurrences and merging part-of-speech ranges;
  - splicing highlight markers into the text and redacting years;
  - splitting speeches into paragraphs.
- **The server** (`game/game.py`):
  - the `/values/` query: type filter, search, stable sort, 1-based window and magnitude;
  - the two score counters.
- **The page** (`game/static/plot.js`):
  - the rank-window clamp written back into the inputs;
  - the request URL;
  - the "faded" mark on the upper bound.

The model has one module per component:

| module | file | contents |
|---|---|---|
| `Text` | `text.dfy` | the shared string and character operations: ASCII classes, `find`, `split`, `join`, whitespace split |
| `Features` | `features.dfy` | feature types and display names |
| `Contributions` | `contributions.dfy` | the contribution table and `choose_top_feature` |
| `WordMatch` | `word_match.dfy` | the word-mode matcher |
| `RangeMerge` | `range_merge.dfy` | the part-of-speech range sort and merge |
| `Highlight` | `highlight.dfy` | `add_spans` and the paragraph table |
| `Game` | `game.dfy` | `get_values` and `reset` |
| `Cleaning` | `cleaning.dfy` | `translate_from_unicode` and `remove_extra_spaces` |
| `SpeechExtraction` | `speech_extraction.dfy` | the two extractors |
| `ModelSelection` | `select_model.py` logic, in `select_model.dfy` | selection and preprocessing |
| `Plot` | `plot.dfy` | the page's control logic |

Modelling conventions:

- Regular expressions become explicit scanners. Each scanner follows Python's left-to-right,
  non-overlapping search.
- Floating-point values become `real`. Only comparison, multiplication and absolute value
  matter to the logic modelled.
- Operations that work by changing things step by step are methods:
  - the loops of the two extractors;
  - the dictionary loops;
  - the contribution-row accumulation;
  - the merge and splice loops;
  - the in-place sort of `get_values`;
  - the counters;
  - the page controls.

  Most of these methods are proved equal to a specification function, and the properties are
  proved about that function. The counters (`Game.Scoreboard.Record`) and the page controls
  (`Plot.Controls.InputHandler`, `Plot.Controls.UpdateGraph`) instead state their new fields
  directly in their postconditions.
- Python's `None` and the exceptions the source lets escape become `Option`, `Result` or
  `Extracted` values.

## Model

| member | source | states |
|---|---|---|
| Text.ToLower | game/game.py:99 | ASCII case folding keeps letters letters, never yields an upper-case letter, and fixes lower-case letters and non-letters (the IGNORECASE flag of the searches) |
| Text.JoinSplit | helpers/populate_game_database.py:233 | joining the pieces of a split with the same separator gives back the string |
| Text.SplitPiecesFree | helpers/populate_game_database.py:233 | no piece of a split contains the separator |
| Text.SplitJoin | helpers/populate_game_database.py:233 | splitting a join gives back the parts when no part holds the separator's first character |
| Text.Words | make_data.py:106 | every piece of `str.split()` is a non-empty string without whitespace |
| Features.PrettyWordIsWord | helpers/populate_game_database.py:69-70 | every name built by create_pretty_word classifies as a word feature |
| Features.InterceptNameIsIntercept | helpers/populate_game_database.py:93-98 | "FIXED INTERCEPT" classifies as the intercept |
| Features.CreatePrettyPosPairs | helpers/populate_game_database.py:25-67 | the method computes the display name of a POS pair with the source's tag dictionary, in the source's order |
| Features.SubstituteTags | helpers/populate_game_database.py:63-66 | the dictionary loop applies every entry's substitution in order |
| Features.PosDictWellFormed | helpers/populate_game_database.py:26-61 | the tag dictionary's keys are upper-case tags; each value holds a lower-case letter, has a lower-case letter after every space, and holds no bracket, comma or colon ("Wh-adverb" starts with a capital) |
| Features.TranslateBracketed | helpers/populate_game_database.py:62-66 | for any iteration order of a well-formed dictionary, a bracketed pair has its first and last tag replaced by their dictionary values, an unknown tag passing through |
| Features.TwoTagPair | helpers/populate_game_database.py:62-67 | "A B" becomes "POS Pair: (d(A), d(B))", where a tag the dictionary lacks stays as it is |
| Features.ThreeTagPair | helpers/populate_game_database.py:62-67 | in "A B C" the middle tag is never translated; the outer tags are |
| Features.MiddleTag | helpers/populate_game_database.py:65 | a raw middle tag with its separators contains no bracket, so neither lookaround can match inside it |
| Features.PrettyPosPairIsPos | helpers/populate_game_database.py:93-98 | every pretty POS pair built from a pair without a colon classifies as a POS feature |
| Contributions.NonzeroIndices | helpers/populate_game_database.py:136 | the column indices of the nonzero entries, ascending, and every nonzero column is listed |
| Contributions.DocBlocks | helpers/populate_game_database.py:133-138 | one block of rows per document |
| Contributions.ExpandContribs | helpers/populate_game_database.py:131-138 | the accumulation loop builds each document's rows, document after document |
| Contributions.DocRowsShape | helpers/populate_game_database.py:133-138 | a document contributes one row per nonzero (value × coefficient), in column order, each with that value, then exactly one intercept row; so nonzeros + 1 rows |
| Contributions.DocRowsIds | helpers/populate_game_database.py:134-137 | every row of a document carries its speech id |
| Contributions.SingleInterceptRow | helpers/populate_game_database.py:137-144 | when no selected feature's name classifies as an intercept, the last row of a document is its only intercept row |
| Contributions.RowsOfMembers | helpers/populate_game_database.py:161 | selecting a speech's rows keeps exactly the rows with that id |
| Contributions.TableRowsOf | helpers/populate_game_database.py:131-138 | with distinct speech ids, a speech's rows in the whole table are exactly that document's rows |
| Contributions.TableRowsOfMissing | helpers/populate_game_database.py:131-138 | an id that no document has selects no rows |
| Contributions.Candidates | helpers/populate_game_database.py:161-162 | the candidates are exactly the speech's non-intercept rows |
| Contributions.Extreme | helpers/populate_game_database.py:163-169 | the row a sort by value puts first is a candidate that no candidate sorts before |
| Contributions.ChooseTopFeature | helpers/populate_game_database.py:159-169 | None exactly when the speech has no non-intercept row (the failing `[0]`); otherwise the name and type of a non-intercept row with the largest value when predicted, the smallest otherwise; never the intercept |
| WordMatch.SpansFromSound | helpers/populate_game_database.py:207-210 | every reported span holds the word, ignoring case, flanked by a non-letter or the string boundary on both sides |
| WordMatch.SpansFromGap | helpers/populate_game_database.py:207-210 | consecutive spans are ascending and at least two characters apart, so they never overlap |
| WordMatch.SpansFromNotAtStart | helpers/populate_game_database.py:207-210 | a search resumed after index 0 reports no span at the resumption point itself |
| WordMatch.SpansFromComplete | helpers/populate_game_database.py:207-210 | every reachable flanked occurrence is reported or lies in the stretch a reported match consumed |
| WordMatch.WordSpansExact | helpers/populate_game_database.py:207-210 | a span is reported exactly when it is a flanked occurrence that no reported match consumed |
| WordMatch.GapNotShadowed | helpers/populate_game_database.py:209-210 | in spans with gaps, no span's start is consumed by another span |
| WordMatch.AscendingSpans | helpers/populate_game_database.py:209-210 | the gaps between neighbouring spans extend to any two spans |
| WordMatch.ConsumedBoundary | helpers/populate_game_database.py:207-210 | in "tax tax" only the first occurrence is reported, although the second is flanked: the match consumed the space |
| RangeMerge.Insert | helpers/populate_game_database.py:199 | insertion adds exactly one range |
| RangeMerge.InsertSorted | helpers/populate_game_database.py:199 | inserting into sorted ranges keeps them sorted |
| RangeMerge.SortRanges | helpers/populate_game_database.py:199 | `list.sort()` on pairs: lexicographically sorted and a permutation of the input |
| RangeMerge.SortSorted | helpers/populate_game_database.py:199 | sorting sorted ranges changes nothing |
| RangeMerge.SortWellFormed | helpers/populate_game_database.py:199 | sorting keeps every range's start at most its end |
| RangeMerge.MergeRanges | helpers/populate_game_database.py:198-204 | the sort and merge loop as written |
| RangeMerge.MergeLoop | helpers/populate_game_database.py:200-204 | the loop as written takes each range through one merge step, in order |
| RangeMerge.MergeInto | helpers/populate_game_database.py:201-204 | a range starting strictly before the last output range's end overwrites that end; any other range is appended |
| RangeMerge.MergeAllSeparated | helpers/populate_game_database.py:198-204 | the merge as written still yields separated ranges, touching allowed |
| RangeMerge.NestedRangeTruncated | helpers/populate_game_database.py:201-202 | a range nested strictly inside its predecessor truncates the merged range, which then misses a covered position |
| RangeMerge.MergeSpans | helpers/populate_game_database.py:198-204 | the sort followed by the corrected merge, which keeps the larger end |
| RangeMerge.MergeLoopMax | helpers/populate_game_database.py:200-204 | the corrected loop takes each range through one corrected step, in order |
| RangeMerge.MergeIntoMax | helpers/populate_game_database.py:201-204 | the corrected step widens the last output range to the larger end, or appends |
| RangeMerge.MergeAllMaxCorrect | helpers/populate_game_database.py:198-204 | the corrected merge of sorted ranges yields separated ranges covering exactly the positions the input covers |
| RangeMerge.SeparatedSorted | helpers/populate_game_database.py:198-204 | separated output ranges are sorted |
| RangeMerge.MergeAllKeepsSeparated | helpers/populate_game_database.py:200-204 | the merge as written leaves separated ranges as they are: touching ranges stay apart |
| RangeMerge.MergeRangesSeparated | helpers/populate_game_database.py:198-204 | sorting and merging separated ranges as written changes nothing |
| RangeMerge.MergeRangesIdempotent | helpers/populate_game_database.py:198-204 | the sort and merge as written is idempotent |
| RangeMerge.MergeAllMaxSeparated | helpers/populate_game_database.py:200-204 | corrected merge: merging separated ranges changes nothing |
| RangeMerge.MergeSpansIdempotent | helpers/populate_game_database.py:198-204 | corrected merge: sorting and merging is idempotent |
| RangeMerge.MergeAllAgrees | helpers/populate_game_database.py:201-202 | where no range ends before an earlier one, the merge as written and the corrected merge agree |
| RangeMerge.MergeSpansSeparated | helpers/populate_game_database.py:198-204 | corrected merge: sorting and merging separated ranges changes nothing |
| RangeMerge.TouchingKeptApart | helpers/populate_game_database.py:201 | the merge as written keeps two touching ranges separate, since it joins only on a strictly earlier start |
| RangeMerge.TouchingKeptApartMax | helpers/populate_game_database.py:201 | corrected merge: two touching ranges stay separate |
| Highlight.ChainOrdered | helpers/populate_game_database.py:212-221 | the splice loop's precondition (descending spans inside the text) is the same as ascending, non-overlapping spans |
| Highlight.ChainSuffix | helpers/populate_game_database.py:212-221 | the spans after any prefix still form a chain |
| Highlight.RenderLength | helpers/populate_game_database.py:214-221 | each span adds exactly one marker pair's length |
| Highlight.RenderShift | helpers/populate_game_database.py:212-221 | moving the start of a rendering forward over plain text prepends that text |
| Highlight.Splice | helpers/populate_game_database.py:212-221 | the splice from the last span to the first gives the text with every span wrapped in a marker pair |
| Highlight.SpliceStep | helpers/populate_game_database.py:213-221 | one splice step wraps the current span in front of the rendering of the later spans |
| Highlight.StripRender | helpers/populate_game_database.py:212-221 | deleting every marker from the rendering gives back the text, when the text holds no `<` |
| Highlight.RenderWraps | helpers/populate_game_database.py:212-221 | each span's original text sits between one marker pair, shifted by the markers of the earlier spans |
| Highlight.InYearCases | helpers/populate_game_database.py:222-223 | a position lies in a redactable year exactly when a year starts at one of the four places that cover it |
| Highlight.YearsApart | helpers/populate_game_database.py:222-223 | year matches never overlap |
| Highlight.RedactPointwise | helpers/populate_game_database.py:222-223 | redaction keeps the length and masks exactly the characters of redactable years with `*`, each other character kept |
| Highlight.YearMasked | helpers/populate_game_database.py:222-223 | every character of a redactable year is masked |
| Highlight.RedactLeavesNoYear | helpers/populate_game_database.py:222-223 | no redactable year is left after redaction |
| Highlight.RedactIdempotent | helpers/populate_game_database.py:222-223 | redacting twice is redacting once |
| Highlight.RedactSpacedYear | helpers/populate_game_database.py:222-223 | a year between spaces is redacted |
| Highlight.RedactLeadingYear | helpers/populate_game_database.py:222-223 | a year at the start of the text has no character before it and is kept |
| Highlight.RedactOtherYear | helpers/populate_game_database.py:222-223 | a year outside 2000 to 2019 is kept |
| Highlight.RedactYearInWord | helpers/populate_game_database.py:222-223 | the lookarounds accept letters, so a year inside a word is redacted |
| Highlight.MergeWithin | helpers/populate_game_database.py:198-204 | every range the merge as written yields starts at an input start and ends at an input end, so ranges inside the text stay inside it |
| Highlight.MergeWithinMax | helpers/populate_game_database.py:198-204 | corrected merge: ranges inside the text stay inside it |
| Highlight.HighlightSpansChain | helpers/populate_game_database.py:198-212 | the spans of either mode, ordered merged ranges or word matches, satisfy the splice loop's precondition |
| Highlight.MergedOrdered | helpers/populate_game_database.py:198-204 | part-of-speech ranges inside the text, sorted and merged as written, are ascending and non-overlapping |
| Highlight.MergedOrderedMax | helpers/populate_game_database.py:198-204 | corrected merge: the same ranges sorted and merged are ascending and non-overlapping |
| Highlight.WordSpansOrdered | helpers/populate_game_database.py:207-210 | word spans are ascending and non-overlapping |
| Highlight.TopFeatureNamed | helpers/populate_game_database.py:159-169 | the chosen feature's name is never empty when no row's name is |
| Highlight.AddSpans | helpers/populate_game_database.py:174-223 | None exactly when no top feature exists; otherwise the redacted rendering of the text with the chosen feature's spans highlighted, part-of-speech ranges sorted and merged as written |
| Highlight.AddSpansCorrected | helpers/populate_game_database.py:174-223 | the same outcome with the corrected merge, whose output covers exactly the positions the part-of-speech ranges cover (`RangeMerge.MergeAllMaxCorrect`) |
| Highlight.MarkFeature | helpers/populate_game_database.py:207-223 | for a chosen feature, the splice of its spans followed by year redaction |
| Highlight.SpeechParagraphsFaithful | helpers/populate_game_database.py:233-236 | a speech's paragraphs joined by blank lines give it back, are numbered from 0, carry its id and hold no blank line |
| Highlight.ParagraphTableSize | helpers/populate_game_database.py:233-236 | every speech contributes at least one paragraph row |
| Game.TypeFilter | game/game.py:83-96 | an unknown type is a lookup failure; 'all' admits every row type, intercept included; 'word' and 'pos' admit only their own |
| Game.ContribResultsMembers | game/game.py:88-92 | the contribution SELECT keeps exactly the speech's rows of an admitted type |
| Game.CoefResultsMembers | game/game.py:93-96 | the coefficient SELECT keeps exactly the rows of an admitted type |
| Game.LastFieldFacts | game/game.py:99 | the text after the last colon holds no colon; a name without a colon is searched whole |
| Game.EmptySearchMatches | game/game.py:98-99 | the empty search matches every name |
| Game.FieldMatchesItself | game/game.py:98-99 | the last field matches a search for itself in any case |
| Game.SearchedMembers | game/game.py:98-99 | the search keeps exactly the pairs whose last field contains the search text, ignoring case |
| Game.EmptySearchKeepsAll | game/game.py:98-99 | the empty search keeps every pair, in order |
| Game.InsertByPermutes | game/game.py:111 | an insertion adds exactly the pair inserted |
| Game.SortByPermutes | game/game.py:111 | the sort keeps exactly the pairs it is given |
| Game.InsertBySorted | game/game.py:111 | inserting into sorted pairs keeps them sorted |
| Game.SortBySorted | game/game.py:101-111 | the sort orders pairs by the key of the order, `abs(value)` or value, descending or ascending |
| Game.SortByStable | game/game.py:111 | the sort is stable: the pairs with any one key keep their order |
| Game.SortPairs | game/game.py:111 | the in-place insertion sort leaves the array holding the stable sort of its old contents |
| Game.InsertLast | game/game.py:111 | one pass moves the element left past the elements it strictly precedes, the rest untouched |
| Game.WindowPositions | game/game.py:112 | the window holds the pairs at 1-based positions lower..upper that exist, in order, at most upper − lower + 1 of them, and none when lower exceeds the count |
| Game.MaxAbs | game/game.py:119-120 | the largest absolute value of a non-empty list, attained by one of its elements |
| Game.MagFacts | game/game.py:119-122 | the magnitude bounds every absolute value, is attained, is at least 0, and is 1 for an empty list |
| Game.GetValues | game/game.py:74-122 | the server's steps compute the query response or its lookup failure |
| Game.QueryErrors | game/game.py:89-111 | an unknown type or order is a lookup failure, the type looked up first, and the query succeeds exactly when both are known |
| Game.QueryResponse | game/game.py:112-122 | names and values are index-aligned windows of the sorted candidates, at most the window's width, bounded by the magnitude, with magnitude 1 when empty |
| Game.ContribCandidates | game/game.py:88-111 | for the contribution table the candidates are sorted and are exactly the matching speech rows of an admitted type |
| Game.CoefCandidates | game/game.py:93-111 | any other table name reads the coefficient table: the candidates are its matching rows of an admitted type, sorted |
| Game.DescValExample | game/game.py:101-122 | values 5, −4, 3, −2, 1 in descending value order give window 1..2 as [5, 3]; a window past the end is empty with magnitude 1 |
| Game.DescValSorted | game/game.py:111 | the descending-value sort of 5, −4, 3, −2, 1 is 5, 3, 1, −2, −4 |
| Game.EqualMagnitudesKeepOrder | game/game.py:101-111 | values 2 and −2 keep their order under a magnitude sort |
| Game.Scoreboard.constructor | game/game.py:36-37 | both counters start at zero |
| Game.Scoreboard.Record | game/game.py:49-53 | each round adds one to the total, and one to the correct count exactly when prediction and observation agree; the correct count never exceeds the total |
| Game.NumContributorsCount | game/game.py:55-56 | a speech has one contributor row per nonzero contribution plus its intercept row, and an unknown speech none |
| Cleaning.TranslateCharClean | make_data.py:91-98 | no replacement text holds a mapped code point; an unmapped character is kept |
| Cleaning.TranslatedClean | make_data.py:90-103 | no mapped code point survives the translation |
| Cleaning.TranslatedPlain | make_data.py:90-103 | text without mapped code points is left as it is |
| Cleaning.TranslatedKeeps | make_data.py:90-103 | every unmapped character of the text survives |
| Cleaning.TranslatedIdempotent | make_data.py:90-103 | translating twice is translating once |
| Cleaning.SourceVocabFor | make_data.py:91-98 | the source's dictionary lists every mapped code point under its replacement |
| Cleaning.LookupFlat | make_data.py:100-102 | whatever the dictionary's iteration order, after all entries each character has become its translation |
| Cleaning.MapWithFlat | make_data.py:100-102 | the replacements of all entries, in any order, give the translation |
| Cleaning.TranslateFromUnicode | make_data.py:90-103 | the nested replacement loop computes the translation, for any iteration order of the dictionary, and leaves no mapped code point |
| Cleaning.ReplaceCodes | make_data.py:101-102 | the inner loop replaces each code of one entry by the entry's text |
| Cleaning.WordsJoin | make_data.py:105-106 | splitting words joined by single spaces gives back the words |
| Cleaning.RemoveExtraSpacesWords | make_data.py:105-106 | normalising keeps the words, in order |
| Cleaning.RemoveExtraSpacesIdempotent | make_data.py:105-106 | normalising is idempotent |
| Cleaning.RemoveExtraSpacesKeeps | make_data.py:105-106 | every non-whitespace character is kept |
| Cleaning.JoinNormalised | make_data.py:106 | words joined by single spaces are normalised |
| Cleaning.RemoveExtraSpacesNormalised | make_data.py:105-106 | no leading or trailing whitespace, no two whitespace characters in a row, and empty exactly when the text has no word |
| SpeechExtraction.LetterKept | make_data.py:123-125 | a line with a letter keeps a letter after normalisation |
| SpeechExtraction.KeptLinesMembers | make_data.py:123-125 | the kept lines are exactly the normalisations of the lines with a letter, and each holds a letter and is normalised |
| SpeechExtraction.ParagraphsOf | make_data.py:143 | the speech's paragraphs are the lines joined |
| SpeechExtraction.FirstRemarks | make_data.py:128-130 | the scan stops at the first line mentioning "Remarks", or the end |
| SpeechExtraction.FirstLong | make_data.py:134-136 | the scan stops at the first line of at least n words, every line passed being shorter |
| SpeechExtraction.FirstLongFound | make_data.py:134-140 | the scan finds a line exactly when some later line is long enough |
| SpeechExtraction.SkipHeader | make_data.py:127-136 | the two scanning loops stop where the speech starts |
| SpeechExtraction.ExtractObamaSpeech | make_data.py:108-143 | the extraction's steps compute the extracted speech |
| SpeechExtraction.ObamaNone | make_data.py:110-140 | None exactly when the content is missing or empty, a wrong speaker occurs before the first "# ", no line mentions "Remarks", or no line after it has 10 words |
| SpeechExtraction.ObamaFound | make_data.py:123-143 | a found speech starts at the first line of at least 10 words after the first "Remarks" line; its paragraphs are that line and all later lines in order, each with a letter and normalised |
| SpeechExtraction.TranslatedLetter | make_data.py:151-153 | a letter survives the translation |
| SpeechExtraction.BushLinesShape | make_data.py:151-153 | the Bush lines each have a letter and are normalised, and there are no more of them than paragraphs |
| SpeechExtraction.SpaceRun | make_data.py:158 | the run of spaces ` *` consumes |
| SpeechExtraction.MarkerAt | make_data.py:158 | the label pattern matches exactly where "PRESIDENT:" or "BUSH:" occurs, consuming the spaces after it |
| SpeechExtraction.FindMarker | make_data.py:158 | the leftmost match of the label pattern |
| SpeechExtraction.MarkerFound | make_data.py:158 | the pattern matches exactly when one of the labels occurs |
| SpeechExtraction.SecondPieceClean | make_data.py:158 | the piece after the first label holds neither label and does not start with a space |
| SpeechExtraction.FirstParagraph | make_data.py:163-166 | the fallback loop finds the first line of at least 15 words; it fails (the IndexError) exactly when every line is shorter |
| SpeechExtraction.StopBoundary | make_data.py:169 | the index just after the last sentence stop before a position |
| SpeechExtraction.EndCut | make_data.py:169 | the cut at the end pattern is a prefix of the text |
| SpeechExtraction.EndCutLeftmost | make_data.py:169 | the cut is where the leftmost match of `[^.!?]*END` starts, or the whole text when nothing matches; it never holds "END" |
| SpeechExtraction.ExtractBushSpeech | make_data.py:145-176 | the extraction's steps compute the extracted speech |
| SpeechExtraction.FinishFacts | make_data.py:169-176 | the final steps never fail; a kept speech is a prefix of the chunk naming neither Laura Bush nor "END"; None exactly when the cut names Laura Bush |
| SpeechExtraction.ChunkFacts | make_data.py:156-166 | after a label the chunk is the text after the first label and holds no label; without one, the fallback fails exactly when every line is short and otherwise starts at the first long line |
| SpeechExtraction.BushOutcomes | make_data.py:145-176 | no paragraphs give None; the IndexError happens exactly when there is no label and no line of 15 words; a speech is a prefix of the chunk without "Laura Bush" or "END" |
| SpeechExtraction.BushLabelled | make_data.py:156-159 | with a label present, the speech holds no label |
| ModelSelection.BestScore | select_model.py:168 | the largest score, attained by some result |
| ModelSelection.AtScore | select_model.py:169-170 | exactly the results at a score |
| ModelSelection.LeastSem | select_model.py:169-170 | the least standard error, attained by some result |
| ModelSelection.AtLeastFacts | select_model.py:171-172 | the filter keeps exactly the results at or above the threshold, in order |
| ModelSelection.MarginFacts | select_model.py:169-170 | the margin is the least standard error among the results at the best score |
| ModelSelection.SelectModelsFacts | select_model.py:167-172 | empty input fails; otherwise the kept results are an order-preserving sublist, kept exactly when their score is at least best − SE, and every best result is kept |
| ModelSelection.SelectModelsNonempty | select_model.py:167-172 | the selection is never empty when no standard error is negative |
| ModelSelection.Interior | select_model.py:22 | `sentences[1:-1]`: the sentences between the first and the last, none when there are at most two |
| ModelSelection.StripDigitsFacts | select_model.py:23 | no digit is left, every other character is kept in order, and the length drops by the number of digits |
| ModelSelection.StripDigitsPlain | select_model.py:23 | text without digits is left alone |
| ModelSelection.StripDigitsIdempotent | select_model.py:23 | stripping twice is stripping once |
| ModelSelection.ProcessSpeechFacts | select_model.py:20-23 | the processed speech has no digit and keeps the other characters of the interior sentences, in order; it is empty for at most two sentences |
| ModelSelection.WithoutNoneFacts | select_model.py:30-31 | the filter keeps exactly the sentences without "NONE", in order |
| ModelSelection.TaggedSentencesFacts | select_model.py:29-31 | the sentences kept are the interior ones without a tagging error, in order |
| ModelSelection.MarkRun | select_model.py:31 | the greedy run of `[^a-zA-Z ]+` |
| ModelSelection.StripMarksHead | select_model.py:31 | text not starting with a mark does not start with one after the substitution |
| ModelSelection.StripMarksClean | select_model.py:31 | after the substitution no space is followed by a mark |
| ModelSelection.StripMarksPlain | select_model.py:31 | text where no space precedes a mark is left alone |
| ModelSelection.StripMarksIdempotent | select_model.py:31 | the substitution is idempotent |
| ModelSelection.StripMarksLetters | select_model.py:31 | the substitution deletes no letter |
| ModelSelection.ProcessPosFacts | select_model.py:27-31 | the processed tags have no space followed by a mark, keep every letter of the kept sentences, and are empty for at most two sentences |
| Plot.ClampBounds | game/static/plot.js:65-66 | with at least one rank, the clamped window satisfies 1 ≤ lower ≤ upper ≤ maxUpper |
| Plot.ClampIdempotent | game/static/plot.js:65-69 | a window within bounds is returned unchanged, so clamping twice is clamping once |
| Plot.ClampSymmetric | game/static/plot.js:65-66 | swapping the two inputs gives the same window |
| Plot.NatText | game/static/plot.js:82-83 | a number's decimal text is non-empty digits |
| Plot.NatTextValue | game/static/plot.js:82-83 | reading a number's decimal text back gives the number |
| Plot.Fields | game/static/plot.js:77-83 | one `key=value` field per key, in order |
| Plot.ValuesUrlRoundTrip | game/static/plot.js:76-84 | the URL is "/values?" followed by the seven fields; split back at "&" and "=", it yields each key with its value, in order, when no text field holds "&", "=", "#", "+" or "%" |
| Plot.Controls.constructor | game/static/plot.js:52-56 | the page starts with its inputs as given and the bound not faded |
| Plot.Controls.InputHandler | game/static/plot.js:64-84 | the window is clamped and written back into the inputs, the other inputs are kept, the request is built from the clamped window, and whenever the largest rank is at least 1 the window ends up clamped (`WindowClamped`) |
| Plot.Controls.UpdateGraph | game/static/plot.js:97-101 | the upper bound is faded exactly when the window is at least as wide as the number of values, nothing else changes, so a clamped window stays clamped |
| Plot.FadedMeansExhausted | game/static/plot.js:97-101 | for a window the clamp produced, the upper bound fades exactly when the list of candidates ended before the window's upper bound |

## Left out

- Scraping the two presidential libraries and storing the results is not part of this model.
  That covers `get_obama_speeches`, `get_bush_speeches` and `download_process_store`. It is
  network and HTML-parser I/O.
- The extractors take as parameters the page content (Obama) and the paragraph texts (Bush) that
  the scraper would pass. A Bush page without a transcript, which the scraper passes as `None`,
  is passed to `SpeechExtraction.ExtractBushSpeech` as `[]`. The source's `if not paragraphs`
  treats both alike, and `BushSpeech` returns `NoSpeech` for `[]`.
- The sklearn, MOE and joblib work is not part of this model:
  - model creation, scoring and the hyperparameter search;
  - `get_features`;
  - `helpers/modeler.py`.

  They are foreign library calls. The classifier and parameters in a search result are named by
  a number. The feature values, coefficients, intercept and selected feature names are
  parameters of `Contributions.ExpandContribs`.
- The NLTK sentence tokenizer, part-of-speech tagger and word tokenizer are left out, and so are
  `dateutil` date parsing, `strip_greetings` and `translate_to_pos`. Each is a foreign library
  call or a wrapper around one. The tokenizer's sentences are parameters of
  `ModelSelection.ProcessSpeech` and `ModelSelection.ProcessPos`. The ranges the part-of-speech
  bigram search finds are a parameter of `Highlight.AddSpans`. That search interpolates tokens
  into a regex unescaped, so regex metacharacters are out of scope.
- Rounding is left out: `round(value, 7)` in the response, `round_to_int`, and the statistics
  `compute_SEM` and `objective`. It is floating-point work. Values are exact reals.
- ModelSelection.SelectModelsFacts: the promise that every best result is kept is stated only
  when every standard error is non-negative. `compute_SEM` is left out, and only it makes that
  so.
- ModelSelection.SelectModelsNonempty: it requires non-negative standard errors, for the same
  reason.
- SQL, Flask and pandas are left out: query execution, persistence, routing, templates, the
  pandas merge and data frames. The tables are sequences of rows, and a SELECT returns its rows
  in table order. `np.random.choice` is left out too: the speech is a parameter.
- Game.Query and Game.GetValues:
  - they take the request's arguments already read and converted;
  - `request.args` defaults and `int()` parsing are left out;
  - they require `lower >= 1` and `upper >= 0`, since Python's negative slices are not modelled.
- WordMatch.WordSpans: the feature word is matched literally. The source interpolates it into
  the pattern unescaped, so regex metacharacters in a word are out of scope.
- Game.Matches: the search is a regex in the source. It is modelled as a literal substring
  search, ignoring case.
- Contributions.ChooseTopFeature picks the first extreme row in table order. The source's pandas
  sort is not stable, so among rows with equal values it may pick another.
- Thread safety of the two global counters is left out. `Game.Scoreboard` updates them one round
  at a time.
- `str(text)` failing on remaining non-ASCII characters is left out. It is Python 2 encoding
  behaviour. Characters are Dafny `char`s and nothing is encoded.
- Plot: left out.
  - d3 and SVG drawing, and DOM event wiring, are left out. The inputs are fields of
    `Plot.Controls`.
  - JavaScript's number coercion of input values (including NaN) is left out. The clamp works on
    integers.
  - The request's transport, and the response's JSON parsing, are left out. `UpdateGraph` takes
    the values received.
  - URL escaping is not modelled, because the page applies none. The server's unquoting of the
    query (`+` read as a space, `%XX` decoded) and the browser's cut of the URL at a `#` are
    left out too. `Plot.ValuesUrlRoundTrip` is therefore stated only for text fields without
    "&", "=", "#", "+" or "%": for such text those steps change nothing.
- Dictionary iteration order is left out. Python 2 iterates a dictionary in an order of its own.
  Both dictionary loops are modelled for an arbitrary order:
  - `Cleaning.TranslateFromUnicode` is proved to give the same result for every listing of the
    vocabulary;
  - `Features.TranslateBracketed` holds for every order of a well-formed tag dictionary.

  `Features.CreatePrettyPosPairs` fixes the order the source lists the dictionary in.
- Python 2 `str.splitlines` is modelled as a split on "\n".
  - The chunk has already been translated, so every carriage return is a space by then.
  - The empty pieces a split yields are dropped by the letter filter, as empty lines are.
- SpeechExtraction.BushLines: the per-paragraph `translate_from_unicode` is the function
  `Cleaning.Translated`, which `Cleaning.TranslateFromUnicode` is proved to compute.
- Highlight.StripRender: the round trip is stated only for text without `<`. Text holding a
  marker's own characters could lose them when the markers are deleted.
- Two behaviours of the code worth noting:
  - The year pattern's lookarounds accept any non-digit, letters included, so "item2015item" is
    redacted (`Highlight.RedactYearInWord`).
  - A table name other than "contribs" reads the `coefs` table rather than failing
    (`Game.CoefCandidates`).

## Findings

| source | as written | input that shows it | evidently intended | confidence | as-written member | corrected member |
|---|---|---|---|---|---|---|
| helpers/populate_game_database.py:201-202 | a range that starts before the last merged range's end overwrites that end with its own | ranges (0, 10) and (2, 5): the merge yields (0, 5), and position 5, covered by (0, 10), is no longer highlighted | the merged range keeps the larger of the two ends, so the output covers exactly the positions the input ranges cover | not executed | RangeMerge.NestedRangeTruncated | RangeMerge.MergeAllMaxCorrect |

`RangeMerge.MergeRanges` models the loop as written, and `Highlight.AddSpans` uses it, so a
nested range truncates the highlight there too. `RangeMerge.MergeSpans` is the corrected loop;
`Highlight.AddSpansCorrected` uses it.
