# Lyrics to Marp slides, modelled in Dafny

The app takes a song title, an artist, a block of lyrics and a slide count N
between 1 and 50. It produces the source of a Marp presentation: a title
slide, then N lyric slides. To split the lyrics into N parts it first asks a
language-model service. It parses the reply into lines and keeps it only if
it has exactly N parts. Otherwise it uses a deterministic partitioner.

This project models that pipeline from `src/App.tsx`:

- `text.dfy` (module `Text`) writes out the JavaScript string operations the
  pipeline uses:
  - `split` with a non-empty separator, scanning left to right with no overlaps;
  - `join`;
  - `trim`, with the ECMAScript whitespace set that the regular-expression
    class `\s` shares;
  - the ASCII class `\d`;
  - the decimal rendering of a number.
- `fallback.dfy` (module `Fallback`) models `fallbackSplitLyrics`.
  - The functions `Fill` and `Repair` describe the two loops round by round.
    `FallbackSplit` is the whole partition.
  - The method `FallbackSplitLyrics` runs the two loops on an `array<string>`,
    as the source does. It is proved to compute `FallbackSplit`.
  - Lemmas state what the partition guarantees.
- `gemini.dfy` (module `Gemini`) models the reply parser and the count gate of
  `splitLyricsWithGemini`.
  - The service is not called. Its reply is an input `Option<string>`, where
    `None` means the request threw.
  - The start-up probe's outcome is an `ApiStatus`.
- `marp.dfy` (module `Marp`) models the document `generatePPT` assembles: the
  constant front matter, the title slide, and one block per part. The method
  `AssembleMarp` appends the blocks in a loop, as the `forEach` does.
- `app.dfy` (module `App`) models the rest of the page logic:
  - the form state and the change handler with its slide-count clamp;
  - the test that enables the generate button;
  - `generatePPT` as a whole.

Some behaviours of the code are easy to miss; the model states them as the
code has them:

- Kept lines are not trimmed. The filter only drops lines with no
  non-whitespace character; the lines it keeps are used as they are.
- A fallback slide can be empty. The comment at `src/App.tsx:163` says an
  empty slide is filled by splitting the content of the slide before it.
  The repair pass does borrow the last `" / "`-segment of that slide, but the
  segment can itself be empty:
  - `SeparatorAtLyricsEndLeavesEmptySlide` shows this for the lyrics
    `"abc / "` with two slides, which give `["abc", ""]`.
  - The slide it borrows from can also end up empty.
    `SeparatorAtLineStartEmptiesEarlierSlide` shows the line `" / x"` on two
    slides giving `["", "x"]`.
  - `NoSeparatorNoBorrow` proves that no slide is empty when no line
    contains `" / "`.
- An accepted service reply can contain an empty part. A line holding only
  a number, such as `"1."`, passes the blank-line filter, and stripping the
  enumeration then empties it (`NumberOnlyLineGivesEmptyPart`).
- The enumeration pattern also strips numbers that belong to the lyrics.
  A part written as `"99 Luftballons"` is read as `"Luftballons"`
  (`NumberBeforePartIsStripped`, `LeadingNumberIsStripped`). For this reason
  the plain round trip `PlainReplyRoundTrip` only covers parts that do not
  start with a digit.

## Model

| member | source | states |
|---|---|---|
| Text.Split | src/App.tsx:168 | splitting always yields at least one piece |
| Text.SplitPiecesFree | src/App.tsx:168-170 | no piece of a split contains the separator, so the segment a slide borrows is a single segment |
| Text.Join | src/App.tsx:171 | `parts.join(sep)`: the parts in order, one separator between neighbours; its partner lemmas are `JoinSplit` and `SplitJoin` |
| Text.JoinSplit | src/App.tsx:168-171 | joining the pieces of a split with the same separator gives the string back, so splitting a slide and re-joining all but its last segment loses nothing |
| Text.SplitJoin | src/App.tsx:113 | splitting on a one-character separator undoes a join of parts that do not contain it |
| Text.NoNewlineSplit | src/App.tsx:113 | a string without a newline is a single line |
| Text.TrimStart | src/App.tsx:114 | the removed prefix is all whitespace and the rest does not start with whitespace |
| Text.TrimStartAfterBlank | src/App.tsx:114 | a blank run in front of a string that does not start with whitespace is removed exactly |
| Text.TrimEnd | src/App.tsx:114 | the removed suffix is all whitespace and the rest does not end with whitespace |
| Text.Trim | src/App.tsx:114 | `trim` removes leading and then trailing whitespace; `TrimIsTrimmed` and `TrimEmptyIffBlank` state what it guarantees |
| Text.TrimIsTrimmed | src/App.tsx:114 | `trim` gives a string with no whitespace at either end and leaves such a string unchanged |
| Text.TrimEmptyIffBlank | src/App.tsx:147 | `trim` gives the empty string exactly when the string is all whitespace, which is what the truth test of the line filter checks |
| Text.SkipDigits | src/App.tsx:114 | the `\d+` run removed is all digits and what is left does not start with a digit |
| Text.SkipDigitsPrefix | src/App.tsx:114 | the digit run that is skipped is exactly the leading digits |
| Text.NatToString | src/App.tsx:244 | the rendered slide number is a non-empty string of digits with no leading zero |
| Text.DecimalRoundTrip | src/App.tsx:244 | reading the rendered number back gives the number |
| Fallback.KeepNonBlank | src/App.tsx:147 | the filter keeps only lines with content, keeps every such line, and keeps no more lines than it was given |
| Fallback.KeepNonBlankAppend | src/App.tsx:147 | the filter of a concatenation is the filters of its halves in order; with `KeepAllWithContent` and `KeepNoneWhenAllBlank` on one-line lists this fixes the result, repeated lines and order included |
| Fallback.HasContent | src/App.tsx:147 | the truth test `line.trim()`; `TrimEmptyIffBlank` proves it holds exactly for lines that are not all whitespace |
| Fallback.KeepNoneWhenAllBlank | src/App.tsx:147 | when no line has content, nothing is kept |
| Fallback.KeepAllWithContent | src/App.tsx:147 | when every line has content, every line is kept, in order |
| Fallback.NonBlankLines | src/App.tsx:147 | every kept lyric line has non-whitespace content |
| Fallback.Target | src/App.tsx:157 | the target bucket `floor(i*N/K)` is below N, and line 0 goes to bucket 0 |
| Fallback.TargetMonotone | src/App.tsx:156-157 | later lines never go to an earlier bucket |
| Fallback.TargetInjective | src/App.tsx:156-157 | with N >= K, distinct lines go to distinct buckets |
| Fallback.TargetOnto | src/App.tsx:156-157 | with N <= K, every bucket is the target of some line |
| Fallback.Place | src/App.tsx:158-160 | one bucketing round changes only bucket t and keeps the number of buckets |
| Fallback.Fill | src/App.tsx:149-161 | the bucketing loop keeps the array at N entries |
| Fallback.FillBucket | src/App.tsx:156-161 | each bucket is the `" / "`-join of exactly the lines sent to it, in their original order |
| Fallback.FillHit | src/App.tsx:158-160 | a bucket that has received a line is never empty again |
| Fallback.FirstBucketFilled | src/App.tsx:156-161 | after the bucketing loop, bucket 0 is not empty |
| Fallback.FillLaterEmpty | src/App.tsx:156-161 | buckets beyond the target of the last line placed are still empty |
| Fallback.FillWide | src/App.tsx:156-161 | with N >= K, each line is alone in its bucket and the buckets no line maps to are empty |
| Fallback.Repair | src/App.tsx:164-179 | the repair loop keeps the array at N entries |
| Fallback.RepairAt | src/App.tsx:165-178 | one repair round changes at most slide i and slide i-1, keeps the number of slides, and leaves a filled slide alone |
| Fallback.RepairAtKeepsText | src/App.tsx:165-178 | a repair round touches only slide i and slide i-1, and a filled slide is left alone. An empty slide borrows exactly when slide i-1 is filled and splits into more than one `" / "`-segment. It then takes the last segment, which holds no `" / "`, and the two slides joined again give slide i-1 back. In every other case it gets the placeholder and nothing else changes |
| Fallback.RepairFull | src/App.tsx:165 | when no slide is empty, the repair loop changes nothing |
| Fallback.RepairWithoutSeparator | src/App.tsx:164-179 | when no slide contains `" / "`, the repair loop never borrows: every empty slide it passes gets the placeholder and every other slide is kept |
| Fallback.FallbackFromLines | src/App.tsx:148-183 | the partition of the kept lines always has N slides |
| Fallback.FallbackSplit | src/App.tsx:144-183 | `fallbackSplitLyrics` always returns exactly N slides |
| Fallback.PresentAfterPlace | src/App.tsx:158-160 | after a line is placed, the bucket it went to is the last non-empty one |
| Fallback.PlaceKeepsText | src/App.tsx:158-160 | one bucketing round appends the line to the `" / "`-join of the non-empty buckets |
| Fallback.FillKeepsText | src/App.tsx:156-161 | the non-empty buckets joined with `" / "` equal the lines placed so far joined with `" / "`, so no line is lost or reordered |
| Fallback.NarrowKeepsText | src/App.tsx:156-167 | with N <= K, no slide is empty, the repair loop changes nothing, and the slides joined with `" / "` equal the lines joined with `" / "` |
| Fallback.EqualCountFill | src/App.tsx:156-161 | with N = K, bucket i receives line i |
| Fallback.EqualCountKeepsLines | src/App.tsx:144-183 | with N = K, the slides are exactly the kept lines |
| Fallback.NoSeparatorNoBorrow | src/App.tsx:164-179 | when no line contains `" / "`, no slide is empty, every filled bucket is kept, and every empty bucket becomes `"..."` |
| Fallback.WideNoSeparator | src/App.tsx:156-179 | with more slides than lines and no `" / "` in any line, every empty bucket becomes `"..."` and every filled one is kept |
| Fallback.NoLinesIffBlank | src/App.tsx:147 | no line is kept exactly when the lyrics are all whitespace |
| Fallback.BlankLyricsGivePlaceholders | src/App.tsx:151-153 | whitespace-only lyrics give N copies of `"..."` |
| Fallback.ExampleFourLinesTwoSlides | src/App.tsx:156-161 | the lines a, b, c, d on 2 slides give `["a / b", "c / d"]` |
| Fallback.ExampleTwoLinesFourSlides | src/App.tsx:156-179 | the lines a, b on 4 slides give `["a", "...", "b", "..."]` |
| Fallback.SeparatorAtLineEndLeavesEmptySlide | src/App.tsx:166-171 | the line `"abc / "` on 2 slides gives `["abc", ""]`, because the repair pass borrows an empty segment |
| Fallback.SeparatorAtLyricsEndLeavesEmptySlide | src/App.tsx:144-183 | the lyrics `"abc / "` with N = 2 give `["abc", ""]` |
| Fallback.SeparatorAtLineStartEmptiesEarlierSlide | src/App.tsx:166-171 | the line `" / x"` on 2 slides gives `["", "x"]`: the slide that lends its last segment is left empty |
| Fallback.FallbackSplitLyrics | src/App.tsx:144-183 | the array method returns exactly the partition `FallbackSplit` |
| Fallback.DistributeLines | src/App.tsx:155-161 | after the first loop, the array holds the buckets of `Fill` |
| Fallback.RepairEmptySlides | src/App.tsx:163-180 | after the second loop, the array holds `Repair` of what it held before |
| Gemini.CleanPart | src/App.tsx:114 | a cleaned part has no whitespace at either end |
| Gemini.StripEnumeration | src/App.tsx:114 | `replace(/^\d+[.)\-]?\s*/, '')` only removes a prefix; a line not starting with a digit is unchanged; a line starting with a digit gets shorter and the rest does not start with whitespace |
| Gemini.ParseResponse | src/App.tsx:113-114 | the parser gives one trimmed part per non-blank line of the reply |
| Gemini.CleanPlainLine | src/App.tsx:114 | a trimmed line that does not start with a digit is kept as it is |
| Gemini.CleanNumberedLine | src/App.tsx:114 | `k. ` before a trimmed part is stripped again, whatever the part starts with |
| Gemini.EnumerationIsStripped | src/App.tsx:114 | `^\d+[.)\-]?\s*` removes exactly a digit run, an optional `.`, `)` or `-` and the whitespace run after it, for every such prefix in front of text that does not start with whitespace (nor, with no mark and no whitespace, with a digit or a mark) |
| Gemini.StripNumbered | src/App.tsx:114 | `k. ` in front of a trimmed part is stripped: the case of `EnumerationIsStripped` with mark `.` and one space |
| Gemini.NumberedAt | src/App.tsx:113-114 | line j of a numbered reply is `j+1. ` followed by part j |
| Gemini.ParseAllKept | src/App.tsx:113-114 | when every line of a reply has content, each is kept and cleaned |
| Gemini.PlainReplyRoundTrip | src/App.tsx:113-114 | a reply in the format the prompt asks for, one unnumbered part per line, parses back to its parts |
| Gemini.NumberedReplyRoundTrip | src/App.tsx:113-114 | a reply numbered `1. `, `2. `, … parses back to its parts |
| Gemini.NumberedLineClean | src/App.tsx:113-114 | a numbered line passes the filter, holds no newline, and cleans back to its part |
| Gemini.NumberOnlyLineGivesEmptyPart | src/App.tsx:113-114 | a line holding only a number and a `.` passes the blank filter and becomes an empty part |
| Gemini.NumberBeforePartIsStripped | src/App.tsx:114 | digits and a space in front of a trimmed part are stripped, even when they belong to the lyrics |
| Gemini.LeadingNumberIsStripped | src/App.tsx:114 | the part `"99 Luftballons"` is read as `"Luftballons"` |
| Gemini.PartitionLyrics | src/App.tsx:70-141 | there are always N slides; the parsed reply is used exactly when the probe did not fail, the call returned and the count is N; otherwise the deterministic partition is used; the reason given is the first check that failed |
| Gemini.HonouringReplyIsUsed | src/App.tsx:124-129 | a reply with N unnumbered parts, one per line, is used verbatim |
| Gemini.ExtraPartFallsBack | src/App.tsx:124-127 | a reply with one part too many is rejected in favour of the deterministic partition |
| Gemini.SplitLyricsWithGemini | src/App.tsx:70-141 | the method returns the parts `PartitionLyrics` selects, N of them |
| Marp.SlideBlockRoundTrip | src/App.tsx:244-247 | every slide reads back as its number and its part, whatever the part holds |
| Marp.Header | src/App.tsx:200-235 | the initial `marpCode`: front matter, title, artist and the slide break; `HeaderAlone` places each of them |
| Marp.SlideBlock | src/App.tsx:244-247 | the text one `forEach` iteration appends; `SlideBlockRoundTrip` reads its number and part back |
| Marp.Blocks | src/App.tsx:243-248 | the slides for a list of parts, numbered on; `BlocksAppend` and `BlocksSlideAt` state its shape |
| Marp.MarpDocument | src/App.tsx:200-248 | the header followed by the slides; `DocumentSlideAt` places every part in it and `AssembleMarp` builds it |
| Marp.BlocksAppend | src/App.tsx:243-248 | the slides of two lists in a row are the slides of the concatenated list, numbered on |
| Marp.BlocksSlideAt | src/App.tsx:243-248 | the slide for part k sits between the slides of the parts before it and those after it |
| Marp.DocumentSlideAt | src/App.tsx:200-248 | the document is the header, then the slides of parts 0..k-1, then a slide numbered k+1 carrying part k verbatim, then the rest |
| Marp.HeaderAlone | src/App.tsx:200-235 | with no parts, the document is the header; the header starts with the front matter, carries the title verbatim right after it, then `\n## ` and the artist verbatim, and ends with the slide break |
| Marp.AssembleMarp | src/App.tsx:200-248 | the `+=` loop builds exactly `MarpDocument` |
| App.ClampSlides | src/App.tsx:66 | the slide count is always in [1, 50]; in-range values are kept; values below 1 give 1 and values above 50 give 50 |
| App.HandleInputChange | src/App.tsx:62-68 | the edited field takes the new value; a slide-count edit stores `ClampSlides` of the number; the other fields stay |
| App.EditsKeepSlideCountValid | src/App.tsx:62-68 | any sequence of edits keeps the slide count in [1, 50] |
| App.ReachableFormsAreValid | src/App.tsx:28-33 | every form reachable from the initial one has a slide count in [1, 50] |
| App.CanGenerate | src/App.tsx:355 | the button is enabled exactly when no generation is running and title and lyrics are non-empty |
| App.WhitespaceLyricsGeneratePlaceholders | src/App.tsx:355 | whitespace-only lyrics do not disable the button, and the deterministic partition then gives only placeholders |
| App.GeneratePpt | src/App.tsx:192-253 | the code is the Marp document of the title, the artist and the selected parts, and the announced slide count is N + 1 |

## Left out

- The language-model SDK (`testGeminiAPI`, `getGenerativeModel`, `generateContent`) is an external service. Its reply is an input, and the probe's outcome is an `ApiStatus` input.
- The prompt text, `console` logging and `alert` calls are not modelled. The only thing an alert shows that is modelled is the slide count `N + 1`.
- `async`/`await` is not modelled; the calls are sequential.
- React state and hooks, `useEffect`, JSX, the lyrics preview, the clipboard and `setTimeout` are user-interface and browser I/O.
- `setIsGenerating` around `generatePPT` is not modelled. `CanGenerate` takes the flag as a parameter.
- `App.HandleInputChange` takes the slide count already as an integer. `Number(value)` can give a fraction or `NaN`, which the clamp lets through; these are not modelled.
- N = 0 cannot reach the partitioner, because the clamp keeps N >= 1. Every member that takes N requires N >= 1.
- `Fallback.Target` computes `Math.floor((i * N) / K)` exactly on integers. Floating point is not modelled; for any realistic number of lines the floating-point quotient floors to the same integer.
- The whitespace set is the ECMAScript WhiteSpace and LineTerminator code points, as individual characters. Strings are sequences of characters, not UTF-16 code units.
- The `catch` in `generatePPT` is not modelled, because nothing in the modelled code throws.
- The unused `pptxgen` import is not modelled.
