# The edit algebra of the GrammarForge correction bridge

A correction is a list of byte-span edits `(start, end, replacement)`. The bridge produces such
lists from a language model's rewritten text, from tagged tokens and from rule engines; it votes
on them, merges them, translates them between texts, shifts them, de-duplicates them and finally
applies them from the last to the first. That last step is only right if the surviving list is
what each stage meant it to be. This project models those stages and proves that it is.

Texts are sequences of bytes (of runes in the mid-word case repair, of UTF-16 code units in the
terminal client), offsets are unbounded integers, confidences are reals. Foreign parts are
arbitrary functions or values: the language model, GECToR inference, Harper, the sentence
tokenizer, the diff (any script of equal, delete and insert operations that spells both texts),
the semantic verifier, Unicode tables, the grapheme segmenter and its widths. Map ranges,
goroutine completion and interleaved calls are nondeterministic choices or step sequences.

| file | what it models |
|---|---|
| Edits, Sorting, Utf8 | spans, suggestions, ordered lists, application, stable sort, rune decoding |
| Diff, Vote, Finalize | edit script to suggestions, the N-best quorum vote, sort and de-duplicate |
| Routing, Words, Service | greedy merge, corrector goroutines, word zones, every branch of one correction |
| Remap, Passes, Decode | applying a GECToR pass and translating back, the pass loop, decoding tagged tokens |
| Segments, SentenceCache, Reassembly, WholeText | sentences, the content-keyed cache, shifting, the whole request |
| CaseRepair, Dialect | text repairs by token alignment and by whole-word splicing |
| Breaker | circuit breaker, interleaved calls, retry loop |
| EditDistance, Loanword, Utf16, Display, Wrap | the evaluation oracle, the loanword fixpoint, UTF-16 matches, terminal offsets and word wrap |

The results build on one notion, `Edits.Ordered` (each span ends no later than the next begins),
under which last-to-first application is simultaneous replacement. `Diff.DiffRoundTrip`,
`Vote.MajoritySeparated`, `Service.CorrectOnceSound`, `Passes.MultiPassSound` and
`Decode.DecodedOrdered` establish it or what `Finalize.FinalizedOrdered` needs for it;
`WholeText.ResponseSound` and `WholeText.ResponseIsSentenceWise` carry it to the response of a
whole request.

What each operation computes is said once more in terms of its inputs alone: how many passes run
(`Passes.PassListsExact`), which edits are elected (`Vote.StrictMajority`), which fragments of a
diff become one (`Diff.DiffByWords`), what a completion becomes (`Service.OneCompletion`,
`Service.VotedCompletion`), what a request asks (`WholeText.ResponseExact`), which runs, tokens and
words a repair touches (`Dialect.RepairedExact`, `CaseRepair.VerdictExact`, `Decode.TagsExact`,
`Loanword.FilterExact`), and when a call is admitted (`Breaker.GrantsExact`).

`dafny verify dfyconfig.toml` checks everything.

## Where the code and its comments disagree

The model follows the code.

- The vote counts proposals, not candidates (bridge/internal/correction/nbest.go:47-55): a candidate that lists an
  edit twice votes twice. `Vote.VotesAreProposersIff` says when the two counts agree; separated
  diffs never repeat an edit.
- bridge/internal/ltcompat/offsets.go:8-10 calls a rune containing the offset not yet passed; the loop
  counts it (`Utf16.OffsetInsideRune`).
- bridge/internal/correction/dialect_repair.go:63-66 calls the last-wins reverse map deterministic; Go ranges over a
  map in random order. `Dialect.ReverseDeterminedIff` gives the exact condition.
- The whole-line fallback at bridge/internal/correction/segment.go:143-147 keeps the segments the line already has, so segments can
  overlap (`Reassembly.LostSentenceOverlaps`). `Segments.AscendingIffNoneLost` gives the exact condition,
  `Segments.InOrderNeverLoses` the tokenizers that meet it.
- A call whose request cannot be built records no outcome
  (bridge/internal/llm/resilience.go:253-258). If it is the only call in flight of a half-open
  breaker, every later call is refused, and only then (`Breaker.StuckIff`,
  `Breaker.StuckIffNeverGrants`; `Breaker.BuildErrorSticks` is a run).
- bridge/internal/llm/resilience.go:87-91 promises one probe at a time, and lines 99-102 that the probe's outcome
  decides. A call admitted while the breaker was closed may report during the probe; a second
  probe can then be admitted beside the first, and only then (`Breaker.SecondAdmissionIff`,
  `Breaker.TwoProbesInFlight`).
- bridge/internal/correction/dialect_repair.go:158-166 applies the splices as if they were disjoint. In an ASCII text they are so exactly
  when no two active words share an american form (`Dialect.SplicesApartIff`,
  `Dialect.DoubleRevertCorrupts`).
- bridge/internal/correction/service.go:749-752 makes grammar authoritative over style. Overlaps are decided that way; a
  grammar insertion at the end of a style edit can still be dropped by finalize
  (`Service.GrammarLostIff`, `Service.StyleEvictsInsertion`).
- bridge/internal/correction/sentence_cache.go:40-41 calls the separators unambiguous; NUL bytes in the context break
  that (`SentenceCaching.KeyInjective`, `SentenceCaching.KeyCollides`).
- Word wrap does not end for a negative width (`Wrap.HardBreakEndsIff`), and drops an open line of
  width zero when another word follows (`Wrap.WrappedKeepsInkIff`, `Wrap.InvisibleWordLost`). A
  mark attached to a space is cut from it exactly when the word it starts is put on a new line
  (`Wrap.WrappedKeepsGraphemesIff`, `Wrap.MarkAfterSpaceIsCut`).
- The lookup comment promises the scan's semantics exactly; it holds for a newline-aware width
  function only (`Display.LookupAgreesIff`).

## Model

| member | source | states |
|---|---|---|
| Edits.ApplyAll | bridge/internal/correction/service.go:1572-1578 | applying a list from its last suggestion to its first, each span checked against the text it meets; equals the last-first fold used in every statement below |
| Edits.LastFirstIsRewrite | bridge/internal/correction/service.go:1572-1578 | for ordered spans (each ends no later than the next begins) last-to-first application is simultaneous replacement |
| Edits.OrderedIffPairwise | bridge/internal/correction/service.go:1056-1073 | ordered means exactly: every span valid, and every earlier one ends before every later one begins |
| Edits.RewriteConcat | bridge/internal/correction/service.go:1572-1578 | rewriting distributes over every cut between edits |
| Sorting.SortStable | bridge/internal/correction/service.go:1070-1072 | the stable sort keeps equivalent suggestions in their input order (what the sort-then-deduplicate step relies on) |
| Sorting.SortSorts | bridge/internal/correction/service.go:1070-1072 | the result of the sort is sorted, for every strict weak order used |
| Sorting.SortPermutes | bridge/internal/correction/service.go:1070-1072 | the sort permutes its input |
| Sorting.SortedUnique | bridge/internal/correction/nbest.go:57-79 | a list sorted by a total order is determined by its members, so the order of the map range does not show |
| Finalize.Deduplicate | bridge/internal/correction/service.go:1135-1167 | the de-duplication loop: a suggestion is kept unless its key was seen or a zero-width edit conflicts |
| Finalize.ConflictsWithAny | bridge/internal/correction/service.go:1153-1162 | whether some kept span conflicts, through a zero-width edit, with the new one |
| Finalize.Finalize | bridge/internal/correction/service.go:1036-1073 | filters, stable start sort and de-duplication in sequence |
| Finalize.DeduplicatedOrdered | bridge/internal/correction/service.go:1135-1182 | de-duplication closes the one hole of the overlap test: over a start-sorted, pairwise non-overlapping list the kept edits are ordered and no insertion sits on a kept boundary |
| Finalize.DeduplicatedMaximal | bridge/internal/correction/service.go:1135-1167 | every dropped suggestion repeats a kept key or conflicts with a kept edit, and nothing is invented |
| Finalize.DroppedByEarlier | bridge/internal/correction/service.go:1135-1167 | a dropped suggestion was ruled out by a kept one before it |
| Finalize.FilteredKeeps | bridge/internal/correction/service.go:1042-1058 | the allow-list and rejection filters drop exactly what they judge and keep pairwise non-overlap |
| Finalize.FinalizedOrdered | bridge/internal/correction/service.go:1036-1182 | from any valid pairwise non-overlapping suggestions, in any order and with any filters: the result is ordered, application is simultaneous replacement, and a suggestion is missing only if filtered or ruled out by a kept one |
| Finalize.FinalizedLosses | bridge/internal/correction/service.go:1036-1182 | in spans, what a suggestion is lost to: a filter, the same edit, or a kept one where one of the two is an insertion on the boundary of the other |
| Finalize.FinalizedUnchanged | bridge/internal/correction/service.go:1070-1073 | strictly separated suggestions pass through finalize untouched |
| Diff.Walk | bridge/internal/correction/diff.go:32-62 | the walk over the edit script, a delete directly followed by an insert becoming one replacement |
| Diff.CancelNoOps | bridge/internal/correction/diff.go:126-142 | the no-op filter, invalid spans kept |
| Diff.CoalesceSameWord | bridge/internal/correction/diff.go:84-112 | the coalescing loop: consecutive suggestions with no white space between them become one |
| Diff.DiffToSuggestions | bridge/internal/correction/diff.go:27-69 | walk, cancel, coalesce, cancel |
| Diff.WalkedRewrites | bridge/internal/correction/diff.go:32-62 | for every script that spells the original, the walked suggestions are ordered and rewrite the original to the corrected text |
| Diff.CancelledRewrites | bridge/internal/correction/diff.go:126-142 | exactly the no-ops go, and the rewriting is unchanged |
| Diff.MergedRewrites | bridge/internal/correction/diff.go:84-112 | replacing two fragments by their merge, interstitial text included, rewrites the text to the same result |
| Diff.CoalescedRewrites | bridge/internal/correction/diff.go:84-112 | coalescing keeps the rewriting and leaves white space between every two suggestions |
| Diff.CancelledGapped | bridge/internal/correction/diff.go:126-142 | the second cancelling keeps that white space between survivors |
| Diff.WalkedFragments | bridge/internal/correction/diff.go:32-62 | the fragments, operation by operation: the place in the original of each delete and each insert that no delete precedes, and what stands there afterwards |
| Diff.SameWordIff | bridge/internal/correction/diff.go:84-112 | two neighbouring edits come out in one suggestion if and only if no white space separates them |
| Diff.DiffByWords | bridge/internal/correction/diff.go:27-142 | the suggestions are the fragments of the script, no-ops left out, grouped exactly where white space separates them, each group netted into one, no-ops left out again |
| Diff.DiffRoundTrip | bridge/internal/correction/diff.go:17-142 | for every edit script: the suggestions are separated by white space, none is a no-op, finalize drops none, and applying them gives exactly the corrected text |
| Diff.SuggestionsLabelled | bridge/internal/correction/diff.go:17-142 | every suggestion of a diff carries the same model, category and confidence, so span and replacement tell two apart |
| Vote.TallyCandidate | bridge/internal/correction/nbest.go:48-54 | one candidate's suggestions counted into the vote and first-seen maps |
| Vote.Tally | bridge/internal/correction/nbest.go:45-55 | all candidates counted: votes per exact edit and the first suggestion carrying it |
| Vote.MajorityEdits | bridge/internal/correction/nbest.go:39-80 | the result is the start-sorted list of exactly the edits whose count reaches n/2+1, with confidence votes/n, whatever the order of the map range |
| Vote.MajorityUnique | bridge/internal/correction/nbest.go:57-79 | the result is determined by the candidates' edits alone |
| Vote.StrictMajority | bridge/internal/correction/nbest.go:43-67 | exactly the edits with more than half the votes are elected, each with its share of them as confidence |
| Vote.ProposedByMost | bridge/internal/correction/nbest.go:20-31 | when no candidate repeats an edit: exactly those proposed by more than half of the candidates |
| Vote.ElectedIsEarliest | bridge/internal/correction/nbest.go:20-31 | an elected edit is a copy of the first one that proposes it: in no earlier candidate, and nowhere earlier in its own |
| Vote.VotesAreProposersIff | bridge/internal/correction/nbest.go:47-55 | the count of an edit is the number of candidates proposing it exactly when no candidate repeats an edit |
| Vote.RepeatedProposalWinsAlone | bridge/internal/correction/nbest.go:43-61 | the input where it is not: one candidate of three repeating itself elects its edit |
| Vote.Pigeonhole | bridge/internal/correction/nbest.go:43-61 | two vote counts exceed the number of candidates only if some candidate proposed both |
| Vote.JointlyProposed | bridge/internal/correction/nbest.go:39-80 | any two elected edits were proposed together by at least one candidate |
| Vote.MajoritySeparated | bridge/internal/correction/nbest.go:39-80 | if each candidate's own edits are separated the elected list is, and finalize keeps all of it |
| Vote.Unanimous | bridge/internal/correction/nbest.go:39-80 | n identical candidates return exactly that candidate's edits, with confidence 1 |
| Remap.Track | bridge/internal/gector/remap.go:50-81 | the splicing loop: the corrected text is the simultaneous replacement, the segments tile both texts |
| Remap.ApplyAndTrack | bridge/internal/gector/remap.go:50-125 | the corrected text and a translator that answers every span pair |
| Remap.Resolve | bridge/internal/gector/remap.go:85-111 | one position: replacement left edges first, then unchanged segments, then the end of text |
| Remap.OriginIsCutAt | bridge/internal/gector/remap.go:85-111 | a resolved position splits original, edits and corrected text at one point: prefix and suffix of the corrected text are the rewritten prefix and suffix of the original |
| Remap.ResolvesExactlyCuts | bridge/internal/gector/remap.go:85-111 | a position resolves if and only if it is such a cut point, and to the leftmost one (the end of the text to the end) |
| Remap.CutsMonotone | bridge/internal/gector/remap.go:85-111 | resolution is monotone in the position |
| Remap.ReplacementStandsThere | bridge/internal/gector/remap.go:55-80 | where each replacement stands in the corrected text |
| Remap.UnresolvedIffInside | bridge/internal/gector/remap.go:85-123 | inside the corrected text resolution fails if and only if the position is strictly inside a replacement |
| Remap.BackCorresponds | bridge/internal/gector/remap.go:113-123 | a translated span is the part of the original whose rewriting is the corrected span |
| Remap.SpliceThroughPass | bridge/internal/gector/remap.go:50-125 | editing the corrected text at a span equals rewriting the original with the edits inside the translated span swapped for one edit of it |
| Passes.OverlapsAny | bridge/internal/gector/remap.go:150-157 | whether a span overlaps an accepted suggestion |
| Passes.MergePasses | bridge/internal/gector/remap.go:131-143 | the union by pass priority, start-sorted at the end |
| Passes.AbsorbedIsUncovered | bridge/internal/gector/remap.go:131-143 | within an ordered pass only earlier passes can displace a suggestion, although the loop tests against the growing list |
| Passes.UnionProvenance | bridge/internal/gector/remap.go:131-143 | a kept suggestion comes from a pass and nothing an earlier pass kept overlaps it |
| Passes.UnionCoverage | bridge/internal/gector/remap.go:131-143 | a dropped suggestion overlaps one kept from a strictly earlier pass |
| Passes.MergeIsSound | bridge/internal/gector/remap.go:131-143 | for any ordered pass lists: valid, start-sorted, pairwise non-overlapping, all of pass 1, drops only covered ones |
| Passes.SinglePassUnchanged | bridge/internal/gector/gector.go:153-155 | with one pass the merge is the identity, as the early return assumes |
| Passes.Advance | bridge/internal/gector/gector.go:170-183 | preparing a pass composes its translator with the captured previous one |
| Passes.TranslatePass | bridge/internal/gector/gector.go:203-213 | a pass's suggestions in original coordinates, untranslatable ones dropped |
| Passes.RunLaterPasses | bridge/internal/gector/gector.go:166-220 | the pass loop: one translated list per pass until inference finds nothing or fails |
| Passes.Correct | bridge/internal/gector/gector.go:138-222 | the whole pass pipeline: the merged lists, or an error |
| Passes.TranslatedByEdges | bridge/internal/gector/gector.go:174-182 | the composed translator works position by position |
| Passes.PositionsMonotone | bridge/internal/gector/gector.go:174-182 | the composed translator is monotone |
| Passes.TranslatedReaches | bridge/internal/gector/gector.go:174-213 | every translated span is a valid span of the request text and keeps the cut-point property through every pass |
| Passes.TranslatedAllOrdered | bridge/internal/gector/gector.go:203-213 | spans disjoint within a pass stay disjoint, and in order, after translation |
| Passes.PassListsExact | bridge/internal/gector/gector.go:153-220 | as many passes run as are configured, unless one finds nothing; each list is what inference finds on the text the passes before it leave, translated back through all of them; the loop fails if and only if inference fails on such a text |
| Passes.TranslatedExact | bridge/internal/gector/gector.go:173-183 | a span goes back through the last pass edge by edge, then through the passes before it; inside a replacement of any of them it has no original |
| Passes.TranslatedAllExact | bridge/internal/gector/gector.go:203-213 | exactly the suggestions with an original span are kept, at that span |
| Passes.MultiPassSound | bridge/internal/gector/gector.go:138-222 | for any number of passes and any inference: valid, start-sorted, pairwise non-overlapping spans of the request text, pass 1 complete, and each dropped edit overlaps a kept edit of a strictly earlier pass |
| Decode.GroupWords | bridge/internal/gector/decode.go:86-103 | the grouping loop: words cover the subwords in order, and a new word starts exactly at a leader or a subword without letter or digit |
| Decode.DecodedIsDetermined | bridge/internal/gector/decode.go:79-157 | so the decoded list is determined |
| Decode.GroupingUnique | bridge/internal/gector/decode.go:86-103 | that rule determines the grouping |
| Decode.WordStartsIff | bridge/internal/gector/decode.go:85-105 | a word starts exactly at the first subword, at one with a boundary marker, and at one without a letter or digit |
| Decode.StrippedExact | bridge/internal/gector/decode.go:36-47 | either boundary marker is stripped, and nothing else |
| Decode.WordTextExact | bridge/internal/gector/decode.go:110-113 | the text of a word is that of its stripped subwords, in order |
| Decode.TagsExact | bridge/internal/gector/decode.go:109-230 | what each tag puts in the place of its word, where, and when it edits nothing |
| Decode.Emit | bridge/internal/gector/decode.go:105-152 | the emit loop over the words |
| Decode.DecodeToSuggestions | bridge/internal/gector/decode.go:79-157 | the list emitted by the one grouping of the subwords |
| Decode.DecodedOrdered | bridge/internal/gector/decode.go:79-157 | tokens in text order decode to ordered, valid spans, whatever the tags |
| Decode.DecodedRewrites | bridge/internal/gector/decode.go:70-157 | applying the decoded edits renders each word by its own tag in place and touches nothing else; a deleted word takes its leading space with it |
| Decode.PassesDecodeOrdered | bridge/internal/gector/gector.go:185-199 | so inference by decoding meets the precondition of the pass translator |
| Routing.MergeSuggestions | bridge/internal/correction/routing.go:173-210 | the greedy merge by preference, start-sorted at the end |
| Routing.GreedyInvariant | bridge/internal/correction/routing.go:192-204 | what every step of the greedy loop keeps |
| Routing.MergeMaximal | bridge/internal/correction/routing.go:173-210 | start-sorted, pairwise non-overlapping, a selection of the input, and every dropped suggestion overlaps a kept one of no lower preference |
| Routing.MergePrefers | bridge/internal/correction/routing.go:173-210 | the order of preference: more confident; or also shorter; or also of an earlier category; or also no further right |
| Routing.PropagateFastCategories | bridge/internal/correction/routing.go:222-239 | in place: an uncategorised LLM edit takes the category of the first specific fast edit it overlaps |
| Routing.PropagationAppliesSame | bridge/internal/correction/routing.go:222-239 | recategorising never changes the applied text |
| Routing.PropagatedExact | bridge/internal/correction/routing.go:222-239 | a grammar edit takes the category of the first specific fast edit it overlaps; nothing else changes |
| Routing.RunFast | bridge/internal/correction/service.go:1202-1274 | for every completion order, error or panic of the corrector goroutines the result is the merge of the surviving results in configuration order |
| Routing.GatheredParts | bridge/internal/correction/service.go:1202-1274 | each corrector contributes its repaired suggestions at its place in the configuration, a failed or panicked one nothing |
| Words.ExpandLeft | bridge/internal/correction/service.go:1785-1791 | the walk left, rune by rune, to the preceding white space |
| Words.ExpandRight | bridge/internal/correction/service.go:1792-1798 | the walk right to the next white space |
| Words.WordZone | bridge/internal/correction/service.go:1670-1682 | the zone of a valid span contains the span |
| Words.WordZoneExact | bridge/internal/correction/service.go:1670-1798 | a word zone is what the span claims, widened exactly to the white space or the ends of the text around it |
| Words.NoConflictNoOverlap | bridge/internal/correction/service.go:1646-1682 | spans admitted by either conflict test never overlap, in the sense of the greedy merge |
| Words.TouchingInsertionConflicts | bridge/internal/correction/service.go:1646-1682 | both tests also see an insertion on a span's boundary, which the overlap test does not |
| Service.RepairCandidates | bridge/internal/correction/service.go:978-984 | the candidates surviving the repair chain and the truncation guard, in order |
| Service.NBest | bridge/internal/correction/service.go:966-1031 | the N-best vote over the survivors, or nothing when fewer than N survive |
| Service.ConflictsWithAny | bridge/internal/correction/service.go:1625-1635 | one fast edit against the LLM's edits, by span or by word zone |
| Service.MergeNonConflictingFastEdits | bridge/internal/correction/service.go:1612-1641 | the LLM edits followed by the admitted fast edits, unchanged when the mode is off |
| Service.Compose | bridge/internal/correction/service.go:722-728 | categories propagated, then fast edits merged when a merge mode is on |
| Service.AppendStyleSuggestions | bridge/internal/correction/service.go:754-811 | style edits appended that overlap neither grammar edits nor earlier style edits |
| Service.LlmOnlySuggestions | bridge/internal/correction/service.go:821-855 | LLM-only mode: N-best, single completion, verifier rejection and both error cases |
| Service.Escalate | bridge/internal/correction/service.go:658-731 | escalation: N-best, single completion, and every fallback to the fast result |
| Service.CorrectOnce | bridge/internal/correction/service.go:638-738 | every way one unit of text becomes suggestions |
| Service.ComposedSound | bridge/internal/correction/service.go:1612-1641 | merging fast edits keeps validity and pairwise non-overlap in all four merge modes |
| Service.StyleSound | bridge/internal/correction/service.go:754-811 | so does the style pass |
| Service.StyleLayered | bridge/internal/correction/service.go:754-811 | what the style pass appends is valid, separated and apart from the grammar edits |
| Service.GrammarLostIff | bridge/internal/correction/service.go:740-811 | who wins in finalize: of a settled grammar list an edit is lost if and only if it is an insertion, a non-empty style edit ends exactly at it, and no grammar insertion stands where that style edit starts |
| Service.StyleEvictsInsertion | bridge/internal/correction/service.go:1135-1182 | an input where one is lost: a style edit that ends at a grammar insertion |
| Service.ElectedSound | bridge/internal/correction/service.go:966-1031 | so does the vote |
| Service.VoterOrderIrrelevant | bridge/internal/correction/nbest.go:39-80 | permuting the candidates that vote leaves the elected list as it is |
| Service.CorrectOnceSound | bridge/internal/correction/service.go:638-811 | for every branch, and all answers of the foreign parts: valid, pairwise non-overlapping suggestions, hence after finalize an ordered list whose application is simultaneous replacement |
| Service.OneCompletion | bridge/internal/correction/service.go:638-855 | one completion, in the fields of the run: who is asked, when the guard and the fallbacks apply, which repairs run in which order, what a rejection leaves, and what reaches the client with which categories and which fast edits |
| Service.VotersExact | bridge/internal/correction/service.go:966-1031 | N-best is on exactly when asked for, supported, and enough candidates are long enough; the voters are those candidates, each through the same repairs, in order |
| Service.VotedCompletion | bridge/internal/correction/service.go:966-1031 | with enough voters the elected edits reach the client the same way, if the verifier approves of what they make of the text |
| Service.WithFastExact | bridge/internal/correction/service.go:1612-1682 | exactly the fast edits of an admitted model that keep clear of every LLM edit join, by closed spans or by word zones |
| Service.StyleExact | bridge/internal/correction/service.go:754-811 | exactly the style edits of an answer that is there and not truncated, and that overlap no grammar edit, are appended |
| Service.PickyExact | bridge/internal/correction/service.go:638-738 | the picky pass comes last, and only on an answer |
| Segments.Find | bridge/internal/correction/segment.go:138-147 | the first occurrence of a sentence at or after the cursor |
| Segments.AppendLineSegments | bridge/internal/correction/segment.go:128-154 | one line: located sentences, or the whole line appended after those already located |
| Segments.SegmentSentences | bridge/internal/correction/segment.go:81-121 | all lines, newline as hard boundary and one trailing carriage return dropped; without a tokenizer this is the line fallback |
| Segments.SegmentsExact | bridge/internal/correction/segment.go:81-154 | the segments are exactly those that the lines of the text yield, a line running between line feeds, one carriage return at its end dropped |
| Segments.SegmentsWithinLines | bridge/internal/correction/segment.go:81-154 | every segment is non-empty, in bounds and newline-free, however the tokenizer behaves |
| Segments.AscendingIffNoneLost | bridge/internal/correction/segment.go:138-154 | the segments are ascending and disjoint if and only if no line loses a sentence after locating one |
| Segments.FoundInPlaceIff | bridge/internal/correction/segment.go:128-154 | sentences that stand in a line in order are all located at their own places if and only if none also occurs in the gap before it |
| Segments.PiecesNeverLost | bridge/internal/correction/segment.go:138-147 | the search is never ahead of the true places, so a line whose sentences stand in it in order loses none, whatever its gaps hold |
| Segments.InOrderNeverLoses | bridge/internal/correction/segment.go:61-121 | with a tokenizer that returns contiguous pieces of every line in order, no line of any text loses a sentence |
| Reassembly.SettledShift | bridge/internal/correction/service.go:622-625 | shifting spans commutes with sorting and de-duplication |
| Reassembly.UnionSettlesIff | bridge/internal/correction/service.go:584-631 | finalizing the union is finalizing each sentence by itself if and only if no sentence's final edit is ruled out by another's on a boundary they share |
| Reassembly.ApartIsUncontested | bridge/internal/correction/service.go:584-631 | sentences that do not touch never contest an edit |
| Reassembly.LostSentenceOverlaps | bridge/internal/correction/segment.go:143-147 | a line that loses a sentence after locating one: overlapping edits that finalize keeps |
| Reassembly.UnionRewrites | bridge/internal/correction/service.go:584-631 | rewriting the text by the shifted union rewrites each sentence and nothing else |
| Reassembly.ReassemblyCorrect | bridge/internal/correction/service.go:584-631 | for sentences that do not touch, or do not contest a shared boundary, applying the finalized union to the whole text gives the untouched gaps interleaved with each separately corrected sentence |
| Reassembly.TouchingSegmentsLoseEdits | bridge/internal/correction/service.go:1135-1182 | a contested boundary: two insertions of touching sentences, one of them dropped |
| SentenceCaching.KeyInjective | bridge/internal/correction/sentence_cache.go:55-69 | equal keys mean equal fields if and only if the fields agree in their NUL counts; in particular whenever NULs stand in sentences alone |
| SentenceCaching.AmbiguousNeverCoherent | bridge/internal/correction/sentence_cache.go:40-69 | two fields with one key and different answers: no entry under it is right for both |
| SentenceCaching.KeyCollides | bridge/internal/correction/sentence_cache.go:55-69 | two different NUL-bearing field tuples with one key |
| SentenceCaching.SentenceCache.constructor | bridge/internal/correction/sentence_cache.go:30-39 | an empty cache of the given capacity |
| SentenceCaching.SentenceCache.Get | bridge/internal/correction/sentence_cache.go:71-84 | a hit returns a fresh copy, counts and moves the key to the front; a miss changes only the counter |
| SentenceCaching.SentenceCache.Add | bridge/internal/correction/sentence_cache.go:86-93 | stores a fresh copy, keeps other entries, and evicts the least recently used beyond the capacity |
| SentenceCaching.TouchedExact | bridge/internal/correction/sentence_cache.go:30-93 | what a touch does to the recency list: distinct keys, within capacity, exactly the oldest one evicted |
| SentenceCaching.ShiftInPlace | bridge/internal/correction/service.go:622-625 | the caller's array is shifted in place |
| SentenceCaching.Compute | bridge/internal/correction/service.go:604-619 | joining a call in flight copies its result or shares its error; the array is private either way |
| SentenceCaching.AnswerFor | bridge/internal/correction/service.go:597-621 | look up, or compute and store: the answer is the pipeline's, and no cache entry aliases the returned array |
| SentenceCaching.SentenceEdits | bridge/internal/correction/service.go:588-626 | one sentence: its answer in text coordinates, the cache still coherent after the in-place shift |
| SentenceCaching.CorrectSentences | bridge/internal/correction/service.go:584-631 | the sentence loop gives the uncached result, an error only if every sentence failed |
| WholeText.Correct | bridge/internal/correction/service.go:539-632 | the whole request: one piece below two segments, else sentence by sentence, then finalize once; the response is that of no cache |
| WholeText.ResponseExact | bridge/internal/correction/service.go:539-632 | a text of at most one sentence is one question and the response its finalized answer; otherwise every sentence is asked for by itself, with the model, prompt and mode of the request and the bytes of its neighbours as context if the service adds it; failed ones count as empty unless all fail |
| WholeText.OnlyItsQuestions | bridge/internal/correction/service.go:584-620 | two pipelines that answer the questions of the request alike give one response |
| WholeText.EveryTextKeyed | bridge/internal/correction/service.go:539-632 | without sentence context, model and prompts free of NULs give all texts distinct keys |
| WholeText.Session | bridge/internal/correction/service.go:539-632 | cache transparency over any sequence of requests, each with its own text, prompts, mode, context, tokenizer and filters, and any capacity: with one shared cache every request gets the response it gets without any, provided no two fields in use share a key |
| WholeText.AnswersSound | bridge/internal/correction/service.go:584-631 | answers that correctOnce may give fit their sentences |
| WholeText.UnionApart | bridge/internal/correction/service.go:622-626 | the shifted union over ascending segments is valid and pairwise non-overlapping, touching segments included |
| WholeText.ResponseSound | bridge/internal/correction/service.go:539-632 | whatever the foreign parts answer, the response is an ordered list of valid spans and its application is simultaneous replacement, if the tokenizer returns pieces in order or at least no line of the text loses a sentence |
| WholeText.ResponseIsSentenceWise | bridge/internal/correction/service.go:539-632 | for sentences that do not touch, or do not contest a shared boundary, applying the response leaves the gaps alone and makes of each sentence what correctOnce and finalize make of it alone |
| Dialect.IndexFold | bridge/internal/correction/dialect_repair.go:335-363 | the first case-insensitive occurrence, or none; the empty needle at 0 |
| Dialect.NextMatch | bridge/internal/correction/dialect_repair.go:250-256 | the next occurrence from a position of the text |
| Dialect.FindWholeWordReplacements | bridge/internal/correction/dialect_repair.go:243-272 | for any needle: the leftmost whole-word matches that do not overlap, with case carried over |
| Dialect.WordScan | bridge/internal/correction/dialect_repair.go:243-272 | of a word the scan finds all whole-word matches |
| Dialect.SplicesFromExact | bridge/internal/correction/dialect_repair.go:243-272 | a splice is found if and only if its span is a maximal letter run that folds to the word |
| Dialect.NewReverse | bridge/internal/correction/dialect_repair.go:41-67 | a reverse lexicon, for every iteration order |
| Dialect.ReverseDeterminedIff | bridge/internal/correction/dialect_repair.go:56-67 | it is independent of the iteration order if and only if no British form has two American keys |
| Dialect.LexiconGivesWordPairs | bridge/internal/correction/dialect_repair.go:56-67 | a lexicon of lower-case words gives every active british word an american word of its own, in every iteration order |
| Dialect.SplicesApartIff | bridge/internal/correction/dialect_repair.go:105-156 | the splices of different british words are disjoint if and only if no two active ones share an american word |
| Dialect.DoubleRevertCorrupts | bridge/internal/correction/dialect_repair.go:158-166 | an input of the repair where two do, from a lexicon with one american word in two cases: both splice the word, and the end of one replacement stays behind the other |
| Dialect.OrderedSpliced | bridge/internal/correction/dialect_repair.go:158-166 | ordered splices never slice outside the text, and their application rewrites it |
| Dialect.SortedSplicesAreRuns | bridge/internal/correction/dialect_repair.go:105-156 | whatever the order of the active pairs, the sorted splices are the one-pass list |
| Dialect.RunSplicesRewrite | bridge/internal/correction/dialect_repair.go:158-166 | those splices, applied, are one left-to-right pass over the maximal letter runs |
| Dialect.Repair | bridge/internal/correction/dialect_repair.go:69-167 | the splices of the active words, gathered in some order, sorted and applied last to first, a slice outside the text being a panic; when the active american words are distinct, the single left-to-right pass for every iteration order |
| Dialect.RepairedExact | bridge/internal/correction/dialect_repair.go:69-167 | in bytes: exactly the maximal letter runs that read as the american form of a british word the user wrote and the corrected text lacks are replaced by it, cased alike (lines 274-300) |
| Dialect.ReverseExact | bridge/internal/correction/dialect_repair.go:56-67 | the reverse lexicon holds exactly the british forms of entries not empty and not spelled alike, read in small letters |
| CaseRepair.TokenizeWords | bridge/internal/correction/overedit.go:103-122 | the token scan |
| CaseRepair.TokensCover | bridge/internal/correction/overedit.go:103-122 | tokens are ascending, disjoint, non-empty and cover exactly the non-space runes |
| CaseRepair.IndexPositions | bridge/internal/correction/overedit.go:439-444 | where each key occurs, ascending |
| CaseRepair.AlignTokens | bridge/internal/correction/overedit.go:137-154 | greedy leftmost pairing through the position lists (with folded keys: lines 439-458) |
| CaseRepair.AlignedIncreasing | bridge/internal/correction/overedit.go:439-458 | the alignment is strictly increasing in both coordinates and pairs equal keys |
| CaseRepair.AlignedGreedy | bridge/internal/correction/overedit.go:439-458 | a token is paired with exactly the earliest equal one that no token before it has used up |
| CaseRepair.ApplySplices | bridge/internal/correction/overedit.go:424-428 | splices applied last to first |
| CaseRepair.RepairMidWordCaseFlip | bridge/internal/correction/overedit.go:342-430 | the repair |
| CaseRepair.VerdictExact | bridge/internal/correction/overedit.go:357-416 | a match is reverted exactly when as many tokens lie between it and its neighbours in both texts and its token has an inner letter raised and nothing else changed |
| CaseRepair.FlippedExact | bridge/internal/correction/overedit.go:379-412 | rune by rune: equal behind the last letter or digit and at the first rune, and before it equal but for small letters raised |
| CaseRepair.RepairOnlyLowers | bridge/internal/correction/overedit.go:342-430 | length and places stay; every changed rune goes from upper to lower case and is not the first of its token |
| CaseRepair.RepairKeepsTokens | bridge/internal/correction/overedit.go:342-430 | white space, token boundaries and alignment keys stay |
| CaseRepair.TokenAfterRepair | bridge/internal/correction/overedit.go:342-430 | a reverted token reads as in the original, any other matched token as before |
| CaseRepair.RepairIdempotent | bridge/internal/correction/overedit.go:342-430 | a second run with the same original changes nothing |
| Breaker.CircuitBreaker.constructor | bridge/internal/llm/resilience.go:95-97 | a closed breaker |
| Breaker.CircuitBreaker.Allow | bridge/internal/llm/resilience.go:103-126 | the answer and the whole next state |
| Breaker.CircuitBreaker.RecordSuccess | bridge/internal/llm/resilience.go:129-138 | the whole next state |
| Breaker.CircuitBreaker.RecordFailure | bridge/internal/llm/resilience.go:143-161 | the whole next state |
| Breaker.BreakerInvariant | bridge/internal/llm/resilience.go:95-161 | after any sequence of admissions and outcomes: probing iff half-open; closed implies the failures since the last success are below the threshold, not closed implies at least the threshold (threshold at least 1) |
| Breaker.GrantsExact | bridge/internal/llm/resilience.go:99-161 | after a failure report a call is granted if and only if the failures since the last success are fewer than the threshold, or the cooldown since that failure is over and no call has been let through for it since |
| Breaker.GrantsWhileWell | bridge/internal/llm/resilience.go:99-138 | before any report and after a success every call is granted |
| Breaker.DisabledGrants | bridge/internal/llm/resilience.go:99-105 | a disabled breaker grants every call, whatever was reported |
| Breaker.ProbesSpaced | bridge/internal/llm/resilience.go:103-161 | with no success between, two admissions while not closed are at least the cooldown apart |
| Breaker.ProbeAccounted | bridge/internal/llm/resilience.go:103-161 | for any interleaving of calls: a half-open breaker's probe is in flight, or its request could not be built |
| Breaker.StuckIffNeverGrants | bridge/internal/llm/resilience.go:103-126 | a breaker is half-open with nobody in flight if and only if it grants no call ever again, whatever happens later |
| Breaker.StuckStepIff | bridge/internal/llm/resilience.go:253-258 | a step gets it there if and only if it ends the only call in flight of a half-open breaker by a request-build error |
| Breaker.StuckIff | bridge/internal/llm/resilience.go:103-161 | over every interleaving: the breaker ends up refusing all later calls if and only if some step of the run was such a step |
| Breaker.SecondAdmissionIff | bridge/internal/llm/resilience.go:87-126 | while a probe is in flight, a call can be admitted again if and only if another call's outcome was recorded since the probe was admitted |
| Breaker.SecondProbeNeedsReport | bridge/internal/llm/resilience.go:87-126 | so two probes in flight together mean that such an outcome came between them |
| Breaker.TwoProbesInFlight | bridge/internal/llm/resilience.go:87-126 | a run where it happens: a call admitted while closed fails late, and a second probe is admitted beside the first |
| Breaker.StuckForever | bridge/internal/llm/resilience.go:103-126 | once nobody is left, no later call is ever admitted |
| Breaker.BuildErrorSticks | bridge/internal/llm/resilience.go:253-258 | a run that gets there: a probe whose request cannot be built |
| Breaker.StepsAreEvents | bridge/internal/llm/resilience.go:103-161 | interleaved calls drive the breaker through an event sequence, so the invariant holds of them |
| Breaker.ExecuteWithResilience | bridge/internal/llm/resilience.go:228-282 | refused exactly when not admitted; at most 1+MaxRetries attempts, all but the last a network error, status 429 or 5xx; the result is that of the last; exactly one recorded outcome, request-build errors excepted |
| EditDistance.EditDistance | eval/lib_edit_match.py:16-39 | the rolling two-row program computes the recurrence |
| EditDistance.NextRow | eval/lib_edit_match.py:29-38 | one row from the previous one |
| EditDistance.DistanceIsLeast | eval/lib_edit_match.py:16-39 | the value is reached by an edit sequence of that length, and none is shorter |
| EditDistance.DistanceIsMetric | eval/lib_edit_match.py:16-39 | zero iff equal, symmetric, triangle inequality |
| EditDistance.EditIsCorrect | eval/lib_edit_match.py:50-61 | an edit is correct exactly when it strictly lowers the distance to the golden text |
| EditDistance.OracleSound | eval/lib_edit_match.py:50-61 | reaching the golden text is correct, an unchanged text never is, nothing is correct on a golden input, and no two edits undoing each other are both correct |
| Loanword.MarkFlagged | bridge/internal/harperffi/loanword_filter.go:127-142 | the word of each gateable suggestion, and which words carry one |
| Loanword.Sweep | bridge/internal/harperffi/loanword_filter.go:151-162 | one pass in place: only foreign words are marked, and progress is made unless stable |
| Loanword.Propagate | bridge/internal/harperffi/loanword_filter.go:144-162 | the loop terminates with exactly the foreign words: accented, or flagged and joined to an accented word by an unbroken run of flagged words |
| Loanword.ForeignIsLeast | bridge/internal/harperffi/loanword_filter.go:144-162 | that set is the least fixpoint |
| Loanword.TokenizeWords | bridge/internal/harperffi/loanword_filter.go:55-80 | the scan yields the maximal letter runs with their accents |
| Loanword.WordsAreRuns | bridge/internal/harperffi/loanword_filter.go:55-80 | words are non-empty, in bounds, ascending and disjoint, so a suggestion starts in at most one |
| Loanword.WordsExact | bridge/internal/harperffi/loanword_filter.go:55-80 | exactly the maximal letter runs of the text, accented if a letter of theirs is beyond ASCII |
| Loanword.FilterLoanwords | bridge/internal/harperffi/loanword_filter.go:118-171 | exactly the gateable suggestions on foreign words go, order kept |
| Loanword.FilterFalsePositives | bridge/internal/harperffi/loanword_filter.go:118-171 | the whole filter on a text: tokenised, gated by kind (lines 34-44), without words nothing goes |
| Loanword.FilterExact | bridge/internal/harperffi/loanword_filter.go:118-171 | exactly the gateable suggestions in reach of an accented word, through words with gateable suggestions, go; the others stay in order |
| Utf16.ByteToUTF16Offset | bridge/internal/ltcompat/offsets.go:11-27 | the units of all runes that start before the byte offset |
| Utf16.OffsetAtBoundary | bridge/internal/ltcompat/offsets.go:11-27 | on a rune boundary that is the length of the encoded prefix |
| Utf16.OffsetInsideRune | bridge/internal/ltcompat/offsets.go:11-27 | inside a rune the rune counts as passed |
| Utf16.EncodeRuneExact | bridge/internal/ltcompat/offsets.go:16-25 | one unit is the value, two are a surrogate pair that spells it (section 2.1 of RFC 2781) |
| Utf16.MatchCommutes | bridge/internal/ltcompat/handler.go:142-179 | a match commutes with encoding (section 3 of RFC 3629, section 2.1 of RFC 2781) |
| Utf16.WidenInsertionBytes | bridge/internal/ltcompat/handler.go:212-226 | the anchor rune and widened replacement |
| Utf16.WideningInserts | bridge/internal/ltcompat/handler.go:212-226 | on any bytes the widened edit inserts what the insertion does |
| Utf16.BackIsBoundary | bridge/internal/ltcompat/handler.go:212-219 | in a valid text the walk left ends on a rune boundary |
| Utf16.AnchorExact | bridge/internal/ltcompat/handler.go:212-226 | the anchor is the whole rune before the insertion, or the first rune at the start of the text |
| Utf16.SuggestionToMatch | bridge/internal/ltcompat/handler.go:142-179 | the match of a suggestion, insertions widened for every candidate |
| Utf16.MatchFaithful | bridge/internal/ltcompat/handler.go:142-179 | for every rune-aligned suggestion and each candidate, applying the match to the UTF-16 text gives the UTF-16 form of the byte edit's result, and the match is not empty |
| Utf16.ContextWindow | bridge/internal/ltcompat/handler.go:183-205 | the snippet: forty bytes on either side, widened to rune starts, and the place of the match in UTF-16 units |
| Utf16.WindowWidth | bridge/internal/ltcompat/handler.go:183-205 | the snippet reaches forty bytes to either side or to the end of the text, and at most three more, to a rune start |
| Utf16.ContextPointsAtMatch | bridge/internal/ltcompat/handler.go:183-205 | wherever the match is, the offset and length of the snippet select exactly the matched text |
| Utf8.DecodeRune | bridge/internal/ltcompat/offsets.go:16-25 | Go's rune decoding: ill-formed input consumes one byte |
| Utf8.DecodesEncoded | bridge/internal/ltcompat/offsets.go:16-25 | decoding undoes the encoding of every scalar value (section 3 of RFC 3629), whatever follows |
| Utf8.DecodesOnlyEncoded | bridge/internal/ltcompat/offsets.go:16-25 | what starts with the encoding of no scalar value consumes one byte |
| Utf8.WhitespaceExact | bridge/internal/correction/diff.go:114-117 | white space is contained exactly where a rune of it starts |
| Utf8.SpacesListed | bridge/internal/correction/diff.go:114-117 | the code points that count as white space |
| Utf8.WhitespaceExtends | bridge/internal/correction/diff.go:84-117 | cutting a text, even inside a rune, never invents white space: what the shorter text contains every extension contains (so widening a merged span never hides a word gap) |
| Display.CodeUnitToDisplayOffset | clients/opencode/src/display-width.ts:40-60 | the linear scan |
| Display.Checkpoints | clients/opencode/src/display-width.ts:96-106 | one checkpoint after every grapheme |
| Display.DisplayOffsetLookup.constructor | clients/opencode/src/display-width.ts:88-108 | the lookup for a text and width function |
| Display.DisplayOffsetLookup.OffsetAt | clients/opencode/src/display-width.ts:110-143 | the binary search answers as the scan does with a newline-aware width, for every offset and mode |
| Display.LookupAgreesIff | clients/opencode/src/display-width.ts:40-143 | search and scan agree everywhere if and only if the width function is newline-aware or the text has no newline |
| Display.EdgesRise | clients/opencode/src/display-width.ts:40-60 | the grapheme boundary an offset stands for rises with the offset |
| Display.EdgeClamps | clients/opencode/src/display-width.ts:40-60 | offsets out of range stand for the ends of the text |
| Display.OffsetsMonotone | clients/opencode/src/display-width.ts:67-76 | display offsets are monotone, start mode never past end mode |
| Display.SpanIsLeastCover | clients/opencode/src/display-width.ts:67-76 | a display span is the least run of whole graphemes containing the code-unit span |
| Display.DisplaySpansForItems | clients/opencode/src/display-width.ts:150-161 | the batch conversion equals converting one by one |
| Wrap.FindSliceEnd | clients/opencode/src/display-width.ts:203-211 | the longest fitting prefix of graphemes, at least one code unit |
| Wrap.HardBreak | clients/opencode/src/display-width.ts:201-215 | the hard-break loop of one word |
| Wrap.WrapParagraph | clients/opencode/src/display-width.ts:181-220 | one paragraph |
| Wrap.WrapLines | clients/opencode/src/display-width.ts:169-222 | all paragraphs |
| Wrap.HardBreakEndsIff | clients/opencode/src/display-width.ts:201-215 | the loop ends, on any line, if and only if maxWidth is not negative |
| Wrap.BrokenFits | clients/opencode/src/display-width.ts:201-215 | a word of graphemes no wider than a line is broken into pieces that fit, never inside a grapheme |
| Wrap.BrokenFills | clients/opencode/src/display-width.ts:201-215 | a word is cut only while too wide, after the longest run of graphemes that fits, or one code unit if none does |
| Wrap.WrappedFits | clients/opencode/src/display-width.ts:169-222 | no line exceeds maxWidth when no grapheme does |
| Wrap.NewlinesBreak | clients/opencode/src/display-width.ts:178-184 | every newline ends a line, and an empty paragraph is an empty line |
| Wrap.WrappedKeepsInkIff | clients/opencode/src/display-width.ts:169-222 | everything but spaces and newlines comes out complete and in order if and only if no word overwrites a non-empty open line of width 0, whatever the limit and the grapheme widths |
| Wrap.WrappedKeepsInk | clients/opencode/src/display-width.ts:169-222 | in particular always when only the empty string has width 0 |
| Wrap.WrappedKeepsGraphemesIff | clients/opencode/src/display-width.ts:169-222 | when no grapheme exceeds the limit: every grapheme but lone spaces and newlines comes out whole and in order if and only if no word overwrites an open line and no word that starts with a mark is put on a new line away from the space before it |
| Wrap.MarkAfterSpaceIsCut | clients/opencode/src/display-width.ts:181-220 | an input where it is not, on a terminal whose accents attach to any unit but a newline and have no width, at a limit no grapheme exceeds |
| Wrap.InvisibleWordLost | clients/opencode/src/display-width.ts:186-188 | an input where it fails: a word of width 0 is lost to the next word |
| Wrap.FittingParagraphUnbroken | clients/opencode/src/display-width.ts:181-220 | a paragraph that fits comes back as one line |

## Left out

- Reassembly.ReassemblyCorrect: asks that touching sentences do not contest their boundary (`Reassembly.UnionSettlesIff` is exact about the list); a contested response is still ordered and sound (`WholeText.ResponseSound`).
- WholeText.ResponseIsSentenceWise: asks that finalize's filters judge an edit in the text as they judge it in its sentence; the filters themselves are arbitrary predicates.
- WholeText.ResponseSound: asks that the tokenizer return pieces of each line in order (`Segments.InOrderNeverLoses`), or that no line of the text lose a sentence, the exact condition under which segments are disjoint.
- Vote.JointlyProposed: asks that no candidate repeats an edit, which holds of every diff (`Diff.DiffRoundTrip`).
- SentenceCaching.Compute: calls of other requests in flight appear as their results or shared errors, not interleaved step by step.
- WholeText.Session: asks that no two fields in use share a key, which holds of every text without sentence context (`WholeText.EveryTextKeyed`) and without which no entry can serve both (`SentenceCaching.AmbiguousNeverCoherent`); the hash is taken as injective and requests as served one after another; the model behind `once` answers a function of the key's fields.
- Service.GrammarLostIff: speaks of the lists that finalize's filters leave; grammar lists whose own edits conflict at a boundary are `Finalize.FinalizedOrdered`'s.
- Service.CorrectOnce: prompts, hints, calibration, metrics and logging do not appear; the repair chain and the verifier are arbitrary functions of the text.
- Routing.RunFast: timeouts inside a corrector are one of its outcomes.
- Breaker.ProbesSpaced: asks that time does not run backwards within the events between the two admissions.
- Breaker.ExecuteWithResilience: one call runs alone in the method; overlapping calls are the step sequences of `Breaker.StepsAreEvents`.
- Decode.DecodeToSuggestions: tags arrive parsed by form, and word-form changes are arbitrary functions.
- Dialect.Repair: the words of a text are an arbitrary set-valued function (`splitWords` is not modelled here); where two active words share an american form, which of the orders an unstable sort leaves is open.
- CaseRepair.RepairMidWordCaseFlip: works on runes, so decoding of ill-formed UTF-8 inside tokens does not appear.
- CaseRepair.RepairIdempotent: keeps the original fixed, as the repair chain does.
- Loanword.FilterFalsePositives: the Unicode letter class is an arbitrary predicate, and a message naming the title-case rule a flag.
- Utf16.MatchFaithful: asks for valid UTF-8 and rune-aligned spans; messages, categories and rule identifiers of a match do not appear.
- Wrap.WrappedFits: asks that measuring and segmenting commute with cuts between graphemes, and that a space adds at most one column.
- Wrap.WrappedKeepsGraphemesIff: asks in addition that words end in units no separator attaches to; which units those are, and which graphemes are marks, are parameters.
- Wrap.WrapLines: takes the empty string to have no width, and a negative limit only for a text of newlines, on which alone the program ends.
- Display.SpanIsLeastCover: speaks of in-range spans; out-of-range offsets are clamped (`Display.DisplayOffset`).
- RepairProximityAgreementFlip, RepairContractionExpansion, RepairSingularThey and the other over-edit rules: the same alignment and splice shape as the two repairs modelled, with word tables.
- The escalation policy, calibration, scores and personalization counts: threshold arithmetic on single values.
- HTTP, gRPC, server-sent events, SQLite, configuration, prompts, tone, rephrase and completion endpoints.
- Harper, ONNX inference, the language model, go-diff and the sentence tokenizer: foreign code.
- The browser, Vencord and OpenCode rendering, and the remaining evaluation scripts.
- Machine integers: byte offsets and counters do not overflow on texts that fit in memory.
