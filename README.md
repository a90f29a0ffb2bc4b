# Meeting assistant text core, modelled in Dafny

This project models the deterministic text and list processing of the
ai-meeting-assistant backend, the part that surrounds its machine-learning
calls, and proves what that processing guarantees.

- **Mention tracking** (`MentionTracker` in `backend/services/mention_tracker.py`).
  It generates name variations and finds whole-word, case-insensitive matches
  with `re.finditer`, each with a ±50-character context. It removes mentions
  closer than five characters, then wraps each one in
  `[MENTION]`…`[/MENTION]`, inserting from right to left. It splits the
  transcript into sentences with a running offset, post-processes the
  task-assignment captures, collects speaker-label matches, and grades
  engagement from the mention count.
- **Personal insights** (`PersonalInsightsService` in
  `backend/services/personal_insights.py`). It selects the segments that
  concern one user, either by speaker label or by a whole-word name mention.
  It keeps one segment per stripped text and joins the texts into a personal
  transcript. It then keeps the action items that concern that user.
- **Action-item heuristics** (`ActionItemExtractor` in
  `backend/services/action_items.py`): the action-verb and priority keyword
  tests, the additive confidence score and its 0.6 acceptance rule, the
  stripping of prefixes from the task description, the first-match deadline
  lookup, the role fallback for the assignee, and the stable priority sort.
- **Speaker merge** (`merge_transcription_diarization` in `backend/app/api.py`).
  Each transcript segment takes the speaker of the first diarization turn that
  strictly overlaps it, or `"Speaker_0"`.
- **Summarisation routing and chunk packing** (`summarize` and
  `_summarize_long_text` in `backend/services/summarization.py`). A text over
  1024 characters is split on `". "`, and the sentences are packed greedily
  into chunks of at most 800 tokens.

The loops of the source that build a list or accumulate state are Dafny
methods whose loop invariants prove them equal to specification functions.
The loops that only search for the first match and return early are pure
functions: the keyword loops of `_extract_priority` (`ActionItems.Priority`),
the role loop of `_extract_assignee` (`ActionItems.FirstRole`), the pattern
loop of `_extract_deadline` (`ActionItems.DeadlineFrom`) and the variation
loop of `_contains_name_mention` (`PersonalInsights.ContainsNameMention`).
The properties the source promises are proved about those functions as
lemmas. The source keeps no mutable object
state (`MentionTracker.mention_count` is never written after `__init__`), so
there are no classes.

The machine-learning and regex components the core calls become parameters:

- spaCy's sentences and the texts of their PERSON entities become a
  `seq<Sentence>`.
- `tokenizer.encode` becomes a length function `encode: string -> nat`.
- The BART summariser becomes `summarizeChunk: (string, int) -> string`.
- The personal summary becomes `summarize: string -> string`.
- The `group(1)` strings that the task-assignment regexes capture become
  `captures: string -> seq<string>`, one list per sentence.

The whole-word pattern `\b…\b`, the sentence splitter `(?<=[.!?])\s+|\n+`,
the description prefixes and the four date patterns are modelled directly.
They work over ASCII character classes.

Modules: `Common` (options, filtering, subsequences, keep-first-per-key),
`Text` (character classes, lower-casing, `strip`, `split`, `join`, `in`, `\b`),
`Mentions`, `Highlight`, `Sentences`, `MentionTracker`, `ActionItems`,
`PersonalInsights`, `Api` and `Summarization`.

## Model

| member | source | states |
|---|---|---|
| Mentions.TrackerVariations | backend/services/mention_tracker.py:118-139 | the variations hold the lowercased name; generation fails (the IndexError of `split()[0]`) exactly when the name contains a space but no word |
| Mentions.TrackerVariationsMembers | backend/services/mention_tracker.py:128-139 | the variations are pairwise distinct. They are exactly the lowercased name, plus, when the name contains a space, its lowercased first word and its lowercased initials |
| Mentions.StrippedNameHasVariations | backend/services/mention_tracker.py:60-64 | generation never fails on the stripped name that `track_mentions` passes |
| Mentions.ScanMatches | backend/services/mention_tracker.py:160-164 | every reported start is a whole-word, case-insensitive match of the variation inside the transcript; reported matches do not overlap and increase |
| Mentions.ScanMatchesComplete | backend/services/mention_tracker.py:162 | every match of the variation is reported, or starts inside an earlier reported match |
| Mentions.ScanEmptyIffNoMatch | backend/services/mention_tracker.py:162 | the scan reports nothing exactly when the variation matches nowhere |
| Mentions.MentionAtReported | backend/services/mention_tracker.py:163-177 | a record has `matched_text == transcript[position:end_position]`, `end_position == position + len(variation)`, and the stripped ±50-character window as context |
| Mentions.MentionsAt | backend/services/mention_tracker.py:162-178 | one record per reported match, in scan order |
| Mentions.RawMentionsReported | backend/services/mention_tracker.py:156-178 | every record before de-duplication is a reported match of one of the variations |
| Mentions.RawEmptyIffNoMatch | backend/services/mention_tracker.py:156-178 | the records before de-duplication are empty exactly when no variation matches anywhere |
| Mentions.InsertByPosition | backend/services/mention_tracker.py:203 | one insertion step of the sort adds exactly the new mention |
| Mentions.SortByPosition | backend/services/mention_tracker.py:203 | `sorted(..., key=position)` returns a permutation of its input that is ordered by position |
| Mentions.SortByPositionIsStable | backend/services/mention_tracker.py:203 | among mentions at the same position the sort keeps the input order, as Python's sort does |
| Mentions.SortSortedIsIdentity | backend/services/mention_tracker.py:182 | sorting a list that is already sorted changes nothing, so the final `sort` in `_find_mentions` is a no-op |
| Mentions.DedupSorted | backend/services/mention_tracker.py:204-211 | the loop keeps the first mention and never lengthens the list |
| Mentions.DedupSortedDropsOnlyShadowed | backend/services/mention_tracker.py:206-211 | on a sorted list the loop drops a mention only when a kept mention starts at or before it and it starts before that mention's end plus five |
| Mentions.DedupSortedOfGapped | backend/services/mention_tracker.py:206-211 | a list whose mentions are already five characters apart is kept whole |
| Mentions.DedupProperties | backend/services/mention_tracker.py:199-213 | the output is sorted and is a subsequence of the sorted input that starts with its first mention. Each kept mention starts at or after the previous kept end plus five. The output is empty only for an empty input and holds only input mentions. An input mention is dropped only when it starts inside a kept mention that starts at or before it, or fewer than five characters after that mention's end |
| Mentions.DedupIdempotent | backend/services/mention_tracker.py:199-213 | de-duplicating twice is the same as once |
| Mentions.KeepSpaced | backend/services/mention_tracker.py:204-213 | the de-duplication loop computes `DedupSorted` |
| Mentions.Deduplicate | backend/services/mention_tracker.py:186-213 | `_deduplicate_mentions` computes `Dedup` |
| Mentions.MatchRecords | backend/services/mention_tracker.py:162-178 | the inner `finditer` loop builds one record per reported match |
| Mentions.CollectMatches | backend/services/mention_tracker.py:156-178 | the outer loop concatenates the records variation by variation |
| Mentions.FoundMentions | backend/services/mention_tracker.py:141-184 | the found mentions are reported matches of the given variations. They are sorted and at least five characters apart, and there are none exactly when no variation matches |
| Mentions.FindMentions | backend/services/mention_tracker.py:141-184 | `_find_mentions` returns de-duplicated matches that are sorted, spaced, and empty exactly when nothing matches |
| Highlight.SortDescending | backend/services/mention_tracker.py:234 | the reverse sort returns a permutation of its input, ordered by decreasing position |
| Highlight.SortDescendingOfAscending | backend/services/mention_tracker.py:234 | for mentions in strictly increasing position order, the reverse sort is the reversal |
| Highlight.ApplyReversedIsRender | backend/services/mention_tracker.py:236-247 | inserting the tags from right to left gives the left-to-right rendering, whatever text follows |
| Highlight.RenderLength | backend/services/mention_tracker.py:245 | each mention adds the 19 characters of its two tags |
| Highlight.RemoveMarkersRender | backend/services/mention_tracker.py:243-245 | removing the tags from the rendering gives the transcript back when it holds no `[` |
| Highlight.WrapEach | backend/services/mention_tracker.py:237-245 | the loop applies one wrap per mention in the order given |
| Highlight.BuildHighlighted | backend/services/mention_tracker.py:230-247 | with no mentions the transcript is returned unchanged; otherwise the wraps are applied from the last position to the first |
| Highlight.GappedPairwise | backend/services/mention_tracker.py:209 | the five-character gap holds between every pair of kept mentions, not only between neighbours |
| Highlight.FoundAreSpread | backend/services/mention_tracker.py:181-184 | the mentions `_find_mentions` returns are sorted, non-overlapping spans of the transcript |
| Highlight.HighlightOfSpread | backend/services/mention_tracker.py:230-247 | for such mentions the highlighted transcript is the left-to-right rendering. It is 19 characters longer per mention, and removing the tags gives the transcript back when it holds no `[` |
| Sentences.SeparatorAt | backend/services/mention_tracker.py:268 | the separator pattern matches at an index exactly when a `.`, `!` or `?` precedes whitespace there, or a newline starts there; the match covers only whitespace |
| Sentences.SplitSpans | backend/services/mention_tracker.py:268-269 | `re.split` yields at least one piece, in order and disjoint, from the start to the end of the transcript; each gap between two pieces is exactly one separator match, and no separator starts inside a piece |
| Sentences.SplitFromInOrder | backend/services/mention_tracker.py:269 | the pieces the left-to-right search cuts run in order from where the search started to the end of the text |
| Sentences.SplitFromGaps | backend/services/mention_tracker.py:269 | every cut the search makes removes exactly the separator the pattern matches there |
| Sentences.SplitFromNoSeparatorInside | backend/services/mention_tracker.py:269 | the search cuts at the first separator it meets, so no separator starts inside a piece |
| Sentences.Pieces | backend/services/mention_tracker.py:269 | each piece is the text of its span: the transcript between two separators, none inside it |
| Sentences.EntryAtFacts | backend/services/mention_tracker.py:273-300 | a blank piece, or one holding no mention, gives no entry. An entry holds the stripped piece and its running offset, and it counts its mentions, at least one. It refers to exactly the mentions inside the piece, each placed within it |
| Sentences.ExtractSentences | backend/services/mention_tracker.py:264-304 | the loop with the `current_pos` accumulator computes `Entries` over the split pieces |
| Sentences.EntryFacts | backend/services/mention_tracker.py:286-300 | every entry counts its mentions (at least one) and is a non-blank stripped piece at its running offset. Each mention lies within the piece: `0 <= position_in_sentence < len(piece)` |
| Sentences.OffsetExact | backend/services/mention_tracker.py:271-302 | the running offset is the piece's true position when every earlier piece is non-blank and every earlier separator is one character |
| Sentences.OffsetDrifts | backend/services/mention_tracker.py:271-302 | after a non-blank piece followed by a separator longer than one character, the running offset stays behind the true position of every later piece |
| MentionTracker.TaskTextFacts | backend/services/mention_tracker.py:339-343 | a capture is kept exactly when its stripped text is longer than five characters. The kept text is stripped, does not start with a lower-case letter, and equals the stripped capture ignoring case |
| MentionTracker.SentenceTaskOrigin | backend/services/mention_tracker.py:336-351 | each task of a sentence comes from one of its captures, is assigned to the user, and has confidence "extracted" |
| MentionTracker.CandidateOrigin | backend/services/mention_tracker.py:333-351 | each candidate task comes from a capture of one of the sentence entries |
| MentionTracker.TasksOrigin | backend/services/mention_tracker.py:333-362 | every assigned task has `assigned_to == username` and `confidence == "extracted"`. Its text is stripped, longer than five characters and not lower-case-initial, and it is taken from a capture of one of the sentences |
| MentionTracker.TasksUnique | backend/services/mention_tracker.py:353-362 | no two tasks share their lowercased text. The tasks keep the candidates' order, and every candidate's text is represented |
| MentionTracker.TasksKeepFirst | backend/services/mention_tracker.py:356-360 | each kept task is the first candidate with its lowercased text |
| MentionTracker.CollectSentenceTasks | backend/services/mention_tracker.py:338-351 | the loop over one sentence's captures computes `SentenceTasks` |
| MentionTracker.ExtractTaskAssignments | backend/services/mention_tracker.py:323-362 | `_extract_task_assignments` after the regex matching computes `Tasks` |
| Common.KeepFirstByKey | backend/services/mention_tracker.py:354-360 | the loop with a `seen` set keeps the first element per key, which is `FirstByKey` |
| Common.FirstByKey | backend/services/mention_tracker.py:354-360 | the kept elements have pairwise distinct keys, and every key of the input is represented |
| Common.FirstByKeyKeepsFirst | backend/services/personal_insights.py:147-153 | each kept element is the first of its key in the input |
| MentionTracker.SpeakerMentionsFacts | backend/services/mention_tracker.py:381-400 | the named segments are those with a non-empty speaker label whose lowercase contains a variation. They form a subsequence of the input, there are as many records as named segments, and the k-th record is that of the k-th named segment, so records keep input order |
| MentionTracker.GetSpeakerMentions | backend/services/mention_tracker.py:379-400 | the loop with `continue` and `break` computes `SpeakerMentions` |
| MentionTracker.Engagement | backend/services/mention_tracker.py:436-447 | the level is one of the five, and "none" exactly when the count is not positive |
| MentionTracker.EngagementBands | backend/services/mention_tracker.py:438-447 | high at 20 or more, medium from 10 to 19, moderate from 5 to 9, low from 1 to 4 |
| MentionTracker.EngagementMonotone | backend/services/mention_tracker.py:436-447 | more mentions never give a lower level |
| MentionTracker.Statistics | backend/services/mention_tracker.py:415-424 | a missing result gives no statistics; otherwise the mention and sentence totals are the result's counts, the task and speaker counts are the list lengths, and the engagement is the level of the mention count, "none" exactly when no mention was counted |
| MentionTracker.StatisticsOfTracked | backend/services/mention_tracker.py:415-424 | for a tracking result the statistics count the mentions and the sentences, and the engagement is never "none" |
| MentionTracker.TrackMentions | backend/services/mention_tracker.py:55-112 | the result is None exactly for an empty name or transcript (tested before `strip`) or when nothing matches. Otherwise `mention_count == len(mentions) >= 1` and `sentence_count == len(sentences_with_mentions)`. It holds the found mentions, their rendering, the sentence entries and the tasks, and the speaker mentions only with diarization |
| MentionTracker.BlankNameMatchesBoundaries | backend/services/mention_tracker.py:56-64 | a whitespace-only name passes the emptiness test and becomes the variation "", which matches at every word boundary |
| MentionTracker.BlankNameIsTracked | backend/services/mention_tracker.py:56-73 | so a whitespace-only name is tracked in any transcript that holds a word character |
| ActionItems.ActionVerbInContext | backend/services/action_items.py:72-74 | the verb test asks whether a listed verb phrase is a substring of the lowercased text, so a text that passes still passes with anything around it |
| ActionItems.Priority | backend/services/action_items.py:95-103 | the priority is high, medium or low |
| ActionItems.PriorityRule | backend/services/action_items.py:95-103 | "high" exactly when a high keyword occurs, "low" exactly when no high keyword but a low one occurs, "medium" exactly when neither occurs; the medium keywords play no part |
| ActionItems.Confidence | backend/services/action_items.py:114-124 | the score, in tenths, never exceeds 1.0 |
| ActionItems.CalculateConfidence | backend/services/action_items.py:114-124 | the step-by-step accumulation computes `Confidence` |
| ActionItems.ConfidenceAccepts | backend/services/action_items.py:47-54 | with the action verb present the score reaches 0.6 exactly when there is an assignee, or a deadline in a sentence of 5 to 30 words |
| ActionItems.ConfidenceMonotone | backend/services/action_items.py:114-124 | each signal can only raise the score |
| ActionItems.FirstPrefix | backend/services/action_items.py:106-107 | the anchored alternation takes the first listed word that starts the text, ignoring case, and fails only when none does |
| ActionItems.StripFiller | backend/services/action_items.py:106 | removing the filler leaves a suffix of the text |
| ActionItems.StripRequest | backend/services/action_items.py:107 | removing the request phrase leaves a suffix of the text |
| ActionItems.StripAddressee | backend/services/action_items.py:108 | removing the addressee leaves a suffix of the text |
| ActionItems.TaskDescriptionFacts | backend/services/action_items.py:105-112 | the description is empty exactly when only whitespace is left after the three prefixes. Otherwise it is the stripped rest with its first character upper-cased: stripped, not starting with a lower-case letter, and equal to the stripped rest from the second character on |
| ActionItems.StripFillerFacts | backend/services/action_items.py:106 | the text changes exactly when it starts with a filler word, ignoring case. The removed part is that word, at most one comma and whitespace, and the rest does not start with whitespace |
| ActionItems.RequestEnd | backend/services/action_items.py:107 | the result is the length of a request phrase the text starts with, ignoring case, and whitespace follows it. There is no result exactly when no phrase is followed by whitespace |
| ActionItems.StripRequestFacts | backend/services/action_items.py:107 | the text changes exactly when it starts with a request phrase followed by whitespace. The phrase and all of the whitespace after it are removed |
| ActionItems.StripAddresseeFacts | backend/services/action_items.py:108 | the text changes exactly when it starts with an upper-case letter, one or more lower-case letters and a comma. That word, the comma and the whitespace after it are removed |
| ActionItems.FillerInsideWord | backend/services/action_items.py:106 | the filler pattern has no word boundary: "Sometimes" loses its "So" |
| ActionItems.OneFillerOnly | backend/services/action_items.py:106 | only one filler is removed: "so so" becomes "so" |
| ActionItems.WordAlternativeAt | backend/services/action_items.py:24-26 | `\b(w1\|w2\|…)\b` matches at an index with the first listed word that stands there as a whole word, and fails only when none does |
| ActionItems.Search | backend/services/action_items.py:90 | `re.search` finds the leftmost match of the pattern, and fails only when the pattern matches nowhere |
| ActionItems.Title | backend/services/action_items.py:92 | `title()` keeps the length |
| ActionItems.DeadlineFacts | backend/services/action_items.py:87-93 | there is no deadline exactly when no pattern matches the lowercased text. Otherwise the deadline is the title-cased leftmost match of the first pattern in list order that matches anywhere |
| ActionItems.FirstRole | backend/services/action_items.py:80-84 | the first listed role whose "the <role>" occurs in the text, and none only when no role occurs |
| ActionItems.Assignee | backend/services/action_items.py:76-85 | the PERSON texts joined with " and ", else "The <role>" for the first listed role named in the sentence; nothing exactly when there is no person and no role |
| ActionItems.OrDefault | backend/services/action_items.py:57-58 | `value or default` gives the default, or the non-empty value |
| ActionItems.ItemForRule | backend/services/action_items.py:37-62 | a sentence yields an item exactly when its stripped text has an action verb and a non-empty description, and it has an assignee or a deadline with 5 to 30 words. The item's context is the stripped sentence and its confidence is at least 0.6. A missing assignee becomes "Unassigned" and a missing deadline "No deadline specified" |
| ActionItems.PrioritySortSorted | backend/services/action_items.py:65-66 | the sorted items are ordered high, medium, low |
| ActionItems.PrioritySortPermutation | backend/services/action_items.py:65-66 | the sort is a permutation of the items |
| ActionItems.PrioritySortStable | backend/services/action_items.py:65-66 | the items of each priority keep their input order |
| ActionItems.ExtractActionItems | backend/services/action_items.py:37-67 | the loop over the sentences, followed by the sort, computes `PrioritySort(Collected(sentences))` |
| PersonalInsights.InsightVariations | backend/services/personal_insights.py:164-180 | the variations are pairwise distinct. They are exactly the lowercased name, its lowercased first word when it has several words, and its lowercased initials whenever it has a word |
| PersonalInsights.SingleWordInitial | backend/services/personal_insights.py:175-178 | a one-word name has its own lowercased initial among its variations |
| PersonalInsights.VariationsDifferOnOneWord | backend/services/personal_insights.py:171-178 | the two generators differ: for "Al" only the insights service adds "a" |
| PersonalInsights.ContainsNameMention | backend/services/personal_insights.py:182-198 | true exactly when some variation occurs as a whole word in the lowercased text |
| PersonalInsights.MatchReason | backend/services/personal_insights.py:125-144 | a segment is selected exactly when its stripped text is non-empty and either diarization is on and the speaker label contains the lowercased name, or a variation occurs as a whole word. The reason is "speaker_match" exactly when the speaker test succeeds, otherwise "name_mention" |
| PersonalInsights.MatchSegment | backend/services/personal_insights.py:126-144 | the loop body computes `MatchReason` |
| PersonalInsights.MatchedOrigin | backend/services/personal_insights.py:125-153 | every selected segment is an input segment, selected for the reason it carries |
| PersonalInsights.PersonalSegmentsFacts | backend/services/personal_insights.py:116-153 | the personal segments are a subsequence of the selected ones with pairwise distinct stripped texts, each an input segment with its own reason; every selected text is represented |
| PersonalInsights.PersonalSegmentsKeepFirst | backend/services/personal_insights.py:147-153 | each personal segment is the first selected segment with its stripped text |
| PersonalInsights.JoinNotBlank | backend/services/personal_insights.py:156 | a join that holds a non-blank part is not blank |
| PersonalInsights.TranscriptEmptyIffNoSegments | backend/services/personal_insights.py:156-162 | the personal transcript is empty exactly when no segment was selected |
| PersonalInsights.ExtractPersonalTranscript | backend/services/personal_insights.py:100-162 | the loop with `seen_texts` computes `PersonalSegments`, and the text is the stripped space-join of their texts |
| PersonalInsights.PersonalActionItemsFacts | backend/services/personal_insights.py:276-298 | the user's items are an order-preserving subsequence of the items. They are exactly the items whose lowercased assignee contains a variation, or whose non-empty lowercased task or context occurs in the lowercased personal transcript |
| PersonalInsights.IsRelevant | backend/services/personal_insights.py:277-295 | the `is_relevant` flag with its inner loop and `break` computes `Relevant` |
| PersonalInsights.ExtractPersonalActionItems | backend/services/personal_insights.py:258-304 | the loop computes `PersonalActionItems` |
| PersonalInsights.ExtractPersonalInsights | backend/services/personal_insights.py:50-91 | the result is None exactly for an empty or whitespace-only name or when no segment concerns the user. Otherwise it holds the name, the non-empty personal transcript, its segments, its summary and the user's action items, with `transcript_coverage == len(personal_segments)` and `action_items_count == len(assigned_tasks)` |
| Api.SpeakerForFacts | backend/app/api.py:154-160 | the speaker is that of the first turn in list order that overlaps the segment, whatever later turns say, and "Speaker_0" when no turn does |
| Api.TouchingTurnIgnored | backend/app/api.py:157-158 | a turn that only touches the segment at an end point never decides its speaker |
| Api.MergeTranscriptionDiarization | backend/app/api.py:140-183 | `full_text` is passed through and the language defaults to "en". The segments keep their number, order, times and texts, each with the speaker of its first overlapping turn; without diarization every speaker is "Speaker_0" |
| Summarization.PackAllInvariant | backend/services/summarization.py:62-70 | after every prefix the packing state holds the sentences seen so far in its chunks, within budget, with every closing justified |
| Summarization.FirstChunkEmpty | backend/services/summarization.py:59-66 | the first chunk is empty exactly when the first sentence alone is over 800 tokens |
| Summarization.ChunksFacts | backend/services/summarization.py:57-73 | the chunks concatenate back to `text.split('. ')`. A chunk of two or more sentences is within 800 tokens, and one over budget is a single sentence. Only the first chunk can be empty, exactly when the first sentence alone is over budget. Each later chunk was opened by a sentence that did not fit, and a non-empty list gives at least one chunk |
| Summarization.ChunksNotEmpty | backend/services/summarization.py:72-73 | at least one chunk is produced from a non-empty sentence list |
| Summarization.ChunkTexts | backend/services/summarization.py:65-73 | one text per chunk |
| Summarization.JoinChunkTexts | backend/services/summarization.py:57-73 | joining the joined chunks is joining their concatenation, when no chunk is empty |
| Summarization.ChunkTextsRebuildText | backend/services/summarization.py:57-73 | the chunk texts joined with ". " give the text back, preceded by ". " when the first chunk came out empty |
| Summarization.PackSentences | backend/services/summarization.py:58-73 | the loop with `chunks`, `current_chunk` and `current_length` computes `Chunks` |
| Summarization.SummarizeLongText | backend/services/summarization.py:56-84 | there is at least one chunk and one chunk summary per chunk, each with `max_length // len(chunks)`. The final summary summarises the summaries joined with spaces |
| Summarization.Summarize | backend/services/summarization.py:26-41 | the chunked path is taken exactly when the text is over 1024 characters. The result reports the lengths of the text and the summary, and an empty summary fails, as the compression ratio divides by its length |

## Left out

- The models themselves: Whisper transcription, the BART pipeline inside `_summarize_chunk`, the tokenizer and spaCy are foreign libraries. Their outputs are parameters (see above).
- Summarization.Summarize: does not keep `compression_ratio`, a float. Only its failure on an empty summary (the ZeroDivisionError) is modelled.
- ActionItems.Confidence: the score is in integer tenths, so `round(confidence, 2)` is not modelled. The float sums of the source reach the 0.6 threshold exactly when the tenths do.
- ActionItems.ExtractActionItems: starts from spaCy's sentences and PERSON entities; the parse of the text and the re-raise of exceptions are not modelled.
- MentionTracker.ExtractTaskAssignments: the four task regexes are not modelled; their `group(1)` captures per sentence are a parameter. The regexes interpolate the variations without escaping them.
- MentionTracker.TrackMentions: does not model the None that the catch-all handler returns when those unescaped task regexes fail to compile (a name holding `(`, say), nor the `tracked_at` timestamp or the logging.
- Mentions.TrackerVariations: fixes the order of `list(set(...))` to the order of first occurrence. Python's order is arbitrary, and the lemmas about finding and de-duplication hold for any order of the variations.
- PersonalInsights.InsightVariations: fixes the order of `list(set(...))` in the same way; no caller depends on it.
- Text.Lower: lower-casing, upper-casing, `isspace`, `\w` and `\d` cover ASCII only, so Unicode case folding and Unicode word characters are left out.
- `_generate_personal_summary` (personal_insights.py:219-256) is not modelled. It passes `min_length` to `summarize`, which does not accept it, and the exception is swallowed into "". The summary is an opaque parameter of `ExtractPersonalInsights`.
- `format_for_display` and both `get_status` methods are not modelled: they only repackage a result or return constant status records.
- Exceptions raised by dictionaries missing required keys (`transcription["segments"]`, `segment["start"]`) are not modelled. Optional keys read with `.get` are `Option` fields with the source's defaults.
- The `full_transcript` argument of `extract_personal_insights`, which is never read.
- async execution, logging, FastAPI routing and upload orchestration (backend/app/main.py), settings (backend/app/config.py), diarization, ONNX optimisation, audio processing and file handling are outside the modelled core.
