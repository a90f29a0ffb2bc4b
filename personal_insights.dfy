/** PersonalInsightsService in backend/services/personal_insights.py: the
    segments relevant to one user (by speaker label or by a whole-word mention
    of a name variation), de-duplicated by stripped text and joined into a
    personal transcript, and the action items relevant to that user.

    The personal summary comes from the summarisation model and is an opaque
    function of the personal transcript here. */
module PersonalInsights {
  import opened Common
  import opened Text
  import opened ActionItems
  import MentionTracker
  import Mentions

  type Segment = MentionTracker.Segment

  // ---------------------------------------------------------------- variations

  /** `_generate_name_variations`: the lowercased name, its lowercased first
      word when it has several words, and its lowercased initials whenever it
      has a word at all -- so a one-word name contributes its initial too. The
      order is that of first occurrence (the source returns `list(set(...))`,
      whose order no caller depends on). */
  function InsightVariations(name: string): (r: seq<string>)
    ensures forall i, j :: 0 <= i < j < |r| ==> r[i] != r[j]
    ensures var parts := SplitWords(name);
      forall v :: v in r <==>
        || v == Lower(name)
        || (|parts| > 1 && v == Lower(parts[0]))
        || (parts != [] && v == Lower(Initials(parts)))
  {
    var parts := SplitWords(name);
    var first := if |parts| > 1 then [Lower(parts[0])] else [];
    var initials := Initials(parts);
    var inits := if |initials| > 0 then [Lower(initials)] else [];
    var all := [Lower(name)] + first + inits;
    InThree(Lower(name), first, inits);
    Distinct(all)
  }

  /** A name of one word has its own lower-cased first letter among its
      variations (the tracker's generator does not add it). */
  lemma SingleWordInitial(name: string)
    requires name != [] && forall k :: 0 <= k < |name| ==> !IsSpace(name[k])
    ensures [LowerChar(name[0])] in InsightVariations(name)
  {
    var parts := SplitWords(name);
    assert WordEnd(name, 0) == |name| by {
      WordEndPastWord(name, 0);
    }
    WholePrefix(name);
    assert parts[0] == name;
    assert SplitWords(name[|name|..]) == [];
    assert parts == [name];
    assert Initials(parts) == [name[0]];
    assert Lower([name[0]]) == [LowerChar(name[0])];
  }

  /** In a string without whitespace the word starting at `i` runs to the end. */
  lemma {:induction false} WordEndPastWord(s: string, i: nat)
    requires i <= |s| && forall k :: 0 <= k < |s| ==> !IsSpace(s[k])
    ensures WordEnd(s, i) == |s|
    decreases |s| - i
  {
    if i < |s| {
      WordEndPastWord(s, i + 1);
    }
  }

  /** The two generators differ on "Al": the insights add the initial "a". */
  lemma VariationsDifferOnOneWord()
    ensures "a" in InsightVariations("Al")
    ensures "a" !in Mentions.MatchVariations("Al")
  {
    SingleWordInitial("Al");
    assert Lower("Al") == "al";
    assert ' ' !in "Al";
  }

  // ---------------------------------------------------------------- matching

  /** `_contains_name_mention`: some variation occurs in the lowercased text
      between two word boundaries (`re.search(r'\b' + re.escape(v) + r'\b', ...)`),
      trying the variations in order. */
  function ContainsNameMention(text: string, vs: seq<string>): (b: bool)
    ensures b <==> exists v :: v in vs && HasWholeWord(Lower(text), v)
    decreases |vs|
  {
    if vs == [] then false
    else
      assert forall v :: v in vs ==> v == vs[0] || v in vs[1..];
      HasWholeWord(Lower(text), vs[0]) || ContainsNameMention(text, vs[1..])
  }

  /** `_is_user_speaker`: the lowercased name is part of the lowercased label. */
  predicate IsUserSpeaker(speakerLabel: string, nameLower: string)
  {
    Contains(Lower(speakerLabel), nameLower)
  }

  /** The reason a segment is selected, if it is: a blank text never is; with
      diarization a speaker label naming the user wins; otherwise a whole-word
      mention of a variation in the text. */
  function MatchReason(s: Segment, nameLower: string, vs: seq<string>, diarization: bool): (r: Option<string>)
    ensures var text := Strip(GetOr(s.text, []));
      var bySpeaker := diarization && Contains(Lower(GetOr(s.speaker, [])), nameLower);
      && (r.Some? <==> text != [] && (bySpeaker || exists v :: v in vs && HasWholeWord(Lower(text), v)))
      && (r == Some("speaker_match") <==> text != [] && bySpeaker)
      && (r.Some? ==> r.value in ["speaker_match", "name_mention"])
  {
    var text := Strip(GetOr(s.text, []));
    LowerIdempotent(GetOr(s.speaker, []));
    if text == [] then None
    else if diarization && IsUserSpeaker(Lower(GetOr(s.speaker, [])), nameLower) then Some("speaker_match")
    else if ContainsNameMention(text, vs) then Some("name_mention")
    else None
  }

  /** A selected segment: the input segment with its `match_reason` added. */
  datatype PersonalSegment = PersonalSegment(segment: Segment, matchReason: string)

  /** The selected segments before de-duplication, in input order. */
  function Matched(segments: seq<Segment>, nameLower: string, vs: seq<string>, diarization: bool): seq<PersonalSegment>
    decreases |segments|
  {
    if segments == [] then []
    else
      var prev := Matched(Init(segments), nameLower, vs, diarization);
      match MatchReason(Last(segments), nameLower, vs, diarization)
      case Some(reason) => prev + [PersonalSegment(Last(segments), reason)]
      case None => prev
  }

  /** The de-duplication key: the stripped text. */
  function SegmentKey(p: PersonalSegment): string
  {
    Strip(GetOr(p.segment.text, []))
  }

  /** The text a selected segment contributes to the transcript. */
  function SegmentText(p: PersonalSegment): string
  {
    GetOr(p.segment.text, [])
  }

  /** The personal segments: the first selected segment for each stripped text. */
  function PersonalSegments(segments: seq<Segment>, nameLower: string, vs: seq<string>, diarization: bool): seq<PersonalSegment>
  {
    FirstByKey(Matched(segments, nameLower, vs, diarization), SegmentKey)
  }

  /** The personal transcript: the selected texts joined with spaces, stripped. */
  function PersonalTranscript(ps: seq<PersonalSegment>): string
  {
    Strip(Join(" ", Map(ps, SegmentText)))
  }

  /** Every selected segment is an input segment with a non-blank text that
      was selected for the reason it carries. */
  lemma {:induction false} MatchedOrigin(segments: seq<Segment>, nameLower: string, vs: seq<string>, diarization: bool, p: PersonalSegment)
    requires p in Matched(segments, nameLower, vs, diarization)
    ensures p.segment in segments
    ensures MatchReason(p.segment, nameLower, vs, diarization) == Some(p.matchReason)
    decreases |segments|
  {
    var prev := Matched(Init(segments), nameLower, vs, diarization);
    if p in prev {
      MatchedOrigin(Init(segments), nameLower, vs, diarization, p);
      assert p.segment in Init(segments);
    } else {
      assert Last(segments) in segments;
    }
  }

  /** The personal segments are selected input segments with pairwise distinct
      stripped texts, in input order; each is the first selected segment with
      its stripped text, and every selected text is represented. */
  lemma PersonalSegmentsFacts(segments: seq<Segment>, nameLower: string, vs: seq<string>, diarization: bool)
    ensures var ps := PersonalSegments(segments, nameLower, vs, diarization);
      var ms := Matched(segments, nameLower, vs, diarization);
      && Subseq(ps, ms)
      && (forall i, j :: 0 <= i < j < |ps| ==> SegmentKey(ps[i]) != SegmentKey(ps[j]))
      && (forall p :: p in ps ==> p.segment in segments && MatchReason(p.segment, nameLower, vs, diarization) == Some(p.matchReason))
      && (forall p :: p in ms ==> exists q :: q in ps && SegmentKey(q) == SegmentKey(p))
  {
    var ms := Matched(segments, nameLower, vs, diarization);
    var ps := FirstByKey(ms, SegmentKey);
    FirstByKeySubseq(ms, SegmentKey);
    SubseqMembers(ps, ms);
    forall p | p in ps ensures p.segment in segments && MatchReason(p.segment, nameLower, vs, diarization) == Some(p.matchReason) {
      MatchedOrigin(segments, nameLower, vs, diarization, p);
    }
    forall p | p in ms ensures exists q :: q in ps && SegmentKey(q) == SegmentKey(p) {
      FirstByKeyRepresents(ms, SegmentKey, p);
    }
  }

  /** Each personal segment is the first selected segment with its stripped
      text: no earlier selected segment has the same stripped text. */
  lemma PersonalSegmentsKeepFirst(segments: seq<Segment>, nameLower: string, vs: seq<string>, diarization: bool, p: PersonalSegment)
    requires p in PersonalSegments(segments, nameLower, vs, diarization)
    ensures FirstWithKey(Matched(segments, nameLower, vs, diarization), p)
  {
    var ms := Matched(segments, nameLower, vs, diarization);
    FirstByKeyKeepsFirst(ms, SegmentKey, p);
    var i :| 0 <= i < |ms| && ms[i] == p && forall j :: 0 <= j < i ==> SegmentKey(ms[j]) != SegmentKey(p);
    assert FirstWithKey(ms, p) by {
      assert 0 <= i < |ms| && ms[i] == p && forall j :: 0 <= j < i ==> SegmentKey(ms[j]) != SegmentKey(p);
    }
  }

  /** `p` occurs in `ms` with no earlier element of the same stripped text. */
  predicate FirstWithKey(ms: seq<PersonalSegment>, p: PersonalSegment)
  {
    exists i :: 0 <= i < |ms| && ms[i] == p && forall j :: 0 <= j < i ==> SegmentKey(ms[j]) != SegmentKey(p)
  }

  /** A join holding a part with a non-whitespace character is not blank. */
  lemma {:induction false} JoinNotBlank(sep: string, parts: seq<string>, k: nat)
    requires k < |parts| && !IsBlank(parts[k])
    ensures !IsBlank(Join(sep, parts))
    decreases |parts|
  {
    var i :| 0 <= i < |parts[k]| && !IsSpace(parts[k][i]);
    if |parts| > 1 {
      var rest := Join(sep, parts[1..]);
      if k == 0 {
        assert Join(sep, parts)[i] == parts[0][i];
      } else {
        JoinNotBlank(sep, parts[1..], k - 1);
        var j :| 0 <= j < |rest| && !IsSpace(rest[j]);
        assert Join(sep, parts)[|parts[0]| + |sep| + j] == rest[j];
      }
    }
  }

  /** The personal transcript is empty exactly when no segment was selected. */
  lemma TranscriptEmptyIffNoSegments(segments: seq<Segment>, nameLower: string, vs: seq<string>, diarization: bool)
    ensures var ps := PersonalSegments(segments, nameLower, vs, diarization);
      PersonalTranscript(ps) == [] <==> ps == []
  {
    var ms := Matched(segments, nameLower, vs, diarization);
    var ps := FirstByKey(ms, SegmentKey);
    var texts := Map(ps, SegmentText);
    StripFacts(Join(" ", texts));
    if ps != [] {
      assert ps[0] in ps;
      FirstByKeySubseq(ms, SegmentKey);
      SubseqMembers(ps, ms);
      MatchedOrigin(segments, nameLower, vs, diarization, ps[0]);
      StripFacts(SegmentText(ps[0]));
      JoinNotBlank(" ", texts, 0);
    }
  }

  /** `_extract_personal_transcript`: the loop over the segments with the
      `seen_texts` set, then the join of the kept segments' texts. */
  method ExtractPersonalTranscript(userName: string, segments: seq<Segment>, diarization: bool)
    returns (text: string, personal: seq<PersonalSegment>)
    ensures personal == PersonalSegments(segments, Lower(userName), InsightVariations(userName), diarization)
    ensures text == PersonalTranscript(personal)
  {
    personal := [];
    var seen: set<string> := {};
    var nameLower := Lower(userName);
    var vs := InsightVariations(userName);
    for i := 0 to |segments|
      invariant personal == FirstByKey(Matched(segments[..i], nameLower, vs, diarization), SegmentKey)
      invariant seen == KeySet(personal, SegmentKey)
    {
      var segment := segments[i];
      PrefixStep(segments, i);
      var matchReason := MatchSegment(segment, nameLower, vs, diarization);
      if matchReason.Some? {
        var p := PersonalSegment(segment, matchReason.value);
        FirstByKeyStep(Matched(segments[..i], nameLower, vs, diarization), p, SegmentKey, seen);
        var segmentText := Strip(GetOr(segment.text, []));
        if segmentText !in seen {
          personal := personal + [p];
          seen := seen + {segmentText};
        }
      }
    }
    WholePrefix(segments);
    text := Strip(Join(" ", Map(personal, SegmentText)));
  }

  /** The body of that loop up to the de-duplication: skip a blank text, try
      the speaker label when diarization is available, then the name mention. */
  method MatchSegment(segment: Segment, nameLower: string, vs: seq<string>, diarization: bool)
    returns (matchReason: Option<string>)
    ensures matchReason == MatchReason(segment, nameLower, vs, diarization)
  {
    var segmentText := Strip(GetOr(segment.text, []));
    if segmentText == [] {
      return None;
    }
    var isMatch := false;
    matchReason := None;
    if diarization {
      var speaker := Lower(GetOr(segment.speaker, []));
      if IsUserSpeaker(speaker, nameLower) {
        isMatch := true;
        matchReason := Some("speaker_match");
      }
    }
    if !isMatch {
      if ContainsNameMention(segmentText, vs) {
        isMatch := true;
        matchReason := Some("name_mention");
      }
    }
  }

  // ---------------------------------------------------------------- action items

  /** An action item concerns the user: a variation occurs in its non-empty
      lowercased assignee, or its non-empty lowercased task or context occurs
      in the lowercased personal transcript. */
  predicate Relevant(item: ActionItem, vs: seq<string>, transcriptLower: string)
  {
    var assignee := Lower(item.assignee);
    var task := Lower(item.task);
    var context := Lower(item.context);
    || (assignee != [] && exists v :: v in vs && Contains(assignee, v))
    || (task != [] && Contains(transcriptLower, task))
    || (context != [] && Contains(transcriptLower, context))
  }

  function RelevantTest(vs: seq<string>, transcriptLower: string): ActionItem -> bool
  {
    (item: ActionItem) => Relevant(item, vs, transcriptLower)
  }

  /** The user's action items. */
  function PersonalActionItems(userName: string, items: seq<ActionItem>, transcript: string): seq<ActionItem>
  {
    Filter(items, RelevantTest(InsightVariations(userName), Lower(transcript)))
  }

  /** The user's items are exactly the relevant ones, in their input order. */
  lemma PersonalActionItemsFacts(userName: string, items: seq<ActionItem>, transcript: string)
    ensures var r := PersonalActionItems(userName, items, transcript);
      && Subseq(r, items)
      && forall item :: item in r <==> item in items && Relevant(item, InsightVariations(userName), Lower(transcript))
  {
    FilterSubseq(items, RelevantTest(InsightVariations(userName), Lower(transcript)));
  }

  /** `_extract_personal_action_items`: the loop over the items that keeps
      the relevant ones, in order. */
  method ExtractPersonalActionItems(userName: string, items: seq<ActionItem>, transcript: string)
    returns (personal: seq<ActionItem>)
    ensures personal == PersonalActionItems(userName, items, transcript)
  {
    personal := [];
    var vs := InsightVariations(userName);
    var transcriptLower := Lower(transcript);
    for i := 0 to |items|
      invariant personal == Filter(items[..i], RelevantTest(vs, transcriptLower))
    {
      var item := items[i];
      PrefixStep(items, i);
      var isRelevant := IsRelevant(item, vs, transcriptLower);
      if isRelevant {
        personal := personal + [item];
      }
    }
    WholePrefix(items);
  }

  /** The body of that loop: the `is_relevant` flag, the inner loop over the
      variations that breaks at the first hit in the assignee, then the task
      and context tests. */
  method IsRelevant(item: ActionItem, vs: seq<string>, transcriptLower: string) returns (isRelevant: bool)
    ensures isRelevant == Relevant(item, vs, transcriptLower)
  {
    isRelevant := false;
    var assignee := Lower(item.assignee);
    if assignee != [] {
      for j := 0 to |vs|
        invariant !isRelevant
        invariant forall l :: 0 <= l < j ==> !Contains(assignee, vs[l])
      {
        if Contains(assignee, vs[j]) {
          isRelevant := true;
          break;
        }
      }
    }
    if !isRelevant {
      var taskText := Lower(item.task);
      var context := Lower(item.context);
      if taskText != [] && Contains(transcriptLower, taskText) {
        isRelevant := true;
      } else if context != [] && Contains(transcriptLower, context) {
        isRelevant := true;
      }
    }
  }

  // ---------------------------------------------------------------- insights

  datatype Insights = Insights(
    name: string,
    personalSummary: string,
    personalTranscript: string,
    personalSegments: seq<PersonalSegment>,
    assignedTasks: seq<ActionItem>,
    transcriptCoverage: nat,
    actionItemsCount: nat)

  /** `extract_personal_insights`: `None` for a blank name or when no segment
      concerns the user; otherwise the personal transcript, its segments, the
      user's action items and their counts. `summarize` stands for
      `_generate_personal_summary`. */
  method ExtractPersonalInsights(
    userName: string,
    segments: seq<Segment>,
    actionItems: seq<ActionItem>,
    diarization: bool,
    summarize: string -> string)
    returns (r: Option<Insights>)
    ensures r.None? <==> IsBlank(userName) || PersonalSegments(segments, Lower(userName), InsightVariations(userName), diarization) == []
    ensures r.Some? ==>
      var ps := PersonalSegments(segments, Lower(userName), InsightVariations(userName), diarization);
      var pt := PersonalTranscript(ps);
      var x := r.value;
      && x.name == userName
      && x.personalTranscript == pt != []
      && x.personalSegments == ps
      && x.personalSummary == summarize(pt)
      && x.assignedTasks == PersonalActionItems(userName, actionItems, pt)
      && x.transcriptCoverage == |x.personalSegments|
      && x.actionItemsCount == |x.assignedTasks|
  {
    StripFacts(userName);
    if userName == [] || Strip(userName) == [] {
      return None;
    }
    var text, personal := ExtractPersonalTranscript(userName, segments, diarization);
    TranscriptEmptyIffNoSegments(segments, Lower(userName), InsightVariations(userName), diarization);
    if text == [] {
      return None;
    }
    var summary := summarize(text);
    var tasks := ExtractPersonalActionItems(userName, actionItems, text);
    r := Some(Insights(userName, summary, text, personal, tasks, |personal|, |tasks|));
  }
}
