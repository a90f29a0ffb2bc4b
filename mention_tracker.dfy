/** The mention tracker's remaining steps and its entry point: post-processing
    of the task-assignment captures, the speaker-label matches, the engagement
    level and the statistics, and `track_mentions`, which chains the finder,
    the highlighter, the sentence extraction and these steps.

    The task regexes are not modelled: `captures(sentence)` stands for the
    `group(1)` strings their matches produce on a sentence, in the order the
    loops visit them. */
module MentionTracker {
  import opened Common
  import opened Text
  import opened Mentions
  import opened Highlight
  import opened Sentences

  // ------------------------------------------------------------ task assignments

  datatype AssignedTask = AssignedTask(
    task: string,
    assignedTo: string,
    sourceSentence: string,
    confidence: string)

  /** The task text a capture yields: the stripped capture with its first
      letter upper-cased, kept only when it is longer than five characters. */
  function TaskText(capture: string): Option<string>
  {
    var s := Strip(capture);
    if s != [] && |s| > 5 then Some(Capitalize(s)) else None
  }

  /** A kept task text is a stripped string of more than five characters that
      starts with a non-lower-case character and equals the stripped capture
      ignoring case. */
  lemma TaskTextFacts(capture: string)
    ensures TaskText(capture).Some? <==> |Strip(capture)| > 5
    ensures TaskText(capture).Some? ==> var s := TaskText(capture).value;
      && |s| > 5 && !IsLower(s[0])
      && Strip(s) == s
      && EqualFold(s, Strip(capture))
  {
    var s := Strip(capture);
    StripFacts(capture);
    if |s| > 5 {
      var c := Capitalize(s);
      assert c[|c| - 1] == s[|s| - 1];
      StripOfStripped(c);
    }
  }

  /** The tasks one sentence contributes, from its captures `caps`. */
  function SentenceTasks(sentence: string, caps: seq<string>, username: string): seq<AssignedTask>
    decreases |caps|
  {
    if caps == [] then []
    else
      var prev := SentenceTasks(sentence, Init(caps), username);
      match TaskText(Last(caps))
      case Some(text) => prev + [AssignedTask(text, username, sentence, "extracted")]
      case None => prev
  }

  /** The task list before de-duplication, over the sentence entries. */
  function Candidates(entries: seq<SentenceEntry>, captures: string -> seq<string>, username: string): seq<AssignedTask>
    decreases |entries|
  {
    if entries == [] then []
    else
      var e := Last(entries);
      Candidates(Init(entries), captures, username) + SentenceTasks(e.sentence, captures(e.sentence), username)
  }

  function TaskKey(t: AssignedTask): string
  {
    Lower(t.task)
  }

  /** `_extract_task_assignments` after the regex matching: the candidates,
      keeping the first task for each lowercased text. */
  function Tasks(entries: seq<SentenceEntry>, captures: string -> seq<string>, username: string): seq<AssignedTask>
  {
    FirstByKey(Candidates(entries, captures, username), TaskKey)
  }

  /** A task of one sentence comes from one of its captures. */
  lemma {:induction false} SentenceTaskOrigin(sentence: string, caps: seq<string>, username: string, x: AssignedTask)
    requires x in SentenceTasks(sentence, caps, username)
    ensures x.assignedTo == username && x.confidence == "extracted" && x.sourceSentence == sentence
    ensures exists c :: c in caps && TaskText(c) == Some(x.task)
    decreases |caps|
  {
    var prev := SentenceTasks(sentence, Init(caps), username);
    if x in prev {
      SentenceTaskOrigin(sentence, Init(caps), username, x);
      var c :| c in Init(caps) && TaskText(c) == Some(x.task);
      assert c in caps;
    } else {
      assert Last(caps) in caps;
    }
  }

  /** Task `x` was taken from sentence `sentence`, out of one of its captures. */
  predicate FromCapture(x: AssignedTask, sentence: string, captures: string -> seq<string>)
  {
    x.sourceSentence == sentence && exists c :: c in captures(sentence) && TaskText(c) == Some(x.task)
  }

  /** A candidate comes from a capture of one of the sentence entries. */
  lemma {:induction false} CandidateOrigin(entries: seq<SentenceEntry>, captures: string -> seq<string>, username: string, x: AssignedTask)
    requires x in Candidates(entries, captures, username)
    ensures x.assignedTo == username && x.confidence == "extracted"
    ensures exists i :: 0 <= i < |entries| && FromCapture(x, entries[i].sentence, captures)
    decreases |entries|
  {
    var init := Init(entries);
    var e := Last(entries);
    if x in Candidates(init, captures, username) {
      CandidateOrigin(init, captures, username, x);
      var i :| 0 <= i < |init| && FromCapture(x, init[i].sentence, captures);
      assert entries[i] == init[i];
    } else {
      SentenceTaskOrigin(e.sentence, captures(e.sentence), username, x);
      assert entries[|entries| - 1] == e;
      assert FromCapture(x, e.sentence, captures);
    }
  }

  /** Every assigned task is a kept capture of one of the sentences, assigned
      to the user with confidence "extracted": a stripped text of more than
      five characters that does not start with a lower-case letter. */
  lemma TasksOrigin(entries: seq<SentenceEntry>, captures: string -> seq<string>, username: string, x: AssignedTask)
    requires x in Tasks(entries, captures, username)
    ensures x.assignedTo == username && x.confidence == "extracted"
    ensures |x.task| > 5 && !IsLower(x.task[0]) && Strip(x.task) == x.task
    ensures exists i :: 0 <= i < |entries| && FromCapture(x, entries[i].sentence, captures)
  {
    var cs := Candidates(entries, captures, username);
    FirstByKeySubseq(cs, TaskKey);
    SubseqMembers(Tasks(entries, captures, username), cs);
    CandidateOrigin(entries, captures, username, x);
    var i :| 0 <= i < |entries| && FromCapture(x, entries[i].sentence, captures);
    var c :| c in captures(entries[i].sentence) && TaskText(c) == Some(x.task);
    TaskTextFacts(c);
  }

  /** No two assigned tasks share their lowercased text; they keep the
      candidates' order, each is the first candidate with its lowercased text,
      and every candidate's text is represented. */
  lemma TasksUnique(entries: seq<SentenceEntry>, captures: string -> seq<string>, username: string)
    ensures var ts := Tasks(entries, captures, username);
      var cs := Candidates(entries, captures, username);
      && (forall i, j :: 0 <= i < j < |ts| ==> Lower(ts[i].task) != Lower(ts[j].task))
      && Subseq(ts, cs)
      && (forall x :: x in cs ==> exists y :: y in ts && Lower(y.task) == Lower(x.task))
  {
    var ts := Tasks(entries, captures, username);
    var cs := Candidates(entries, captures, username);
    FirstByKeySubseq(cs, TaskKey);
    forall i, j | 0 <= i < j < |ts| ensures Lower(ts[i].task) != Lower(ts[j].task) {
      assert TaskKey(ts[i]) != TaskKey(ts[j]);
    }
    forall x | x in cs ensures exists y :: y in ts && Lower(y.task) == Lower(x.task) {
      assert HasKey(ts, TaskKey, TaskKey(x));
      var j :| 0 <= j < |ts| && TaskKey(ts[j]) == TaskKey(x);
      assert ts[j] in ts;
    }
  }

  /** `x` occurs in `cs` with no earlier element of the same lowercased text. */
  predicate FirstWithText(cs: seq<AssignedTask>, x: AssignedTask)
  {
    exists i :: 0 <= i < |cs| && cs[i] == x && forall j :: 0 <= j < i ==> Lower(cs[j].task) != Lower(x.task)
  }

  /** Each assigned task is the first candidate with its lowercased text. */
  lemma TasksKeepFirst(entries: seq<SentenceEntry>, captures: string -> seq<string>, username: string, x: AssignedTask)
    requires x in Tasks(entries, captures, username)
    ensures FirstWithText(Candidates(entries, captures, username), x)
  {
    var cs := Candidates(entries, captures, username);
    FirstByKeyKeepsFirst(cs, TaskKey, x);
    var i :| 0 <= i < |cs| && cs[i] == x && forall j :: 0 <= j < i ==> TaskKey(cs[j]) != TaskKey(x);
    forall j | 0 <= j < i ensures Lower(cs[j].task) != Lower(x.task) {
      assert TaskKey(cs[j]) != TaskKey(x);
    }
  }

  /** The inner loop over one sentence's captures. */
  method CollectSentenceTasks(text: string, caps: seq<string>, username: string) returns (tasks: seq<AssignedTask>)
    ensures tasks == SentenceTasks(text, caps, username)
  {
    tasks := [];
    for j := 0 to |caps|
      invariant tasks == SentenceTasks(text, caps[..j], username)
    {
      PrefixStep(caps, j);
      match TaskText(caps[j])
      case Some(taskText) =>
        tasks := tasks + [AssignedTask(taskText, username, text, "extracted")];
      case None =>
    }
    WholePrefix(caps);
  }

  /** `_extract_task_assignments` after the regex matching: the loops over the
      sentences and their captures, then the loop that keeps the first task per
      lowercased text with a `seen` set. */
  method ExtractTaskAssignments(sentences: seq<SentenceEntry>, username: string, captures: string -> seq<string>)
    returns (unique: seq<AssignedTask>)
    ensures unique == Tasks(sentences, captures, username)
  {
    var tasks: seq<AssignedTask> := [];
    for i := 0 to |sentences|
      invariant tasks == Candidates(sentences[..i], captures, username)
    {
      var text := sentences[i].sentence;
      PrefixStep(sentences, i);
      var more := CollectSentenceTasks(text, captures(text), username);
      tasks := tasks + more;
    }
    WholePrefix(sentences);
    unique := KeepFirstByKey(tasks, TaskKey);
  }

  // ------------------------------------------------------------ speaker mentions

  /** A transcript segment; `None` stands for a key missing from the segment's
      dictionary. */
  datatype Segment = Segment(
    index: Option<int>,
    speaker: Option<string>,
    text: Option<string>,
    start: Option<real>,
    end: Option<real>)

  datatype SpeakerMention = SpeakerMention(
    segmentIndex: int,
    speaker: string,
    text: string,
    startTime: real,
    endTime: real,
    mentionType: string)

  /** The segment has a non-empty speaker label whose lowercase form contains
      one of the variations. */
  predicate SpeakerNamed(s: Segment, vs: seq<string>)
  {
    s.speaker.Some? && s.speaker.value != [] && exists v :: v in vs && Contains(Lower(s.speaker.value), v)
  }

  function SpeakerTest(vs: seq<string>): Segment -> bool
  {
    (s: Segment) => SpeakerNamed(s, vs)
  }

  /** The record for a segment, with the source's defaults for missing keys. */
  function ToSpeakerMention(s: Segment): SpeakerMention
  {
    SpeakerMention(GetOr(s.index, 0), GetOr(s.speaker, []), GetOr(s.text, []),
      GetOr(s.start, 0.0), GetOr(s.end, 0.0), "speaker")
  }

  /** The records of the segments whose speaker label names the user, in order. */
  function SpeakerMentions(segments: seq<Segment>, vs: seq<string>): seq<SpeakerMention>
  {
    Map(Filter(segments, SpeakerTest(vs)), ToSpeakerMention)
  }

  /** The records are those of the segments whose speaker label names the
      user, one per segment and in input order: the named segments form a
      subsequence of the input and the k-th record is that of the k-th named
      segment. */
  lemma SpeakerMentionsFacts(segments: seq<Segment>, vs: seq<string>)
    ensures var kept := Filter(segments, SpeakerTest(vs));
      var out := SpeakerMentions(segments, vs);
      && Subseq(kept, segments)
      && (forall s :: s in kept <==> s in segments && SpeakerNamed(s, vs))
      && |out| == |kept| <= |segments|
      && (forall k :: 0 <= k < |kept| ==> out[k] == ToSpeakerMention(kept[k]))
    ensures forall r :: r in SpeakerMentions(segments, vs) ==>
      exists s :: s in segments && SpeakerNamed(s, vs) && r == ToSpeakerMention(s)
    ensures forall s :: s in segments && SpeakerNamed(s, vs) ==> ToSpeakerMention(s) in SpeakerMentions(segments, vs)
  {
    var kept := Filter(segments, SpeakerTest(vs));
    var out := SpeakerMentions(segments, vs);
    FilterSubseq(segments, SpeakerTest(vs));
    forall r | r in out ensures exists s :: s in segments && SpeakerNamed(s, vs) && r == ToSpeakerMention(s) {
      var k :| 0 <= k < |out| && out[k] == r;
      assert kept[k] in kept;
    }
    forall s | s in segments && SpeakerNamed(s, vs) ensures ToSpeakerMention(s) in out {
      var k :| 0 <= k < |kept| && kept[k] == s;
      assert out[k] == ToSpeakerMention(s);
    }
  }

  /** `_get_speaker_mentions`: skip segments without a speaker, and record a
      segment at the first variation its lowercased speaker contains. */
  method GetSpeakerMentions(segments: seq<Segment>, vs: seq<string>) returns (out: seq<SpeakerMention>)
    ensures out == SpeakerMentions(segments, vs)
  {
    out := [];
    for i := 0 to |segments|
      invariant out == SpeakerMentions(segments[..i], vs)
    {
      var segment := segments[i];
      PrefixStep(segments, i);
      if segment.speaker.None? || segment.speaker.value == [] {
        continue;
      }
      var speaker := Lower(segment.speaker.value);
      var found := false;
      for j := 0 to |vs|
        invariant !found
        invariant forall l :: 0 <= l < j ==> !Contains(speaker, vs[l])
      {
        if Contains(speaker, vs[j]) {
          out := out + [ToSpeakerMention(segment)];
          found := true;
          break;
        }
      }
      if !found {
        assert !SpeakerNamed(segment, vs);
      }
    }
    WholePrefix(segments);
  }

  // ------------------------------------------------------------ engagement

  /** `_calculate_engagement`. */
  function Engagement(mentionCount: int): (level: string)
    ensures level == "none" <==> mentionCount <= 0
    ensures level in ["none", "low", "moderate", "medium", "high"]
  {
    if mentionCount >= 20 then "high"
    else if mentionCount >= 10 then "medium"
    else if mentionCount >= 5 then "moderate"
    else if mentionCount > 0 then "low"
    else "none"
  }

  /** The order of the levels. */
  function LevelRank(level: string): nat
  {
    if level == "high" then 4
    else if level == "medium" then 3
    else if level == "moderate" then 2
    else if level == "low" then 1
    else 0
  }

  /** The bands of the engagement levels. */
  lemma EngagementBands(n: int)
    ensures Engagement(n) == "high" <==> n >= 20
    ensures Engagement(n) == "medium" <==> 10 <= n < 20
    ensures Engagement(n) == "moderate" <==> 5 <= n < 10
    ensures Engagement(n) == "low" <==> 0 < n < 5
  {
  }

  /** More mentions never give a lower engagement level. */
  lemma EngagementMonotone(a: int, b: int)
    requires a <= b
    ensures LevelRank(Engagement(a)) <= LevelRank(Engagement(b))
  {
  }

  // ------------------------------------------------------------ track_mentions

  datatype TrackResult = TrackResult(
    username: string,
    highlightTranscript: string,
    mentionCount: nat,
    mentions: seq<Mention>,
    sentencesWithMentions: seq<SentenceEntry>,
    sentenceCount: nat,
    assignedTasks: seq<AssignedTask>,
    speakerMentions: seq<SpeakerMention>,
    trackingStatus: string)

  datatype MentionStatistics = MentionStatistics(
    totalMentions: nat,
    sentenceMentions: nat,
    taskCount: nat,
    speakerMentions: nat,
    engagementLevel: string)

  /** `get_mention_statistics`; `None` stands for the empty dictionary it
      returns for a missing result. */
  function Statistics(r: Option<TrackResult>): (s: Option<MentionStatistics>)
    ensures s.None? <==> r.None?
    ensures s.Some? ==>
      && s.value.totalMentions == r.value.mentionCount
      && s.value.sentenceMentions == r.value.sentenceCount
      && s.value.taskCount == |r.value.assignedTasks|
      && s.value.speakerMentions == |r.value.speakerMentions|
      && s.value.engagementLevel == Engagement(r.value.mentionCount)
      && (s.value.engagementLevel == "none" <==> r.value.mentionCount == 0)
  {
    match r
    case None => None
    case Some(t) =>
      Some(MentionStatistics(t.mentionCount, t.sentenceCount, |t.assignedTasks|,
        |t.speakerMentions|, Engagement(t.mentionCount)))
  }

  /** What `track_mentions` guarantees of a result it returns. */
  predicate Tracked(t: TrackResult)
  {
    && t.mentionCount == |t.mentions| >= 1
    && t.sentenceCount == |t.sentencesWithMentions|
    && t.trackingStatus == "success"
  }

  /** For a result of `track_mentions`, the statistics count the mentions and
      the sentences, and the engagement is never "none". */
  lemma StatisticsOfTracked(t: TrackResult)
    requires Tracked(t)
    ensures var s := Statistics(Some(t)).value;
      && s.totalMentions == |t.mentions|
      && s.sentenceMentions == |t.sentencesWithMentions|
      && s.engagementLevel != "none"
  {
  }

  /** `track_mentions`: `None` for an empty name or transcript (tested before
      the name is stripped) and when nothing matches; otherwise the found
      mentions, the highlighted transcript, the sentence entries, the tasks and,
      with diarization, the speaker mentions. */
  method TrackMentions(
    username: string,
    transcript: string,
    segments: seq<Segment>,
    diarizationAvailable: bool,
    captures: string -> seq<string>)
    returns (r: Option<TrackResult>)
    ensures r.None? <==> username == [] || transcript == [] || NoMatch(transcript, MatchVariations(Strip(username)))
    ensures r.Some? ==>
      var u := Strip(username);
      var vs := MatchVariations(u);
      var t := r.value;
      && Tracked(t)
      && t.username == u
      && t.mentions == Dedup(RawMentions(transcript, vs))
      && Spread(transcript, t.mentions) && Faithful(transcript, t.mentions)
      && t.highlightTranscript == Render(transcript, t.mentions)
      && |t.highlightTranscript| == |transcript| + 19 * t.mentionCount
      && ('[' !in transcript ==> RemoveMarkers(t.highlightTranscript) == transcript)
      && t.sentencesWithMentions == Entries(Pieces(transcript), t.mentions)
      && t.assignedTasks == Tasks(t.sentencesWithMentions, captures, u)
      && t.speakerMentions == (if diarizationAvailable then SpeakerMentions(segments, vs) else [])
  {
    if username == [] || transcript == [] {
      return None;
    }
    var u := Strip(username);
    StrippedNameHasVariations(username);
    var vs := TrackerVariations(u).value;
    var mentions := FindMentions(transcript, vs);
    if mentions == [] {
      return None;
    }
    FoundAreSpread(transcript, mentions);
    HighlightOfSpread(transcript, mentions);
    var highlighted := BuildHighlighted(transcript, mentions);
    var sentences := ExtractSentences(transcript, mentions);
    var tasks := ExtractTaskAssignments(sentences, u, captures);
    var speakerMentions: seq<SpeakerMention> := [];
    if diarizationAvailable {
      speakerMentions := GetSpeakerMentions(segments, vs);
    }
    r := Some(TrackResult(u, highlighted, |mentions|, mentions, sentences, |sentences|,
      tasks, speakerMentions, "success"));
  }

  // ------------------------------------------------------------ the blank name

  /** A name of whitespace only passes the emptiness test, strips to "", and
      its only variation "" matches at every word boundary of the transcript:
      the mentions are zero-width. */
  lemma BlankNameMatchesBoundaries(username: string, t: string)
    requires username != [] && IsBlank(username)
    ensures MatchVariations(Strip(username)) == [""]
    ensures forall i :: 0 <= i <= |t| ==> (MatchesAt(t, "", i) <==> IsBoundary(t, i))
  {
    StripFacts(username);
    assert ' ' !in Strip(username);
    assert Lower([]) == [];
    forall i | 0 <= i <= |t| ensures MatchesAt(t, "", i) <==> IsBoundary(t, i) {
      assert t[i..i] == [];
    }
  }

  /** So a blank name is tracked in any transcript holding a word character. */
  lemma BlankNameIsTracked(username: string, t: string, k: nat)
    requires username != [] && IsBlank(username)
    requires k < |t| && IsWordChar(t[k])
    ensures !NoMatch(t, MatchVariations(Strip(username)))
  {
    BlankNameMatchesBoundaries(username, t);
    var i := FirstWordStart(t, k);
    assert IsBoundary(t, i);
    assert MatchesAt(t, "", i);
    assert "" in MatchVariations(Strip(username));
  }

  /** Going left from a word character, the start of its word. */
  function FirstWordStart(t: string, k: nat): (i: nat)
    requires k < |t| && IsWordChar(t[k])
    ensures i <= k && IsWordChar(t[i]) && (i == 0 || !IsWordChar(t[i - 1]))
  {
    if k > 0 && IsWordChar(t[k - 1]) then FirstWordStart(t, k - 1) else k
  }
}
