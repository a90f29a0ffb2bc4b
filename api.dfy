/** `merge_transcription_diarization` in backend/app/api.py: every transcript
    segment takes the speaker of the first diarization turn that overlaps it
    strictly, or "Speaker_0". Times are only compared, so they are reals. */
module Api {
  import opened Common

  /** A segment of the speech-to-text result. */
  datatype TranscriptSegment = TranscriptSegment(start: real, end: real, text: string)

  /** The speech-to-text result; `language` is `None` when the key is missing. */
  datatype Transcription = Transcription(text: string, segments: seq<TranscriptSegment>, language: Option<string>)

  /** One diarization turn: a speaker talking from `start` to `end`. */
  datatype Turn = Turn(start: real, end: real, speaker: string)

  datatype SpeakerSegment = SpeakerSegment(start: real, end: real, text: string, speaker: string)

  datatype Merged = Merged(fullText: string, segments: seq<SpeakerSegment>, language: string)

  const DefaultSpeaker := "Speaker_0"

  /** The turn and the segment share a stretch of positive length; touching
      end points do not count. */
  predicate Overlaps(turn: Turn, s: TranscriptSegment)
  {
    turn.start < s.end && turn.end > s.start
  }

  /** The speaker of the first overlapping turn in list order, or the default. */
  function SpeakerFor(s: TranscriptSegment, turns: seq<Turn>): (speaker: string)
    decreases |turns|
  {
    if turns == [] then DefaultSpeaker
    else if Overlaps(turns[0], s) then turns[0].speaker
    else SpeakerFor(s, turns[1..])
  }

  /** Turn `k` is the first that overlaps the segment. */
  predicate FirstOverlap(s: TranscriptSegment, turns: seq<Turn>, k: nat)
  {
    k < |turns| && Overlaps(turns[k], s) && forall j :: 0 <= j < k ==> !Overlaps(turns[j], s)
  }

  /** The speaker is that of the first overlapping turn when one exists, and the
      default when none does -- whatever the later turns say. */
  lemma {:induction false} SpeakerForFacts(s: TranscriptSegment, turns: seq<Turn>)
    ensures (forall t :: t in turns ==> !Overlaps(t, s)) ==> SpeakerFor(s, turns) == DefaultSpeaker
    ensures forall k: nat :: FirstOverlap(s, turns, k) ==> SpeakerFor(s, turns) == turns[k].speaker
    ensures SpeakerFor(s, turns) == DefaultSpeaker || exists k: nat :: FirstOverlap(s, turns, k)
    decreases |turns|
  {
    if turns != [] {
      var rest := turns[1..];
      SpeakerForFacts(s, rest);
      assert forall t :: t in rest ==> t in turns;
      forall k: nat | FirstOverlap(s, turns, k) ensures SpeakerFor(s, turns) == turns[k].speaker {
        if k > 0 {
          assert !Overlaps(turns[0], s);
          assert FirstOverlap(s, rest, k - 1);
        }
      }
      if Overlaps(turns[0], s) {
        assert FirstOverlap(s, turns, 0);
      } else if SpeakerFor(s, rest) != DefaultSpeaker {
        var k: nat :| FirstOverlap(s, rest, k);
        assert FirstOverlap(s, turns, k + 1);
      }
    }
  }

  /** A turn that only touches the segment at an end point never decides its
      speaker. */
  lemma TouchingTurnIgnored(s: TranscriptSegment, t: Turn, rest: seq<Turn>)
    requires t.end == s.start || t.start == s.end
    ensures SpeakerFor(s, [t] + rest) == SpeakerFor(s, rest)
  {
    assert ([t] + rest)[1..] == rest;
  }

  /** The merged record of one segment. */
  function Labelled(s: TranscriptSegment, speaker: string): SpeakerSegment
  {
    SpeakerSegment(s.start, s.end, s.text, speaker)
  }

  /** `merge_transcription_diarization`: with turns, the loop over the segments
      whose inner loop takes the first overlapping turn and breaks; without,
      "Speaker_0" everywhere. The full text is passed through and the language
      defaults to "en". */
  method MergeTranscriptionDiarization(transcription: Transcription, diarization: seq<Turn>)
    returns (merged: Merged)
    ensures merged.fullText == transcription.text
    ensures merged.language == GetOr(transcription.language, "en")
    ensures |merged.segments| == |transcription.segments|
    ensures forall i :: 0 <= i < |merged.segments| ==>
      merged.segments[i] == Labelled(transcription.segments[i], SpeakerFor(transcription.segments[i], diarization))
    ensures diarization == [] ==> forall i :: 0 <= i < |merged.segments| ==> merged.segments[i].speaker == DefaultSpeaker
  {
    var segments := transcription.segments;
    var withSpeakers: seq<SpeakerSegment> := [];
    if diarization != [] {
      for i := 0 to |segments|
        invariant |withSpeakers| == i
        invariant forall l :: 0 <= l < i ==> withSpeakers[l] == Labelled(segments[l], SpeakerFor(segments[l], diarization))
      {
        var segment := segments[i];
        var speaker := DefaultSpeaker;
        for j := 0 to |diarization|
          invariant SpeakerFor(segment, diarization) == SpeakerFor(segment, diarization[j..])
          invariant speaker == DefaultSpeaker
        {
          assert diarization[j..][1..] == diarization[j + 1..];
          if diarization[j].start < segment.end && diarization[j].end > segment.start {
            speaker := diarization[j].speaker;
            break;
          }
        }
        withSpeakers := withSpeakers + [Labelled(segment, speaker)];
      }
    } else {
      for i := 0 to |segments|
        invariant |withSpeakers| == i
        invariant forall l :: 0 <= l < i ==> withSpeakers[l] == Labelled(segments[l], DefaultSpeaker)
      {
        withSpeakers := withSpeakers + [Labelled(segments[i], DefaultSpeaker)];
      }
    }
    merged := Merged(transcription.text, withSpeakers, GetOr(transcription.language, "en"));
  }
}
