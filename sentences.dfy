/** Sentence extraction of the mention tracker: the transcript is cut with
    `re.split(r'(?<=[.!?])\s+|\n+', transcript)`, a running offset walks over the
    pieces, and every non-blank piece that contains mentions becomes an entry
    listing those mentions relative to the piece.

    The running offset is the source's own: it grows by the piece's length plus
    one after a non-blank piece and by the piece's length alone after a blank
    one, whatever the separator that followed was. `OffsetExact` states when that
    agrees with the piece's true position and `OffsetDrifts` how it falls
    behind after a longer separator. */
module Sentences {
  import opened Common
  import opened Text
  import opened Mentions

  // ------------------------------------------------------------ the splitter

  predicate IsTerminator(c: char) { c == '.' || c == '!' || c == '?' }

  /** End of the run of newlines starting at `i`. */
  function NewlineRunEnd(t: string, i: nat): (r: nat)
    requires i <= |t|
    ensures i <= r <= |t|
    ensures forall k :: i <= k < r ==> t[k] == '\n'
    ensures r == |t| || t[r] != '\n'
    decreases |t| - i
  {
    if i < |t| && t[i] == '\n' then NewlineRunEnd(t, i + 1) else i
  }

  /** Length of the separator the pattern matches at index `i`, 0 when it does
      not match there. The first alternative needs a `.`, `!` or `?` just before
      `i` and takes the whole whitespace run; the second takes a run of
      newlines. */
  function SeparatorAt(t: string, i: nat): (n: nat)
    requires i <= |t|
    ensures i + n <= |t|
    ensures forall k :: i <= k < i + n ==> IsSpace(t[k])
    ensures n > 0 <==> i < |t| && ((0 < i && IsTerminator(t[i - 1]) && IsSpace(t[i])) || t[i] == '\n')
  {
    if 0 < i < |t| && IsTerminator(t[i - 1]) && IsSpace(t[i]) then SpaceRunEnd(t, i) - i
    else if i < |t| && t[i] == '\n' then NewlineRunEnd(t, i) - i
    else 0
  }

  /** Where a piece of the split lies in the transcript. */
  datatype Span = Span(start: nat, end: nat)

  /** `re.split` from index `i`, the current piece having started at `j`: the
      search tries each index in turn, and a separator found at `i` closes the
      piece `j..i` and starts the next one after the separator. Its layout,
      gaps and pieces are stated by the lemmas below. */
  function SplitFrom(t: string, j: nat, i: nat): (r: seq<Span>)
    requires j <= i <= |t|
    ensures |r| >= 1 && r[0].start == j
    decreases |t| - i
  {
    if i == |t| then [Span(j, |t|)]
    else
      var n := SeparatorAt(t, i);
      if n > 0 then [Span(j, i)] + SplitFrom(t, i + n, i + n)
      else SplitFrom(t, j, i + 1)
  }

  /** The spans run in order from `j` to the end of `t`, each after the
      previous one ends. */
  predicate InOrderFrom(t: string, r: seq<Span>, j: nat)
  {
    && |r| >= 1 && r[0].start == j && Last(r).end == |t|
    && (forall k :: 0 <= k < |r| ==> j <= r[k].start <= r[k].end <= |t|)
    && (forall k, l :: 0 <= k < l < |r| ==> r[k].end < r[l].start)
  }

  /** Each gap between two consecutive spans is exactly the separator the
      pattern matches at the end of the first. */
  predicate GapsAreSeparators(t: string, r: seq<Span>)
  {
    forall k :: 0 <= k < |r| - 1 ==> r[k].end <= |t| && SeparatorAt(t, r[k].end) == r[k + 1].start - r[k].end
  }

  /** No separator starts inside a span; in the first one, only from `from` on. */
  predicate NoSeparatorInside(t: string, r: seq<Span>, from: nat)
  {
    forall k, p :: 0 <= k < |r| && r[k].start <= p < r[k].end <= |t| && (k > 0 || from <= p) ==> SeparatorAt(t, p) == 0
  }

  lemma {:induction false} SplitFromInOrder(t: string, j: nat, i: nat)
    requires j <= i <= |t|
    ensures InOrderFrom(t, SplitFrom(t, j, i), j)
    decreases |t| - i
  {
    if i < |t| {
      var n := SeparatorAt(t, i);
      if n > 0 {
        SplitFromInOrder(t, i + n, i + n);
        InOrderCons(t, Span(j, i), SplitFrom(t, i + n, i + n), n);
      } else {
        SplitFromInOrder(t, j, i + 1);
      }
    }
  }

  /** Each gap between two spans is exactly the separator the pattern matches
      at the end of the first. */
  lemma {:induction false} SplitFromGaps(t: string, j: nat, i: nat)
    requires j <= i <= |t|
    ensures GapsAreSeparators(t, SplitFrom(t, j, i))
    decreases |t| - i
  {
    if i < |t| {
      var n := SeparatorAt(t, i);
      if n > 0 {
        SplitFromGaps(t, i + n, i + n);
        GapsCons(t, Span(j, i), SplitFrom(t, i + n, i + n));
      } else {
        SplitFromGaps(t, j, i + 1);
      }
    }
  }

  /** No separator starts inside a span: the search moves on one index at a
      time and cuts at the first separator it meets (in the first span, from
      `i` on, as the search has not looked before `i`). */
  lemma {:induction false} SplitFromNoSeparatorInside(t: string, j: nat, i: nat)
    requires j <= i <= |t|
    ensures NoSeparatorInside(t, SplitFrom(t, j, i), i)
    decreases |t| - i
  {
    if i < |t| {
      var n := SeparatorAt(t, i);
      if n > 0 {
        SplitFromNoSeparatorInside(t, i + n, i + n);
        NoSeparatorCons(t, Span(j, i), SplitFrom(t, i + n, i + n));
      } else {
        SplitFromNoSeparatorInside(t, j, i + 1);
        NoSeparatorSkip(t, SplitFrom(t, j, i + 1), i);
      }
    }
  }

  lemma InOrderCons(t: string, s: Span, rest: seq<Span>, n: nat)
    requires s.start <= s.end && n > 0 && InOrderFrom(t, rest, s.end + n)
    ensures InOrderFrom(t, [s] + rest, s.start)
  {
    var r := [s] + rest;
    assert Last(r) == Last(rest);
    forall k | 0 <= k < |r| ensures s.start <= r[k].start <= r[k].end <= |t| {
      if k > 0 {
        assert r[k] == rest[k - 1];
      }
    }
    forall k, l | 0 <= k < l < |r| ensures r[k].end < r[l].start {
      assert r[l] == rest[l - 1];
      if k > 0 {
        assert r[k] == rest[k - 1];
      }
    }
  }

  lemma GapsCons(t: string, s: Span, rest: seq<Span>)
    requires rest != [] && s.end <= |t| && SeparatorAt(t, s.end) == rest[0].start - s.end
    requires GapsAreSeparators(t, rest)
    ensures GapsAreSeparators(t, [s] + rest)
  {
    var r := [s] + rest;
    forall k | 0 <= k < |r| - 1
      ensures r[k].end <= |t| && SeparatorAt(t, r[k].end) == r[k + 1].start - r[k].end
    {
      assert r[k + 1] == rest[k];
      if k > 0 {
        assert r[k] == rest[k - 1];
      }
    }
  }

  lemma NoSeparatorCons(t: string, s: Span, rest: seq<Span>)
    requires rest != [] && NoSeparatorInside(t, rest, rest[0].start)
    ensures NoSeparatorInside(t, [s] + rest, s.end)
  {
    var r := [s] + rest;
    forall k, p | 0 <= k < |r| && r[k].start <= p < r[k].end <= |t| && (k > 0 || s.end <= p)
      ensures SeparatorAt(t, p) == 0
    {
      if k > 0 {
        assert r[k] == rest[k - 1];
      }
    }
  }

  lemma NoSeparatorSkip(t: string, r: seq<Span>, i: nat)
    requires i < |t| && SeparatorAt(t, i) == 0
    requires NoSeparatorInside(t, r, i + 1)
    ensures NoSeparatorInside(t, r, i)
  {
  }

  /** The spans of the pieces: in order, covering the text but for the
      separators between them, each gap exactly one separator match, and no
      separator starting inside a piece. */
  function SplitSpans(t: string): (r: seq<Span>)
    ensures |r| >= 1 && r[0].start == 0 && Last(r).end == |t|
    ensures forall k :: 0 <= k < |r| ==> r[k].start <= r[k].end <= |t|
    ensures forall k, l :: 0 <= k < l < |r| ==> r[k].end < r[l].start
    ensures GapsAreSeparators(t, r)
    ensures NoSeparatorInside(t, r, 0)
  {
    SplitFromInOrder(t, 0, 0);
    SplitFromGaps(t, 0, 0);
    SplitFromNoSeparatorInside(t, 0, 0);
    SplitFrom(t, 0, 0)
  }

  /** The list `re.split` returns: the text of each span. */
  function Pieces(t: string): (r: seq<string>)
    ensures |r| == |SplitSpans(t)|
    ensures forall k :: 0 <= k < |r| ==> r[k] == t[SplitSpans(t)[k].start..SplitSpans(t)[k].end]
  {
    var sp := SplitSpans(t);
    seq(|sp|, k requires 0 <= k < |sp| => t[sp[k].start..sp[k].end])
  }

  // ------------------------------------------------------------ the entries

  datatype MentionRef = MentionRef(text: string, variation: string, positionInSentence: int)

  datatype SentenceEntry = SentenceEntry(
    sentence: string,
    position: nat,
    mentionCount: nat,
    mentions: seq<MentionRef>)

  /** How far the running offset moves past a piece. */
  function Advance(piece: string): nat
  {
    if IsBlank(piece) then |piece| else |piece| + 1
  }

  /** The running offset after the pieces `ps`. */
  function Offset(ps: seq<string>): nat
    decreases |ps|
  {
    if ps == [] then 0 else Offset(Init(ps)) + Advance(Last(ps))
  }

  function InPiece(start: nat, len: nat): Mention -> bool
  {
    (m: Mention) => start <= m.position < start + len
  }

  function RefAt(start: nat): Mention -> MentionRef
  {
    (m: Mention) => MentionRef(m.matchedText, m.variation, m.position - start)
  }

  /** The entry for one piece starting at offset `start`, if any: blank pieces
      and pieces holding no mention give none. */
  function EntryAt(piece: string, start: nat, ms: seq<Mention>): Option<SentenceEntry>
  {
    if IsBlank(piece) then None
    else
      var inside := Filter(ms, InPiece(start, |piece|));
      if inside == [] then None
      else Some(SentenceEntry(Strip(piece), start, |inside|, Map(inside, RefAt(start))))
  }

  /** What an entry holds: the stripped piece, its offset, and one reference
      per mention inside the piece, each placed within the piece. */
  lemma EntryAtFacts(piece: string, start: nat, ms: seq<Mention>)
    ensures var r := EntryAt(piece, start, ms);
      && (IsBlank(piece) ==> r.None?)
      && (r.None? <==> IsBlank(piece) || forall m :: m in ms ==> !InPiece(start, |piece|)(m))
      && (r.Some? ==> var e := r.value;
        && e.sentence == Strip(piece) && e.sentence != []
        && e.position == start
        && e.mentionCount == |e.mentions| >= 1
        && (forall x :: x in e.mentions ==> 0 <= x.positionInSentence < |piece|)
        && (forall m :: m in ms && InPiece(start, |piece|)(m) ==> RefAt(start)(m) in e.mentions)
        && (forall x :: x in e.mentions ==> exists m :: m in ms && InPiece(start, |piece|)(m) && x == RefAt(start)(m)))
  {
    if !IsBlank(piece) {
      var inside := Filter(ms, InPiece(start, |piece|));
      if inside != [] {
        var refs := Map(inside, RefAt(start));
        StripFacts(piece);
        forall x | x in refs
          ensures 0 <= x.positionInSentence < |piece|
          ensures exists m :: m in ms && InPiece(start, |piece|)(m) && x == RefAt(start)(m)
        {
          var k :| 0 <= k < |refs| && refs[k] == x;
          assert inside[k] in inside;
        }
        forall m | m in ms && InPiece(start, |piece|)(m) ensures RefAt(start)(m) in refs {
          var k :| 0 <= k < |inside| && inside[k] == m;
          assert refs[k] == RefAt(start)(m);
        }
      }
    }
  }

  function Emit(e: Option<SentenceEntry>): seq<SentenceEntry>
  {
    match e
    case Some(x) => [x]
    case None => []
  }

  /** The entries of the loop over the pieces `ps`, in order. */
  function Entries(ps: seq<string>, ms: seq<Mention>): seq<SentenceEntry>
    decreases |ps|
  {
    if ps == [] then []
    else Entries(Init(ps), ms) + Emit(EntryAt(Last(ps), Offset(Init(ps)), ms))
  }

  /** `_extract_sentences_with_mentions`: the loop with the `current_pos`
      accumulator over the split transcript. */
  method ExtractSentences(t: string, ms: seq<Mention>) returns (sentences: seq<SentenceEntry>)
    ensures sentences == Entries(Pieces(t), ms)
  {
    var ps := Pieces(t);
    sentences := [];
    var pos := 0;
    var k := 0;
    while k < |ps|
      invariant 0 <= k <= |ps|
      invariant pos == Offset(ps[..k])
      invariant sentences == Entries(ps[..k], ms)
    {
      var piece := ps[k];
      PrefixStep(ps, k);
      if IsBlank(piece) {
        pos := pos + |piece|;
        k := k + 1;
        continue;
      }
      var entry := EntryAt(piece, pos, ms);
      if entry.Some? {
        sentences := sentences + [entry.value];
      }
      pos := pos + |piece| + 1;
      k := k + 1;
    }
    WholePrefix(ps);
  }

  // ------------------------------------------------------------ properties

  /** Entry `e` is the one piece `k` of `ps` gives at its running offset. */
  predicate EntryOfPiece(ps: seq<string>, ms: seq<Mention>, k: nat, e: SentenceEntry)
  {
    k < |ps| && !IsBlank(ps[k]) && EntryAt(ps[k], Offset(ps[..k]), ms) == Some(e)
  }

  /** Every entry is the entry of one non-blank piece, taken at that piece's
      running offset. */
  lemma {:induction false} EntriesFromPieces(ps: seq<string>, ms: seq<Mention>, e: SentenceEntry)
    requires e in Entries(ps, ms)
    ensures exists k: nat :: EntryOfPiece(ps, ms, k, e)
    decreases |ps|
  {
    var init := Init(ps);
    var last := Emit(EntryAt(Last(ps), Offset(init), ms));
    assert Entries(ps, ms) == Entries(init, ms) + last;
    if e in Entries(init, ms) {
      EntriesFromPieces(init, ms, e);
      var k: nat :| EntryOfPiece(init, ms, k, e);
      assert ps[..k] == init[..k];
      assert EntryOfPiece(ps, ms, k, e);
    } else {
      assert e in last;
      assert ps[..|ps| - 1] == init;
      assert EntryOfPiece(ps, ms, |ps| - 1, e);
    }
  }

  /** Each emitted entry counts its mentions, holds at least one, and places
      each of them inside its piece. */
  lemma EntryFacts(ps: seq<string>, ms: seq<Mention>, e: SentenceEntry)
    requires e in Entries(ps, ms)
    ensures e.mentionCount == |e.mentions| >= 1 && e.sentence != []
    ensures exists k ::
      && 0 <= k < |ps|
      && e.sentence == Strip(ps[k])
      && e.position == Offset(ps[..k])
      && (forall x :: x in e.mentions ==> 0 <= x.positionInSentence < |ps[k]|)
  {
    EntriesFromPieces(ps, ms, e);
    var k: nat :| EntryOfPiece(ps, ms, k, e);
    EntryAtFacts(ps[k], Offset(ps[..k]), ms);
    assert e.sentence == Strip(ps[k]) && e.position == Offset(ps[..k]);
  }

  /** The piece after `k` follows it after a single character. */
  predicate OneCharSeparator(sp: seq<Span>, k: nat)
  {
    k + 1 < |sp| && sp[k + 1].start == sp[k].end + 1
  }

  /** Only the lengths of the pieces and the gaps between them matter to the
      running offset. */
  lemma {:induction false} OffsetOverSpans(sp: seq<Span>, ps: seq<string>, k: nat)
    requires |ps| == |sp| && k < |sp| && sp[0].start == 0
    requires forall l :: 0 <= l < |sp| ==> sp[l].start + |ps[l]| == sp[l].end
    requires forall l :: 0 <= l < k ==> !IsBlank(ps[l]) && OneCharSeparator(sp, l)
    ensures Offset(ps[..k]) == sp[k].start
  {
    if k > 0 {
      OffsetOverSpans(sp, ps, k - 1);
      assert Init(ps[..k]) == ps[..k - 1];
      assert !IsBlank(ps[k - 1]) && OneCharSeparator(sp, k - 1);
    }
  }

  /** The running offset is the true position of piece `k` when every earlier
      piece is non-blank and every earlier separator is one character long. */
  lemma OffsetExact(t: string, k: nat)
    requires k < |Pieces(t)|
    requires forall l :: 0 <= l < k ==> !IsBlank(Pieces(t)[l]) && OneCharSeparator(SplitSpans(t), l)
    ensures Offset(Pieces(t)[..k]) == SplitSpans(t)[k].start
  {
    var ps, sp := Pieces(t), SplitSpans(t);
    PieceLengths(t);
    OffsetOverSpans(sp, ps, k);
  }

  lemma PieceLengths(t: string)
    ensures forall l :: 0 <= l < |SplitSpans(t)| ==> SplitSpans(t)[l].start + |Pieces(t)[l]| == SplitSpans(t)[l].end
  {
    var ps, sp := Pieces(t), SplitSpans(t);
    forall l | 0 <= l < |sp| ensures sp[l].start + |ps[l]| == sp[l].end {
      assert ps[l] == t[sp[l].start..sp[l].end];
    }
  }

  /** Advancing the offset past a piece keeps it at or behind the next
      piece's true position when it was at or behind this one's. */
  lemma AdvanceBehind(sp: seq<Span>, ps: seq<string>, k: nat)
    requires |ps| == |sp| && k + 1 < |sp|
    requires sp[k].start + |ps[k]| == sp[k].end < sp[k + 1].start
    requires Offset(ps[..k]) <= sp[k].start
    ensures Offset(ps[..k + 1]) <= sp[k + 1].start
    ensures Offset(ps[..k]) < sp[k].start ==> Offset(ps[..k + 1]) < sp[k + 1].start
  {
    PrefixStep(ps, k);
  }

  /** Once the running offset falls behind a piece's true position, it stays
      behind for every later piece. */
  lemma {:induction false} OffsetStaysBehind(sp: seq<Span>, ps: seq<string>, i: nat, j: nat)
    requires |ps| == |sp| && i <= j < |sp|
    requires forall l :: 0 <= l < |sp| ==> sp[l].start + |ps[l]| == sp[l].end
    requires forall l, m :: 0 <= l < m < |sp| ==> sp[l].end < sp[m].start
    requires Offset(ps[..i]) < sp[i].start
    ensures Offset(ps[..j]) < sp[j].start
    decreases j - i
  {
    if i < j {
      AdvanceBehind(sp, ps, i);
      OffsetStaysBehind(sp, ps, i + 1, j);
    }
  }

  lemma StepPastPiece(ps: seq<string>, k: nat)
    requires k < |ps| && !IsBlank(ps[k])
    ensures Offset(ps[..k + 1]) == Offset(ps[..k]) + |ps[k]| + 1
  {
    PrefixStep(ps, k);
  }

  /** A separator longer than one character after a non-blank piece puts the
      running offset behind the true position of every later piece: their
      entries report positions that are too small. */
  lemma OffsetDrifts(t: string, k: nat, j: nat)
    requires k < j < |Pieces(t)|
    requires forall l :: 0 <= l < k ==> !IsBlank(Pieces(t)[l]) && OneCharSeparator(SplitSpans(t), l)
    requires !IsBlank(Pieces(t)[k]) && SplitSpans(t)[k + 1].start > SplitSpans(t)[k].end + 1
    ensures Offset(Pieces(t)[..j]) < SplitSpans(t)[j].start
  {
    var ps, sp := Pieces(t), SplitSpans(t);
    PieceLengths(t);
    OffsetDriftsOver(sp, ps, k, j);
  }

  /** The same drift, over any spans and pieces of matching lengths. */
  lemma OffsetDriftsOver(sp: seq<Span>, ps: seq<string>, k: nat, j: nat)
    requires |ps| == |sp| && k < j < |sp| && sp[0].start == 0
    requires forall l :: 0 <= l < |sp| ==> sp[l].start + |ps[l]| == sp[l].end
    requires forall l, m :: 0 <= l < m < |sp| ==> sp[l].end < sp[m].start
    requires forall l :: 0 <= l < k ==> !IsBlank(ps[l]) && OneCharSeparator(sp, l)
    requires !IsBlank(ps[k]) && sp[k + 1].start > sp[k].end + 1
    ensures Offset(ps[..j]) < sp[j].start
  {
    OffsetOverSpans(sp, ps, k);
    StepPastPiece(ps, k);
    OffsetStaysBehind(sp, ps, k + 1, j);
  }
}
