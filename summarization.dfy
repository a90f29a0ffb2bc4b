/** SummarizationService in backend/services/summarization.py: the routing of
    `summarize` by text length and the greedy packing of `_summarize_long_text`,
    which splits the text on ". " and packs the sentences into chunks of at
    most 800 tokens.

    The tokenizer is the function `encode`, standing for
    `len(self.tokenizer.encode(sentence))`, and the summarisation model is the
    function `summarizeChunk`, standing for `_summarize_chunk(text, max_length)`. */
module Summarization {
  import opened Common
  import opened Text

  /** Texts longer than this many characters are summarised chunk by chunk. */
  const MaxChunkLength := 1024

  /** The token budget of one chunk. */
  const TokenBudget := 800

  const SentenceSeparator := ". "

  /** Tokens of the sentences of a chunk. */
  function Tokens(chunk: seq<string>, encode: string -> nat): nat
    decreases |chunk|
  {
    if chunk == [] then 0 else Tokens(Init(chunk), encode) + encode(Last(chunk))
  }

  /** The packing loop's state after some sentences: the closed chunks, the
      open chunk and its token count. */
  datatype PackState = PackState(chunks: seq<seq<string>>, current: seq<string>, currentLength: nat)

  /** One step of the loop: the sentence joins the open chunk if the total
      stays within the budget; otherwise the open chunk is closed and the
      sentence opens the next one. */
  function PackStep(st: PackState, sentence: string, encode: string -> nat): PackState
  {
    var n := encode(sentence);
    if st.currentLength + n > TokenBudget then PackState(st.chunks + [st.current], [sentence], n)
    else PackState(st.chunks, st.current + [sentence], st.currentLength + n)
  }

  /** The state after the loop has seen `sentences`. */
  function PackAll(sentences: seq<string>, encode: string -> nat): PackState
    decreases |sentences|
  {
    if sentences == [] then PackState([], [], 0)
    else PackStep(PackAll(Init(sentences), encode), Last(sentences), encode)
  }

  /** The chunks, as lists of sentences: the closed ones and the open one if
      it holds a sentence. */
  function Chunks(sentences: seq<string>, encode: string -> nat): seq<seq<string>>
  {
    var st := PackAll(sentences, encode);
    if st.current != [] then st.chunks + [st.current] else st.chunks
  }

  /** The chunks concatenated. */
  function Flatten(chunks: seq<seq<string>>): seq<string>
    decreases |chunks|
  {
    if chunks == [] then [] else Flatten(Init(chunks)) + Last(chunks)
  }

  lemma {:induction false} FlattenAppend(a: seq<seq<string>>, b: seq<string>)
    ensures Flatten(a + [b]) == Flatten(a) + b
  {
    Snoc(a, b);
  }

  /** What the loop keeps true: the sentences seen so far are the closed
      chunks followed by the open one, the open count is its token total, the
      chunks are within budget, only the first closed chunk may be empty, and
      each closed chunk could not take the first sentence of the next. */
  predicate PackInvariant(st: PackState, seen: seq<string>, encode: string -> nat)
  {
    && Flatten(st.chunks) + st.current == seen
    && st.currentLength == Tokens(st.current, encode)
    && WithinBudget(st, encode)
    && Shaped(st, seen)
    && AllClosed(st, encode)
  }

  /** Every chunk of two or more sentences, closed or open, is within budget. */
  predicate WithinBudget(st: PackState, encode: string -> nat)
  {
    && (|st.current| >= 2 ==> Tokens(st.current, encode) <= TokenBudget)
    && forall k :: 0 <= k < |st.chunks| && |st.chunks[k]| >= 2 ==> Tokens(st.chunks[k], encode) <= TokenBudget
  }

  /** An empty chunk is closed only at the very start, and the open chunk is
      empty only before the first sentence. */
  predicate Shaped(st: PackState, seen: seq<string>)
  {
    && (forall k :: 0 < k < |st.chunks| ==> st.chunks[k] != [])
    && (st.current == [] ==> st.chunks == [] && seen == [])
  }

  predicate AllClosed(st: PackState, encode: string -> nat)
  {
    forall k :: 0 <= k < |st.chunks| ==> Closed(st, k, encode)
  }

  /** Chunk `k` was closed because the sentence after it did not fit. */
  predicate Closed(st: PackState, k: nat, encode: string -> nat)
    requires k < |st.chunks|
  {
    var next := if k + 1 < |st.chunks| then st.chunks[k + 1] else st.current;
    next != [] && Tokens(st.chunks[k], encode) + encode(next[0]) > TokenBudget
  }

  lemma TokensAppend(chunk: seq<string>, s: string, encode: string -> nat)
    ensures Tokens(chunk + [s], encode) == Tokens(chunk, encode) + encode(s)
  {
    Snoc(chunk, s);
  }

  lemma TokensSingle(s: string, encode: string -> nat)
    ensures Tokens([s], encode) == encode(s)
  {
    assert Init([s]) == [] && Last([s]) == s;
  }

  /** The step that closes the open chunk keeps the budget and the closing
      reasons. */
  lemma CloseStepKeeps(st: PackState, s: string, encode: string -> nat)
    requires st.currentLength == Tokens(st.current, encode)
    requires st.currentLength + encode(s) > TokenBudget
    requires WithinBudget(st, encode) && AllClosed(st, encode)
    ensures var st' := PackState(st.chunks + [st.current], [s], encode(s));
      WithinBudget(st', encode) && AllClosed(st', encode)
  {
    var st' := PackState(st.chunks + [st.current], [s], encode(s));
    forall k | 0 <= k < |st'.chunks| ensures Closed(st', k, encode) {
      if k < |st.chunks| {
        assert Closed(st, k, encode);
        assert st'.chunks[k] == st.chunks[k];
      } else {
        TokensSingle(s, encode);
      }
    }
    forall k | 0 <= k < |st'.chunks| && |st'.chunks[k]| >= 2 ensures Tokens(st'.chunks[k], encode) <= TokenBudget {
      if k < |st.chunks| {
        assert st'.chunks[k] == st.chunks[k];
      }
    }
  }

  /** The step that extends the open chunk keeps the budget and the closing
      reasons. */
  lemma ExtendStepKeeps(st: PackState, s: string, encode: string -> nat)
    requires st.currentLength == Tokens(st.current, encode)
    requires st.currentLength + encode(s) <= TokenBudget
    requires st.chunks != [] ==> st.current != []
    requires WithinBudget(st, encode) && AllClosed(st, encode)
    ensures var st' := PackState(st.chunks, st.current + [s], st.currentLength + encode(s));
      WithinBudget(st', encode) && AllClosed(st', encode)
  {
    var st' := PackState(st.chunks, st.current + [s], st.currentLength + encode(s));
    TokensAppend(st.current, s, encode);
    forall k | 0 <= k < |st'.chunks| ensures Closed(st', k, encode) {
      assert Closed(st, k, encode);
      if k + 1 == |st.chunks| {
        assert (st.current + [s])[0] == st.current[0];
      }
    }
  }

  /** Each step keeps the invariant. */
  lemma PackStepKeeps(st: PackState, seen: seq<string>, s: string, encode: string -> nat)
    requires PackInvariant(st, seen, encode)
    ensures PackInvariant(PackStep(st, s, encode), seen + [s], encode)
  {
    if st.currentLength + encode(s) > TokenBudget {
      FlattenAppend(st.chunks, st.current);
      TokensSingle(s, encode);
      CloseStepKeeps(st, s, encode);
      CloseShaped(st, seen, s, encode(s));
    } else {
      ExtendStepKeeps(st, s, encode);
      TokensAppend(st.current, s, encode);
      ExtendShaped(st, seen, s, st.currentLength + encode(s));
      AppendAssoc(Flatten(st.chunks), st.current, [s]);
    }
  }

  lemma CloseShaped(st: PackState, seen: seq<string>, s: string, n: nat)
    requires Shaped(st, seen)
    ensures Shaped(PackState(st.chunks + [st.current], [s], n), seen + [s])
  {
    var chunks := st.chunks + [st.current];
    forall k | 0 < k < |chunks| ensures chunks[k] != [] {
      if k < |st.chunks| {
        assert chunks[k] == st.chunks[k];
      }
    }
  }

  lemma ExtendShaped(st: PackState, seen: seq<string>, s: string, n: nat)
    requires Shaped(st, seen)
    ensures Shaped(PackState(st.chunks, st.current + [s], n), seen + [s])
  {
  }

  /** The loop's state satisfies the invariant after every prefix. */
  lemma {:induction false} PackAllInvariant(sentences: seq<string>, encode: string -> nat)
    ensures PackInvariant(PackAll(sentences, encode), sentences, encode)
    decreases |sentences|
  {
    if sentences != [] {
      PackAllInvariant(Init(sentences), encode);
      PackStepKeeps(PackAll(Init(sentences), encode), Init(sentences), Last(sentences), encode);
      assert Init(sentences) + [Last(sentences)] == sentences;
    }
  }

  /** The first chunk of a state, closed or open. */
  function FirstChunkOf(st: PackState): seq<string>
  {
    if st.chunks != [] then st.chunks[0] else st.current
  }

  /** The first chunk is empty exactly when the first sentence alone is over
      budget. */
  lemma {:induction false} FirstChunkEmpty(sentences: seq<string>, encode: string -> nat)
    requires sentences != []
    ensures FirstChunkOf(PackAll(sentences, encode)) == [] <==> encode(sentences[0]) > TokenBudget
    decreases |sentences|
  {
    var init := Init(sentences);
    var st0 := PackAll(init, encode);
    if init == [] {
      assert Last(sentences) == sentences[0];
    } else {
      FirstChunkEmpty(init, encode);
      PackAllInvariant(init, encode);
      assert init[0] == sentences[0];
      assert st0.current != [];
      var st := PackStep(st0, Last(sentences), encode);
      assert FirstChunkOf(st) == FirstChunkOf(st0) || (st0.chunks == [] && st.chunks == [] && FirstChunkOf(st) == st0.current + [Last(sentences)]);
    }
  }

  /** What the packing guarantees: the chunks concatenate back to the
      sentences; a chunk of two or more sentences stays within 800 tokens (so
      a chunk over budget is a single sentence); only the first chunk can be
      empty, and it is exactly when the first sentence alone is over budget;
      each chunk after the first was opened by a sentence that did not fit in
      the one before; and at least one chunk comes out of a non-empty list. */
  lemma ChunksFacts(sentences: seq<string>, encode: string -> nat)
    ensures var cs := Chunks(sentences, encode);
      && Flatten(cs) == sentences
      && (forall k :: 0 <= k < |cs| && |cs[k]| >= 2 ==> Tokens(cs[k], encode) <= TokenBudget)
      && (forall k :: 0 <= k < |cs| && Tokens(cs[k], encode) > TokenBudget ==> |cs[k]| == 1)
      && (forall k :: 0 < k < |cs| ==> cs[k] != [])
      && (forall k :: 0 <= k < |cs| - 1 ==> Tokens(cs[k], encode) + encode(cs[k + 1][0]) > TokenBudget)
      && (sentences != [] ==> |cs| >= 1 && (cs[0] == [] <==> encode(sentences[0]) > TokenBudget))
  {
    var st := PackAll(sentences, encode);
    PackAllInvariant(sentences, encode);
    var cs := Chunks(sentences, encode);
    if st.current != [] {
      assert cs == st.chunks + [st.current];
      FlattenAppend(st.chunks, st.current);
      assert WithinBudget(st, encode);
      forall k | 0 <= k < |cs| && |cs[k]| >= 2 ensures Tokens(cs[k], encode) <= TokenBudget {
        if k < |st.chunks| {
          assert cs[k] == st.chunks[k];
        }
      }
      forall k | 0 <= k < |cs| - 1 ensures Tokens(cs[k], encode) + encode(cs[k + 1][0]) > TokenBudget {
        assert Closed(st, k, encode);
        assert cs[k] == st.chunks[k];
      }
      forall k | 0 <= k < |cs| && Tokens(cs[k], encode) > TokenBudget ensures |cs[k]| == 1 {
        assert Tokens([], encode) == 0;
      }
      forall k | 0 < k < |cs| ensures cs[k] != [] {
        if k < |st.chunks| {
          assert cs[k] == st.chunks[k];
        }
      }
      FirstChunkEmpty(sentences, encode);
      assert cs[0] == FirstChunkOf(st);
    }
  }

  /** A non-empty list of sentences gives at least one chunk. */
  lemma ChunksNotEmpty(sentences: seq<string>, encode: string -> nat)
    requires sentences != []
    ensures |Chunks(sentences, encode)| >= 1
  {
    PackAllInvariant(sentences, encode);
  }

  /** `sep.join` as a function value. */
  function JoinWith(sep: string): seq<string> -> string
  {
    (c: seq<string>) => Join(sep, c)
  }

  /** `'. '.join` of every chunk. */
  function ChunkTexts(chunks: seq<seq<string>>): (texts: seq<string>)
    ensures |texts| == |chunks|
  {
    Map(chunks, JoinWith(SentenceSeparator))
  }

  /** Joining two non-empty lists is joining their joins. */
  lemma {:induction false} JoinAppend(sep: string, a: seq<string>, b: seq<string>)
    requires a != [] && b != []
    ensures Join(sep, a + b) == Join(sep, a) + sep + Join(sep, b)
    decreases |a|
  {
    assert (a + b)[0] == a[0] && (a + b)[1..] == a[1..] + b;
    if |a| > 1 {
      JoinAppend(sep, a[1..], b);
    }
  }

  /** A list of non-empty chunks has a non-empty concatenation. */
  lemma FlattenNotEmpty(chunks: seq<seq<string>>)
    requires chunks != [] && Last(chunks) != []
    ensures Flatten(chunks) != []
  {
  }

  /** Joining the joined chunks is joining their concatenation, when no chunk
      is empty. */
  lemma {:induction false} JoinChunkTexts(sep: string, chunks: seq<seq<string>>)
    requires forall k :: 0 <= k < |chunks| ==> chunks[k] != []
    ensures Join(sep, Map(chunks, JoinWith(sep))) == Join(sep, Flatten(chunks))
    decreases |chunks|
  {
    var f := JoinWith(sep);
    if |chunks| == 1 {
      assert Init(chunks) == [] && Last(chunks) == chunks[0];
      assert Flatten(chunks) == chunks[0];
      assert Map(chunks, f)[0] == f(chunks[0]);
    } else if |chunks| > 1 {
      var init, last := Init(chunks), Last(chunks);
      JoinChunkTexts(sep, init);
      assert Map(chunks, f) == Map(init, f) + [f(last)];
      JoinAppend(sep, Map(init, f), [f(last)]);
      FlattenNotEmpty(init);
      JoinAppend(sep, Flatten(init), last);
    }
  }

  /** The round trip: the chunk texts joined with ". " give the text back,
      preceded by ". " when the first sentence alone was over budget and the
      first chunk came out empty. */
  lemma ChunkTextsRebuildText(text: string, encode: string -> nat)
    ensures var sentences := SplitOn(text, SentenceSeparator);
      Join(SentenceSeparator, ChunkTexts(Chunks(sentences, encode)))
        == if encode(sentences[0]) > TokenBudget then SentenceSeparator + text else text
  {
    var sentences := SplitOn(text, SentenceSeparator);
    var cs := Chunks(sentences, encode);
    ChunksFacts(sentences, encode);
    JoinSplitOn(text, SentenceSeparator);
    if cs[0] != [] {
      JoinChunkTexts(SentenceSeparator, cs);
    } else {
      ChunkTextsLeadingEmpty(cs);
    }
  }

  /** With an empty first chunk, the joined chunk texts start with a bare
      separator. */
  lemma ChunkTextsLeadingEmpty(cs: seq<seq<string>>)
    requires |cs| >= 2 && cs[0] == [] && forall k :: 0 < k < |cs| ==> cs[k] != []
    ensures Join(SentenceSeparator, ChunkTexts(cs)) == SentenceSeparator + Join(SentenceSeparator, Flatten(cs))
  {
    var sep, f := SentenceSeparator, JoinWith(SentenceSeparator);
    var rest := cs[1..];
    ConsTail(cs);
    assert forall k :: 0 <= k < |rest| ==> rest[k] == cs[k + 1];
    JoinChunkTexts(sep, rest);
    FlattenAfterEmpty(rest);
    var texts := Map(rest, f);
    MapCons([], rest, f);
    assert ChunkTexts(cs) == [f([])] + texts;
    assert f([]) == [];
    JoinAppend(sep, [f([])], texts);
    assert Join(sep, [f([])]) == [];
  }

  /** A leading empty chunk adds nothing to the concatenation. */
  lemma {:induction false} FlattenAfterEmpty(rest: seq<seq<string>>)
    ensures Flatten([[]] + rest) == Flatten(rest)
    decreases |rest|
  {
    if rest != [] {
      FlattenAfterEmpty(Init(rest));
      assert Init([[]] + rest) == [[]] + Init(rest);
    }
  }

  /** The packing loop of `_summarize_long_text`, with the mutable
      `chunks`, `current_chunk` and `current_length`. */
  method PackSentences(sentences: seq<string>, encode: string -> nat) returns (chunks: seq<seq<string>>)
    ensures chunks == Chunks(sentences, encode)
  {
    chunks := [];
    var currentChunk: seq<string> := [];
    var currentLength: nat := 0;
    for i := 0 to |sentences|
      invariant PackState(chunks, currentChunk, currentLength) == PackAll(sentences[..i], encode)
    {
      var sentence := sentences[i];
      PrefixStep(sentences, i);
      var sentenceLength := encode(sentence);
      if currentLength + sentenceLength > TokenBudget {
        chunks := chunks + [currentChunk];
        currentChunk := [sentence];
        currentLength := sentenceLength;
      } else {
        currentChunk := currentChunk + [sentence];
        currentLength := currentLength + sentenceLength;
      }
    }
    WholePrefix(sentences);
    if currentChunk != [] {
      chunks := chunks + [currentChunk];
    }
  }

  /** `_summarize_long_text`: pack the sentences of `text.split('. ')`,
      summarise each chunk with an equal share `max_length // len(chunks)` of
      the length budget, and summarise the summaries joined with spaces. */
  method SummarizeLongText(text: string, maxLength: int, encode: string -> nat, summarizeChunk: (string, int) -> string)
    returns (summary: string, chunkSummaries: seq<string>)
    ensures var chunks := ChunkTexts(Chunks(SplitOn(text, SentenceSeparator), encode));
      && |chunks| >= 1
      && |chunkSummaries| == |chunks|
      && (forall i :: 0 <= i < |chunks| ==> chunkSummaries[i] == summarizeChunk(chunks[i], maxLength / |chunks|))
      && summary == summarizeChunk(Join(" ", chunkSummaries), maxLength)
      && summary == LongSummary(text, maxLength, encode, summarizeChunk)
  {
    var sentences := SplitOn(text, SentenceSeparator);
    ChunksNotEmpty(sentences, encode);
    var packed := PackSentences(sentences, encode);
    var chunks := ChunkTexts(packed);
    chunkSummaries := [];
    for i := 0 to |chunks|
      invariant |chunkSummaries| == i
      invariant forall l :: 0 <= l < i ==> chunkSummaries[l] == summarizeChunk(chunks[l], maxLength / |chunks|)
    {
      chunkSummaries := chunkSummaries + [summarizeChunk(chunks[i], maxLength / |chunks|)];
    }
    summary := summarizeChunk(Join(" ", chunkSummaries), maxLength);
    var share := maxLength / |chunks|;
    assert chunkSummaries == Map(chunks, (c: string) => summarizeChunk(c, share));
  }

  /** The result of `summarize`; the compression ratio is a float and is not
      kept. */
  datatype Summary = Summary(summary: string, originalLength: nat, summaryLength: nat)

  /** `summarize`: a text over 1024 characters goes through the chunked path,
      any other straight to the model. The compression ratio divides by the
      summary's length, so an empty summary raises, modelled as `None`. */
  method Summarize(text: string, maxLength: int, encode: string -> nat, summarizeChunk: (string, int) -> string)
    returns (r: Option<Summary>)
    ensures var s := if |text| > MaxChunkLength then LongSummary(text, maxLength, encode, summarizeChunk)
        else summarizeChunk(text, maxLength);
      && (r.None? <==> s == [])
      && (r.Some? ==> r.value == Summary(s, |text|, |s|))
  {
    var summary: string;
    if |text| > MaxChunkLength {
      var chunkSummaries;
      summary, chunkSummaries := SummarizeLongText(text, maxLength, encode, summarizeChunk);
    } else {
      summary := summarizeChunk(text, maxLength);
    }
    if |summary| == 0 {
      return None;
    }
    r := Some(Summary(summary, |text|, |summary|));
  }

  /** The summary the chunked path produces. */
  function LongSummary(text: string, maxLength: int, encode: string -> nat, summarizeChunk: (string, int) -> string): string
  {
    var chunks := ChunkTexts(Chunks(SplitOn(text, SentenceSeparator), encode));
    var share := if |chunks| == 0 then maxLength else maxLength / |chunks|;
    summarizeChunk(Join(" ", Map(chunks, (c: string) => summarizeChunk(c, share))), maxLength)
  }
}
