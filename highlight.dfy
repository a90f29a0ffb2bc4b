/** Marking mentions in the transcript (`_build_highlighted_transcript` in
    backend/services/mention_tracker.py): each mention's span is replaced by
    `[MENTION]matched text[/MENTION]`, working from the last mention to the first
    so that earlier offsets stay valid. */
module Highlight {
  import opened Common
  import opened Text
  import opened Mentions

  const OpenTag: string := "[MENTION]"
  const CloseTag: string := "[/MENTION]"

  /** Python clamps a slice bound to the length of the string. */
  function Clamp(i: nat, n: nat): nat
  {
    if i <= n then i else n
  }

  /** One pass of the loop: `f"{h[:start]}[MENTION]{matched}[/MENTION]{h[end:]}"`. */
  function Wrap(h: string, m: Mention): string
  {
    h[..Clamp(m.position, |h|)] + OpenTag + m.matchedText + CloseTag + h[Clamp(m.endPosition, |h|)..]
  }

  /** The loop over the mentions in the order given. */
  function ApplyAll(h: string, rs: seq<Mention>): string
    decreases |rs|
  {
    if rs == [] then h else ApplyAll(Wrap(h, rs[0]), rs[1..])
  }

  // ---------------------------------------------------------- descending sort

  predicate SortedDescending(ms: seq<Mention>)
  {
    forall i, j :: 0 <= i < j < |ms| ==> ms[i].position >= ms[j].position
  }

  /** Put `m` after every element of `r` whose position is not smaller: the step
      of a stable insertion sort in descending order. */
  function InsertDescending(r: seq<Mention>, m: Mention): (out: seq<Mention>)
    ensures |out| == |r| + 1
    ensures multiset(out) == multiset(r) + multiset{m}
    decreases |r|
  {
    if r == [] || Last(r).position >= m.position then r + [m]
    else
      InitLast(r);
      InsertDescending(Init(r), m) + [Last(r)]
  }

  lemma {:induction false} InsertDescendingBounded(r: seq<Mention>, m: Mention, b: nat)
    requires forall k :: 0 <= k < |r| ==> r[k].position >= b
    requires m.position >= b
    ensures forall k :: 0 <= k < |r| + 1 ==> InsertDescending(r, m)[k].position >= b
    decreases |r|
  {
    if !(r == [] || Last(r).position >= m.position) {
      InsertDescendingBounded(Init(r), m, b);
    }
  }

  lemma {:induction false} InsertDescendingSorted(r: seq<Mention>, m: Mention)
    requires SortedDescending(r)
    ensures SortedDescending(InsertDescending(r, m))
    decreases |r|
  {
    if !(r == [] || Last(r).position >= m.position) {
      var b := Last(r).position;
      var front := InsertDescending(Init(r), m);
      InsertDescendingSorted(Init(r), m);
      InsertDescendingBounded(Init(r), m, b);
      var out := front + [Last(r)];
      forall i, j | 0 <= i < j < |out| ensures out[i].position >= out[j].position {
        assert out[i] == front[i];
        if j < |front| {
          assert out[j] == front[j];
        }
      }
    }
  }

  /** `sorted(mentions, key=lambda x: x["position"], reverse=True)`: a stable
      sort by decreasing position. */
  function SortDescending(ms: seq<Mention>): (r: seq<Mention>)
    ensures |r| == |ms|
    ensures multiset(r) == multiset(ms)
    ensures SortedDescending(r)
    decreases |ms|
  {
    if ms == [] then []
    else
      InitLast(ms);
      var r := SortDescending(Init(ms));
      InsertDescendingSorted(r, Last(ms));
      InsertDescending(r, Last(ms))
  }

  function Reverse(ms: seq<Mention>): (r: seq<Mention>)
    ensures |r| == |ms|
    ensures forall k :: 0 <= k < |ms| ==> r[k] == ms[|ms| - 1 - k]
    decreases |ms|
  {
    if ms == [] then [] else [Last(ms)] + Reverse(Init(ms))
  }

  /** Positions strictly increase along `ms`. */
  predicate StrictlyAscending(ms: seq<Mention>)
  {
    forall i, j :: 0 <= i < j < |ms| ==> ms[i].position < ms[j].position
  }

  lemma {:induction false} InsertDescendingFront(r: seq<Mention>, m: Mention)
    requires forall k :: 0 <= k < |r| ==> r[k].position < m.position
    ensures InsertDescending(r, m) == [m] + r
    decreases |r|
  {
    if r != [] {
      InsertDescendingFront(Init(r), m);
      assert [m] + Init(r) + [Last(r)] == [m] + r;
    }
  }

  /** For mentions in strictly increasing order of position (which is what
      `_find_mentions` returns) the descending sort is the reversal. */
  lemma {:induction false} SortDescendingOfAscending(ms: seq<Mention>)
    requires StrictlyAscending(ms)
    ensures SortDescending(ms) == Reverse(ms)
    decreases |ms|
  {
    if ms != [] {
      var init := Init(ms);
      AscendingInit(ms);
      SortDescendingOfAscending(init);
      var rev := Reverse(init);
      ReverseBelowLast(ms);
      InsertDescendingFront(rev, Last(ms));
      assert SortDescending(ms) == InsertDescending(rev, Last(ms));
      assert Reverse(ms) == [Last(ms)] + rev;
    }
  }

  lemma AscendingInit(ms: seq<Mention>)
    requires StrictlyAscending(ms) && ms != []
    ensures StrictlyAscending(Init(ms))
  {
    var init := Init(ms);
    forall i, j | 0 <= i < j < |init| ensures init[i].position < init[j].position {
      assert init[i] == ms[i] && init[j] == ms[j];
    }
  }

  lemma ReverseBelowLast(ms: seq<Mention>)
    requires StrictlyAscending(ms) && ms != []
    ensures forall k :: 0 <= k < |Reverse(Init(ms))| ==> Reverse(Init(ms))[k].position < Last(ms).position
  {
    var init := Init(ms);
    var rev := Reverse(init);
    forall k | 0 <= k < |rev| ensures rev[k].position < Last(ms).position {
      assert rev[k] == ms[|init| - 1 - k];
    }
  }

  // ------------------------------------------------------------- the result

  /** Sorted, non-overlapping mentions inside `t`: each span lies in `t`, and a
      later mention starts after the earlier one and not before it ends. */
  predicate Spread(t: string, ms: seq<Mention>)
  {
    && (forall k :: 0 <= k < |ms| ==> ms[k].position <= ms[k].endPosition <= |t|)
    && (forall i, j :: 0 <= i < j < |ms| ==> ms[i].endPosition <= ms[j].position)
    && StrictlyAscending(ms)
  }

  /** The highlighted text read left to right: the text before the last mention
      (highlighted in turn), the last mention wrapped in its tags, and the rest. */
  function Render(t: string, ms: seq<Mention>): string
    requires Spread(t, ms)
    decreases |ms|
  {
    if ms == [] then t
    else
      var m := Last(ms);
      assert Spread(t[..m.position], Init(ms)) by { SpreadPrefix(t, ms); }
      Render(t[..m.position], Init(ms)) + OpenTag + m.matchedText + CloseTag + t[m.endPosition..]
  }

  lemma SpreadPrefix(t: string, ms: seq<Mention>)
    requires Spread(t, ms) && ms != []
    ensures Spread(t[..Last(ms).position], Init(ms))
  {
    var init := Init(ms);
    forall i, j | 0 <= i < j < |init| ensures init[i].position < init[j].position {
      assert init[i] == ms[i] && init[j] == ms[j];
    }
    forall k | 0 <= k < |init| ensures init[k].endPosition <= Last(ms).position {
      assert init[k] == ms[k];
    }
  }

  /** One wrap inside `t + x` only touches `t`. */
  lemma WrapInPrefix(t: string, x: string, m: Mention)
    requires m.position <= m.endPosition <= |t|
    ensures Wrap(t + x, m) == t[..m.position] + (OpenTag + m.matchedText + CloseTag + t[m.endPosition..] + x)
  {
    var p, e := m.position, m.endPosition;
    assert (t + x)[..p] == t[..p];
    assert (t + x)[e..] == t[e..] + x;
  }

  /** Inserting right to left produces the left-to-right rendering; `x` is any
      text after the part holding the mentions. */
  lemma {:induction false} ApplyReversedIsRender(t: string, ms: seq<Mention>, x: string)
    requires Spread(t, ms)
    ensures ApplyAll(t + x, Reverse(ms)) == Render(t, ms) + x
    decreases |ms|
  {
    if ms != [] {
      var m := Last(ms);
      var u := t[..m.position];
      var tail := OpenTag + m.matchedText + CloseTag + t[m.endPosition..];
      SpreadPrefix(t, ms);
      assert Reverse(ms)[1..] == Reverse(Init(ms));
      calc {
        ApplyAll(t + x, Reverse(ms));
        ApplyAll(Wrap(t + x, m), Reverse(Init(ms)));
        { WrapInPrefix(t, x, m); }
        ApplyAll(u + (tail + x), Reverse(Init(ms)));
        { ApplyReversedIsRender(u, Init(ms), tail + x); }
        Render(u, Init(ms)) + (tail + x);
        { AppendAssoc(Render(u, Init(ms)), tail, x); }
        (Render(u, Init(ms)) + tail) + x;
        Render(t, ms) + x;
      }
    }
  }

  /** The mentions' matched texts are the spans of `t` they point to. */
  predicate Faithful(t: string, ms: seq<Mention>)
    requires forall k :: 0 <= k < |ms| ==> ms[k].position <= ms[k].endPosition <= |t|
  {
    forall k :: 0 <= k < |ms| ==> ms[k].matchedText == t[ms[k].position..ms[k].endPosition]
  }

  lemma FaithfulPrefix(t: string, ms: seq<Mention>)
    requires Spread(t, ms) && ms != [] && Faithful(t, ms)
    ensures Spread(t[..Last(ms).position], Init(ms)) && Faithful(t[..Last(ms).position], Init(ms))
  {
    SpreadPrefix(t, ms);
    var u := t[..Last(ms).position];
    forall k | 0 <= k < |Init(ms)| ensures Init(ms)[k].matchedText == u[Init(ms)[k].position..Init(ms)[k].endPosition] {
      assert Init(ms)[k] == ms[k];
    }
  }

  /** Each mention adds the 19 characters of its two tags. */
  lemma {:induction false} RenderLength(t: string, ms: seq<Mention>)
    requires Spread(t, ms) && Faithful(t, ms)
    ensures |Render(t, ms)| == |t| + 19 * |ms|
    decreases |ms|
  {
    if ms != [] {
      FaithfulPrefix(t, ms);
      RenderLength(t[..Last(ms).position], Init(ms));
    }
  }

  /** Deletes every `[MENTION]` and `[/MENTION]` tag, scanning left to right. */
  function RemoveMarkers(s: string): string
    decreases |s|
  {
    if s == [] then []
    else if s[0] != '[' then [s[0]] + RemoveMarkers(s[1..])
    else if |s| >= 9 && s[..9] == OpenTag then RemoveMarkers(s[9..])
    else if |s| >= 10 && s[..10] == CloseTag then RemoveMarkers(s[10..])
    else [s[0]] + RemoveMarkers(s[1..])
  }

  /** Text without a `[` passes through the tag removal unchanged. */
  lemma {:induction false} RemoveMarkersPlain(a: string, b: string)
    requires '[' !in a
    ensures RemoveMarkers(a + b) == a + RemoveMarkers(b)
    decreases |a|
  {
    if a == [] {
      assert a + b == b;
    } else {
      assert (a + b)[0] == a[0] && a[0] in a;
      assert (a + b)[1..] == a[1..] + b;
      assert '[' !in a[1..] by {
        forall c | c in a[1..] ensures c in a { }
      }
      calc {
        RemoveMarkers(a + b);
        [a[0]] + RemoveMarkers(a[1..] + b);
        { RemoveMarkersPlain(a[1..], b); }
        [a[0]] + (a[1..] + RemoveMarkers(b));
        { AppendAssoc([a[0]], a[1..], RemoveMarkers(b)); }
        ([a[0]] + a[1..]) + RemoveMarkers(b);
        { assert [a[0]] + a[1..] == a; }
        a + RemoveMarkers(b);
      }
    }
  }

  lemma RemoveOpenTag(b: string)
    ensures RemoveMarkers(OpenTag + b) == RemoveMarkers(b)
  {
    assert (OpenTag + b)[..9] == OpenTag && (OpenTag + b)[9..] == b;
  }

  lemma RemoveCloseTag(b: string)
    ensures RemoveMarkers(CloseTag + b) == RemoveMarkers(b)
  {
    var s := CloseTag + b;
    assert s[1] == '/' && OpenTag[1] == 'M';
    assert s[..10] == CloseTag && s[10..] == b;
  }

  lemma Regroup<T>(r: seq<T>, o: seq<T>, m: seq<T>, c: seq<T>, a: seq<T>, x: seq<T>)
    ensures r + o + m + c + a + x == r + (o + (m + (c + (a + x))))
  {
  }

  /** Removing the tags from the rendering gives back the transcript, provided
      the transcript holds no `[` of its own. */
  lemma {:induction false} RemoveMarkersRender(t: string, ms: seq<Mention>, x: string)
    requires Spread(t, ms) && Faithful(t, ms) && '[' !in t
    ensures RemoveMarkers(Render(t, ms) + x) == t + RemoveMarkers(x)
    decreases |ms|
  {
    if ms == [] {
      RemoveMarkersPlain(t, x);
    } else {
      var m := Last(ms);
      var p, e := m.position, m.endPosition;
      var u, a := t[..p], t[e..];
      FaithfulPrefix(t, ms);
      assert '[' !in u && '[' !in m.matchedText && '[' !in a by {
        assert forall c :: c in u || c in m.matchedText || c in a ==> c in t;
      }
      var r := Render(u, Init(ms));
      calc {
        RemoveMarkers(Render(t, ms) + x);
        { Regroup(r, OpenTag, m.matchedText, CloseTag, a, x); }
        RemoveMarkers(r + (OpenTag + (m.matchedText + (CloseTag + (a + x)))));
        { RemoveMarkersRender(u, Init(ms), OpenTag + (m.matchedText + (CloseTag + (a + x)))); }
        u + RemoveMarkers(OpenTag + (m.matchedText + (CloseTag + (a + x))));
        { RemoveOpenTag(m.matchedText + (CloseTag + (a + x))); }
        u + RemoveMarkers(m.matchedText + (CloseTag + (a + x)));
        { RemoveMarkersPlain(m.matchedText, CloseTag + (a + x)); }
        u + (m.matchedText + RemoveMarkers(CloseTag + (a + x)));
        { RemoveCloseTag(a + x); }
        u + (m.matchedText + RemoveMarkers(a + x));
        { RemoveMarkersPlain(a, x); }
        u + (m.matchedText + (a + RemoveMarkers(x)));
        { assert u + (m.matchedText + (a + RemoveMarkers(x))) == (u + m.matchedText + a) + RemoveMarkers(x);
          assert u + m.matchedText + a == t; }
        t + RemoveMarkers(x);
      }
    }
  }

  /** The loop of `_build_highlighted_transcript` over the mentions in the
      order given. */
  method WrapEach(t: string, rs: seq<Mention>) returns (h: string)
    ensures h == ApplyAll(t, rs)
  {
    h := t;
    for k := 0 to |rs|
      invariant ApplyAll(h, rs[k..]) == ApplyAll(t, rs)
    {
      assert rs[k..][1..] == rs[k + 1..];
      var m := rs[k];
      var start := Clamp(m.position, |h|);
      var end := Clamp(m.endPosition, |h|);
      h := h[..start] + OpenTag + m.matchedText + CloseTag + h[end..];
    }
  }

  /** `_build_highlighted_transcript`: the transcript itself when there is no
      mention, otherwise the mentions wrapped from the last position to the
      first. */
  method BuildHighlighted(t: string, ms: seq<Mention>) returns (h: string)
    ensures ms == [] ==> h == t
    ensures ms != [] ==> h == ApplyAll(t, SortDescending(ms))
  {
    if ms == [] {
      return t;
    }
    var sorted := SortDescending(ms);
    h := WrapEach(t, sorted);
  }

  /** Mentions at least five characters apart keep that distance to every
      later mention, not just to the next one. */
  lemma {:induction false} GappedChain(ms: seq<Mention>, i: nat, j: nat)
    requires Gapped(ms) && i < j < |ms|
    requires forall k :: 0 <= k < |ms| ==> ms[k].position <= ms[k].endPosition
    ensures ms[i].endPosition + 5 <= ms[j].position
    decreases j - i
  {
    assert SpacedAfter(ms, i);
    if i + 1 < j {
      GappedChain(ms, i + 1, j);
    }
  }

  lemma GappedPairwise(ms: seq<Mention>)
    requires Gapped(ms)
    requires forall k :: 0 <= k < |ms| ==> ms[k].position <= ms[k].endPosition
    ensures forall i, j :: 0 <= i < j < |ms| ==> ms[i].endPosition + 5 <= ms[j].position
  {
    forall i, j | 0 <= i < j < |ms| ensures ms[i].endPosition + 5 <= ms[j].position {
      GappedChain(ms, i, j);
    }
  }

  lemma ReportedSpan(t: string, m: Mention)
    requires Reported(t, m)
    ensures m.position <= m.endPosition <= |t|
    ensures m.matchedText == t[m.position..m.endPosition]
  {
  }

  /** The mentions the finder reports are sorted, non-overlapping spans of the
      transcript, so the highlighter renders them left to right. */
  lemma FoundAreSpread(t: string, ms: seq<Mention>)
    requires Gapped(ms)
    requires forall k :: 0 <= k < |ms| ==> Reported(t, ms[k])
    ensures Spread(t, ms) && Faithful(t, ms)
  {
    forall k | 0 <= k < |ms|
      ensures ms[k].position <= ms[k].endPosition <= |t|
      ensures ms[k].matchedText == t[ms[k].position..ms[k].endPosition]
    {
      ReportedSpan(t, ms[k]);
    }
    GappedPairwise(ms);
  }

  /** For sorted, non-overlapping mentions the highlighted transcript is the
      left-to-right rendering: 19 characters longer per mention, and the
      transcript again once the tags are removed (when it holds no `[`). */
  lemma HighlightOfSpread(t: string, ms: seq<Mention>)
    requires Spread(t, ms) && Faithful(t, ms)
    ensures var h := if ms == [] then t else ApplyAll(t, SortDescending(ms));
      && h == Render(t, ms)
      && |h| == |t| + 19 * |ms|
      && ('[' !in t ==> RemoveMarkers(h) == t)
  {
    if ms != [] {
      SortDescendingOfAscending(ms);
      ApplyReversedIsRender(t, ms, []);
      assert t + [] == t;
      assert Render(t, ms) + [] == Render(t, ms);
    }
    RenderLength(t, ms);
    if '[' !in t {
      RemoveMarkersRender(t, ms, []);
      assert RemoveMarkers([]) == [];
      assert Render(t, ms) + [] == Render(t, ms);
      assert t + [] == t;
    }
  }
}
