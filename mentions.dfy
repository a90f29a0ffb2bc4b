/** Locating a user's name in a transcript (MentionTracker in
    backend/services/mention_tracker.py): the name variations, the
    case-insensitive whole-word scan with a 50-character context window, the
    stable sort by position and the de-duplication that drops a mention starting
    less than five characters after the end of the previously kept one. */
module Mentions {
  import opened Common
  import opened Text

  /** One located occurrence (the `mention` dict of `_find_mentions`). */
  datatype Mention = Mention(
    variation: string,
    matchedText: string,
    position: nat,
    endPosition: nat,
    context: string)

  // ---------------------------------------------------------------- variations

  /** `_generate_name_variations`: the lowercased name, and when it contains a
      space also its lowercased first word and initials, without duplicates.
      `None` is the IndexError raised when the name contains a space but no
      word (only reachable for a name that was not stripped). */
  function TrackerVariations(username: string): (r: Option<seq<string>>)
    ensures r.None? <==> ' ' in username && IsBlank(username)
    ensures r.Some? ==> Lower(username) in r.value
  {
    if ' ' in username then
      var words := SplitWords(username);
      if words == [] then None
      else Some(Distinct([Lower(username), Lower(words[0]), Lower(Initials(words))]))
    else Some([Lower(username)])
  }

  /** The variations are pairwise distinct and are exactly: the lowercased name,
      plus, for a name with a space, its lowercased first word and initials. */
  lemma TrackerVariationsMembers(username: string)
    requires TrackerVariations(username).Some?
    ensures var vs := TrackerVariations(username).value;
      && (forall i, j :: 0 <= i < j < |vs| ==> vs[i] != vs[j])
      && (' ' !in username ==> vs == [Lower(username)])
      && (' ' in username ==>
            var words := SplitWords(username);
            words != [] &&
            forall v :: v in vs <==> v == Lower(username) || v == Lower(words[0]) || v == Lower(Initials(words)))
  {
    if ' ' in username {
      var words := SplitWords(username);
      assert words != [];
      var all := [Lower(username), Lower(words[0]), Lower(Initials(words))];
      assert TrackerVariations(username).value == Distinct(all);
      assert forall v :: v in all <==> v == all[0] || v == all[1] || v == all[2];
    }
  }

  /** The variations `track_mentions` matches with: it strips the name first, so
      the IndexError of `TrackerVariations` cannot occur. */
  lemma StrippedNameHasVariations(username: string)
    ensures TrackerVariations(Strip(username)).Some?
  {
    var s := Strip(username);
    StripFacts(username);
    if ' ' in s {
      assert !IsSpace(s[0]);
    }
  }

  /** The variations of a stripped name, or none if generation failed. */
  function MatchVariations(name: string): seq<string>
  {
    match TrackerVariations(name)
    case Some(vs) => vs
    case None => []
  }

  // ------------------------------------------------------------ finding matches

  /** `re.finditer(r'\b' + re.escape(v) + r'\b', t, re.IGNORECASE)` can match at
      index `i`: the text there equals `v` ignoring case and both ends are word
      boundaries. */
  predicate MatchesAt(t: string, v: string, i: nat)
  {
    i + |v| <= |t| && EqualFold(t[i..i + |v|], v) && IsBoundary(t, i) && IsBoundary(t, i + |v|)
  }

  /** Where `finditer` resumes after a match: past it, or one further for an
      empty match. */
  function Step(v: string): nat
  {
    if |v| == 0 then 1 else |v|
  }

  /** A left-to-right scan over the indices `i..n` that reports each index
      where `hit` holds and then resumes `step` indices further on. */
  function Scan(n: nat, step: nat, hit: nat -> bool, i: nat): (r: seq<nat>)
    requires step > 0
    ensures forall k :: 0 <= k < |r| ==> i <= r[k] <= n && hit(r[k])
    ensures forall k, l :: 0 <= k < l < |r| ==> r[k] + step <= r[l]
    decreases n + 1 - i
  {
    if i > n then []
    else if hit(i) then [i] + Scan(n, step, hit, i + step)
    else Scan(n, step, hit, i + 1)
  }

  /** Index `j` lies strictly inside the stretch skipped after a reported hit. */
  predicate Covered(ps: seq<nat>, step: nat, j: nat)
  {
    exists k :: 0 <= k < |ps| && ps[k] < j < ps[k] + step
  }

  /** The scan misses no hit except one inside the stretch it skips after an
      earlier reported hit. */
  lemma {:induction false} ScanComplete(n: nat, step: nat, hit: nat -> bool, i: nat, j: nat)
    requires step > 0 && i <= j <= n && hit(j)
    ensures j in Scan(n, step, hit, i) || Covered(Scan(n, step, hit, i), step, j)
    decreases n + 1 - i
  {
    if hit(i) {
      var rest := Scan(n, step, hit, i + step);
      assert Scan(n, step, hit, i) == [i] + rest;
      if j < i + step {
        CoveredByHead(i, rest, step, j);
      } else {
        ScanComplete(n, step, hit, i + step, j);
        CoveredInTail(i, rest, step, j);
      }
    } else {
      ScanComplete(n, step, hit, i + 1, j);
    }
  }

  lemma CoveredByHead(i: nat, rest: seq<nat>, step: nat, j: nat)
    requires i <= j < i + step
    ensures j in [i] + rest || Covered([i] + rest, step, j)
  {
    var r := [i] + rest;
    if j != i {
      assert r[0] < j < r[0] + step;
    }
  }

  lemma CoveredInTail(i: nat, rest: seq<nat>, step: nat, j: nat)
    requires j in rest || Covered(rest, step, j)
    ensures j in [i] + rest || Covered([i] + rest, step, j)
  {
    var r := [i] + rest;
    if !(j in rest) {
      var k :| 0 <= k < |rest| && rest[k] < j < rest[k] + step;
      assert r[k + 1] == rest[k];
    }
  }

  function Matcher(t: string, v: string): nat -> bool
  {
    (i: nat) => MatchesAt(t, v, i)
  }

  /** The start indices `re.finditer` reports for variation `v`: non-overlapping
      matches, left to right, resuming just past each one. */
  function ScanMatches(t: string, v: string): (r: seq<nat>)
    ensures forall k :: 0 <= k < |r| ==> MatchesAt(t, v, r[k])
    ensures forall k :: 0 <= k < |r| ==> r[k] + |v| <= |t|
    ensures forall k, l :: 0 <= k < l < |r| ==> r[k] + Step(v) <= r[l]
  {
    var r := Scan(|t|, Step(v), Matcher(t, v), 0);
    assert forall k :: 0 <= k < |r| ==> Matcher(t, v)(r[k]);
    r
  }

  /** Every match of `v` is reported, or starts inside the span of an earlier
      reported match (finditer does not report overlapping matches); a
      zero-width match is always reported. */
  lemma ScanMatchesComplete(t: string, v: string, j: nat)
    requires MatchesAt(t, v, j)
    ensures j in ScanMatches(t, v) || Covered(ScanMatches(t, v), |v|, j)
  {
    assert Matcher(t, v)(j);
    ScanComplete(|t|, Step(v), Matcher(t, v), 0, j);
  }

  /** Variation `v` matches nowhere in `t`. */
  predicate NoMatchOf(t: string, v: string)
  {
    forall j :: 0 <= j <= |t| ==> !MatchesAt(t, v, j)
  }

  /** No variation of `vs` matches anywhere in `t`. */
  predicate NoMatch(t: string, vs: seq<string>)
  {
    forall v :: v in vs ==> NoMatchOf(t, v)
  }

  lemma ScanEmptyIffNoMatch(t: string, v: string)
    ensures ScanMatches(t, v) == [] <==> NoMatchOf(t, v)
  {
    var r := ScanMatches(t, v);
    if r != [] {
      assert MatchesAt(t, v, r[0]) && r[0] <= |t|;
    }
    if exists j :: 0 <= j <= |t| && MatchesAt(t, v, j) {
      var j :| 0 <= j <= |t| && MatchesAt(t, v, j);
      ScanMatchesComplete(t, v, j);
    }
  }

  // ------------------------------------------------------------ mention records

  /** `max(0, position - 50)`. */
  function ContextStart(p: nat): nat
  {
    if p >= 50 then p - 50 else 0
  }

  /** `min(len(transcript), end_position + 50)`. */
  function ContextEnd(t: string, e: nat): nat
  {
    if e + 50 <= |t| then e + 50 else |t|
  }

  /** The mention record `_find_mentions` builds for a match of `v` at `p`. */
  function MentionAt(t: string, v: string, p: nat): Mention
    requires p + |v| <= |t|
  {
    Mention(v, t[p..p + |v|], p, p + |v|, Strip(t[ContextStart(p)..ContextEnd(t, p + |v|)]))
  }

  /** What every reported mention satisfies: it is a match of its variation at
      its position, recorded as `MentionAt` records it. */
  predicate Reported(t: string, m: Mention)
  {
    && m.position + |m.variation| <= |t|
    && MatchesAt(t, m.variation, m.position)
    && m == MentionAt(t, m.variation, m.position)
  }

  lemma MentionAtReported(t: string, v: string, p: nat)
    requires MatchesAt(t, v, p)
    ensures Reported(t, MentionAt(t, v, p)) && MentionAt(t, v, p).variation == v
  {
  }

  /** Mention records for the match positions `ps` of variation `v`. */
  function MentionsAt(t: string, v: string, ps: seq<nat>): (r: seq<Mention>)
    requires forall k :: 0 <= k < |ps| ==> ps[k] + |v| <= |t|
    ensures |r| == |ps|
    ensures forall k :: 0 <= k < |ps| ==> r[k] == MentionAt(t, v, ps[k])
    decreases |ps|
  {
    if ps == [] then [] else MentionsAt(t, v, Init(ps)) + [MentionAt(t, v, Last(ps))]
  }

  /** The list the nested loops of `_find_mentions` build before de-duplication:
      for each variation in turn, its matches in scan order. */
  function RawMentions(t: string, vs: seq<string>): seq<Mention>
    decreases |vs|
  {
    if vs == [] then []
    else RawMentions(t, Init(vs)) + MentionsAt(t, Last(vs), ScanMatches(t, Last(vs)))
  }

  /** The records built for a variation's matches are reported matches of it. */
  lemma MentionsAtReported(t: string, v: string, ps: seq<nat>)
    requires forall k :: 0 <= k < |ps| ==> MatchesAt(t, v, ps[k])
    requires forall k :: 0 <= k < |ps| ==> ps[k] + |v| <= |t|
    ensures forall m :: m in MentionsAt(t, v, ps) ==> Reported(t, m) && m.variation == v
  {
    var ms := MentionsAt(t, v, ps);
    forall m | m in ms ensures Reported(t, m) && m.variation == v {
      var k :| 0 <= k < |ms| && ms[k] == m;
      MentionAtReported(t, v, ps[k]);
    }
  }

  /** Every raw mention is a reported match of one of the variations. */
  lemma {:induction false} RawMentionsReported(t: string, vs: seq<string>)
    ensures forall m :: m in RawMentions(t, vs) ==> Reported(t, m) && m.variation in vs
    decreases |vs|
  {
    if vs != [] {
      RawMentionsReported(t, Init(vs));
      var prev := RawMentions(t, Init(vs));
      var ps := ScanMatches(t, Last(vs));
      var last := MentionsAt(t, Last(vs), ps);
      MentionsAtReported(t, Last(vs), ps);
      assert RawMentions(t, vs) == prev + last;
    }
  }

  lemma NoMatchSplit(t: string, vs: seq<string>)
    requires vs != []
    ensures NoMatch(t, vs) <==> NoMatch(t, Init(vs)) && NoMatchOf(t, Last(vs))
  {
    InitLast(vs);
  }

  lemma {:induction false} RawEmptyIffNoMatch(t: string, vs: seq<string>)
    ensures RawMentions(t, vs) == [] <==> NoMatch(t, vs)
    decreases |vs|
  {
    if vs != [] {
      RawEmptyIffNoMatch(t, Init(vs));
      ScanEmptyIffNoMatch(t, Last(vs));
      NoMatchSplit(t, vs);
    }
  }

  // -------------------------------------------------------------------- sorting

  predicate SortedByPosition(ms: seq<Mention>)
  {
    forall i, j :: 0 <= i < j < |ms| ==> ms[i].position <= ms[j].position
  }

  /** Put `m` after every element of `r` whose position is not greater: the step
      of a stable insertion sort. */
  function InsertByPosition(r: seq<Mention>, m: Mention): (out: seq<Mention>)
    ensures |out| == |r| + 1
    ensures multiset(out) == multiset(r) + multiset{m}
    decreases |r|
  {
    if r == [] || Last(r).position <= m.position then r + [m]
    else
      InitLast(r);
      InsertByPosition(Init(r), m) + [Last(r)]
  }

  lemma {:induction false} InsertBounded(r: seq<Mention>, m: Mention, b: nat)
    requires forall k :: 0 <= k < |r| ==> r[k].position <= b
    requires m.position <= b
    ensures forall k :: 0 <= k < |r| + 1 ==> InsertByPosition(r, m)[k].position <= b
    decreases |r|
  {
    if !(r == [] || Last(r).position <= m.position) {
      InsertBounded(Init(r), m, b);
    }
  }

  lemma {:induction false} InsertSorted(r: seq<Mention>, m: Mention)
    requires SortedByPosition(r)
    ensures SortedByPosition(InsertByPosition(r, m))
    decreases |r|
  {
    if !(r == [] || Last(r).position <= m.position) {
      var b := Last(r).position;
      var front := InsertByPosition(Init(r), m);
      InsertSorted(Init(r), m);
      InsertBounded(Init(r), m, b);
      var out := front + [Last(r)];
      forall i, j | 0 <= i < j < |out| ensures out[i].position <= out[j].position {
        assert out[i] == front[i];
        if j < |front| {
          assert out[j] == front[j];
        }
      }
    }
  }

  /** `sorted(mentions, key=lambda x: x["position"])`: Python's sort is stable,
      which this insertion sort is too (see SortByPositionIsStable). */
  function SortByPosition(ms: seq<Mention>): (r: seq<Mention>)
    ensures |r| == |ms|
    ensures multiset(r) == multiset(ms)
    ensures SortedByPosition(r)
    decreases |ms|
  {
    if ms == [] then []
    else
      InitLast(ms);
      var r := SortByPosition(Init(ms));
      InsertSorted(r, Last(ms));
      InsertByPosition(r, Last(ms))
  }

  /** Sorting an already sorted list changes nothing (so the second `sort` in
      `_find_mentions` is a no-op). */
  lemma {:induction false} SortSortedIsIdentity(ms: seq<Mention>)
    requires SortedByPosition(ms)
    ensures SortByPosition(ms) == ms
    decreases |ms|
  {
    if ms != [] {
      SortSortedIsIdentity(Init(ms));
      InitLast(ms);
    }
  }

  /** The mentions of `ms` at position `p`, in order. */
  function TiesAt(ms: seq<Mention>, p: nat): seq<Mention>
    decreases |ms|
  {
    if ms == [] then []
    else TiesAt(Init(ms), p) + (if Last(ms).position == p then [Last(ms)] else [])
  }

  lemma TiesAtSnoc(a: seq<Mention>, x: Mention, p: nat)
    ensures TiesAt(a + [x], p) == TiesAt(a, p) + (if x.position == p then [x] else [])
  {
    Snoc(a, x);
  }

  lemma {:induction false} InsertKeepsTies(r: seq<Mention>, m: Mention, p: nat)
    ensures TiesAt(InsertByPosition(r, m), p) == TiesAt(r, p) + (if m.position == p then [m] else [])
    decreases |r|
  {
    var mTie: seq<Mention> := if m.position == p then [m] else [];
    if r == [] || Last(r).position <= m.position {
      assert InsertByPosition(r, m) == r + [m];
      TiesAtSnoc(r, m, p);
    } else {
      var l := Last(r);
      var lTie: seq<Mention> := if l.position == p then [l] else [];
      var front := InsertByPosition(Init(r), m);
      assert InsertByPosition(r, m) == front + [l];
      InsertKeepsTies(Init(r), m, p);
      TiesAtSnoc(front, l, p);
      InitLast(r);
      TiesAtSnoc(Init(r), l, p);
      AppendCommutesWithEmpty(TiesAt(Init(r), p), mTie, lTie);
    }
  }

  /** Appending two sequences one of which is empty does not depend on the order. */
  lemma AppendCommutesWithEmpty<T>(t: seq<T>, x: seq<T>, y: seq<T>)
    requires x == [] || y == []
    ensures t + x + y == t + y + x
  {
    if x == [] {
      assert t + x == t;
      assert t + y + x == t + y;
    } else {
      assert t + y == t;
      assert t + x + y == t + x;
    }
  }

  /** Stability: among mentions at the same position, the sort keeps the input
      order, so which variation's mention the de-duplication keeps at a tied
      position depends only on the order of the variations. */
  lemma {:induction false} SortByPositionIsStable(ms: seq<Mention>, p: nat)
    ensures TiesAt(SortByPosition(ms), p) == TiesAt(ms, p)
    decreases |ms|
  {
    if ms != [] {
      SortByPositionIsStable(Init(ms), p);
      InsertKeepsTies(SortByPosition(Init(ms)), Last(ms), p);
    }
  }

  // -------------------------------------------------------------- deduplication

  /** The mention after index `k` starts at least five characters after the
      one at `k` ends. */
  predicate SpacedAfter(ms: seq<Mention>, k: nat)
    requires k + 1 < |ms|
  {
    ms[k].endPosition + 5 <= ms[k + 1].position
  }

  /** Each mention starts at least five characters after the previous one ends. */
  predicate Gapped(ms: seq<Mention>)
  {
    forall k :: 0 <= k < |ms| - 1 ==> SpacedAfter(ms, k)
  }

  /** The loop of `_deduplicate_mentions` over a sorted list: keep the first
      mention, then each one that starts at or after the last kept mention's end
      plus five. */
  function DedupSorted(s: seq<Mention>): (r: seq<Mention>)
    ensures |s| > 0 ==> |r| > 0 && r[0] == s[0]
    ensures |r| <= |s|
    decreases |s|
  {
    if |s| <= 1 then s
    else
      var d := DedupSorted(Init(s));
      if Last(s).position < Last(d).endPosition + 5 then d else d + [Last(s)]
  }

  /** `_deduplicate_mentions`. */
  function Dedup(ms: seq<Mention>): seq<Mention>
  {
    if ms == [] then [] else DedupSorted(SortByPosition(ms))
  }

  lemma {:induction false} DedupSortedGapped(s: seq<Mention>)
    ensures Gapped(DedupSorted(s))
    decreases |s|
  {
    if |s| > 1 {
      DedupSortedGapped(Init(s));
      var d := DedupSorted(Init(s));
      if !(Last(s).position < Last(d).endPosition + 5) {
        var r := d + [Last(s)];
        forall k | 0 <= k < |r| - 1 ensures SpacedAfter(r, k) {
          if k < |d| - 1 {
            assert SpacedAfter(d, k);
          }
        }
      }
    }
  }

  lemma {:induction false} DedupSortedSubseq(s: seq<Mention>)
    ensures Subseq(DedupSorted(s), s)
    decreases |s|
  {
    if |s| <= 1 {
      SubseqRefl(s);
    } else {
      var d := DedupSorted(Init(s));
      DedupSortedSubseq(Init(s));
      if !(Last(s).position < Last(d).endPosition + 5) {
        Snoc(d, Last(s));
      }
    }
  }

  /** Mention `x` starts within the span of `m` or fewer than five characters
      after it, and not before `m`: the overlap the loop skips. */
  predicate Shadows(m: Mention, x: Mention)
  {
    m.position <= x.position < m.endPosition + 5
  }

  /** Over a sorted list, a mention is dropped only when it starts inside a
      kept mention at or before it, or fewer than five characters after one. */
  lemma {:induction false} DedupSortedDropsOnlyShadowed(s: seq<Mention>)
    requires SortedByPosition(s)
    ensures forall x :: x in s ==> x in DedupSorted(s) || exists m :: m in DedupSorted(s) && Shadows(m, x)
    decreases |s|
  {
    if |s| > 1 {
      var init := Init(s);
      assert SortedByPosition(init) by {
        forall i, j | 0 <= i < j < |init| ensures init[i].position <= init[j].position {
          assert init[i] == s[i] && init[j] == s[j];
        }
      }
      DedupSortedDropsOnlyShadowed(init);
      var d := DedupSorted(init);
      var r := DedupSorted(s);
      assert forall m :: m in d ==> m in r;
      forall x | x in s ensures x in r || exists m :: m in r && Shadows(m, x) {
        if x !in init {
          InitLast(s);
          assert x == Last(s);
          if x !in r {
            var m := Last(d);
            assert m in d;
            DedupSortedSubseq(init);
            SubseqMembers(d, init);
            var k :| 0 <= k < |init| && init[k] == m;
            assert s[k] == m && s[|s| - 1] == x;
            assert Shadows(m, x);
          }
        }
      }
    }
  }

  /** A list that already keeps the gap is left as it is. */
  lemma {:induction false} DedupSortedOfGapped(s: seq<Mention>)
    requires Gapped(s)
    ensures DedupSorted(s) == s
    decreases |s|
  {
    if |s| > 1 {
      forall k | 0 <= k < |Init(s)| - 1 ensures SpacedAfter(Init(s), k) {
        assert SpacedAfter(s, k);
      }
      DedupSortedOfGapped(Init(s));
      assert SpacedAfter(s, |s| - 2);
      InitLast(s);
    }
  }

  /** What `_deduplicate_mentions` promises: its output is sorted by position, a
      subsequence of the sorted input that starts with the input's first mention,
      each kept mention starts at or after the previous kept end plus five, it
      is empty only for an empty input, and it only holds input mentions.
      Conversely, an input mention is dropped only when it starts inside a
      kept mention at or before it, or fewer than five characters after its
      end. */
  lemma DedupProperties(ms: seq<Mention>)
    ensures var r := Dedup(ms);
      && Gapped(r) && SortedByPosition(r)
      && Subseq(r, SortByPosition(ms))
      && (ms != [] ==> r[0] == SortByPosition(ms)[0])
      && (r == [] <==> ms == [])
      && (forall m :: m in r ==> m in ms)
      && (forall x :: x in ms ==> x in r || exists m :: m in r && Shadows(m, x))
  {
    if ms != [] {
      var s := SortByPosition(ms);
      var r := DedupSorted(s);
      assert Dedup(ms) == r;
      DedupSortedGapped(s);
      DedupSortedSubseq(s);
      SubseqKeepsOrder(r, s, (a: Mention, b: Mention) => a.position <= b.position);
      SubseqMembers(r, s);
      SameMembers(s, ms);
      DedupSortedDropsOnlyShadowed(s);
    }
  }

  lemma SameMembers(a: seq<Mention>, b: seq<Mention>)
    requires multiset(a) == multiset(b)
    ensures forall x :: x in a <==> x in b
  {
    forall x ensures x in a <==> x in b {
      assert x in a <==> x in multiset(a);
    }
  }

  /** De-duplicating twice is the same as once. */
  lemma DedupIdempotent(ms: seq<Mention>)
    ensures Dedup(Dedup(ms)) == Dedup(ms)
  {
    var r := Dedup(ms);
    DedupProperties(ms);
    if r != [] {
      SortSortedIsIdentity(r);
      DedupSortedOfGapped(r);
    }
  }

  /** The loop of `_deduplicate_mentions` over the sorted list `s`. */
  method KeepSpaced(s: seq<Mention>) returns (r: seq<Mention>)
    ensures r == DedupSorted(s)
  {
    if s == [] {
      return [];
    }
    r := [s[0]];
    assert s[..1] == [s[0]];
    for i := 1 to |s|
      invariant r == DedupSorted(s[..i])
    {
      PrefixStep(s, i);
      var last := r[|r| - 1];
      if s[i].position < last.endPosition + 5 {
        continue;
      }
      r := r + [s[i]];
    }
    WholePrefix(s);
  }

  /** `_deduplicate_mentions`: sort by position, then keep spaced mentions. */
  method Deduplicate(mentions: seq<Mention>) returns (r: seq<Mention>)
    ensures r == Dedup(mentions)
  {
    if mentions == [] {
      return [];
    }
    var sorted := SortByPosition(mentions);
    r := KeepSpaced(sorted);
  }

  /** The inner loop of `_find_mentions`: a record for every match `finditer`
      reports for one variation, in scan order. */
  method MatchRecords(t: string, v: string) returns (ms: seq<Mention>)
    ensures ms == MentionsAt(t, v, ScanMatches(t, v))
  {
    var ps := ScanMatches(t, v);
    ms := [];
    for k := 0 to |ps|
      invariant ms == MentionsAt(t, v, ps[..k])
    {
      PrefixStep(ps, k);
      ms := ms + [MentionAt(t, v, ps[k])];
    }
    WholePrefix(ps);
  }

  /** The outer loop of `_find_mentions`, over the variations in order. */
  method CollectMatches(t: string, vs: seq<string>) returns (raw: seq<Mention>)
    ensures raw == RawMentions(t, vs)
  {
    raw := [];
    for i := 0 to |vs|
      invariant raw == RawMentions(t, vs[..i])
    {
      var ms := MatchRecords(t, vs[i]);
      PrefixStep(vs, i);
      raw := raw + ms;
    }
    WholePrefix(vs);
  }

  /** What `_find_mentions` returns: reported matches of the given variations,
      sorted by position and at least five characters apart, and none at all
      exactly when no variation matches anywhere. */
  lemma FoundMentions(t: string, vs: seq<string>)
    ensures var r := Dedup(RawMentions(t, vs));
      && (forall m :: m in r ==> Reported(t, m) && m.variation in vs)
      && Gapped(r) && SortedByPosition(r)
      && (r == [] <==> NoMatch(t, vs))
  {
    DedupProperties(RawMentions(t, vs));
    RawMentionsReported(t, vs);
    RawEmptyIffNoMatch(t, vs);
  }

  /** `_find_mentions`: every match of every variation, de-duplicated, then
      sorted by position again (which changes nothing). */
  method FindMentions(t: string, vs: seq<string>) returns (r: seq<Mention>)
    ensures r == Dedup(RawMentions(t, vs))
    ensures forall m :: m in r ==> Reported(t, m) && m.variation in vs
    ensures Gapped(r) && SortedByPosition(r)
    ensures r == [] <==> NoMatch(t, vs)
  {
    var raw := CollectMatches(t, vs);
    r := Deduplicate(raw);
    FoundMentions(t, vs);
    SortSortedIsIdentity(r);
    r := SortByPosition(r);
  }
}
