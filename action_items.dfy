/** The action-item heuristics: keyword tests for action verbs and priority,
    the additive confidence score (in tenths: 0.3 is 3), the acceptance rule
    `confidence >= 0.6`, the prefix stripping of the task description, the
    first-match deadline lookup, the assignee fallback to a role, and the tail
    of `extract`, which keeps the accepted items and sorts them stably by
    priority.

    The language model is not modelled: each sentence arrives with its text
    and the texts of its PERSON entities. */
module ActionItems {
  import opened Common
  import opened Text

  // ------------------------------------------------------------ keyword lists

  const ActionVerbs: seq<string> := [
    "will", "should", "must", "need to", "needs to", "have to", "has to",
    "going to", "plan to", "plans to", "responsible for", "assigned to",
    "take care of", "handle", "complete", "finish", "deliver", "prepare",
    "create", "build", "develop", "design", "implement", "review", "send"]

  const HighKeywords: seq<string> := ["urgent", "asap", "immediately", "critical", "high priority"]

  /** Declared beside the others but never consulted: "medium" is the
      fallback. */
  const MediumKeywords: seq<string> := ["important", "soon", "this week", "medium priority"]

  const LowKeywords: seq<string> := ["when possible", "eventually", "low priority", "nice to have"]

  const Roles: seq<string> := ["team", "designer", "developer", "manager", "lead", "engineer"]

  const Weekdays: seq<string> := ["monday", "tuesday", "wednesday", "thursday", "friday", "saturday", "sunday"]

  const RelativeDays: seq<string> := ["tomorrow", "today", "next week", "this week"]

  const Months: seq<string> := [
    "january", "february", "march", "april", "may", "june", "july",
    "august", "september", "october", "november", "december"]

  /** Some word of `words` occurs in `hay`. */
  predicate ContainsAny(hay: string, words: seq<string>)
  {
    exists w :: w in words && Contains(hay, w)
  }

  /** `_contains_action_verb`: one of the verbs occurs in the lowercased text,
      so the test ignores case. */
  predicate ContainsActionVerb(text: string)
  {
    ContainsAny(Lower(text), ActionVerbs)
  }

  /** The verb test is a substring search, not a word match: a text that
      passes it still passes with anything around it. */
  lemma ActionVerbInContext(a: string, b: string, c: string)
    requires ContainsActionVerb(b)
    ensures ContainsActionVerb(a + b + c)
  {
    var w :| w in ActionVerbs && Contains(Lower(b), w);
    LowerAppend(a + b, c);
    LowerAppend(a, b);
    ContainsInContext(Lower(a), w, Lower(b), Lower(c));
  }

  /** `_extract_priority`: the high keywords first, then the low ones. */
  function Priority(text: string): (p: string)
    ensures p in ["high", "medium", "low"]
  {
    var tl := Lower(text);
    if ContainsAny(tl, HighKeywords) then "high"
    else if ContainsAny(tl, LowKeywords) then "low"
    else "medium"
  }

  /** A high keyword wins over a low one, and "medium" is exactly the absence
      of both: the medium keywords play no part. */
  lemma PriorityRule(text: string)
    ensures Priority(text) == "high" <==> ContainsAny(Lower(text), HighKeywords)
    ensures Priority(text) == "low" <==> !ContainsAny(Lower(text), HighKeywords) && ContainsAny(Lower(text), LowKeywords)
    ensures Priority(text) == "medium" <==> !ContainsAny(Lower(text), HighKeywords) && !ContainsAny(Lower(text), LowKeywords)
  {
  }

  // ------------------------------------------------------------ confidence

  function Points(b: bool, n: nat): nat
  {
    if b then n else 0
  }

  /** Python's `min` on two naturals. */
  function Min(a: nat, b: nat): nat
  {
    if a < b then a else b
  }

  /** The score in tenths: 3 for an action verb, 3 for an assignee, 2 for a
      deadline, 2 for a sentence of 5 to 30 words, at most 10. */
  function Confidence(hasAssignee: bool, hasDeadline: bool, hasActionVerb: bool, sentenceLength: nat): (c: nat)
    ensures c <= 10
  {
    Min(Points(hasActionVerb, 3) + Points(hasAssignee, 3) + Points(hasDeadline, 2)
      + Points(5 <= sentenceLength <= 30, 2), 10)
  }

  /** `_calculate_confidence`: the score accumulated step by step. */
  method CalculateConfidence(hasAssignee: bool, hasDeadline: bool, hasActionVerb: bool, sentenceLength: nat)
    returns (score: nat)
    ensures score == Confidence(hasAssignee, hasDeadline, hasActionVerb, sentenceLength)
  {
    score := 0;
    if hasActionVerb {
      score := score + 3;
    }
    if hasAssignee {
      score := score + 3;
    }
    if hasDeadline {
      score := score + 2;
    }
    if 5 <= sentenceLength <= 30 {
      score := score + 2;
    }
    score := Min(score, 10);
  }

  /** With the action verb present, the score reaches 0.6 exactly when there
      is an assignee, or a deadline in a sentence of 5 to 30 words. */
  lemma ConfidenceAccepts(hasAssignee: bool, hasDeadline: bool, sentenceLength: nat)
    ensures Confidence(hasAssignee, hasDeadline, true, sentenceLength) >= 6
      <==> hasAssignee || (hasDeadline && 5 <= sentenceLength <= 30)
  {
  }

  /** Each signal can only raise the score. */
  lemma ConfidenceMonotone(a1: bool, d1: bool, v1: bool, a2: bool, d2: bool, v2: bool, n: nat)
    requires (a1 ==> a2) && (d1 ==> d2) && (v1 ==> v2)
    ensures Confidence(a1, d1, v1, n) <= Confidence(a2, d2, v2, n)
  {
  }

  // ------------------------------------------------------------ task description

  const Fillers: seq<string> := ["so", "well", "um", "uh", "okay", "alright"]

  const Requests: seq<string> := ["can you", "could you", "would you", "will you"]

  /** `s` is a suffix of `t`. */
  predicate IsSuffix(s: string, t: string)
  {
    |s| <= |t| && s == t[|t| - |s|..]
  }

  /** `t` starts with `w`, ignoring case. */
  predicate StartsWithFold(t: string, w: string)
  {
    |w| <= |t| && EqualFold(t[..|w|], w)
  }

  /** `words[k]` is the first listed word that `t` starts with (ignoring case). */
  predicate FirstPrefixIs(t: string, words: seq<string>, k: int)
  {
    && 0 <= k < |words| && StartsWithFold(t, words[k])
    && forall m :: 0 <= m < k ==> !StartsWithFold(t, words[m])
  }

  /** The length of the first word of `words` that `t` starts with (ignoring
      case): the alternative an anchored regex alternation picks. */
  function FirstPrefix(t: string, words: seq<string>): (r: Option<nat>)
    ensures r.Some? ==> r.value <= |t| && exists k :: FirstPrefixIs(t, words, k) && r.value == |words[k]|
    ensures r.None? <==> forall w :: w in words ==> !StartsWithFold(t, w)
  {
    if words == [] then None
    else if StartsWithFold(t, words[0]) then
      assert FirstPrefixIs(t, words, 0);
      Some(|words[0]|)
    else
      var r := FirstPrefix(t, words[1..]);
      assert forall w :: w in words ==> w == words[0] || w in words[1..];
      assert r.Some? ==> exists k :: FirstPrefixIs(t, words, k) && r.value == |words[k]| by {
        if r.Some? {
          var k :| FirstPrefixIs(t, words[1..], k) && r.value == |words[1..][k]|;
          assert FirstPrefixIs(t, words, k + 1);
        }
      }
      r
  }

  /** `re.sub(r'^(so|well|um|uh|okay|alright),?\s*', '', t, flags=re.IGNORECASE)`:
      one filler word, an optional comma and the whitespace after it. The
      pattern has no word boundary, so it also eats the start of a word. */
  function StripFiller(t: string): (r: string)
    ensures IsSuffix(r, t)
  {
    match FirstPrefix(t, Fillers)
    case None => t
    case Some(n) =>
      var j := if n < |t| && t[n] == ',' then n + 1 else n;
      t[SpaceRunEnd(t, j)..]
  }

  /** The first request phrase that `t` starts with, followed by whitespace. */
  function RequestEnd(t: string, phrases: seq<string>): (r: Option<nat>)
    ensures r.Some? ==> r.value < |t| && IsSpace(t[r.value])
    ensures r.Some? ==> exists w :: w in phrases && |w| == r.value && StartsWithFold(t, w)
    ensures r.None? <==> forall w :: w in phrases ==> !RequestAt(t, w)
  {
    if phrases == [] then None
    else
      var w := phrases[0];
      if RequestAt(t, w) then Some(|w|)
      else
        var r := RequestEnd(t, phrases[1..]);
        assert forall v :: v in phrases ==> v == w || v in phrases[1..];
        r
  }

  /** `t` starts with the phrase `w` (ignoring case) and whitespace follows. */
  predicate RequestAt(t: string, w: string)
  {
    StartsWithFold(t, w) && |w| < |t| && IsSpace(t[|w|])
  }

  /** `re.sub(r'^(can you|could you|would you|will you)\s+', '', t, flags=re.IGNORECASE)`. */
  function StripRequest(t: string): (r: string)
    ensures IsSuffix(r, t)
  {
    match RequestEnd(t, Requests)
    case None => t
    case Some(n) => t[SpaceRunEnd(t, n)..]
  }

  /** End of the run of ASCII lower-case letters starting at `i`. */
  function LowerRunEnd(t: string, i: nat): (r: nat)
    requires i <= |t|
    ensures i <= r <= |t|
    ensures forall k :: i <= k < r ==> IsLower(t[k])
    ensures r == |t| || !IsLower(t[r])
    decreases |t| - i
  {
    if i < |t| && IsLower(t[i]) then LowerRunEnd(t, i + 1) else i
  }

  /** `re.sub(r'^[A-Z][a-z]+,\s*', '', t)`: a capitalised word and a comma
      (a name being addressed), case-sensitively. */
  function StripAddressee(t: string): (r: string)
    ensures IsSuffix(r, t)
  {
    if t != [] && IsUpper(t[0]) then
      var e := LowerRunEnd(t, 1);
      if e >= 2 && e < |t| && t[e] == ',' then t[SpaceRunEnd(t, e + 1)..] else t
    else t
  }

  /** `_extract_task_description`. */
  function TaskDescription(text: string): string
  {
    Capitalize(Strip(StripAddressee(StripRequest(StripFiller(text)))))
  }

  /** The description is empty exactly when nothing but whitespace is left
      after the three prefixes go; otherwise it is stripped and does not start
      with a lower-case letter. */
  lemma TaskDescriptionFacts(text: string)
    ensures var rest := StripAddressee(StripRequest(StripFiller(text)));
      var d := TaskDescription(text);
      && (d == [] <==> IsBlank(rest))
      && (d != [] ==> !IsLower(d[0]) && Strip(d) == d && |d| == |Strip(rest)|)
      && (d != [] ==> d[0] == UpperChar(Strip(rest)[0]) && d[1..] == Strip(rest)[1..])
      && IsSuffix(rest, text)
  {
    var a := StripFiller(text);
    var b := StripRequest(a);
    var rest := StripAddressee(b);
    CapitalizeStripped(rest);
    SuffixTrans(b, a, text);
    SuffixTrans(rest, b, text);
  }

  lemma SuffixTrans(a: string, b: string, c: string)
    requires IsSuffix(a, b) && IsSuffix(b, c)
    ensures IsSuffix(a, c)
  {
    assert c[|c| - |b|..][|b| - |a|..] == c[|c| - |a|..];
  }

  /** Capitalising the stripped text keeps it stripped and of the same length. */
  lemma CapitalizeStripped(rest: string)
    ensures var d := Capitalize(Strip(rest));
      && (d == [] <==> IsBlank(rest))
      && (d != [] ==> !IsLower(d[0]) && Strip(d) == d && |d| == |Strip(rest)|)
  {
    var s := Strip(rest);
    StripFacts(rest);
    if s != [] {
      var d := Capitalize(s);
      assert d[0] == UpperChar(s[0]);
      assert d[|d| - 1] == s[|s| - 1] || |d| == 1;
      StripOfStripped(d);
    }
  }

  /** Without a word boundary, "So" is taken off "Sometimes". */
  lemma FillerInsideWord()
    ensures StripFiller("Sometimes") == "metimes"
  {
    assert StartsWithFold("Sometimes", "so");
    assert FirstPrefix("Sometimes", Fillers) == Some(2);
  }

  /** Only one filler goes: the second "so" of "so so" stays. */
  lemma OneFillerOnly()
    ensures StripFiller("so so") == "so"
  {
    assert StartsWithFold("so so", "so");
    assert FirstPrefix("so so", Fillers) == Some(2);
    assert SpaceRunEnd("so so", 2) == 3;
  }

  /** The filler step changes the text exactly when it starts with a filler
      word. It then removes that word, at most one comma right after it and
      the whitespace that follows, so what is left does not start with
      whitespace. */
  lemma StripFillerFacts(t: string)
    ensures StripFiller(t) == t <==> FirstPrefix(t, Fillers).None?
    ensures FirstPrefix(t, Fillers).Some? ==>
      var n := FirstPrefix(t, Fillers).value;
      var r := StripFiller(t);
      && n + |r| <= |t|
      && (forall i :: n <= i < |t| - |r| ==> IsSpace(t[i]) || (i == n && t[i] == ','))
      && (r == [] || !IsSpace(r[0]))
  {
    match FirstPrefix(t, Fillers)
    case None =>
    case Some(n) =>
      FillersNonEmpty();
      FillerCut(t, n);
  }

  /** Cutting a filler of length `n`, an optional comma and the whitespace
      after it. */
  lemma FillerCut(t: string, n: nat)
    requires 0 < n <= |t|
    ensures var j := if n < |t| && t[n] == ',' then n + 1 else n;
      var r := t[SpaceRunEnd(t, j)..];
      && r != t
      && n + |r| <= |t|
      && (forall i :: n <= i < |t| - |r| ==> IsSpace(t[i]) || (i == n && t[i] == ','))
      && (r == [] || !IsSpace(r[0]))
  {
    var j := if n < |t| && t[n] == ',' then n + 1 else n;
    SkipSpaceFacts(t, j);
  }

  /** Skipping the whitespace from `j` leaves a suffix that does not start with
      whitespace. */
  lemma SkipSpaceFacts(t: string, j: nat)
    requires j <= |t|
    ensures var r := t[SpaceRunEnd(t, j)..];
      && |r| <= |t| - j
      && (forall i :: j <= i < |t| - |r| ==> IsSpace(t[i]))
      && (r == [] || !IsSpace(r[0]))
  {
  }

  lemma FillersNonEmpty()
    ensures forall w :: w in Fillers ==> |w| > 0
  {
    forall w | w in Fillers ensures |w| > 0 {
      var i :| 0 <= i < |Fillers| && Fillers[i] == w;
    }
  }

  /** The request step changes the text exactly when it starts with a request
      phrase followed by whitespace. It then removes the phrase and all the
      whitespace after it. */
  lemma StripRequestFacts(t: string)
    ensures StripRequest(t) == t <==> forall w :: w in Requests ==> !RequestAt(t, w)
    ensures RequestEnd(t, Requests).Some? ==>
      var n := RequestEnd(t, Requests).value;
      var r := StripRequest(t);
      && n < |t| - |r|
      && (forall i :: n <= i < |t| - |r| ==> IsSpace(t[i]))
      && (r == [] || !IsSpace(r[0]))
  {
    match RequestEnd(t, Requests)
    case None =>
    case Some(n) =>
      assert SpaceRunEnd(t, n) > n;
      SkipSpaceFacts(t, n);
  }

  /** `t` starts with an upper-case letter, lower-case letters up to index `e`
      (at least one) and a comma at `e`: the addressee pattern matches. */
  predicate AddressedUpTo(t: string, e: nat)
  {
    2 <= e < |t| && IsUpper(t[0]) && (forall i :: 1 <= i < e ==> IsLower(t[i])) && t[e] == ','
  }

  /** The addressee step changes the text exactly when it starts with a
      capitalised word and a comma. It then removes the word, the comma and the
      whitespace after it. */
  lemma StripAddresseeFacts(t: string)
    ensures StripAddressee(t) == t <==> forall e: nat :: !AddressedUpTo(t, e)
    ensures StripAddressee(t) != t ==>
      var r := StripAddressee(t);
      exists e: nat :: AddressedUpTo(t, e) && e < |t| - |r|
        && (forall i :: e < i < |t| - |r| ==> IsSpace(t[i]))
        && (r == [] || !IsSpace(r[0]))
  {
    forall e: nat | AddressedUpTo(t, e) ensures LowerRunEnd(t, 1) == e {
      AddresseeEndsRun(t, e);
    }
    if t != [] && IsUpper(t[0]) {
      var e := LowerRunEnd(t, 1);
      if e >= 2 && e < |t| && t[e] == ',' {
        assert AddressedUpTo(t, e);
        SkipSpaceFacts(t, e + 1);
      }
    }
  }

  /** The comma of the addressee pattern is where the run of lower-case
      letters after the capital ends. */
  lemma AddresseeEndsRun(t: string, e: nat)
    requires AddressedUpTo(t, e)
    ensures LowerRunEnd(t, 1) == e
  {
  }

  // ------------------------------------------------------------ deadline

  /** End of the run of digits starting at `i`. */
  function DigitRunEnd(t: string, i: nat): (r: nat)
    requires i <= |t|
    ensures i <= r <= |t|
    ensures forall k :: i <= k < r ==> IsDigit(t[k])
    ensures r == |t| || !IsDigit(t[r])
    decreases |t| - i
  {
    if i < |t| && IsDigit(t[i]) then DigitRunEnd(t, i + 1) else i
  }

  /** `words[k]` is the first listed word that stands as a whole word at `i`. */
  predicate FirstWholeWordIs(t: string, words: seq<string>, i: nat, k: int)
  {
    && 0 <= k < |words| && WholeWordAt(t, words[k], i)
    && forall m :: 0 <= m < k ==> !WholeWordAt(t, words[m], i)
  }

  /** `\b(w1|w2|...)\b` at index `i`: the length of the first word of the
      alternation that stands as a whole word there. */
  function WordAlternativeAt(t: string, words: seq<string>, i: nat): (r: Option<nat>)
    ensures r.Some? ==> exists k :: FirstWholeWordIs(t, words, i, k) && r.value == |words[k]|
    ensures r.None? <==> forall w :: w in words ==> !WholeWordAt(t, w, i)
  {
    if words == [] then None
    else if WholeWordAt(t, words[0], i) then
      assert FirstWholeWordIs(t, words, i, 0);
      Some(|words[0]|)
    else
      var r := WordAlternativeAt(t, words[1..], i);
      assert forall w :: w in words ==> w == words[0] || w in words[1..];
      assert r.Some? ==> exists k :: FirstWholeWordIs(t, words, i, k) && r.value == |words[k]| by {
        if r.Some? {
          var k :| FirstWholeWordIs(t, words[1..], i, k) && r.value == |words[1..][k]|;
          assert FirstWholeWordIs(t, words, i, k + 1);
        }
      }
      r
  }

  /** One or two digits ending at a word boundary, from `k`: what `\d{1,2}\b`
      matches after backtracking. */
  function ShortNumberEnd(t: string, k: nat): Option<nat>
    requires k <= |t|
  {
    var d := DigitRunEnd(t, k);
    if 1 <= d - k <= 2 && IsBoundary(t, d) then Some(d) else None
  }

  /** `\b(january|...|december)\s+\d{1,2}\b` at index `i`. */
  function MonthDayAt(t: string, months: seq<string>, i: nat): Option<nat>
  {
    if months == [] || i > |t| then None
    else
      var m := months[0];
      if IsBoundary(t, i) && OccursAt(t, m, i) && i + |m| < |t| && IsSpace(t[i + |m|]) then
        match ShortNumberEnd(t, SpaceRunEnd(t, i + |m|))
        case Some(e) => Some(e - i)
        case None => MonthDayAt(t, months[1..], i)
      else MonthDayAt(t, months[1..], i)
  }

  /** `\b\d{1,2}/\d{1,2}/\d{2,4}\b` at index `i`. */
  function NumericDateAt(t: string, i: nat): Option<nat>
  {
    if i > |t| || !IsBoundary(t, i) then None
    else
      var a := DigitRunEnd(t, i);
      if !(1 <= a - i <= 2 && a < |t| && t[a] == '/') then None
      else
        var b := DigitRunEnd(t, a + 1);
        if !(1 <= b - a - 1 <= 2 && b < |t| && t[b] == '/') then None
        else
          var c := DigitRunEnd(t, b + 1);
          if 2 <= c - b - 1 <= 4 && IsBoundary(t, c) then Some(c - i) else None
  }

  /** Date pattern `p` (0 to 3, in the source's order) matches at index `i`,
      with the length of its match. */
  function PatternAt(p: nat, t: string, i: nat): (r: Option<nat>)
    requires p < 4
    ensures r.Some? ==> i + r.value <= |t|
  {
    var r :=
      if p == 0 then WordAlternativeAt(t, Weekdays, i)
      else if p == 1 then WordAlternativeAt(t, RelativeDays, i)
      else if p == 2 then MonthDayAt(t, Months, i)
      else NumericDateAt(t, i);
    if r.Some? && i + r.value <= |t| then r else None
  }

  /** `re.search` for pattern `p` from index `i`: the leftmost match. */
  function Search(p: nat, t: string, i: nat): (r: Option<(nat, nat)>)
    requires p < 4
    ensures r.Some? ==> (i <= r.value.0 && PatternAt(p, t, r.value.0) == Some(r.value.1)
      && forall j :: i <= j < r.value.0 ==> PatternAt(p, t, j).None?)
    ensures r.None? ==> forall j :: i <= j <= |t| ==> PatternAt(p, t, j).None?
    decreases |t| + 1 - i
  {
    if i > |t| then None
    else match PatternAt(p, t, i)
      case Some(n) => Some((i, n))
      case None => Search(p, t, i + 1)
  }

  /** `str.title()` on ASCII: a letter after a letter is lower-cased, any other
      letter upper-cased. */
  function Title(s: string): (r: string)
    ensures |r| == |s|
  {
    seq(|s|, k requires 0 <= k < |s| =>
      if !IsLetter(s[k]) then s[k]
      else if k > 0 && IsLetter(s[k - 1]) then LowerChar(s[k])
      else UpperChar(s[k]))
  }

  /** The lookup from pattern `p` on. */
  function DeadlineFrom(tl: string, p: nat): Option<string>
    requires p <= 4
    decreases 4 - p
  {
    if p == 4 then None
    else match Search(p, tl, 0)
      case Some((i, n)) => Some(Title(tl[i..i + n]))
      case None => DeadlineFrom(tl, p + 1)
  }

  /** `_extract_deadline`: the leftmost match of the first pattern that
      matches the lowercased text anywhere, title-cased. */
  function Deadline(text: string): Option<string>
  {
    DeadlineFrom(Lower(text), 0)
  }

  /** No pattern numbered from `p` up to `q` (excluded) matches anywhere. */
  predicate NoMatchBetween(tl: string, p: nat, q: nat)
  {
    forall q', j :: p <= q' < q && q' < 4 && 0 <= j <= |tl| ==> PatternAt(q', tl, j).None?
  }

  /** Pattern `q` is the first from `p` on that matches anywhere, and its
      leftmost match is at `i`, of length `n`. */
  predicate FirstMatch(tl: string, p: nat, q: nat, i: nat, n: nat)
  {
    && p <= q < 4 && PatternAt(q, tl, i) == Some(n)
    && (forall j :: 0 <= j < i ==> PatternAt(q, tl, j).None?)
    && NoMatchBetween(tl, p, q)
  }

  /** The first pattern in list order that matches anywhere decides, even when
      a later pattern matches further left; the result is its leftmost match. */
  lemma {:induction false} DeadlineFromFacts(tl: string, p: nat)
    requires p <= 4
    ensures DeadlineFrom(tl, p).None? <==> NoMatchBetween(tl, p, 4)
    ensures DeadlineFrom(tl, p).Some? ==> exists q: nat, i: nat, n: nat ::
      FirstMatch(tl, p, q, i, n) && DeadlineFrom(tl, p) == Some(Title(tl[i..i + n]))
    decreases 4 - p, 1
  {
    if p < 4 {
      if Search(p, tl, 0).Some? {
        DeadlineFromHit(tl, p);
      } else {
        DeadlineFromMiss(tl, p);
      }
    }
  }

  /** Pattern `p` matches: it decides, with its leftmost match. */
  lemma DeadlineFromHit(tl: string, p: nat)
    requires p < 4 && Search(p, tl, 0).Some?
    ensures !NoMatchBetween(tl, p, 4)
    ensures exists q: nat, i: nat, n: nat ::
      FirstMatch(tl, p, q, i, n) && DeadlineFrom(tl, p) == Some(Title(tl[i..i + n]))
  {
    var i, n := Search(p, tl, 0).value.0, Search(p, tl, 0).value.1;
    assert NoMatchBetween(tl, p, p);
    assert FirstMatch(tl, p, p, i, n);
    assert PatternAt(p, tl, i).Some?;
  }

  /** Pattern `p` matches nowhere: the lookup goes on with the next one. */
  lemma {:induction false} DeadlineFromMiss(tl: string, p: nat)
    requires p < 4 && Search(p, tl, 0).None?
    ensures DeadlineFrom(tl, p).None? <==> NoMatchBetween(tl, p, 4)
    ensures DeadlineFrom(tl, p).Some? ==> exists q: nat, i: nat, n: nat ::
      FirstMatch(tl, p, q, i, n) && DeadlineFrom(tl, p) == Some(Title(tl[i..i + n]))
    decreases 4 - p, 0
  {
    DeadlineFromFacts(tl, p + 1);
    assert DeadlineFrom(tl, p) == DeadlineFrom(tl, p + 1);
    NoMatchStep(tl, p);
    if DeadlineFrom(tl, p + 1).Some? {
      var q: nat, i: nat, n: nat :| FirstMatch(tl, p + 1, q, i, n)
        && DeadlineFrom(tl, p + 1) == Some(Title(tl[i..i + n]));
      assert FirstMatch(tl, p, q, i, n);
    }
  }

  /** When pattern `p` matches nowhere, the patterns from `p` on match
      nowhere exactly when those from `p + 1` on do. */
  lemma NoMatchStep(tl: string, p: nat)
    requires p < 4 && forall j :: 0 <= j <= |tl| ==> PatternAt(p, tl, j).None?
    ensures forall q :: p < q <= 4 ==> (NoMatchBetween(tl, p, q) <==> NoMatchBetween(tl, p + 1, q))
  {
    forall q | p < q <= 4 ensures NoMatchBetween(tl, p + 1, q) ==> NoMatchBetween(tl, p, q) {
      if NoMatchBetween(tl, p + 1, q) {
        forall q', j | p <= q' < q && q' < 4 && 0 <= j <= |tl| ensures PatternAt(q', tl, j).None? {
          if q' != p {
            assert p + 1 <= q';
          }
        }
      }
    }
  }

  /** `_extract_deadline` answers nothing exactly when no pattern matches the
      lowercased text; otherwise it gives the title-cased leftmost match of
      the first pattern in list order that matches. */
  lemma DeadlineFacts(text: string)
    ensures Deadline(text).None? <==> NoMatchBetween(Lower(text), 0, 4)
    ensures Deadline(text).Some? ==> exists q: nat, i: nat, n: nat ::
      FirstMatch(Lower(text), 0, q, i, n) && Deadline(text) == Some(Title(Lower(text)[i..i + n]))
  {
    DeadlineFromFacts(Lower(text), 0);
  }

  // ------------------------------------------------------------ assignee

  /** `roles[k]` is the first listed role whose "the <role>" occurs in `tl`. */
  predicate FirstRoleIs(tl: string, roles: seq<string>, k: int)
  {
    && 0 <= k < |roles| && Contains(tl, "the " + roles[k])
    && forall m :: 0 <= m < k ==> !Contains(tl, "the " + roles[m])
  }

  /** The first role whose "the <role>" occurs in `tl`. */
  function FirstRole(tl: string, roles: seq<string>): (r: Option<string>)
    ensures r.Some? ==> exists k :: FirstRoleIs(tl, roles, k) && r.value == roles[k]
    ensures r.None? <==> forall role :: role in roles ==> !Contains(tl, "the " + role)
  {
    if roles == [] then None
    else if Contains(tl, "the " + roles[0]) then
      assert FirstRoleIs(tl, roles, 0);
      Some(roles[0])
    else
      var r := FirstRole(tl, roles[1..]);
      assert forall role :: role in roles ==> role == roles[0] || role in roles[1..];
      assert r.Some? ==> exists k :: FirstRoleIs(tl, roles, k) && r.value == roles[k] by {
        if r.Some? {
          var k :| FirstRoleIs(tl, roles[1..], k) && r.value == roles[1..][k];
          assert FirstRoleIs(tl, roles, k + 1);
        }
      }
      r
  }

  /** `_extract_assignee`: the PERSON entities joined with " and ", else
      "The <role>" for the first role named in the sentence, else nothing. */
  function Assignee(persons: seq<string>, sentence: string): (r: Option<string>)
    ensures persons != [] ==> r == Some(Join(" and ", persons))
    ensures persons == [] && r.Some? ==>
      exists k :: FirstRoleIs(Lower(sentence), Roles, k) && r.value == "The " + Roles[k]
    ensures r.None? <==> persons == [] && forall role :: role in Roles ==> !Contains(Lower(sentence), "the " + role)
  {
    if persons != [] then Some(Join(" and ", persons))
    else
      match FirstRole(Lower(sentence), Roles)
      case Some(role) => Some("The " + role)
      case None => None
  }

  // ------------------------------------------------------------ extract

  /** A sentence as the language model delivers it: its text and the texts of
      its PERSON entities. */
  datatype Sentence = Sentence(text: string, persons: seq<string>)

  /** One action item; `confidence` is in tenths. */
  datatype ActionItem = ActionItem(
    task: string,
    assignee: string,
    deadline: string,
    priority: string,
    context: string,
    confidence: nat)

  /** Python's `value or default` on an optional string. */
  function OrDefault(o: Option<string>, default: string): (r: string)
    ensures r == default || (o.Some? && r == o.value && r != [])
  {
    if o.Some? && o.value != [] then o.value else default
  }

  /** The item a sentence yields, if any. */
  function ItemFor(s: Sentence): Option<ActionItem>
  {
    var text := Strip(s.text);
    if !ContainsActionVerb(text) then None
    else
      var assignee := Assignee(s.persons, s.text);
      var deadline := Deadline(text);
      var conf := Confidence(assignee.Some?, deadline.Some?, true, |SplitWords(text)|);
      var task := TaskDescription(text);
      if conf >= 6 && task != [] then
        Some(ActionItem(task, OrDefault(assignee, "Unassigned"), OrDefault(deadline, "No deadline specified"),
          Priority(text), text, conf))
      else None
  }

  /** A sentence yields an item exactly when its stripped text has an action
      verb and a non-empty description, and it has an assignee, or a deadline
      and 5 to 30 words. The item's context is the stripped sentence. */
  lemma ItemForRule(s: Sentence)
    ensures var text := Strip(s.text);
      ItemFor(s).Some? <==>
        && ContainsActionVerb(text)
        && TaskDescription(text) != []
        && (Assignee(s.persons, s.text).Some?
            || (Deadline(text).Some? && 5 <= |SplitWords(text)| <= 30))
    ensures ItemFor(s).Some? ==> var item := ItemFor(s).value;
      && item.context == Strip(s.text)
      && item.confidence >= 6
      && item.priority in ["high", "medium", "low"]
      && (Assignee(s.persons, s.text).None? ==> item.assignee == "Unassigned")
      && (Deadline(Strip(s.text)).None? ==> item.deadline == "No deadline specified")
  {
    var text := Strip(s.text);
    ConfidenceAccepts(Assignee(s.persons, s.text).Some?, Deadline(text).Some?, |SplitWords(text)|);
  }

  /** The items of the sentences, in sentence order, before sorting. */
  function Collected(sentences: seq<Sentence>): seq<ActionItem>
    decreases |sentences|
  {
    if sentences == [] then []
    else
      var prev := Collected(Init(sentences));
      match ItemFor(Last(sentences))
      case Some(item) => prev + [item]
      case None => prev
  }

  /** The sort key: high 0, medium 1, low 2, anything else 3. */
  function Rank(item: ActionItem): nat
  {
    if item.priority == "high" then 0
    else if item.priority == "medium" then 1
    else if item.priority == "low" then 2
    else 3
  }

  function HasRank(r: nat): ActionItem -> bool
  {
    (item: ActionItem) => Rank(item) == r
  }

  /** What a stable sort by `Rank` yields: the items of each rank in their
      original order, ranks in increasing order. */
  function PrioritySort(items: seq<ActionItem>): seq<ActionItem>
  {
    Filter(items, HasRank(0)) + Filter(items, HasRank(1)) + Filter(items, HasRank(2)) + Filter(items, HasRank(3))
  }

  predicate SortedByRank(items: seq<ActionItem>)
  {
    forall i, j :: 0 <= i < j < |items| ==> Rank(items[i]) <= Rank(items[j])
  }

  lemma SortedConcat(a: seq<ActionItem>, b: seq<ActionItem>)
    requires SortedByRank(a) && SortedByRank(b)
    requires forall x, y :: x in a && y in b ==> Rank(x) <= Rank(y)
    ensures SortedByRank(a + b)
  {
    var ab := a + b;
    forall i, j | 0 <= i < j < |ab| ensures Rank(ab[i]) <= Rank(ab[j]) {
      if j < |a| {
        assert ab[i] == a[i] && ab[j] == a[j];
      } else if i >= |a| {
        assert ab[i] == b[i - |a|] && ab[j] == b[j - |a|];
      } else {
        assert ab[i] in a && ab[j] == b[j - |a|] && ab[j] in b;
      }
    }
  }

  /** Filtering by one rank leaves a list of that rank only. */
  lemma OneRank(items: seq<ActionItem>, r: nat)
    ensures SortedByRank(Filter(items, HasRank(r)))
    ensures forall x :: x in Filter(items, HasRank(r)) ==> Rank(x) == r
  {
    var f := Filter(items, HasRank(r));
    forall i, j | 0 <= i < j < |f| ensures Rank(f[i]) <= Rank(f[j]) {
      assert f[i] in f && f[j] in f;
    }
  }

  /** The sorted list is ordered by rank. */
  lemma PrioritySortSorted(items: seq<ActionItem>)
    ensures SortedByRank(PrioritySort(items))
  {
    var b0, b1, b2, b3 := Filter(items, HasRank(0)), Filter(items, HasRank(1)),
      Filter(items, HasRank(2)), Filter(items, HasRank(3));
    OneRank(items, 0);
    OneRank(items, 1);
    OneRank(items, 2);
    OneRank(items, 3);
    SortedConcat(b0, b1);
    SortedConcat(b0 + b1, b2);
    SortedConcat(b0 + b1 + b2, b3);
  }

  /** The sorted list is a permutation of the input. */
  lemma {:induction false} PrioritySortPermutation(items: seq<ActionItem>)
    ensures multiset(PrioritySort(items)) == multiset(items)
    decreases |items|
  {
    if items != [] {
      var init, x := Init(items), Last(items);
      PrioritySortPermutation(init);
      var r := Rank(x);
      var m0, m1, m2, m3 := Bucket(init, 0), Bucket(init, 1), Bucket(init, 2), Bucket(init, 3);
      SortBuckets(init);
      SortBuckets(items);
      RankStep(items, 0);
      RankStep(items, 1);
      RankStep(items, 2);
      RankStep(items, 3);
      LastMultiset(items);
      if r == 0 {
        assert multiset(PrioritySort(items)) == (m0 + multiset{x}) + m1 + m2 + m3;
      } else if r == 1 {
        assert multiset(PrioritySort(items)) == m0 + (m1 + multiset{x}) + m2 + m3;
      } else if r == 2 {
        assert multiset(PrioritySort(items)) == m0 + m1 + (m2 + multiset{x}) + m3;
      } else {
        assert multiset(PrioritySort(items)) == m0 + m1 + m2 + (m3 + multiset{x});
      }
    }
  }

  /** The sorted list holds the four rank buckets. */
  lemma SortBuckets(items: seq<ActionItem>)
    ensures multiset(PrioritySort(items)) ==
      Bucket(items, 0) + Bucket(items, 1) + Bucket(items, 2) + Bucket(items, 3)
  {
  }

  /** The items of rank `k`, as a multiset. */
  ghost function Bucket(items: seq<ActionItem>, k: nat): multiset<ActionItem>
  {
    multiset(Filter(items, HasRank(k)))
  }

  /** Adding one item to the input adds it to the bucket of its rank only. */
  lemma RankStep(items: seq<ActionItem>, k: nat)
    requires items != []
    ensures Rank(Last(items)) == k ==> Bucket(items, k) == Bucket(Init(items), k) + multiset{Last(items)}
    ensures Rank(Last(items)) != k ==> Bucket(items, k) == Bucket(Init(items), k)
  {
  }

  /** A list is its init plus its last item. */
  lemma LastMultiset<T>(s: seq<T>)
    requires s != []
    ensures multiset(s) == multiset(Init(s)) + multiset{Last(s)}
  {
    InitLast(s);
  }

  /** Re-filtering one rank's items by rank `r` keeps all of them or none. */
  lemma RefilterRank(items: seq<ActionItem>, a: nat, r: nat)
    ensures Filter(Filter(items, HasRank(a)), HasRank(r)) == if a == r then Filter(items, HasRank(r)) else []
  {
    FilterOfFilter(items, HasRank(a), HasRank(r));
  }

  /** Stability: the items of each rank keep their input order. */
  lemma PrioritySortStable(items: seq<ActionItem>, r: nat)
    ensures Filter(PrioritySort(items), HasRank(r)) == Filter(items, HasRank(r))
  {
    var b0, b1, b2, b3 := Filter(items, HasRank(0)), Filter(items, HasRank(1)),
      Filter(items, HasRank(2)), Filter(items, HasRank(3));
    var f := HasRank(r);
    FilterAppend(b0 + b1 + b2, b3, f);
    FilterAppend(b0 + b1, b2, f);
    FilterAppend(b0, b1, f);
    assert Filter(PrioritySort(items), f) == Filter(b0, f) + Filter(b1, f) + Filter(b2, f) + Filter(b3, f);
    RefilterRank(items, 0, r);
    RefilterRank(items, 1, r);
    RefilterRank(items, 2, r);
    RefilterRank(items, 3, r);
    var e: seq<ActionItem> := [];
    var mine := Filter(items, f);
    if r == 0 {
      assert mine + e + e + e == mine;
    } else if r == 1 {
      assert e + mine + e + e == mine;
    } else if r == 2 {
      assert e + e + mine + e == mine;
    } else if r == 3 {
      assert e + e + e + mine == mine;
    } else {
      NoItemOfRank(items, r);
      assert e + e + e + e == mine;
    }
  }

  /** No item has a rank above 3. */
  lemma NoItemOfRank(items: seq<ActionItem>, r: nat)
    requires r > 3
    ensures Filter(items, HasRank(r)) == []
  {
  }

  /** The tail of `extract`: the loop over the sentences that appends the
      accepted items, then the stable sort by priority. */
  method ExtractActionItems(sentences: seq<Sentence>) returns (items: seq<ActionItem>)
    ensures items == PrioritySort(Collected(sentences))
  {
    items := [];
    for i := 0 to |sentences|
      invariant items == Collected(sentences[..i])
    {
      var s := sentences[i];
      PrefixStep(sentences, i);
      var text := Strip(s.text);
      if !ContainsActionVerb(text) {
        continue;
      }
      var assignee := Assignee(s.persons, s.text);
      var deadline := Deadline(text);
      var priority := Priority(text);
      var task := TaskDescription(text);
      var confidence := CalculateConfidence(assignee.Some?, deadline.Some?, true, |SplitWords(text)|);
      if confidence >= 6 && task != [] {
        items := items + [ActionItem(task, OrDefault(assignee, "Unassigned"),
          OrDefault(deadline, "No deadline specified"), priority, text, confidence)];
      }
    }
    WholePrefix(sentences);
    items := PrioritySort(items);
  }
}
