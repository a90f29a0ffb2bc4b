/** The string primitives the services use, over ASCII: Python's `str.lower`,
    `str.upper` on one character, `str.isspace`, `str.strip`, `str.split()`,
    `str.split(sep)`, `sep.join`, the `in` operator on strings, and the regex
    classes `\w`, `\d`, `\s` and the word boundary `\b`. */
module Text {
  import opened Common

  /** `str.isspace()` on ASCII: space, \t \n \v \f \r and \x1c-\x1f. The regex
      class `\s` matches the same characters. */
  predicate IsSpace(c: char)
  {
    var n := c as int;
    n == 32 || 9 <= n <= 13 || 28 <= n <= 31
  }

  predicate IsDigit(c: char) { '0' <= c <= '9' }

  predicate IsUpper(c: char) { 'A' <= c <= 'Z' }

  predicate IsLower(c: char) { 'a' <= c <= 'z' }

  predicate IsLetter(c: char) { IsUpper(c) || IsLower(c) }

  /** The regex class `\w`: letters, digits and the underscore. */
  predicate IsWordChar(c: char) { IsLetter(c) || IsDigit(c) || c == '_' }

  function LowerChar(c: char): (r: char)
    ensures !IsUpper(r)
    ensures IsLetter(r) == IsLetter(c) && IsWordChar(r) == IsWordChar(c)
    ensures IsSpace(r) == IsSpace(c) && IsDigit(r) == IsDigit(c)
    ensures !IsLetter(c) ==> r == c
  {
    if IsUpper(c) then (c as int + 32) as char else c
  }

  function UpperChar(c: char): (r: char)
    ensures !IsLower(r)
    ensures IsLetter(r) == IsLetter(c) && IsSpace(r) == IsSpace(c)
    ensures !IsLetter(c) ==> r == c
  {
    if IsLower(c) then (c as int - 32) as char else c
  }

  /** `s.lower()`. */
  function Lower(s: string): (r: string)
    ensures |r| == |s|
    ensures forall i :: 0 <= i < |s| ==> r[i] == LowerChar(s[i])
  {
    seq(|s|, i requires 0 <= i < |s| => LowerChar(s[i]))
  }

  lemma LowerAppend(a: string, b: string)
    ensures Lower(a + b) == Lower(a) + Lower(b)
  {
    assert forall i :: 0 <= i < |a + b| ==> Lower(a + b)[i] == (Lower(a) + Lower(b))[i];
  }

  lemma LowerSlice(s: string, i: nat, j: nat)
    requires i <= j <= |s|
    ensures Lower(s[i..j]) == Lower(s)[i..j]
  {
    var a, b := Lower(s[i..j]), Lower(s)[i..j];
    forall k | 0 <= k < j - i ensures a[k] == b[k] {
      assert s[i..j][k] == s[i + k];
    }
  }

  lemma LowerIdempotent(s: string)
    ensures Lower(Lower(s)) == Lower(s)
  {
  }

  /** `a.lower() == b.lower()`, character by character. */
  predicate EqualFold(a: string, b: string)
  {
    |a| == |b| && forall k :: 0 <= k < |a| ==> LowerChar(a[k]) == LowerChar(b[k])
  }

  lemma EqualFoldIsLowerEqual(a: string, b: string)
    ensures EqualFold(a, b) <==> Lower(a) == Lower(b)
  {
    if Lower(a) == Lower(b) {
      assert forall k :: 0 <= k < |a| ==> Lower(a)[k] == Lower(b)[k];
    }
  }

  /** Every character of `s` is whitespace (`not s.strip()`). */
  predicate IsBlank(s: string)
  {
    forall i :: 0 <= i < |s| ==> IsSpace(s[i])
  }

  /** `s.lstrip()`. */
  function TrimStart(s: string): string
    decreases |s|
  {
    if s != [] && IsSpace(s[0]) then TrimStart(s[1..]) else s
  }

  /** `lstrip` drops the leading whitespace, and only that. */
  lemma {:induction false} TrimStartFacts(s: string)
    ensures var r := TrimStart(s);
      && |r| <= |s| && r == s[|s| - |r|..]
      && (r == [] || !IsSpace(r[0]))
      && forall i :: 0 <= i < |s| - |r| ==> IsSpace(s[i])
    decreases |s|
  {
    if s != [] && IsSpace(s[0]) {
      TrimStartFacts(s[1..]);
      var r := TrimStart(s[1..]);
      forall i | 0 <= i < |s| - |r| ensures IsSpace(s[i]) {
        if i > 0 {
          assert s[i] == s[1..][i - 1];
        }
      }
    }
  }

  /** `s.rstrip()`. */
  function TrimEnd(s: string): string
    decreases |s|
  {
    if s != [] && IsSpace(s[|s| - 1]) then TrimEnd(s[..|s| - 1]) else s
  }

  /** `rstrip` drops the trailing whitespace, and only that. */
  lemma {:induction false} TrimEndFacts(s: string)
    ensures var r := TrimEnd(s);
      && |r| <= |s| && r == s[..|r|]
      && (r == [] || !IsSpace(r[|r| - 1]))
      && forall i :: |r| <= i < |s| ==> IsSpace(s[i])
    decreases |s|
  {
    if s != [] && IsSpace(s[|s| - 1]) {
      TrimEndFacts(s[..|s| - 1]);
      var r := TrimEnd(s[..|s| - 1]);
      forall i | |r| <= i < |s| ensures IsSpace(s[i]) {
        if i < |s| - 1 {
          assert s[i] == s[..|s| - 1][i];
        }
      }
    }
  }

  /** Number of leading whitespace characters of `s`. */
  function LeadingSpaces(s: string): nat
  {
    TrimStartFacts(s);
    |s| - |TrimStart(s)|
  }

  /** `s.strip()`. */
  function Strip(s: string): string
  {
    TrimEnd(TrimStart(s))
  }

  /** `strip` yields the slice of `s` between its first and last non-whitespace
      characters, which is empty exactly when `s` is blank. */
  lemma StripFacts(s: string)
    ensures var r := Strip(s);
      && (r == [] <==> IsBlank(s))
      && (r != [] ==> !IsSpace(r[0]) && !IsSpace(r[|r| - 1]))
      && LeadingSpaces(s) + |r| <= |s|
      && r == s[LeadingSpaces(s)..LeadingSpaces(s) + |r|]
  {
    var a := TrimStart(s);
    TrimStartFacts(s);
    TrimEndFacts(a);
    var r := TrimEnd(a);
    assert r == [] ==> a == [];
    assert IsBlank(s) ==> a == [];
  }

  lemma StripOfStripped(s: string)
    requires s == [] || (!IsSpace(s[0]) && !IsSpace(s[|s| - 1]))
    ensures Strip(s) == s
  {
    TrimStartFacts(s);
    TrimEndFacts(s);
  }

  /** `s[0].upper() + s[1:]` for a non-empty `s`. */
  function Capitalize(s: string): string
  {
    if s == [] then s else [UpperChar(s[0])] + s[1..]
  }

  /** End of the run of whitespace starting at `i` (what a greedy `\s*` eats). */
  function SpaceRunEnd(t: string, i: nat): (r: nat)
    requires i <= |t|
    ensures i <= r <= |t|
    ensures forall k :: i <= k < r ==> IsSpace(t[k])
    ensures r == |t| || !IsSpace(t[r])
    decreases |t| - i
  {
    if i < |t| && IsSpace(t[i]) then SpaceRunEnd(t, i + 1) else i
  }

  /** Index just past the run of non-whitespace characters starting at `i`. */
  function WordEnd(s: string, i: nat): (r: nat)
    requires i <= |s|
    ensures i <= r <= |s|
    ensures forall k :: i <= k < r ==> !IsSpace(s[k])
    ensures r == |s| || IsSpace(s[r])
    decreases |s| - i
  {
    if i == |s| || IsSpace(s[i]) then i else WordEnd(s, i + 1)
  }

  /** `s.split()`: the maximal runs of non-whitespace characters, in order. */
  function SplitWords(s: string): (r: seq<string>)
    ensures forall k :: 0 <= k < |r| ==> r[k] != []
    ensures forall k, j :: 0 <= k < |r| && 0 <= j < |r[k]| ==> !IsSpace(r[k][j])
    ensures r == [] <==> IsBlank(s)
    ensures s != [] && !IsSpace(s[0]) ==> r != [] && r[0] == s[..WordEnd(s, 0)]
    decreases |s|
  {
    if s == [] then []
    else if IsSpace(s[0]) then
      var r := SplitWords(s[1..]);
      assert IsBlank(s[1..]) ==> IsBlank(s);
      r
    else
      var n := WordEnd(s, 0);
      [s[..n]] + SplitWords(s[n..])
  }

  /** Concatenation of the first characters of the words (the `initials`). */
  function Initials(words: seq<string>): (r: string)
    requires forall k :: 0 <= k < |words| ==> words[k] != []
    ensures |r| == |words|
    ensures forall k :: 0 <= k < |words| ==> r[k] == words[k][0]
  {
    if words == [] then [] else Initials(Init(words)) + [Last(words)[0]]
  }

  /** `needle` occurs in `hay` starting at index `i`. */
  predicate OccursAt(hay: string, needle: string, i: nat)
  {
    i + |needle| <= |hay| && hay[i..i + |needle|] == needle
  }

  /** Python's `needle in hay` on strings. */
  predicate Contains(hay: string, needle: string)
  {
    exists i :: 0 <= i <= |hay| && OccursAt(hay, needle, i)
  }

  /** A substring of a part is a substring of any string containing the part. */
  lemma ContainsInContext(a: string, needle: string, b: string, c: string)
    requires Contains(b, needle)
    ensures Contains(a + b + c, needle)
  {
    var i :| 0 <= i <= |b| && OccursAt(b, needle, i);
    assert (a + b + c)[|a| + i..|a| + i + |needle|] == b[i..i + |needle|];
    assert OccursAt(a + b + c, needle, |a| + i);
  }

  /** `sep.join(parts)`. */
  function Join(sep: string, parts: seq<string>): (r: string)
    ensures parts == [] ==> r == []
    ensures |parts| == 1 ==> r == parts[0]
    decreases |parts|
  {
    if parts == [] then []
    else if |parts| == 1 then parts[0]
    else parts[0] + sep + Join(sep, parts[1..])
  }

  /** `s.split(sep)` for a non-empty separator: cut at each non-overlapping
      occurrence of `sep`, scanning left to right from index `i` of the current
      piece. */
  function SplitScan(s: string, sep: string, i: nat): (r: seq<string>)
    requires |sep| > 0 && i <= |s|
    ensures |r| >= 1
    decreases |s|, |s| - i
  {
    if i + |sep| > |s| then [s]
    else if s[i..i + |sep|] == sep then [s[..i]] + SplitScan(s[i + |sep|..], sep, 0)
    else SplitScan(s, sep, i + 1)
  }

  function SplitOn(s: string, sep: string): (r: seq<string>)
    requires |sep| > 0
    ensures |r| >= 1
  {
    SplitScan(s, sep, 0)
  }

  /** Splitting and joining back with the same separator restores the string. */
  lemma {:induction false} JoinSplitScan(s: string, sep: string, i: nat)
    requires |sep| > 0 && i <= |s|
    ensures Join(sep, SplitScan(s, sep, i)) == s
    decreases |s|, |s| - i
  {
    if i + |sep| > |s| {
    } else if s[i..i + |sep|] == sep {
      var rest := SplitScan(s[i + |sep|..], sep, 0);
      JoinSplitScan(s[i + |sep|..], sep, 0);
      assert ([s[..i]] + rest)[1..] == rest;
      assert s == s[..i] + sep + s[i + |sep|..];
    } else {
      JoinSplitScan(s, sep, i + 1);
    }
  }

  lemma JoinSplitOn(s: string, sep: string)
    requires |sep| > 0
    ensures Join(sep, SplitOn(s, sep)) == s
  {
    JoinSplitScan(s, sep, 0);
  }

  /** The regex `\b` at index `i`: exactly one of the neighbouring characters
      is a word character (the string ends count as non-word). */
  predicate IsBoundary(t: string, i: nat)
    requires i <= |t|
  {
    (i > 0 && IsWordChar(t[i - 1])) != (i < |t| && IsWordChar(t[i]))
  }

  /** Lower-casing changes no word boundary. */
  lemma BoundaryLower(t: string, i: nat)
    requires i <= |t|
    ensures IsBoundary(Lower(t), i) == IsBoundary(t, i)
  {
  }

  /** `re.search(r'\b' + re.escape(w) + r'\b', t)` succeeds at index `i`
      (case-sensitive). */
  predicate WholeWordAt(t: string, w: string, i: nat)
  {
    i + |w| <= |t| && t[i..i + |w|] == w && IsBoundary(t, i) && IsBoundary(t, i + |w|)
  }

  predicate HasWholeWord(t: string, w: string)
  {
    exists i :: 0 <= i <= |t| && WholeWordAt(t, w, i)
  }
}
