/** Sequence utilities shared by the services: an Option type, order-preserving
    filtering and mapping, subsequences, and first-occurrence de-duplication by a
    key (the `seen = set()` idiom of the Python services). The list-building
    functions are defined on the last element, mirroring loops that append. */
module Common {

  datatype Option<+T> = None | Some(value: T)

  function Id<T>(x: T): T { x }

  function Last<T>(s: seq<T>): T
    requires |s| > 0
  {
    s[|s| - 1]
  }

  function Init<T>(s: seq<T>): seq<T>
    requires |s| > 0
  {
    s[..|s| - 1]
  }

  /** Growing a prefix by one element: its init is the shorter prefix. */
  lemma PrefixStep<T>(s: seq<T>, i: nat)
    requires i < |s|
    ensures Init(s[..i + 1]) == s[..i] && Last(s[..i + 1]) == s[i]
  {
  }

  lemma InitLast<T>(s: seq<T>)
    requires s != []
    ensures s == Init(s) + [Last(s)]
  {
  }

  /** `Init` and `Last` undo an append of one element. */
  lemma Snoc<T>(a: seq<T>, x: T)
    ensures Init(a + [x]) == a && Last(a + [x]) == x
  {
  }

  lemma ConsTail<T>(s: seq<T>)
    requires s != []
    ensures s == [s[0]] + s[1..]
  {
  }

  lemma InThree<T>(a: T, b: seq<T>, c: seq<T>)
    ensures forall v :: v in [a] + b + c <==> v == a || v in b || v in c
  {
  }

  lemma WholePrefix<T>(s: seq<T>)
    ensures s[..|s|] == s
  {
  }

  lemma AppendAssoc<T>(a: seq<T>, b: seq<T>, c: seq<T>)
    ensures (a + b) + c == a + (b + c)
  {
  }

  /** `a` is an order-preserving subsequence of `b`. */
  predicate Subseq<T(==)>(a: seq<T>, b: seq<T>)
    decreases |b|
  {
    if a == [] then true
    else if b == [] then false
    else (Last(a) == Last(b) && Subseq(Init(a), Init(b))) || Subseq(a, Init(b))
  }

  lemma {:induction false} SubseqRefl<T>(a: seq<T>)
    ensures Subseq(a, a)
    decreases |a|
  {
    if a != [] {
      SubseqRefl(Init(a));
    }
  }

  lemma {:induction false} SubseqMembers<T>(a: seq<T>, b: seq<T>)
    requires Subseq(a, b)
    ensures forall x :: x in a ==> x in b
    decreases |b|
  {
    if a != [] && b != [] {
      if Last(a) == Last(b) && Subseq(Init(a), Init(b)) {
        SubseqMembers(Init(a), Init(b));
        InitLast(a);
        InitLast(b);
      } else {
        SubseqMembers(a, Init(b));
        InitLast(b);
      }
    }
  }

  lemma {:induction false} SubseqLength<T>(a: seq<T>, b: seq<T>)
    requires Subseq(a, b)
    ensures |a| <= |b|
    decreases |b|
  {
    if a != [] && b != [] {
      if Last(a) == Last(b) && Subseq(Init(a), Init(b)) {
        SubseqLength(Init(a), Init(b));
      } else {
        SubseqLength(a, Init(b));
      }
    }
  }

  /** A subsequence keeps every ordered pair it inherits: if `b` is ordered by
      `le` (pairwise), so is `a`. */
  lemma {:induction false} SubseqKeepsOrder<T>(a: seq<T>, b: seq<T>, le: (T, T) -> bool)
    requires Subseq(a, b)
    requires forall i, j :: 0 <= i < j < |b| ==> le(b[i], b[j])
    ensures forall i, j :: 0 <= i < j < |a| ==> le(a[i], a[j])
    decreases |b|
  {
    if a != [] && b != [] {
      if Last(a) == Last(b) && Subseq(Init(a), Init(b)) {
        SubseqKeepsOrder(Init(a), Init(b), le);
        SubseqMembers(Init(a), Init(b));
        forall i, j | 0 <= i < j < |a| ensures le(a[i], a[j]) {
          if j < |a| - 1 {
            assert a[i] == Init(a)[i] && a[j] == Init(a)[j];
          } else {
            assert a[i] in Init(b);
            var k :| 0 <= k < |Init(b)| && Init(b)[k] == a[i];
            assert b[k] == a[i] && b[|b| - 1] == a[j];
          }
        }
      } else {
        SubseqKeepsOrder(a, Init(b), le);
      }
    }
  }

  /** The elements of `xs` that satisfy `p`, in order (a list comprehension with
      an `if`, or a loop that appends the elements it keeps). */
  function Filter<T>(xs: seq<T>, p: T -> bool): (r: seq<T>)
    ensures |r| <= |xs|
    ensures forall x :: x in r ==> x in xs && p(x)
    ensures forall x :: x in xs && p(x) ==> x in r
    decreases |xs|
  {
    if xs == [] then []
    else
      var prev := Filter(Init(xs), p);
      InitLast(xs);
      if p(Last(xs)) then prev + [Last(xs)] else prev
  }

  lemma {:induction false} FilterSubseq<T>(xs: seq<T>, p: T -> bool)
    ensures Subseq(Filter(xs, p), xs)
    decreases |xs|
  {
    if xs != [] {
      FilterSubseq(Init(xs), p);
      var prev := Filter(Init(xs), p);
      if p(Last(xs)) {
        Snoc(prev, Last(xs));
      }
    }
  }

  /** Filtering distributes over concatenation. */
  lemma {:induction false} FilterAppend<T>(a: seq<T>, b: seq<T>, p: T -> bool)
    ensures Filter(a + b, p) == Filter(a, p) + Filter(b, p)
    decreases |b|
  {
    if b == [] {
      assert a + b == a;
    } else {
      var ab := a + b;
      assert Init(ab) == a + Init(b) && Last(ab) == Last(b);
      FilterAppend(a, Init(b), p);
      if p(Last(b)) {
        AppendAssoc(Filter(a, p), Filter(Init(b), p), [Last(b)]);
      }
    }
  }

  /** Filtering what a filter kept with a test that agrees on it changes
      nothing; with a test that rejects all of it, leaves nothing. */
  lemma {:induction false} FilterOfFilter<T>(xs: seq<T>, p: T -> bool, q: T -> bool)
    ensures (forall x :: p(x) ==> q(x)) ==> Filter(Filter(xs, p), q) == Filter(xs, p)
    ensures (forall x :: p(x) ==> !q(x)) ==> Filter(Filter(xs, p), q) == []
    decreases |xs|
  {
    if xs != [] {
      FilterOfFilter(Init(xs), p, q);
      var prev := Filter(Init(xs), p);
      if p(Last(xs)) {
        Snoc(prev, Last(xs));
      }
    }
  }

  /** `f` applied to every element, in order. */
  function Map<T, U>(xs: seq<T>, f: T -> U): (r: seq<U>)
    ensures |r| == |xs|
    ensures forall k :: 0 <= k < |xs| ==> r[k] == f(xs[k])
    decreases |xs|
  {
    if xs == [] then [] else Map(Init(xs), f) + [f(Last(xs))]
  }

  lemma MapCons<T, U>(x: T, xs: seq<T>, f: T -> U)
    ensures Map([x] + xs, f) == [f(x)] + Map(xs, f)
  {
    var l, r := Map([x] + xs, f), [f(x)] + Map(xs, f);
    forall k | 0 <= k < |l| ensures l[k] == r[k] {
      if k > 0 {
        assert ([x] + xs)[k] == xs[k - 1];
      }
    }
  }

  lemma MapSnoc<T, U>(xs: seq<T>, x: T, f: T -> U)
    ensures Map(xs + [x], f) == Map(xs, f) + [f(x)]
  {
    Snoc(xs, x);
  }

  /** `d.get(key, default)`: the value, or the default for a missing key. */
  function GetOr<T>(o: Option<T>, default: T): T
  {
    match o
    case Some(v) => v
    case None => default
  }

  /** Some element of `xs` has key `k`. */
  predicate HasKey<T, K(==)>(xs: seq<T>, key: T -> K, k: K)
  {
    exists j :: 0 <= j < |xs| && key(xs[j]) == k
  }

  /** The first element of `xs` for each key, in order: a loop that appends an
      element unless its key is already in a `seen` set, then adds the key. */
  function FirstByKey<T, K(==)>(xs: seq<T>, key: T -> K): (r: seq<T>)
    ensures |r| <= |xs|
    ensures forall i, j :: 0 <= i < j < |r| ==> key(r[i]) != key(r[j])
    ensures forall x :: x in xs ==> HasKey(r, key, key(x))
    decreases |xs|
  {
    if xs == [] then []
    else
      var prev := FirstByKey(Init(xs), key);
      assert forall x :: x in xs ==> x in Init(xs) || x == Last(xs);
      if HasKey(prev, key, key(Last(xs))) then prev
      else
        var r := prev + [Last(xs)];
        assert forall x :: x in Init(xs) ==> HasKey(r, key, key(x)) by {
          forall x | x in Init(xs) ensures HasKey(r, key, key(x)) {
            var j :| 0 <= j < |prev| && key(prev[j]) == key(x);
            assert r[j] == prev[j];
          }
        }
        assert key(r[|prev|]) == key(Last(xs));
        r
  }

  lemma {:induction false} FirstByKeySubseq<T, K>(xs: seq<T>, key: T -> K)
    ensures Subseq(FirstByKey(xs, key), xs)
    decreases |xs|
  {
    if xs != [] {
      FirstByKeySubseq(Init(xs), key);
      var prev := FirstByKey(Init(xs), key);
      if !HasKey(prev, key, key(Last(xs))) {
        Snoc(prev, Last(xs));
      }
    }
  }

  /** Every kept element is the FIRST element of `xs` with its key: it sits at
      some index `i` of `xs` and no earlier element shares its key. */
  lemma {:induction false} FirstByKeyKeepsFirst<T, K>(xs: seq<T>, key: T -> K, y: T)
    requires y in FirstByKey(xs, key)
    ensures exists i :: 0 <= i < |xs| && xs[i] == y && forall j :: 0 <= j < i ==> key(xs[j]) != key(y)
    decreases |xs|
  {
    var prev := FirstByKey(Init(xs), key);
    if y in prev {
      FirstByKeyKeepsFirst(Init(xs), key, y);
      var i :| 0 <= i < |Init(xs)| && Init(xs)[i] == y && forall j :: 0 <= j < i ==> key(Init(xs)[j]) != key(y);
      forall j | 0 <= j < i ensures key(xs[j]) != key(y) {
        assert xs[j] == Init(xs)[j];
      }
      assert xs[i] == y;
    } else {
      assert y == Last(xs) && !HasKey(prev, key, key(y));
      forall j | 0 <= j < |xs| - 1 ensures key(xs[j]) != key(y) {
        assert xs[j] in Init(xs);
        assert HasKey(prev, key, key(xs[j]));
      }
      assert xs[|xs| - 1] == y;
    }
  }

  /** Every element of `xs` has its key represented among the kept ones. */
  lemma FirstByKeyRepresents<T, K>(xs: seq<T>, key: T -> K, x: T)
    requires x in xs
    ensures exists q :: q in FirstByKey(xs, key) && key(q) == key(x)
  {
    var r := FirstByKey(xs, key);
    assert HasKey(r, key, key(x));
    var j :| 0 <= j < |r| && key(r[j]) == key(x);
    assert r[j] in r;
  }

  /** `list(set(xs))` with the first-occurrence order: no element twice, and
      exactly the elements of `xs`. */
  function Distinct<T(==,!new)>(xs: seq<T>): (r: seq<T>)
    ensures forall i, j :: 0 <= i < j < |r| ==> r[i] != r[j]
    ensures forall x :: x in r <==> x in xs
  {
    var r := FirstByKey(xs, Id);
    DistinctFacts(xs);
    r
  }

  lemma DistinctFacts<T(!new)>(xs: seq<T>)
    ensures forall x :: x in FirstByKey(xs, Id) <==> x in xs
  {
    var r := FirstByKey(xs, Id);
    FirstByKeySubseq(xs, Id);
    SubseqMembers(r, xs);
    forall x | x in xs ensures x in r {
      var j :| 0 <= j < |r| && Id(r[j]) == Id(x);
    }
  }

  /** The loop behind `FirstByKey`: append an element unless its key is in the
      `seen` set, then add the key. */
  method KeepFirstByKey<T, K(==)>(xs: seq<T>, key: T -> K) returns (r: seq<T>)
    ensures r == FirstByKey(xs, key)
  {
    r := [];
    var seen: set<K> := {};
    for k := 0 to |xs|
      invariant r == FirstByKey(xs[..k], key)
      invariant seen == KeySet(r, key)
    {
      PrefixStep(xs, k);
      FirstByKeyStep(xs[..k], xs[k], key, seen);
      var kx := key(xs[k]);
      if kx !in seen {
        r := r + [xs[k]];
        seen := seen + {kx};
      }
    }
    WholePrefix(xs);
  }

  /** The set of the keys of `r`. */
  function KeySet<T, K>(r: seq<T>, key: T -> K): set<K>
    decreases |r|
  {
    if r == [] then {} else KeySet(Init(r), key) + {key(Last(r))}
  }

  lemma {:induction false} KeySetHasKey<T, K>(r: seq<T>, key: T -> K, k: K)
    ensures k in KeySet(r, key) <==> HasKey(r, key, k)
    decreases |r|
  {
    if r != [] {
      KeySetHasKey(Init(r), key, k);
      if HasKey(Init(r), key, k) {
        var j :| 0 <= j < |Init(r)| && key(Init(r)[j]) == k;
        assert key(r[j]) == k;
      }
      if k != key(Last(r)) && HasKey(r, key, k) {
        var j :| 0 <= j < |r| && key(r[j]) == k;
        assert key(Init(r)[j]) == k;
      }
    }
  }

  /** One step of that loop: appending `x` to the input appends it to the
      kept elements exactly when its key is not in `seen`, the set of the
      kept keys, and adding the key keeps `seen` that set. */
  lemma FirstByKeyStep<T, K>(xs: seq<T>, x: T, key: T -> K, seen: set<K>)
    requires seen == KeySet(FirstByKey(xs, key), key)
    ensures FirstByKey(xs + [x], key) ==
      if key(x) in seen then FirstByKey(xs, key) else FirstByKey(xs, key) + [x]
    ensures KeySet(FirstByKey(xs, key) + [x], key) == seen + {key(x)}
  {
    var ys := xs + [x];
    Snoc(xs, x);
    var prev := FirstByKey(xs, key);
    Snoc(prev, x);
    KeySetHasKey(prev, key, key(x));
    assert FirstByKey(ys, key) == if HasKey(prev, key, key(x)) then prev else prev + [x];
  }
}
