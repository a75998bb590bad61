/**
 * The JavaScript array operations the handlers in server.js use on the
 * in-memory stores: `findIndex`, `find`, `some`, `splice(i, 1)` and
 * `filter`, each stated by what it returns rather than how it scans.
 */
module Seqs {

  datatype Option<T> = None | Some(value: T)

  /** `i` is the first index of `xs` whose element satisfies `p`. */
  predicate IsFirst<T>(xs: seq<T>, p: T -> bool, i: nat) {
    i < |xs| && p(xs[i]) && forall k :: 0 <= k < i ==> !p(xs[k])
  }

  /** `Array.prototype.findIndex`, with `None` for JavaScript's `-1`. */
  function FindIndex<T>(xs: seq<T>, p: T -> bool): (r: Option<nat>)
    ensures r.Some? ==> IsFirst(xs, p, r.value)
    ensures r.None? <==> forall k :: 0 <= k < |xs| ==> !p(xs[k])
  {
    if xs == [] then None
    else if p(xs[0]) then Some(0)
    else match FindIndex(xs[1..], p)
      case None =>
        assert forall k :: 1 <= k < |xs| ==> xs[k] == xs[1..][k - 1];
        None
      case Some(i) =>
        assert forall k :: 1 <= k <= i ==> xs[k] == xs[1..][k - 1];
        Some(i + 1)
  }

  /** There is only one first index. */
  lemma FirstUnique<T>(xs: seq<T>, p: T -> bool, i: nat)
    requires IsFirst(xs, p, i)
    ensures FindIndex(xs, p) == Some(i)
    ensures forall j: nat :: IsFirst(xs, p, j) ==> j == i
  {
    var r := FindIndex(xs, p);
    assert r.Some?;
    forall j: nat | IsFirst(xs, p, j) ensures j == i {
    }
  }

  /** `Array.prototype.find`: the first element satisfying `p`. */
  function Find<T>(xs: seq<T>, p: T -> bool): (r: Option<T>)
    ensures r.None? <==> forall k :: 0 <= k < |xs| ==> !p(xs[k])
    ensures r.Some? ==> exists i: nat :: IsFirst(xs, p, i) && xs[i] == r.value
  {
    match FindIndex(xs, p)
    case None => None
    case Some(i) => assert IsFirst(xs, p, i); Some(xs[i])
  }

  /** `Array.prototype.some`. */
  predicate Any<T>(xs: seq<T>, p: T -> bool) {
    exists k :: 0 <= k < |xs| && p(xs[k])
  }

  /** `a` is `b` with some elements dropped, the rest in the same order. */
  predicate IsSubseq<T(==)>(a: seq<T>, b: seq<T>)
    decreases |b|
  {
    if a == [] then true
    else if b == [] then false
    else (a[0] == b[0] && IsSubseq(a[1..], b[1..])) || IsSubseq(a, b[1..])
  }

  lemma {:induction false} SubseqRefl<T>(a: seq<T>)
    ensures IsSubseq(a, a)
    decreases |a|
  {
    if a != [] {
      SubseqRefl(a[1..]);
    }
  }

  /** Keeping a prefix and a suffix keeps the order of what is kept. */
  lemma {:induction false} SubseqConcat<T>(a: seq<T>, b: seq<T>, c: seq<T>, d: seq<T>)
    requires IsSubseq(a, b) && IsSubseq(c, d)
    ensures IsSubseq(a + c, b + d)
    decreases |b|
  {
    if b == [] {
      assert a == [];
      assert a + c == c && b + d == d;
    } else if a != [] && a[0] == b[0] && IsSubseq(a[1..], b[1..]) {
      SubseqConcat(a[1..], b[1..], c, d);
      assert (a + c)[1..] == a[1..] + c;
      assert (b + d)[1..] == b[1..] + d;
    } else if a == [] {
      SubseqConcat(a, b[1..], c, d);
      assert (b + d)[1..] == b[1..] + d;
      assert a + c == c;
      if c != [] {
        assert IsSubseq(c, (b + d)[1..]);
      }
    } else {
      SubseqConcat(a, b[1..], c, d);
      assert (b + d)[1..] == b[1..] + d;
    }
  }

  /** `splice(i, 1)`: the element at `i` goes, the others close up in order. */
  function RemoveAt<T>(xs: seq<T>, i: nat): (r: seq<T>)
    requires i < |xs|
    ensures |r| == |xs| - 1
    ensures forall k :: 0 <= k < i ==> r[k] == xs[k]
    ensures forall k :: i <= k < |r| ==> r[k] == xs[k + 1]
    ensures multiset(r) == multiset(xs) - multiset{xs[i]}
  {
    assert xs == xs[..i] + [xs[i]] + xs[i + 1..];
    xs[..i] + xs[i + 1..]
  }

  /** Dropping the head keeps the order of the rest. */
  lemma SubseqTail<T>(xs: seq<T>)
    requires xs != []
    ensures IsSubseq(xs[1..], xs)
  {
    SubseqRefl(xs[1..]);
  }

  lemma SubseqCons<T>(x: T, a: seq<T>, b: seq<T>)
    requires IsSubseq(a, b)
    ensures IsSubseq([x] + a, [x] + b)
  {
    assert ([x] + a)[1..] == a && ([x] + b)[1..] == b;
  }

  /** Skipping one element keeps the order of the rest. */
  lemma {:induction false} SubseqSkip<T>(xs: seq<T>, i: nat)
    requires i < |xs|
    ensures IsSubseq(xs[..i] + xs[i + 1..], xs)
    decreases i
  {
    if i == 0 {
      assert xs[..i] + xs[i + 1..] == xs[1..];
      SubseqTail(xs);
    } else {
      var t := xs[1..];
      SubseqSkip(t, i - 1);
      SubseqCons(xs[0], t[..i - 1] + t[i..], t);
      assert xs[..i] + xs[i + 1..] == [xs[0]] + (t[..i - 1] + t[i..]);
      assert xs == [xs[0]] + t;
    }
  }

  lemma RemoveAtSubseq<T>(xs: seq<T>, i: nat)
    requires i < |xs|
    ensures IsSubseq(RemoveAt(xs, i), xs)
  {
    SubseqSkip(xs, i);
  }

  /** Removing another element keeps the first index, shifted if it came later. */
  lemma FirstAfterRemove<T>(xs: seq<T>, p: T -> bool, j: nat, i: nat)
    requires IsFirst(xs, p, j) && i < |xs| && i != j
    ensures IsFirst(RemoveAt(xs, i), p, if i < j then j - 1 else j)
  {
    var r := RemoveAt(xs, i);
    forall k | 0 <= k < (if i < j then j - 1 else j) ensures !p(r[k]) {
      assert r[k] == xs[if k < i then k else k + 1];
    }
  }

  /** Two removals commute once the later index is shifted. */
  lemma RemoveAtCommute<T>(xs: seq<T>, i: nat, j: nat)
    requires i < j < |xs|
    ensures RemoveAt(RemoveAt(xs, j), i) == RemoveAt(RemoveAt(xs, i), j - 1)
  {
    var a, b := RemoveAt(RemoveAt(xs, j), i), RemoveAt(RemoveAt(xs, i), j - 1);
    forall k | 0 <= k < |a| ensures a[k] == b[k] {
      if k < i {
      } else if k < j - 1 {
      } else {
      }
    }
  }

  /** `filter`: the elements satisfying `p`, in their original order. */
  function Filter<T(==,!new)>(xs: seq<T>, p: T -> bool): (r: seq<T>)
    ensures IsSubseq(r, xs)
    ensures forall x :: multiset(r)[x] == if p(x) then multiset(xs)[x] else 0
    decreases |xs|
  {
    if xs == [] then []
    else
      var rest := Filter(xs[1..], p);
      assert xs == [xs[0]] + xs[1..];
      if p(xs[0]) then [xs[0]] + rest else rest
  }

  lemma FilterMember<T(!new)>(xs: seq<T>, p: T -> bool, x: T)
    ensures x in Filter(xs, p) <==> x in xs && p(x)
  {
    assert multiset(Filter(xs, p))[x] == if p(x) then multiset(xs)[x] else 0;
  }

  /** A filter that drops nothing is the identity. */
  lemma {:induction false} FilterKeepsAll<T(!new)>(xs: seq<T>, p: T -> bool)
    requires forall k :: 0 <= k < |xs| ==> p(xs[k])
    ensures Filter(xs, p) == xs
    decreases |xs|
  {
    if xs != [] {
      FilterKeepsAll(xs[1..], p);
      assert [xs[0]] + xs[1..] == xs;
    }
  }
}
