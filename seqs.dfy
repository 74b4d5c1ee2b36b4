/** Order-preserving selection, the shape of JavaScript's `Array.prototype.filter`
    and of a pandas boolean mask. */
module Seqs {

  /** The elements of `s` for which `keep` holds, in their order in `s`. */
  function Filter<T>(s: seq<T>, keep: T -> bool): (r: seq<T>)
    ensures |r| <= |s|
    ensures forall k :: 0 <= k < |r| ==> r[k] in s && keep(r[k])
    ensures forall k :: 0 <= k < |s| && keep(s[k]) ==> s[k] in r
  {
    if s == [] then []
    else (if keep(s[0]) then [s[0]] else []) + Filter(s[1..], keep)
  }

  /** Filtering distributes over concatenation: the kept elements of the first part all
      come before those of the second, so the relative order of the input is kept. */
  lemma {:induction false} FilterAppend<T>(a: seq<T>, b: seq<T>, keep: T -> bool)
    ensures Filter(a + b, keep) == Filter(a, keep) + Filter(b, keep)
  {
    if a == [] {
      assert a + b == b;
    } else {
      assert (a + b)[1..] == a[1..] + b;
      FilterAppend(a[1..], b, keep);
    }
  }

  /** Each element is kept exactly as often as it occurs, or dropped altogether. */
  lemma {:induction false} FilterMultiplicity<T>(s: seq<T>, keep: T -> bool, x: T)
    ensures multiset(Filter(s, keep))[x] == if keep(x) then multiset(s)[x] else 0
  {
    if s != [] {
      assert s == [s[0]] + s[1..];
      FilterMultiplicity(s[1..], keep, x);
    }
  }

  /** One more element is kept at the end exactly when it passes. */
  lemma FilterSnoc<T>(s: seq<T>, x: T, keep: T -> bool)
    ensures Filter(s + [x], keep) == Filter(s, keep) + (if keep(x) then [x] else [])
  {
    FilterAppend(s, [x], keep);
    assert [x][1..] == [];
  }

  /** No element occurs twice. */
  predicate Distinct<T(==)>(s: seq<T>)
  {
    forall i, j :: 0 <= i < j < |s| ==> s[i] != s[j]
  }

  /** Dropping elements cannot create a repetition. */
  lemma {:induction false} FilterDistinct<T>(s: seq<T>, keep: T -> bool)
    requires Distinct(s)
    ensures Distinct(Filter(s, keep))
  {
    if s != [] {
      FilterDistinct(s[1..], keep);
      assert s[0] !in s[1..];
    }
  }

  /** The pieces `f` makes of each element, one after another. */
  function FlatMap<A, B>(xs: seq<A>, f: A -> seq<B>): seq<B>
  {
    if xs == [] then [] else FlatMap(xs[..|xs| - 1], f) + f(xs[|xs| - 1])
  }

  /** One more element adds its own piece at the end. */
  lemma FlatMapSnoc<A, B>(xs: seq<A>, x: A, f: A -> seq<B>)
    ensures FlatMap(xs + [x], f) == FlatMap(xs, f) + f(x)
  {
    assert (xs + [x])[..|xs|] == xs;
  }

  /** The pieces of a concatenation are the pieces of each part. */
  lemma {:induction false} FlatMapConcat<A, B>(xs: seq<A>, ys: seq<A>, f: A -> seq<B>)
    ensures FlatMap(xs + ys, f) == FlatMap(xs, f) + FlatMap(ys, f)
  {
    if ys == [] {
      assert xs + ys == xs;
    } else {
      var n := |ys| - 1;
      assert xs + ys == (xs + ys[..n]) + [ys[n]];
      assert ys == ys[..n] + [ys[n]];
      FlatMapSnoc(xs + ys[..n], ys[n], f);
      FlatMapSnoc(ys[..n], ys[n], f);
      FlatMapConcat(xs, ys[..n], f);
      assert (FlatMap(xs, f) + FlatMap(ys[..n], f)) + f(ys[n]) == FlatMap(xs, f) + (FlatMap(ys[..n], f) + f(ys[n]));
    }
  }

  /** `g` applied to each element. */
  function Map<A, B>(s: seq<A>, g: A -> B): (r: seq<B>)
    ensures |r| == |s|
    ensures forall k :: 0 <= k < |s| ==> r[k] == g(s[k])
  {
    seq(|s|, k requires 0 <= k < |s| => g(s[k]))
  }

  lemma MapAppend<A, B>(a: seq<A>, b: seq<A>, g: A -> B)
    ensures Map(a + b, g) == Map(a, g) + Map(b, g)
  {
    var l, r := Map(a + b, g), Map(a, g) + Map(b, g);
    forall k | 0 <= k < |l|
      ensures l[k] == r[k]
    {
      if k < |a| { assert (a + b)[k] == a[k]; } else { assert (a + b)[k] == b[k - |a|]; }
    }
  }

  /** Filtering then mapping, one more element at the end. */
  lemma MapFilterSnoc<A, B>(s: seq<A>, x: A, keep: A -> bool, g: A -> B)
    ensures Map(Filter(s + [x], keep), g) == Map(Filter(s, keep), g) + (if keep(x) then [g(x)] else [])
    ensures |Filter(s + [x], keep)| == |Filter(s, keep)| + (if keep(x) then 1 else 0)
  {
    FilterSnoc(s, x, keep);
    MapAppend(Filter(s, keep), if keep(x) then [x] else [], g);
  }

  /** A non-empty sequence is its front followed by its last element. */
  lemma SplitLast<T>(s: seq<T>)
    requires s != []
    ensures s == s[..|s| - 1] + [s[|s| - 1]]
  {
  }

  /** Mapping a prefix one element longer adds that element's image. */
  lemma MapStep<A, B>(s: seq<A>, j: nat, g: A -> B)
    requires j < |s|
    ensures Map(s[..j + 1], g) == Map(s[..j], g) + [g(s[j])]
  {
    assert s[..j + 1] == s[..j] + [s[j]];
    MapAppend(s[..j], [s[j]], g);
  }

  lemma AppendAssoc<T>(a: seq<T>, b: seq<T>, c: seq<T>)
    ensures (a + b) + c == a + (b + c)
  {
  }
}
