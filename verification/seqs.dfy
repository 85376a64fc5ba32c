/** Array operations the stores are built from: `filter`, `findIndex`/`find`, and the
    subsequence relation that says a filter keeps the survivors in order. */
module Seqs {

  import opened Wrappers

  /** `a` can be obtained from `b` by deleting elements (greedy leftmost matching). */
  predicate Subseq<T(==)>(a: seq<T>, b: seq<T>)
    decreases |b|
  {
    if |a| == 0 then true
    else if |b| == 0 then false
    else if a[0] == b[0] then Subseq(a[1..], b[1..])
    else Subseq(a, b[1..])
  }

  /** Number of elements of `xs` that satisfy `keep`. */
  function Count<T>(xs: seq<T>, keep: T -> bool): (n: nat)
    ensures n <= |xs|
  {
    if |xs| == 0 then 0 else (if keep(xs[0]) then 1 else 0) + Count(xs[1..], keep)
  }

  /** The elements of `xs` that pass `keep`, in their order. */
  function Filter<T>(xs: seq<T>, keep: T -> bool): (r: seq<T>)
    ensures |r| == Count(xs, keep)
    ensures forall k | 0 <= k < |r| :: keep(r[k]) && r[k] in xs
    ensures forall k | 0 <= k < |xs| && keep(xs[k]) :: xs[k] in r
  {
    if |xs| == 0 then []
    else if keep(xs[0]) then [xs[0]] + Filter(xs[1..], keep)
    else Filter(xs[1..], keep)
  }

  lemma {:induction false} SubseqRefl<T>(xs: seq<T>)
    ensures Subseq(xs, xs)
    decreases |xs|
  {
    if |xs| > 0 {
      SubseqRefl(xs[1..]);
    }
  }

  lemma {:induction false} SubseqRest<T>(a: seq<T>, b: seq<T>)
    requires |b| > 0 && Subseq(a, b[1..])
    ensures Subseq(a, b)
    decreases |b|
  {
    if |a| > 0 && a[0] == b[0] {
      if |b| > 1 {
        SubseqDropHead(a, b[1..]);
        SubseqRest(a[1..], b[1..]);
      }
    }
  }

  lemma {:induction false} SubseqDropHead<T>(a: seq<T>, b: seq<T>)
    requires |a| > 0 && Subseq(a, b)
    ensures Subseq(a[1..], b[1..])
    decreases |b|
  {
    if a[0] != b[0] {
      SubseqDropHead(a, b[1..]);
      SubseqRest(a[1..], b[1..]);
    }
  }

  /** A filter keeps its survivors in their original order. */
  lemma {:induction false} FilterIsSubseq<T>(xs: seq<T>, keep: T -> bool)
    ensures Subseq(Filter(xs, keep), xs)
    decreases |xs|
  {
    if |xs| > 0 {
      FilterIsSubseq(xs[1..], keep);
      if keep(xs[0]) {
        assert ([xs[0]] + Filter(xs[1..], keep))[1..] == Filter(xs[1..], keep);
      } else {
        SubseqRest(Filter(xs[1..], keep), xs);
      }
    }
  }

  /** A subsequence of kept elements has at most as many elements as there are kept ones. */
  lemma {:induction false} SubseqCountBound<T>(r: seq<T>, xs: seq<T>, keep: T -> bool)
    requires Subseq(r, xs)
    requires forall k | 0 <= k < |r| :: keep(r[k])
    ensures |r| <= Count(xs, keep)
    decreases |xs|
  {
    if |r| > 0 {
      if r[0] == xs[0] {
        SubseqCountBound(r[1..], xs[1..], keep);
      } else {
        SubseqCountBound(r, xs[1..], keep);
      }
    }
  }

  /** The filter is the only in-order selection of all kept elements: a subsequence whose
      elements are all kept and that has as many elements as there are kept ones is it. */
  lemma {:induction false} FilterUnique<T>(r: seq<T>, xs: seq<T>, keep: T -> bool)
    requires Subseq(r, xs)
    requires forall k | 0 <= k < |r| :: keep(r[k])
    requires |r| == Count(xs, keep)
    ensures r == Filter(xs, keep)
    decreases |xs|
  {
    if |xs| > 0 {
      if keep(xs[0]) {
        if r[0] == xs[0] {
          FilterUnique(r[1..], xs[1..], keep);
          assert r == [r[0]] + r[1..];
        } else {
          SubseqCountBound(r, xs[1..], keep);
          assert false;
        }
      } else {
        if |r| > 0 {
          assert r[0] != xs[0];
        }
        FilterUnique(r, xs[1..], keep);
      }
    }
  }

  /** Filtering a filtered sequence again with the same test changes nothing. */
  lemma {:induction false} FilterIdempotent<T>(xs: seq<T>, keep: T -> bool)
    ensures Filter(Filter(xs, keep), keep) == Filter(xs, keep)
    decreases |xs|
  {
    if |xs| > 0 {
      FilterIdempotent(xs[1..], keep);
      if keep(xs[0]) {
        assert ([xs[0]] + Filter(xs[1..], keep))[1..] == Filter(xs[1..], keep);
      }
    }
  }

  /** Filtering depends only on what the test answers. */
  lemma {:induction false} FilterExt<T>(xs: seq<T>, p: T -> bool, q: T -> bool)
    requires forall x :: p(x) == q(x)
    ensures Filter(xs, p) == Filter(xs, q)
    decreases |xs|
  {
    if |xs| > 0 {
      FilterExt(xs[1..], p, q);
    }
  }

  /** Two filters in a row are one filter by the conjunction of their tests. */
  lemma {:induction false} FilterFilter<T>(xs: seq<T>, p: T -> bool, q: T -> bool, both: T -> bool)
    requires forall x :: both(x) == (p(x) && q(x))
    ensures Filter(Filter(xs, p), q) == Filter(xs, both)
    decreases |xs|
  {
    if |xs| > 0 {
      FilterFilter(xs[1..], p, q, both);
      if p(xs[0]) {
        assert ([xs[0]] + Filter(xs[1..], p))[1..] == Filter(xs[1..], p);
      }
    }
  }

  /** `xs.findIndex(p)`, with `None` for -1. */
  function FindIndex<T>(xs: seq<T>, p: T -> bool): (r: Option<nat>)
    ensures r.Some? ==> r.value < |xs| && p(xs[r.value])
    ensures r.Some? ==> forall j | 0 <= j < r.value :: !p(xs[j])
    ensures r.None? ==> forall j | 0 <= j < |xs| :: !p(xs[j])
  {
    if |xs| == 0 then None
    else if p(xs[0]) then Some(0)
    else match FindIndex(xs[1..], p)
      case Some(i) => Some(i + 1)
      case None => None
  }

  /** `xs.find(p)`: the first element satisfying `p`. */
  function Find<T>(xs: seq<T>, p: T -> bool): (r: Option<T>)
    ensures r.Some? <==> exists k :: 0 <= k < |xs| && p(xs[k])
    ensures r.Some? ==> r.value in xs && p(r.value)
  {
    match FindIndex(xs, p)
    case Some(i) => Some(xs[i])
    case None => None
  }

  /** Whether some element of `xs` satisfies `p`. */
  predicate Any<T>(xs: seq<T>, p: T -> bool) {
    exists k :: 0 <= k < |xs| && p(xs[k])
  }

  /** The concatenation of a sequence of sequences. */
  function Flatten<T>(xss: seq<seq<T>>): (r: seq<T>)
    ensures |r| == Offset(xss, |xss|)
    decreases |xss|
  {
    if |xss| == 0 then []
    else
      OffsetPrefix(xss, |xss| - 1, |xss| - 1);
      Flatten(xss[..|xss| - 1]) + xss[|xss| - 1]
  }

  /** A property of every element of every inner sequence holds of every element of the
      concatenation. */
  lemma {:induction false} FlattenAll<T>(xss: seq<seq<T>>, p: T -> bool)
    requires forall i, k | 0 <= i < |xss| && 0 <= k < |xss[i]| :: p(xss[i][k])
    ensures forall k | 0 <= k < |Flatten(xss)| :: p(Flatten(xss)[k])
    decreases |xss|
  {
    if |xss| > 0 {
      var init := xss[..|xss| - 1];
      assert forall i | 0 <= i < |init| :: init[i] == xss[i];
      FlattenAll(init, p);
      var last := xss[|xss| - 1];
      forall k | 0 <= k < |Flatten(xss)|
        ensures p(Flatten(xss)[k])
      {
        if k >= |Flatten(init)| {
          assert Flatten(xss)[k] == last[k - |Flatten(init)|];
        } else {
          assert Flatten(xss)[k] == Flatten(init)[k];
        }
      }
    }
  }

  /** Where the `i`-th inner sequence starts in the concatenation. */
  function Offset<T>(xss: seq<seq<T>>, i: nat): nat
    requires i <= |xss|
    decreases i
  {
    if i == 0 then 0 else Offset(xss, i - 1) + |xss[i - 1]|
  }

  lemma {:induction false} OffsetPrefix<T>(xss: seq<seq<T>>, n: nat, i: nat)
    requires i <= n <= |xss|
    ensures Offset(xss[..n], i) == Offset(xss, i)
    decreases i
  {
    if i > 0 {
      OffsetPrefix(xss, n, i - 1);
    }
  }

  /** Element `k` of the `i`-th inner sequence sits at `Offset(xss, i) + k`. */
  lemma {:induction false} FlattenAt<T>(xss: seq<seq<T>>, i: nat, k: nat)
    requires i < |xss| && k < |xss[i]|
    ensures Offset(xss, i) + k < |Flatten(xss)|
    ensures Flatten(xss)[Offset(xss, i) + k] == xss[i][k]
    decreases |xss|
  {
    var n := |xss| - 1;
    var init := xss[..n];
    OffsetPrefix(xss, n, n);
    if i < n {
      OffsetMonotone(xss, i + 1, n);
      FlattenAt(init, i, k);
      OffsetPrefix(xss, n, i);
    }
  }

  lemma {:induction false} OffsetMonotone<T>(xss: seq<seq<T>>, i: nat, j: nat)
    requires i <= j <= |xss|
    ensures Offset(xss, i) <= Offset(xss, j)
    decreases j
  {
    if i < j {
      OffsetMonotone(xss, i, j - 1);
    }
  }
}
