/**
 * Flattening: every extractor appends, for each element of a collection in order,
 * the fragments that element yields. FlatMap is that shape as a function.
 */
module Seqs {

  /** The concatenation of f(x) over xs, in order. */
  function FlatMap<A, B>(xs: seq<A>, f: A -> seq<B>): seq<B>
  {
    if xs == [] then [] else FlatMap(xs[..|xs| - 1], f) + f(xs[|xs| - 1])
  }

  lemma AppendAssoc<T>(a: seq<T>, b: seq<T>, c: seq<T>)
    ensures a + b + c == a + (b + c)
  {
  }

  lemma FlatMapSnoc<A, B>(xs: seq<A>, x: A, f: A -> seq<B>)
    ensures FlatMap(xs + [x], f) == FlatMap(xs, f) + f(x)
  {
    assert (xs + [x])[..|xs|] == xs;
  }

  lemma {:induction false} FlatMapAppend<A, B>(a: seq<A>, b: seq<A>, f: A -> seq<B>)
    ensures FlatMap(a + b, f) == FlatMap(a, f) + FlatMap(b, f)
    decreases |b|
  {
    if b == [] {
      assert a + b == a;
    } else {
      var b' := b[..|b| - 1];
      assert (a + b)[..|a + b| - 1] == a + b';
      FlatMapAppend(a, b', f);
    }
  }

  /**
   * The output of element k sits, unchanged and contiguous, right after the output
   * of the elements before it.
   */
  lemma FlatMapBlock<A, B>(xs: seq<A>, f: A -> seq<B>, k: int)
    requires 0 <= k < |xs|
    ensures |FlatMap(xs[..k], f)| + |f(xs[k])| <= |FlatMap(xs, f)|
    ensures FlatMap(xs, f)[|FlatMap(xs[..k], f)|..|FlatMap(xs[..k], f)| + |f(xs[k])|] == f(xs[k])
  {
    assert xs == xs[..k + 1] + xs[k + 1..];
    assert xs[..k + 1] == xs[..k] + [xs[k]];
    FlatMapAppend(xs[..k + 1], xs[k + 1..], f);
    FlatMapSnoc(xs[..k], xs[k], f);
  }

  /** FlatMapBlock in index form: output k of element i sits at the block's offset plus k. */
  lemma FlatMapAt<A, B>(xs: seq<A>, f: A -> seq<B>, i: int)
    requires 0 <= i < |xs|
    ensures |FlatMap(xs[..i], f)| + |f(xs[i])| <= |FlatMap(xs, f)|
    ensures forall k :: 0 <= k < |f(xs[i])| ==> FlatMap(xs, f)[|FlatMap(xs[..i], f)| + k] == f(xs[i])[k]
  {
    FlatMapBlock(xs, f, i);
    var off := |FlatMap(xs[..i], f)|;
    forall k | 0 <= k < |f(xs[i])|
      ensures FlatMap(xs, f)[off + k] == f(xs[i])[k]
    {
      assert FlatMap(xs, f)[off + k] == FlatMap(xs, f)[off..off + |f(xs[i])|][k];
    }
  }

  /**
   * Flattening twice is flattening once over the concatenated inner elements, when
   * each outer element's output is the flattening of its inner elements.
   */
  lemma {:induction false} FlatMapFlatten<A, B>(xss: seq<seq<A>>, outer: seq<A> -> seq<B>, inner: A -> seq<B>)
    requires forall k :: 0 <= k < |xss| ==> outer(xss[k]) == FlatMap(xss[k], inner)
    ensures FlatMap(xss, outer) == FlatMap(FlatMap(xss, (xs: seq<A>) => xs), inner)
  {
    if xss != [] {
      var init, last := xss[..|xss| - 1], xss[|xss| - 1];
      assert forall k :: 0 <= k < |init| ==> init[k] == xss[k];
      FlatMapFlatten(init, outer, inner);
      FlatMapAppend(FlatMap(init, (xs: seq<A>) => xs), last, inner);
    }
  }

  /** An element whose output is empty can be dropped without changing the result. */
  lemma FlatMapDrop<A, B>(xs: seq<A>, f: A -> seq<B>, k: int)
    requires 0 <= k < |xs| && f(xs[k]) == []
    ensures FlatMap(xs[..k] + xs[k + 1..], f) == FlatMap(xs, f)
  {
    var pre, post := xs[..k], xs[k + 1..];
    assert xs == (pre + [xs[k]]) + post;
    calc {
      FlatMap(xs, f);
      { FlatMapAppend(pre + [xs[k]], post, f); }
      FlatMap(pre + [xs[k]], f) + FlatMap(post, f);
      { FlatMapSnoc(pre, xs[k], f); }
      FlatMap(pre, f) + FlatMap(post, f);
      { FlatMapAppend(pre, post, f); }
      FlatMap(pre + post, f);
    }
  }

  /** What holds of every element's output holds of the whole output. */
  lemma {:induction false} FlatMapAll<A, B>(xs: seq<A>, f: A -> seq<B>, p: B -> bool)
    requires forall i, k :: 0 <= i < |xs| && 0 <= k < |f(xs[i])| ==> p(f(xs[i])[k])
    ensures forall k :: 0 <= k < |FlatMap(xs, f)| ==> p(FlatMap(xs, f)[k])
  {
    if xs != [] {
      var init := xs[..|xs| - 1];
      assert forall i :: 0 <= i < |init| ==> init[i] == xs[i];
      FlatMapAll(init, f, p);
      var last := f(xs[|xs| - 1]);
      forall k | 0 <= k < |FlatMap(xs, f)|
        ensures p(FlatMap(xs, f)[k])
      {
        if k >= |FlatMap(init, f)| {
          assert FlatMap(xs, f)[k] == last[k - |FlatMap(init, f)|];
        }
      }
    }
  }
}
