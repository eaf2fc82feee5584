/**
 * Rust's `iter().map(f).collect()` and `iter().filter_map(f).collect()` over
 * a sequence. What `filter_map` guarantees: every result comes from one
 * input, in input order, and an input `f` rejects leaves no trace.
 */
module Seqs {
  import opened Wrappers

  /** `iter().map(f).collect()`: `f` of each input, in order. */
  function Map<A, B>(f: A -> B, xs: seq<A>): (ys: seq<B>)
    ensures |ys| == |xs|
    ensures forall i :: 0 <= i < |xs| ==> ys[i] == f(xs[i])
  {
    if xs == [] then [] else [f(xs[0])] + Map(f, xs[1..])
  }

  function FilterMap<A, B>(f: A -> Option<B>, xs: seq<A>): (ys: seq<B>)
    ensures |ys| <= |xs|
  {
    if xs == [] then []
    else
      var rest := FilterMap(f, xs[1..]);
      match f(xs[0])
      case Some(y) => [y] + rest
      case None => rest
  }

  /** Mapping a concatenation is concatenating the maps. */
  lemma {:induction false} FilterMapAppend<A, B>(f: A -> Option<B>, xs: seq<A>, zs: seq<A>)
    ensures FilterMap(f, xs + zs) == FilterMap(f, xs) + FilterMap(f, zs)
  {
    if xs == [] {
      assert xs + zs == zs;
    } else {
      assert (xs + zs)[1..] == xs[1..] + zs;
      FilterMapAppend(f, xs[1..], zs);
    }
  }

  /** A single input maps to its value, or to nothing. */
  lemma FilterMapSingle<A, B>(f: A -> Option<B>, x: A)
    ensures FilterMap(f, [x]) == if f(x).Some? then [f(x).value] else []
  {
    assert [x][1..] == [];
  }

  /**
   * One input between two lists contributes its own value, or nothing, at
   * its own position; the inputs around it are mapped as if it were absent.
   */
  lemma FilterMapSplice<A, B>(f: A -> Option<B>, xs: seq<A>, x: A, zs: seq<A>)
    ensures f(x).None? ==> FilterMap(f, xs + [x] + zs) == FilterMap(f, xs) + FilterMap(f, zs)
    ensures f(x).Some? ==> FilterMap(f, xs + [x] + zs) == FilterMap(f, xs) + [f(x).value] + FilterMap(f, zs)
  {
    FilterMapAppend(f, xs + [x], zs);
    FilterMapAppend(f, xs, [x]);
    FilterMapSingle(f, x);
  }

  /** The positions of the inputs that `f` accepts, in increasing order. */
  function Accepted<A, B>(f: A -> Option<B>, xs: seq<A>): (idx: seq<nat>)
    ensures forall k :: 0 <= k < |idx| ==> idx[k] < |xs|
  {
    if xs == [] then []
    else
      var last := |xs| - 1;
      Accepted(f, xs[..last]) + if f(xs[last]).Some? then [last] else []
  }

  /** The accepted positions increase, and a position is listed exactly when `f` accepts its input. */
  lemma {:induction false} AcceptedSpec<A, B>(f: A -> Option<B>, xs: seq<A>)
    ensures var idx := Accepted(f, xs);
      && (forall k, l :: 0 <= k < l < |idx| ==> idx[k] < idx[l])
      && (forall i :: 0 <= i < |xs| ==> (i in idx <==> f(xs[i]).Some?))
  {
    if xs != [] {
      var last := |xs| - 1;
      var init := xs[..last];
      AcceptedSpec(f, init);
      assert forall i :: 0 <= i < last ==> init[i] == xs[i];
    }
  }

  /**
   * `FilterMap` returns, in order, exactly the values of the accepted
   * inputs: the k-th result is `f` of the k-th accepted input.
   */
  lemma {:induction false} FilterMapInOrder<A, B>(f: A -> Option<B>, xs: seq<A>)
    ensures |FilterMap(f, xs)| == |Accepted(f, xs)|
    ensures forall k :: 0 <= k < |FilterMap(f, xs)| ==> f(xs[Accepted(f, xs)[k]]) == Some(FilterMap(f, xs)[k])
  {
    if xs != [] {
      var last := |xs| - 1;
      var init := xs[..last];
      FilterMapInOrder(f, init);
      assert xs == init + [xs[last]];
      FilterMapAppend(f, init, [xs[last]]);
      FilterMapSingle(f, xs[last]);
      var ys := FilterMap(f, xs);
      var idx := Accepted(f, xs);
      forall k | 0 <= k < |FilterMap(f, init)|
        ensures f(xs[idx[k]]) == Some(ys[k])
      {
        assert idx[k] == Accepted(f, init)[k];
        assert xs[idx[k]] == init[idx[k]];
      }
    }
  }
}
