/**
 * Order-preserving selection over sequences: the shape shared by every
 * "walk a list in order and append what matches" loop of the system
 * (violations, risk reasons, the dashboard's lookback filter).
 */
module Seqs {
  import opened Wrappers

  /** The one-or-zero element sequence an optional value contributes. */
  function Lift<U>(o: Option<U>): (s: seq<U>)
    ensures |s| <= 1
    ensures o.Some? <==> |s| == 1
    ensures o.Some? ==> s[0] == o.value
  {
    match o
    case Some(y) => [y]
    case None => []
  }

  /**
   * The images, in the order of `xs`, of the elements that `f` selects.
   * Defined by peeling off the last element, as a left-to-right loop builds it.
   */
  function FilterMap<T, U>(xs: seq<T>, f: T -> Option<U>): (ys: seq<U>)
    ensures |ys| <= |xs|
  {
    if xs == [] then []
    else FilterMap(xs[..|xs| - 1], f) + Lift(f(xs[|xs| - 1]))
  }

  /** The positions of `xs` that `f` selects, in increasing order. */
  ghost function Selected<T, U>(xs: seq<T>, f: T -> Option<U>): seq<int>
  {
    if xs == [] then []
    else Selected(xs[..|xs| - 1], f) + (if f(xs[|xs| - 1]).Some? then [|xs| - 1] else [])
  }

  /** Filtering distributes over concatenation. */
  lemma {:induction false} FilterMapAppend<T, U>(a: seq<T>, b: seq<T>, f: T -> Option<U>)
    ensures FilterMap(a + b, f) == FilterMap(a, f) + FilterMap(b, f)
  {
    if b == [] {
      assert a + b == a;
    } else {
      var b' := b[..|b| - 1];
      assert (a + b)[..|a + b| - 1] == a + b';
      assert (a + b)[|a + b| - 1] == b[|b| - 1];
      FilterMapAppend(a, b', f);
    }
  }

  /**
   * FilterMap keeps exactly the selected positions, in increasing order:
   * its k-th element is the image of the k-th selected position, and every
   * position that `f` selects is among them.
   */
  lemma {:induction false} FilterMapSelects<T, U>(xs: seq<T>, f: T -> Option<U>)
    ensures |Selected(xs, f)| == |FilterMap(xs, f)|
    ensures forall k :: 0 <= k < |Selected(xs, f)| ==>
              0 <= Selected(xs, f)[k] < |xs| && f(xs[Selected(xs, f)[k]]) == Some(FilterMap(xs, f)[k])
    ensures forall k, l :: 0 <= k < l < |Selected(xs, f)| ==> Selected(xs, f)[k] < Selected(xs, f)[l]
    ensures forall i :: 0 <= i < |xs| && f(xs[i]).Some? ==> i in Selected(xs, f)
  {
    if xs != [] {
      var n := |xs| - 1;
      var p := xs[..n];
      FilterMapSelects(p, f);
      assert forall i :: 0 <= i < n ==> p[i] == xs[i];
    }
  }

  /** An element is kept exactly when some position of `xs` maps to it. */
  lemma FilterMapMember<T, U>(xs: seq<T>, f: T -> Option<U>, y: U)
    ensures y in FilterMap(xs, f) <==> exists i :: 0 <= i < |xs| && f(xs[i]) == Some(y)
  {
    FilterMapSelects(xs, f);
    var s := Selected(xs, f);
    var ys := FilterMap(xs, f);
    if y in ys {
      var k :| 0 <= k < |ys| && ys[k] == y;
      assert f(xs[s[k]]) == Some(y);
    }
    if i :| 0 <= i < |xs| && f(xs[i]) == Some(y) {
      assert i in s;
      var k :| 0 <= k < |s| && s[k] == i;
      assert ys[k] == y;
    }
  }

  /** The set of positions of `xs` that `f` selects. */
  ghost function SelectedPositions<T, U>(xs: seq<T>, f: T -> Option<U>): set<int>
  {
    set i | 0 <= i < |xs| && f(xs[i]).Some?
  }

  /** The number of kept elements is the number of positions `f` selects. */
  lemma {:induction false} FilterMapCount<T, U>(xs: seq<T>, f: T -> Option<U>)
    ensures |FilterMap(xs, f)| == |SelectedPositions(xs, f)|
  {
    if xs != [] {
      var n := |xs| - 1;
      var p := xs[..n];
      FilterMapCount(p, f);
      var sp := SelectedPositions(p, f);
      var s := SelectedPositions(xs, f);
      if f(xs[n]).Some? {
        assert s == sp + {n};
      } else {
        assert s == sp;
      }
    }
  }
}
