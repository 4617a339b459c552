/**
 * Shape and stride arithmetic: flat offsets, canonical strides, the three broadcast policies and the
 * detection of the trailing block of axes that can be scanned as one linear range.
 */
module Dims {
  import opened Views

  // ----- Offsets -----

  /**
   * The compile-time offset recursion: starting at stride position `k`, each index adds
   * `stride[k] * i` to the running offset, left to right; the last index closes the sum.
   */
  function CalculateOffset(offset: nat, stride: seq<nat>, inds: seq<nat>, k: nat): (r: nat)
    requires |inds| >= 1 && k + |inds| <= |stride|
    ensures r == offset + Dot(stride[k..], inds)
    decreases |inds|
  {
    assert stride[k..][1..] == stride[k + 1..];
    if |inds| == 1 then
      offset + stride[k] * inds[0]
    else
      CalculateOffset(offset + stride[k] * inds[0], stride, inds[1..], k + 1)
  }

  // ----- Canonical strides -----

  /** Fills `strides` backwards with the running product of the later extents. */
  method CalculateStrides(shape: seq<nat>, strides: array<nat>)
    requires strides.Length == |shape|
    modifies strides
    ensures strides[..] == Canonical(shape)
  {
    var prod := 1;
    var i := |shape|;
    while i > 0
      invariant 0 <= i <= |shape|
      invariant prod == Product(shape[i..])
      invariant strides[i..] == Canonical(shape[i..])
    {
      i := i - 1;
      strides[i] := prod;
      assert shape[i..][1..] == shape[i + 1..];
      assert strides[i..] == [strides[i]] + strides[i + 1..];
      prod := prod * shape[i];
    }
    assert shape[0..] == shape;
    assert strides[0..] == strides[..];
  }

  /** The strides of the shapes the library's tests construct. */
  lemma CanonicalExamples()
    ensures Canonical([3, 4]) == [4, 1]
    ensures Canonical([12]) == [1]
    ensures Canonical([3, 2, 2]) == [4, 2, 1]
  {
    assert [3, 4][1..] == [4];
    assert [3, 2, 2][1..] == [2, 2];
    assert [2, 2][1..] == [2];
  }

  // ----- Broadcast compatibility -----

  /** Two extents broadcast together when they are equal or one of them is 1. */
  predicate Compatible(x: nat, y: nat) {
    x == y || x == 1 || y == 1
  }

  /** The extent `i` axes from the end. */
  function FromEnd(s: seq<nat>, i: nat): nat
    requires i < |s|
  {
    s[|s| - 1 - i]
  }

  /** Implicit policy: every trailing-aligned pair of extents over the shorter rank is compatible. */
  predicate CheckImplicit(lhs: seq<nat>, rhs: seq<nat>) {
    forall i :: 0 <= i < |lhs| && i < |rhs| ==> Compatible(FromEnd(lhs, i), FromEnd(rhs, i))
  }

  /** Explicit policy: equal ranks, then the implicit check. */
  predicate CheckExplicit(lhs: seq<nat>, rhs: seq<nat>) {
    |lhs| == |rhs| && CheckImplicit(lhs, rhs)
  }

  /** Disabled policy: equal ranks and identical extents. */
  predicate CheckDisable(lhs: seq<nat>, rhs: seq<nat>) {
    |lhs| == |rhs| && forall i :: 0 <= i < |lhs| ==> lhs[i] == rhs[i]
  }

  function CheckWith(lhs: seq<nat>, rhs: seq<nat>, policy: Policy): bool {
    match policy
    case Implicit => CheckImplicit(lhs, rhs)
    case Explicit => CheckExplicit(lhs, rhs)
    case Disable => CheckDisable(lhs, rhs)
  }

  /** The public check resolves the policy from its SECOND argument. */
  function CheckShapes(first: View, second: View): bool {
    CheckWith(first.shape, second.shape, second.policy)
  }

  lemma ImplicitSymmetric(lhs: seq<nat>, rhs: seq<nat>)
    ensures CheckImplicit(lhs, rhs) == CheckImplicit(rhs, lhs)
  {
  }

  /** disabled ⇒ explicit ⇒ implicit, and disabled is plain equality. */
  lemma PolicyStrength(lhs: seq<nat>, rhs: seq<nat>)
    ensures CheckDisable(lhs, rhs) <==> lhs == rhs
    ensures CheckDisable(lhs, rhs) ==> CheckExplicit(lhs, rhs)
    ensures CheckExplicit(lhs, rhs) ==> CheckImplicit(lhs, rhs)
  {
    if CheckDisable(lhs, rhs) {
      forall i | 0 <= i < |lhs| && i < |rhs|
        ensures Compatible(FromEnd(lhs, i), FromEnd(rhs, i))
      {
        assert lhs[|lhs| - 1 - i] == rhs[|rhs| - 1 - i];
      }
    }
  }

  /**
   * With `|lhs| >= |rhs|` the implicit check compares `rhs[j]` with the extent of `lhs` it is
   * aligned with when `rhs` is padded in front with `|lhs| - |rhs|` axes.
   */
  lemma ImplicitAligned(lhs: seq<nat>, rhs: seq<nat>)
    requires |lhs| >= |rhs|
    ensures CheckImplicit(lhs, rhs) <==>
            forall j :: 0 <= j < |rhs| ==> Compatible(lhs[|lhs| - |rhs| + j], rhs[j])
  {
    if CheckImplicit(lhs, rhs) {
      forall j | 0 <= j < |rhs|
        ensures Compatible(lhs[|lhs| - |rhs| + j], rhs[j])
      {
        var i := |rhs| - 1 - j;
        assert Compatible(FromEnd(lhs, i), FromEnd(rhs, i));
      }
    }
    if forall j :: 0 <= j < |rhs| ==> Compatible(lhs[|lhs| - |rhs| + j], rhs[j]) {
      forall i | 0 <= i < |lhs| && i < |rhs|
        ensures Compatible(FromEnd(lhs, i), FromEnd(rhs, i))
      {
        var j := |rhs| - 1 - i;
        assert Compatible(lhs[|lhs| - |rhs| + j], rhs[j]);
      }
    }
  }

  /**
   * The outcome depends on the second argument's tag: a `[3,2,2]` view and a `[2,2]` sub-view tagged
   * `disable` are compatible in one order and not in the other; a `[2]` view tagged `disable` never is.
   */
  lemma CheckShapesExamples(p: Ptr)
    ensures CheckShapes(View(p, [3, 2, 2], [4, 2, 1], Implicit), View(p, [2, 2], [2, 1], Implicit))
    ensures !CheckShapes(View(p, [3, 2, 2], [4, 2, 1], Implicit), View(p, [2, 2], [2, 1], Disable))
    ensures CheckShapes(View(p, [2, 2], [2, 1], Disable), View(p, [3, 2, 2], [4, 2, 1], Implicit))
    ensures !CheckShapes(View(p, [3, 2, 2], [4, 2, 1], Implicit), View(p, [2], [1], Disable))
  {
    var a, b := [3, 2, 2], [2, 2];
    assert FromEnd(a, 0) == 2 && FromEnd(b, 0) == 2;
    assert FromEnd(a, 1) == 2 && FromEnd(b, 1) == 2;
  }

  // ----- Trivial layout -----

  /** Exact extent equality, scanned from the last axis, for shapes of equal rank. */
  predicate ShapesEqual(lhs: seq<nat>, rhs: seq<nat>)
    requires |lhs| == |rhs|
  {
    forall i :: 0 <= i < |lhs| ==> FromEnd(lhs, i) == FromEnd(rhs, i)
  }

  lemma ShapesEqualIsEquality(lhs: seq<nat>, rhs: seq<nat>)
    requires |lhs| == |rhs|
    ensures ShapesEqual(lhs, rhs) <==> lhs == rhs
  {
    if ShapesEqual(lhs, rhs) {
      forall j | 0 <= j < |lhs|
        ensures lhs[j] == rhs[j]
      {
        assert FromEnd(lhs, |lhs| - 1 - j) == FromEnd(rhs, |rhs| - 1 - j);
      }
    }
  }

  /** Both views are contiguous and have the same shape, so one linear scan visits both in step. */
  predicate IsTrivialLayout(lhs: View, rhs: View)
    requires lhs.Wf() && rhs.Wf() && lhs.Rank() == rhs.Rank()
  {
    Contiguous(lhs) && Contiguous(rhs) && ShapesEqual(lhs.shape, rhs.shape)
  }

  /** The trailing `t` axes of a view, as a view at the same pointer (what `at(0)` repeated yields). */
  function Tail(v: View, t: nat): (r: View)
    requires v.Wf() && t <= v.Rank()
    ensures r.Wf() && r.Rank() == t
  {
    View(v.data, v.shape[v.Rank() - t..], v.stride[v.Rank() - t..], v.policy)
  }

  /** The trailing `t` axes of the two views form a trivial layout. */
  predicate TrivialAt(lhs: View, rhs: View, t: nat)
    requires lhs.Wf() && rhs.Wf() && lhs.Rank() == rhs.Rank()
  {
    t <= lhs.Rank() && IsTrivialLayout(Tail(lhs, t), Tail(rhs, t))
  }

  lemma TailOfSub(v: View, t: nat)
    requires v.Wf() && 0 < v.Rank() && t < v.Rank()
    ensures Tail(Sub(v, 0), t) == Tail(v, t)
    ensures Tail(v, v.Rank()) == v
  {
    assert Dot(v.stride, [0]) == 0;
    var s := Sub(v, 0);
    assert s.shape[s.Rank() - t..] == v.shape[v.Rank() - t..];
    assert s.stride[s.Rank() - t..] == v.stride[v.Rank() - t..];
  }

  /** A trivial layout stays trivial on every shorter trailing block. */
  lemma TrivialAtDownward(lhs: View, rhs: View, t: nat, t': nat)
    requires lhs.Wf() && rhs.Wf() && lhs.Rank() == rhs.Rank()
    requires TrivialAt(lhs, rhs, t) && t' <= t
    ensures TrivialAt(lhs, rhs, t')
  {
    var a, b := Tail(lhs, t), Tail(rhs, t);
    ShapesEqualIsEquality(a.shape, b.shape);
    TailOfTail(lhs, t, t');
    TailOfTail(rhs, t, t');
    ShapesEqualIsEquality(Tail(lhs, t').shape, Tail(rhs, t').shape);
  }

  /** The trailing `t'` axes of a contiguous trailing block of `t` axes are contiguous. */
  lemma TailOfTail(v: View, t: nat, t': nat)
    requires v.Wf() && t' <= t <= v.Rank()
    ensures Tail(v, t').shape == Tail(v, t).shape[t - t'..]
    ensures Contiguous(Tail(v, t)) ==> Contiguous(Tail(v, t'))
  {
    var a, a' := Tail(v, t), Tail(v, t');
    assert a'.shape == a.shape[t - t'..] && a'.stride == a.stride[t - t'..];
    CanonicalSuffix(a.shape, t - t');
  }

  /** Stepping into the axis-0 sub-views keeps every shorter trailing block; the full block is the views. */
  lemma TrivialAtSub(lhs: View, rhs: View)
    requires lhs.Wf() && rhs.Wf() && lhs.Rank() == rhs.Rank() && lhs.Rank() > 0
    ensures TrivialAt(lhs, rhs, lhs.Rank()) == IsTrivialLayout(lhs, rhs)
    ensures forall t: nat :: t < lhs.Rank() ==> TrivialAt(Sub(lhs, 0), Sub(rhs, 0), t) == TrivialAt(lhs, rhs, t)
  {
    TailOfSub(lhs, 0);
    TailOfSub(rhs, 0);
    forall t: nat | t < lhs.Rank()
      ensures TrivialAt(Sub(lhs, 0), Sub(rhs, 0), t) == TrivialAt(lhs, rhs, t)
    {
      TailOfSub(lhs, t);
      TailOfSub(rhs, t);
    }
  }

  lemma TrivialAtZero(lhs: View, rhs: View)
    requires lhs.Wf() && rhs.Wf() && lhs.Rank() == rhs.Rank()
    ensures TrivialAt(lhs, rhs, 0)
  {
    assert Tail(lhs, 0).shape == [] && Tail(lhs, 0).stride == [];
    assert Tail(rhs, 0).shape == [] && Tail(rhs, 0).stride == [];
  }

  /** A trivial layout of two views is also trivial for each view paired with itself, and symmetric. */
  lemma TrivialAtSelf(lhs: View, rhs: View, t: nat)
    requires lhs.Wf() && rhs.Wf() && lhs.Rank() == rhs.Rank() && TrivialAt(lhs, rhs, t)
    ensures TrivialAt(lhs, lhs, t) && TrivialAt(rhs, rhs, t) && TrivialAt(rhs, lhs, t)
  {
    var a, b := Tail(lhs, t), Tail(rhs, t);
    ShapesEqualIsEquality(a.shape, b.shape);
    ShapesEqualIsEquality(a.shape, a.shape);
    ShapesEqualIsEquality(b.shape, b.shape);
    ShapesEqualIsEquality(b.shape, a.shape);
  }

  /**
   * Tests the full views, then the axis-0 sub-views one rank lower, and so on; returns the first
   * rank at which the layout is trivial, or 0 when no test succeeds.
   */
  function FindFirstTrivialDim(lhs: View, rhs: View): (r: nat)
    requires lhs.Wf() && rhs.Wf() && lhs.Rank() == rhs.Rank()
    ensures r <= lhs.Rank() && TrivialAt(lhs, rhs, r)
    ensures forall t :: r < t <= lhs.Rank() ==> !TrivialAt(lhs, rhs, t)
    decreases lhs.Rank()
  {
    if lhs.Rank() == 0 then
      TrivialAtZero(lhs, rhs);
      0
    else
      TrivialAtSub(lhs, rhs);
      if IsTrivialLayout(lhs, rhs) then
        lhs.Rank()
      else
        FindFirstTrivialDim(Sub(lhs, 0), Sub(rhs, 0))
  }

  /** The one-argument form pairs a view with itself. */
  function FindFirstTrivialDimOf(v: View): nat
    requires v.Wf()
  {
    FindFirstTrivialDim(v, v)
  }

  /** A contiguous view is trivial at full rank; a view paired with a non-contiguous one is not. */
  lemma FindFirstTrivialDimFull(lhs: View, rhs: View)
    requires lhs.Wf() && rhs.Wf() && lhs.Rank() == rhs.Rank()
    ensures Contiguous(lhs) && Contiguous(rhs) && lhs.shape == rhs.shape ==>
            FindFirstTrivialDim(lhs, rhs) == lhs.Rank()
    ensures FindFirstTrivialDimOf(lhs) == lhs.Rank() <==> Contiguous(lhs)
    ensures lhs.Rank() > 0 && !Contiguous(rhs) ==> FindFirstTrivialDim(lhs, rhs) < lhs.Rank()
  {
    if lhs.Rank() == 0 {
      assert lhs.stride == [] && lhs.shape == [];
    } else {
      TailOfSub(lhs, 0);
      TailOfSub(rhs, 0);
    }
    ShapesEqualIsEquality(lhs.shape, rhs.shape);
    ShapesEqualIsEquality(lhs.shape, lhs.shape);
  }
}
