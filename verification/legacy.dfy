/**
 * The older generation of the library (the `TensorView/` headers). It shares the view, the offset
 * arithmetic, `calculate_strides`, `check_shapes`, the shape and stride constructors, `at`,
 * `is_contiguous`, `permute`, `make_view` and `reshape` with the newer one; it has no default
 * constructor. What differs is modelled here:
 *   - `is_trivial_layout` also compares the ranks, and no walk consults it;
 *   - `BroadcastTensors` builds the padded shape and then constructs the result from the shape
 *     alone, so the result has canonical strides whatever the strides of the operand;
 *   - the element-wise and all-reduce walks have no linear fast path, and `apply` computes no
 *     trivial dimension: it always runs the full recursion;
 *   - `assign_` (through `ElementWiseInplaceOp`) and `operator+` (through `make_binary_op`) reach the
 *     older `BroadcastTensors`, so they read a strided right-hand side at canonical strides; the older
 *     headers have no `+=` or `*=`;
 *   - `max` folds `std::max` over every element, starting from a value-initialised 0.
 */
module Legacy {
  import opened Views
  import opened Dims
  import opened Dispatch
  import opened Walk
  import opened Reduction
  import opened Operations
  import opened TensorViews

  // ----- Trivial layout -----

  /**
   * The evident meaning of the older `is_trivial_layout`: equal ranks, both contiguous, equal shapes.
   * As written the template does not compile (a non-const `is_contiguous` through `const&`, and a
   * `std::array` built from a pointer), and nothing instantiates it.
   */
  predicate LegacyTrivialLayout(lhs: View, rhs: View)
    requires lhs.Wf() && rhs.Wf()
  {
    lhs.Rank() == rhs.Rank() && Contiguous(lhs) && Contiguous(rhs) && lhs.shape == rhs.shape
  }

  /**
   * The two generations agree on views of equal rank; the older one is false across ranks. On a
   * trivial layout both views hold the element at `c` at row-major position `c` from their bases,
   * so one linear scan visits them in step.
   */
  lemma LegacyTrivialLayoutMeaning(lhs: View, rhs: View)
    requires lhs.Live() && rhs.Live()
    ensures LegacyTrivialLayout(lhs, rhs) <==> lhs.Rank() == rhs.Rank() && IsTrivialLayout(lhs, rhs)
    ensures LegacyTrivialLayout(lhs, rhs) ==>
              forall c :: InBounds(c, lhs.shape) ==>
                ElementOffset(lhs, c) == lhs.Base() + RowIndex(c, lhs.shape) &&
                ElementOffset(rhs, c) == rhs.Base() + RowIndex(c, lhs.shape)
  {
    if lhs.Rank() == rhs.Rank() {
      ShapesEqualIsEquality(lhs.shape, rhs.shape);
    }
    if LegacyTrivialLayout(lhs, rhs) {
      ContiguousInjective(lhs);
      ContiguousInjective(rhs);
    }
  }

  // ----- Broadcasting -----

  /** The view over the same data and shape with canonical strides. */
  function Canonicalized(v: View): (r: View)
    ensures r.Wf() && Contiguous(r) && r.data == v.data && r.shape == v.shape && r.policy == v.policy
  {
    View(v.data, v.shape, Canonical(v.shape), v.policy)
  }

  /**
   * The older `BroadcastTensors<L, R>::impl(first, second)`: the padded shape of `second`, but the
   * strides are recomputed from that shape, not copied from `second`.
   */
  method LegacyBroadcastTensors(first: View, second: View) returns (r: View)
    requires first.Wf() && second.Wf()
    ensures r.data == second.data && r.policy == Explicit && Contiguous(r)
    ensures r.shape == Padded(second, Max(first.Rank(), second.Rank())).shape
  {
    var padded := BroadcastTensors(first, second);
    r := FromShape(second.data, padded.shape, Explicit);
  }

  /** On the leading extent-1 axes the broadcast coordinate is 0. */
  lemma {:induction false} ClampOnes(c: seq<nat>, shape: seq<nat>, k: nat)
    requires |c| == |shape| && k <= |c| && forall j :: 0 <= j < k ==> shape[j] == 1
    ensures forall j :: 0 <= j < k ==> Clamp(c, shape)[j] == 0
    decreases k
  {
    if k > 0 {
      ClampOnes(c[1..], shape[1..], k - 1);
      forall j | 1 <= j < k
        ensures Clamp(c, shape)[j] == Clamp(c[1..], shape[1..])[j - 1]
      {
      }
    }
  }

  /**
   * For a contiguous `second` the recomputed strides are its own, so the older broadcast reads every
   * coordinate at the element of `second` at the trailing part of it, as intended.
   */
  lemma LegacyBroadcastContiguous(second: View, n: nat, c: seq<nat>)
    requires second.Live() && Contiguous(second) && second.Rank() <= n && |c| == n
    ensures var b := Canonicalized(Padded(second, n));
            ElementOffset(b, Clamp(c, b.shape)) == ElementOffset(second, Clamp(c[n - second.Rank()..], second.shape))
  {
    var k := n - second.Rank();
    var b := Canonicalized(Padded(second, n));
    assert b.shape == Fill(k, 1) + second.shape && b.stride == Canonical(b.shape);
    DotCanonicalPadded(second.shape, k, c);
  }

  /** Recomputed strides of a shape padded with `k` leading 1s read the trailing part of the coordinate. */
  lemma DotCanonicalPadded(shape: seq<nat>, k: nat, c: seq<nat>)
    requires |c| == k + |shape|
    ensures var s := Fill(k, 1) + shape;
            Dot(Canonical(s), Clamp(c, s)) == Dot(Canonical(shape), Clamp(c[k..], shape))
  {
    var s := Fill(k, 1) + shape;
    var x := Clamp(c, s);
    PaddedClampZero(shape, k, c);
    DotSkip(Canonical(s), x, k);
    assert s[k..] == shape;
    CanonicalSuffix(s, k);
    ClampSuffix(c, s, k);
  }

  /** The broadcast coordinate is 0 on the padded axes. */
  lemma PaddedClampZero(shape: seq<nat>, k: nat, c: seq<nat>)
    requires |c| == k + |shape|
    ensures var s := Fill(k, 1) + shape;
            Dot(Canonical(s), Clamp(c, s)[..k]) == 0
  {
    var s := Fill(k, 1) + shape;
    ClampOnes(c, s, k);
    DotZeros(Canonical(s), Clamp(c, s)[..k]);
  }

  /** Leading terms that sum to 0 can be skipped. */
  lemma DotSkip(stride: seq<nat>, x: seq<nat>, k: nat)
    requires k <= |x| <= |stride| && Dot(stride, x[..k]) == 0
    ensures Dot(stride, x) == Dot(stride[k..], x[k..])
  {
    var a, b := x[..k], x[k..];
    assert |a| == k && a + b == x;
    DotAppend(stride, a, b);
  }

  /**
   * The older broadcast as written on a permuted operand: the view of shape [2, 2, 3] and strides
   * [2, 1, 4] (a [3, 2, 2] block permuted by (1, 2, 0)) is read at coordinate (0, 0, 1) from offset 1,
   * whereas its element there lies at offset 4.
   */
  lemma LegacyBroadcastPermuted(first: View, second: View)
    requires first == View(Addr(12), [2, 2, 3], [6, 3, 1], Implicit)
    requires second == View(Addr(0), [2, 2, 3], [2, 1, 4], Implicit)
    ensures CheckShapes(first, second) && !Contiguous(second)
    ensures var b := Canonicalized(Padded(second, 3));
            ElementOffset(b, Clamp([0, 0, 1], b.shape)) == 1 &&
            ElementOffset(second, Clamp([0, 0, 1], second.shape)) == 4
  {
    PermutedShapesMatch(first, second);
    var b := Canonicalized(Padded(second, 3));
    assert Padded(second, 3).shape == [2, 2, 3];
    CanonicalBlock(b);
    ClampBlock();
    assert [0, 0, 1][1..] == [0, 1] && [0, 1][1..] == [1];
    assert [2, 1, 4][1..] == [1, 4] && [1, 4][1..] == [4];
    assert [6, 3, 1][1..] == [3, 1] && [3, 1][1..] == [1];
  }

  /** Both operands have shape [2, 2, 3]; the permuted one does not have canonical strides. */
  lemma PermutedShapesMatch(first: View, second: View)
    requires first.shape == [2, 2, 3] && second.shape == [2, 2, 3] && second.stride == [2, 1, 4]
    requires first.Wf() && second.Wf() && first.policy == Implicit
    ensures CheckShapes(first, second) && !Contiguous(second)
  {
    assert [2, 2, 3][1..] == [2, 3] && [2, 3][1..] == [3] && [3][1..] == [];
    assert Canonical([2, 2, 3])[0] == 6;
    assert CheckImplicit(first.shape, second.shape) by {
      forall i | 0 <= i < 3
        ensures Compatible(FromEnd(first.shape, i), FromEnd(second.shape, i))
      {
      }
    }
  }

  /** The canonical strides of shape [2, 2, 3] are [6, 3, 1]. */
  lemma CanonicalBlock(b: View)
    requires b.shape == [2, 2, 3] && b.stride == Canonical(b.shape)
    ensures b.stride == [6, 3, 1]
  {
    assert [2, 2, 3][1..] == [2, 3] && [2, 3][1..] == [3] && [3][1..] == [];
    assert Canonical([2, 2, 3]) == [6, 3, 1];
  }

  /** No axis of [2, 2, 3] has extent 1, so clamping leaves (0, 0, 1) as it is. */
  lemma ClampBlock()
    ensures Clamp([0, 0, 1], [2, 2, 3]) == [0, 0, 1]
  {
    assert [2, 2, 3][1..] == [2, 3] && [2, 3][1..] == [3] && [3][1..] == [];
    assert [0, 0, 1][1..] == [0, 1] && [0, 1][1..] == [1] && [1][1..] == [];
  }

  // ----- In-place operation -----

  /**
   * The older `ElementWiseInplaceOp::impl(f, first, second)`: the shape assertion, the older broadcast
   * of `second`, then the walk, which always takes the full recursion.
   */
  method LegacyElementWiseInplaceOp<T>(f: (T, T) -> T, first: View, second: View, mem: array<T>) returns (o: Outcome)
    requires first.Wf() && second.Wf() && second.Rank() <= first.Rank() && first.Rank() >= 1
    requires CheckShapes(first, second) ==>
               first.Live() && second.Live() &&
               StepsFit(Steps(first, Canonicalized(Padded(second, first.Rank())), first, 0), mem.Length)
    modifies mem
    ensures o.Fail? <==> !CheckShapes(first, second)
    ensures o.Fail? ==> o.error == ShapeMismatch && mem[..] == old(mem[..])
    ensures o.Pass? ==> mem[..] == Run(old(mem[..]), f, Steps(first, Canonicalized(Padded(second, first.Rank())), first, 0))
  {
    if !CheckShapes(first, second) {
      return Fail(ShapeMismatch);
    }
    var broadcasted := LegacyBroadcastTensors(first, second);
    assert Max(first.Rank(), second.Rank()) == first.Rank();
    assert broadcasted == Canonicalized(Padded(second, first.Rank()));
    ElementWiseOpImpl(f, first, broadcasted, first, 0, mem);
    o := Pass;
  }

  /**
   * With a contiguous `second` the older in-place operation performs exactly the steps of the newer
   * one; the two generations differ only on strided operands.
   */
  lemma LegacyInplaceAgrees(first: View, second: View)
    requires first.Live() && second.Live() && second.Rank() <= first.Rank() && Contiguous(second)
    ensures Steps(first, Canonicalized(Padded(second, first.Rank())), first, 0) ==
            Steps(first, Padded(second, first.Rank()), first, 0)
  {
    var n := first.Rank();
    var b, p := Canonicalized(Padded(second, n)), Padded(second, n);
    var x, y := Steps(first, b, first, 0), Steps(first, p, first, 0);
    StepsLength(first, b, first);
    StepsLength(first, p, first);
    forall k | 0 <= k < |x|
      ensures x[k] == y[k]
    {
      var c := Unrank(k, first.shape);
      StepsAt(first, b, first, c);
      StepsAt(first, p, first, c);
      LegacyBroadcastContiguous(second, n, c);
      PaddedRead(second, n, c);
    }
  }

  // ----- Deferred binary operation -----

  /**
   * The older `make_binary_op(f, first, second)`: the operands come out swapped, as in the newer
   * factory, and each is broadcast by the older broadcast.
   */
  method LegacyMakeBinaryOp<T>(f: (T, T) -> T, first: View, second: View) returns (r: Result<ElementWiseOperation<T>>)
    requires first.Wf() && second.Wf()
    ensures r.Err? <==> !CheckShapes(first, second)
    ensures r.Err? ==> r.error == ShapeMismatch
    ensures r.Ok? ==> var n := Max(first.Rank(), second.Rank());
                      r.value == ElementWiseOperation(Canonicalized(Padded(second, n)), Canonicalized(Padded(first, n)), f)
  {
    if !CheckShapes(first, second) {
      return Err(ShapeMismatch);
    }
    var firstBroadcasted := LegacyBroadcastTensors(first, second);
    var secondBroadcasted := LegacyBroadcastTensors(second, first);
    assert Max(second.Rank(), first.Rank()) == Max(first.Rank(), second.Rank());
    r := Ok(ElementWiseOperation(firstBroadcasted, secondBroadcasted, f));
  }

  // ----- Reduction -----

  /**
   * The older `AllReduceImpl<N>::impl(f, view, t)`: every element, in row-major order, is folded into
   * the accumulator with `t = f(t, element)`.
   */
  method LegacyAllReduce<T, R>(f: (R, T) -> R, v: View, acc: R, mem: array<T>) returns (r: R)
    requires v.Live() && v.Rank() >= 1 && Within(Offsets(v), mem.Length)
    ensures r == FoldLeft(f, acc, Values(mem[..], v))
  {
    TrivialAtZero(v, v);
    ReduceFoldsAll(mem[..], f, acc, v, 0);
    r := AllReduceAccumulating(f, v, acc, 0, mem);
  }

  /**
   * The older `max()`: the fold of `std::max` from a value-initialised 0. The result is at least 0
   * and every element, and is 0 or an element; on data that is all negative it is 0.
   */
  method LegacyMax(v: View, mem: array<int>) returns (r: int)
    requires v.Live() && v.Rank() >= 1 && Within(Offsets(v), mem.Length)
    ensures r == FoldLeft(MaxOf, 0, Values(mem[..], v))
    ensures r >= 0 && forall i :: 0 <= i < |Values(mem[..], v)| ==> r >= Values(mem[..], v)[i]
    ensures r == 0 || r in Values(mem[..], v)
  {
    r := LegacyAllReduce(MaxOf, v, 0, mem);
    FoldMaxBounds(0, Values(mem[..], v));
  }
}
