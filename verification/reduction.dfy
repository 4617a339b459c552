/**
 * Whole-view reduction. The recursive all-reduce walk either folds single elements into the
 * accumulator or, once the depth equals the trivial dimension, replaces the accumulator with
 * `std::accumulate` over one linear block started from the initial value.
 */
module Reduction {
  import opened Views
  import opened Dims
  import opened Dispatch
  import opened Walk

  // ----- Row-major element offsets -----

  /** The offsets of a view's elements, in row-major order. */
  function Offsets(v: View): seq<nat>
    requires v.Wf()
    decreases v.Rank(), 1, 0
  {
    if v.Rank() == 0 then [v.Base()] else OffsetRows(v, v.shape[0])
  }

  function OffsetRows(v: View, k: nat): seq<nat>
    requires v.Wf() && v.Rank() > 0
    decreases v.Rank(), 0, k
  {
    if k == 0 then [] else OffsetRows(v, k - 1) + Offsets(Sub(v, k - 1))
  }

  /** The destinations of a list of steps. */
  function Dsts(steps: seq<Step>): seq<nat> {
    seq(|steps|, k requires 0 <= k < |steps| => steps[k].dst)
  }

  /** `Range(s, n)` is `s, s+1, .., s+n-1`. */
  function Range(s: nat, n: nat): seq<nat> {
    seq(n, k requires 0 <= k < n => s + k)
  }

  /** The element-wise walk writes the destination's elements in row-major order. */
  lemma {:induction false} OffsetsAreDsts(a: View, b: View, d: View)
    requires Shaped(a, b, d)
    ensures Offsets(d) == Dsts(Steps(a, b, d, 0))
    decreases d.Rank(), 1
  {
    if d.Rank() > 0 {
      OffsetRowsAreDsts(a, b, d, d.shape[0]);
    }
  }

  lemma {:induction false} OffsetRowsAreDsts(a: View, b: View, d: View, k: nat)
    requires Shaped(a, b, d) && d.Rank() > 0
    ensures OffsetRows(d, k) == Dsts(Rows(a, b, d, 0, k))
    decreases d.Rank(), 0, k
  {
    if k > 0 {
      OffsetRowsAreDsts(a, b, d, k - 1);
      OffsetsAreDsts(Sub(a, Pick(a, k - 1)), Sub(b, Pick(b, k - 1)), Sub(d, k - 1));
      assert Dsts(Rows(a, b, d, 0, k - 1) + Row(a, b, d, 0, k - 1)) ==
             Dsts(Rows(a, b, d, 0, k - 1)) + Dsts(Row(a, b, d, 0, k - 1));
    }
  }

  /** Position `RowIndex(c)` of the row-major offsets is the element at `c`; every element appears once. */
  lemma OffsetsAt(v: View, c: seq<nat>)
    requires v.Live() && InBounds(c, v.shape)
    ensures |Offsets(v)| == NumElements(v) && RowIndex(c, v.shape) < NumElements(v)
    ensures Offsets(v)[RowIndex(c, v.shape)] == ElementOffset(v, c)
  {
    OffsetsAreDsts(v, v, v);
    StepsAt(v, v, v, c);
  }

  /** A contiguous view's elements are the consecutive offsets from its base. */
  lemma OffsetsContiguous(v: View)
    requires v.Live() && Contiguous(v)
    ensures Offsets(v) == Range(v.Base(), NumElements(v))
  {
    OffsetsAreDsts(v, v, v);
    LinearIsRecursive(v, v, v);
  }

  // ----- Folds -----

  /** `std::accumulate`: a left fold. */
  function FoldLeft<T, R>(f: (R, T) -> R, acc: R, xs: seq<T>): R
    decreases |xs|
  {
    if xs == [] then acc else FoldLeft(f, f(acc, xs[0]), xs[1..])
  }

  lemma {:induction false} FoldLeftConcat<T, R>(f: (R, T) -> R, acc: R, xs: seq<T>, ys: seq<T>)
    ensures FoldLeft(f, acc, xs + ys) == FoldLeft(f, FoldLeft(f, acc, xs), ys)
    decreases |xs|
  {
    if xs != [] {
      assert (xs + ys)[0] == xs[0] && (xs + ys)[1..] == xs[1..] + ys;
      FoldLeftConcat(f, f(acc, xs[0]), xs[1..], ys);
    } else {
      assert xs + ys == ys;
    }
  }

  /** Every offset lies inside a memory of `n` elements. */
  predicate Within(offsets: seq<nat>, n: nat) {
    forall k :: 0 <= k < |offsets| ==> offsets[k] < n
  }

  /** The memory values at the given offsets. */
  function Gather<T>(m: seq<T>, offsets: seq<nat>): (r: seq<T>)
    requires Within(offsets, |m|)
    ensures |r| == |offsets|
  {
    seq(|offsets|, k requires 0 <= k < |offsets| => m[offsets[k]])
  }

  /** The view's elements in row-major order. */
  function Values<T>(m: seq<T>, v: View): (r: seq<T>)
    requires v.Wf() && Within(Offsets(v), |m|)
  {
    Gather(m, Offsets(v))
  }

  // ----- The all-reduce walk -----

  /** One action of the all-reduce walk. */
  datatype ReduceOp =
    | Acc(offset: nat)               // `t = f(t, view.at(i))`
    | Block(start: nat, count: nat)  // `t = std::accumulate(data, data + count, initial_value, f)`

  /** The actions of the all-reduce walk with trivial dimension `t`, in order. */
  function Plan(v: View, t: nat): seq<ReduceOp>
    requires v.Wf()
    decreases v.Rank(), 1, 0
  {
    if v.Rank() == 0 then [Acc(v.Base())]
    else if v.Rank() == t then [Block(v.Base(), NumElements(v))]
    else PlanRows(v, t, v.shape[0])
  }

  function PlanRows(v: View, t: nat, k: nat): seq<ReduceOp>
    requires v.Wf() && v.Rank() > 0
    decreases v.Rank(), 0, k
  {
    if k == 0 then [] else PlanRows(v, t, k - 1) + Plan(Sub(v, k - 1), t)
  }

  /** The offsets one action reads. */
  function Head(op: ReduceOp): seq<nat> {
    match op
    case Acc(o) => [o]
    case Block(s, n) => Range(s, n)
  }

  /** The offsets the actions read, in order. */
  function Expand(ops: seq<ReduceOp>): seq<nat>
    decreases |ops|
  {
    if ops == [] then [] else Head(ops[0]) + Expand(ops[1..])
  }

  lemma {:induction false} ExpandConcat(xs: seq<ReduceOp>, ys: seq<ReduceOp>)
    ensures Expand(xs + ys) == Expand(xs) + Expand(ys)
    decreases |xs|
  {
    if xs == [] {
      assert xs + ys == ys;
    } else {
      assert (xs + ys)[0] == xs[0] && (xs + ys)[1..] == xs[1..] + ys;
      ExpandConcat(xs[1..], ys);
    }
  }

  /** Whatever the trivial dimension, the walk reads exactly the view's elements in row-major order. */
  lemma {:induction false} ExpandPlan(v: View, t: nat)
    requires v.Live() && TrivialAt(v, v, t)
    ensures Expand(Plan(v, t)) == Offsets(v)
    decreases v.Rank(), 1
  {
    if v.Rank() == 0 {
    } else if v.Rank() == t {
      TailOfSub(v, 0);
      OffsetsContiguous(v);
      assert Expand(Plan(v, t)) == Range(v.Base(), NumElements(v)) + Expand([]);
    } else {
      ExpandPlanRows(v, t, v.shape[0]);
    }
  }

  lemma {:induction false} ExpandPlanRows(v: View, t: nat, k: nat)
    requires v.Live() && TrivialAt(v, v, t) && t < v.Rank()
    ensures Expand(PlanRows(v, t, k)) == OffsetRows(v, k)
    decreases v.Rank(), 0, k
  {
    if k > 0 {
      var u := Sub(v, k - 1);
      ExpandPlanRows(v, t, k - 1);
      ExpandConcat(PlanRows(v, t, k - 1), Plan(u, t));
      assert Expand(Plan(u, t)) == Offsets(u) by {
        TrivialAtSubAny(v, v, k - 1, k - 1, t);
        SubBase(v, k - 1);
        ExpandPlan(u, t);
      }
    }
  }

  /** Every address the actions read lies inside a memory of `n` elements. */
  predicate OpsFit(ops: seq<ReduceOp>, n: nat) {
    Within(Expand(ops), n)
  }

  lemma OpsFitSplit(ops: seq<ReduceOp>, n: nat)
    requires |ops| > 0 && OpsFit(ops, n)
    ensures OpsFit(ops[1..], n) && Within(Head(ops[0]), n)
  {
    var head := Head(ops[0]);
    assert Expand(ops) == head + Expand(ops[1..]);
    forall k | 0 <= k < |Expand(ops[1..])|
      ensures Expand(ops[1..])[k] < n
    {
      assert Expand(ops)[|head| + k] == Expand(ops[1..])[k];
    }
    forall k | 0 <= k < |head|
      ensures head[k] < n
    {
      assert Expand(ops)[k] == head[k];
    }
  }

  /**
   * The accumulator after the actions, as the source computes it: a block REPLACES the accumulator
   * with the fold of the block from `init`.
   */
  function Exec<T, R>(m: seq<T>, f: (R, T) -> R, init: R, acc: R, ops: seq<ReduceOp>): R
    requires OpsFit(ops, |m|)
    decreases |ops|
  {
    if ops == [] then acc
    else
      OpsFitSplit(ops, |m|);
      var acc' := match ops[0]
        case Acc(o) => f(acc, m[o])
        case Block(_, _) => FoldLeft(f, init, Gather(m, Head(ops[0])));
      Exec(m, f, init, acc', ops[1..])
  }

  /** The accumulator after the actions when a block continues from the running accumulator. */
  function ExecAccumulating<T, R>(m: seq<T>, f: (R, T) -> R, acc: R, ops: seq<ReduceOp>): R
    requires OpsFit(ops, |m|)
    decreases |ops|
  {
    if ops == [] then acc
    else
      OpsFitSplit(ops, |m|);
      ExecAccumulating(m, f, FoldLeft(f, acc, Gather(m, Head(ops[0]))), ops[1..])
  }

  /** Continuing from the accumulator folds every address the actions read, in order. */
  lemma {:induction false} ExecAccumulatingFolds<T, R>(m: seq<T>, f: (R, T) -> R, acc: R, ops: seq<ReduceOp>)
    requires OpsFit(ops, |m|)
    ensures ExecAccumulating(m, f, acc, ops) == FoldLeft(f, acc, Gather(m, Expand(ops)))
    decreases |ops|
  {
    if ops != [] {
      OpsFitSplit(ops, |m|);
      var head, rest := Head(ops[0]), Expand(ops[1..]);
      assert Expand(ops) == head + rest;
      assert Gather(m, head + rest) == Gather(m, head) + Gather(m, rest);
      FoldLeftConcat(f, acc, Gather(m, head), Gather(m, rest));
      ExecAccumulatingFolds(m, f, FoldLeft(f, acc, Gather(m, head)), ops[1..]);
    }
  }

  /**
   * With the block continuing from the accumulator, the walk folds every element of the view in
   * row-major order, for every trivial dimension that agrees with the layout.
   */
  lemma ReduceFoldsAll<T, R>(m: seq<T>, f: (R, T) -> R, init: R, v: View, t: nat)
    requires v.Live() && TrivialAt(v, v, t) && Within(Offsets(v), |m|)
    ensures OpsFit(Plan(v, t), |m|)
    ensures ExecAccumulating(m, f, init, Plan(v, t)) == FoldLeft(f, init, Values(m, v))
  {
    ExpandPlan(v, t);
    ExecAccumulatingFolds(m, f, init, Plan(v, t));
  }

  /** Trivial dimension 0: the walk never takes the fast path. */
  lemma {:induction false} PlanZeroNoBlock(v: View)
    requires v.Wf()
    ensures forall k :: 0 <= k < |Plan(v, 0)| ==> Plan(v, 0)[k].Acc?
    decreases v.Rank(), 1
  {
    if v.Rank() > 0 {
      PlanRowsZeroNoBlock(v, v.shape[0]);
    }
  }

  lemma {:induction false} PlanRowsZeroNoBlock(v: View, k: nat)
    requires v.Wf() && v.Rank() > 0
    ensures forall j :: 0 <= j < |PlanRows(v, 0, k)| ==> PlanRows(v, 0, k)[j].Acc?
    decreases v.Rank(), 0, k
  {
    if k > 0 {
      PlanRowsZeroNoBlock(v, k - 1);
      PlanZeroNoBlock(Sub(v, k - 1));
    }
  }

  lemma {:induction false} ExecNoBlock<T, R>(m: seq<T>, f: (R, T) -> R, init: R, acc: R, ops: seq<ReduceOp>)
    requires OpsFit(ops, |m|) && forall k :: 0 <= k < |ops| ==> ops[k].Acc?
    ensures Exec(m, f, init, acc, ops) == ExecAccumulating(m, f, acc, ops)
    decreases |ops|
  {
    if ops != [] {
      OpsFitSplit(ops, |m|);
      var x := m[ops[0].offset];
      assert Gather(m, Head(ops[0])) == [x];
      assert FoldLeft(f, acc, [x]) == FoldLeft(f, f(acc, x), []);
      ExecNoBlock(m, f, init, f(acc, m[ops[0].offset]), ops[1..]);
    }
  }

  /**
   * The source's walk is exact when the trivial dimension is 0 or the full rank: it then folds every
   * element of the view in row-major order from the initial value.
   */
  lemma ReduceExact<T, R>(m: seq<T>, f: (R, T) -> R, init: R, v: View, t: nat)
    requires v.Live() && TrivialAt(v, v, t) && Within(Offsets(v), |m|)
    requires t == 0 || t == v.Rank()
    ensures OpsFit(Plan(v, t), |m|)
    ensures Exec(m, f, init, init, Plan(v, t)) == FoldLeft(f, init, Values(m, v))
  {
    ReduceFoldsAll(m, f, init, v, t);
    if t == 0 {
      PlanZeroNoBlock(v);
      ExecNoBlock(m, f, init, init, Plan(v, t));
    } else if v.Rank() > 0 {
      var ops := Plan(v, t);
      assert ops == [Block(v.Base(), NumElements(v))];
      OpsFitSplit(ops, |m|);
    }
  }

  /** Below the top level, every action of the walk is a block. */
  lemma {:induction false} PlanPartialBlocks(v: View, t: nat)
    requires v.Wf() && 0 < t <= v.Rank()
    ensures forall k :: 0 <= k < |Plan(v, t)| ==> Plan(v, t)[k].Block?
    decreases v.Rank(), 1
  {
    if v.Rank() > t {
      PlanRowsPartialBlocks(v, t, v.shape[0]);
    }
  }

  lemma {:induction false} PlanRowsPartialBlocks(v: View, t: nat, k: nat)
    requires v.Wf() && 0 < t < v.Rank()
    ensures forall j :: 0 <= j < |PlanRows(v, t, k)| ==> PlanRows(v, t, k)[j].Block?
    decreases v.Rank(), 0, k
  {
    if k > 0 {
      PlanRowsPartialBlocks(v, t, k - 1);
      PlanPartialBlocks(Sub(v, k - 1), t);
    }
  }

  /** A run of blocks leaves only the fold of the last block, from the initial value. */
  lemma {:induction false} ExecBlocksKeepLast<T, R>(m: seq<T>, f: (R, T) -> R, init: R, acc: R, ops: seq<ReduceOp>)
    requires OpsFit(ops, |m|) && |ops| > 0 && forall k :: 0 <= k < |ops| ==> ops[k].Block?
    ensures Within(Head(ops[|ops| - 1]), |m|)
    ensures Exec(m, f, init, acc, ops) == FoldLeft(f, init, Gather(m, Head(ops[|ops| - 1])))
    decreases |ops|
  {
    OpsFitSplit(ops, |m|);
    if |ops| > 1 {
      ExecBlocksKeepLast(m, f, init, FoldLeft(f, init, Gather(m, Head(ops[0]))), ops[1..]);
    }
  }

  /**
   * The source's walk with a trivial dimension strictly between 0 and the rank returns the fold of
   * the LAST linear block only: every earlier block is overwritten.
   */
  lemma ReducePartialKeepsLastBlock<T, R>(m: seq<T>, f: (R, T) -> R, init: R, v: View, t: nat)
    requires v.Wf() && 0 < t < v.Rank() && OpsFit(Plan(v, t), |m|) && |Plan(v, t)| > 0
    ensures Plan(v, t)[|Plan(v, t)| - 1].Block?
    ensures Within(Head(Plan(v, t)[|Plan(v, t)| - 1]), |m|)
    ensures Exec(m, f, init, init, Plan(v, t)) == FoldLeft(f, init, Gather(m, Head(Plan(v, t)[|Plan(v, t)| - 1])))
  {
    PlanPartialBlocks(v, t);
    ExecBlocksKeepLast(m, f, init, init, Plan(v, t));
  }

  // ----- Running the actions piecewise -----

  lemma OpsFitConcat(xs: seq<ReduceOp>, ys: seq<ReduceOp>, n: nat)
    ensures OpsFit(xs + ys, n) <==> OpsFit(xs, n) && OpsFit(ys, n)
  {
    ExpandConcat(xs, ys);
    var a, b := Expand(xs), Expand(ys);
    assert forall k :: 0 <= k < |a| ==> (a + b)[k] == a[k];
    assert forall k :: 0 <= k < |b| ==> (a + b)[|a| + k] == b[k];
  }

  /** The prefix of the first `k + 1` rows of a plan that fits also fits. */
  lemma {:induction false} PlanRowsFit(v: View, t: nat, k: nat, n: nat, m: nat)
    requires v.Wf() && v.Rank() > 0 && k < n && OpsFit(PlanRows(v, t, n), m)
    ensures OpsFit(PlanRows(v, t, k + 1), m)
    decreases n
  {
    assert PlanRows(v, t, n) == PlanRows(v, t, n - 1) + Plan(Sub(v, n - 1), t);
    OpsFitConcat(PlanRows(v, t, n - 1), Plan(Sub(v, n - 1), t), m);
    if k + 1 < n {
      PlanRowsFit(v, t, k, n - 1, m);
    }
  }

  /** Executing the first `i + 1` rows is executing the first `i` and then the plan of row `i`. */
  lemma PlanRowsNext<T, R>(m: seq<T>, f: (R, T) -> R, init: R, acc: R, v: View, t: nat, i: nat)
    requires v.Wf() && v.Rank() > 0 && i < v.shape[0] && OpsFit(PlanRows(v, t, v.shape[0]), |m|)
    ensures OpsFit(PlanRows(v, t, i + 1), |m|)
    ensures OpsFit(PlanRows(v, t, i), |m|) && OpsFit(Plan(Sub(v, i), t), |m|)
    ensures Exec(m, f, init, acc, PlanRows(v, t, i + 1)) ==
            Exec(m, f, init, Exec(m, f, init, acc, PlanRows(v, t, i)), Plan(Sub(v, i), t))
    ensures ExecAccumulating(m, f, acc, PlanRows(v, t, i + 1)) ==
            ExecAccumulating(m, f, ExecAccumulating(m, f, acc, PlanRows(v, t, i)), Plan(Sub(v, i), t))
  {
    PlanRowsFit(v, t, i, v.shape[0], |m|);
    ExecConcat(m, f, init, acc, PlanRows(v, t, i), Plan(Sub(v, i), t));
    ExecAccumulatingConcat(m, f, acc, PlanRows(v, t, i), Plan(Sub(v, i), t));
  }

  lemma {:induction false} ExecConcat<T, R>(m: seq<T>, f: (R, T) -> R, init: R, acc: R, xs: seq<ReduceOp>, ys: seq<ReduceOp>)
    requires OpsFit(xs + ys, |m|)
    ensures OpsFit(xs, |m|) && OpsFit(ys, |m|)
    ensures Exec(m, f, init, acc, xs + ys) == Exec(m, f, init, Exec(m, f, init, acc, xs), ys)
    decreases |xs|
  {
    OpsFitConcat(xs, ys, |m|);
    if xs == [] {
      assert xs + ys == ys;
    } else {
      assert (xs + ys)[0] == xs[0] && (xs + ys)[1..] == xs[1..] + ys;
      OpsFitSplit(xs, |m|);
      OpsFitSplit(xs + ys, |m|);
      var acc' := match xs[0]
        case Acc(o) => f(acc, m[o])
        case Block(_, _) => FoldLeft(f, init, Gather(m, Head(xs[0])));
      ExecConcat(m, f, init, acc', xs[1..], ys);
    }
  }

  lemma {:induction false} ExecAccumulatingConcat<T, R>(m: seq<T>, f: (R, T) -> R, acc: R, xs: seq<ReduceOp>, ys: seq<ReduceOp>)
    requires OpsFit(xs + ys, |m|)
    ensures OpsFit(xs, |m|) && OpsFit(ys, |m|)
    ensures ExecAccumulating(m, f, acc, xs + ys) == ExecAccumulating(m, f, ExecAccumulating(m, f, acc, xs), ys)
    decreases |xs|
  {
    OpsFitConcat(xs, ys, |m|);
    if xs == [] {
      assert xs + ys == ys;
    } else {
      assert (xs + ys)[0] == xs[0] && (xs + ys)[1..] == xs[1..] + ys;
      OpsFitSplit(xs, |m|);
      OpsFitSplit(xs + ys, |m|);
      ExecAccumulatingConcat(m, f, FoldLeft(f, acc, Gather(m, Head(xs[0]))), xs[1..], ys);
    }
  }

  /** A plan of one action: a block fold, or one accumulation. */
  lemma ExecSingle<T, R>(m: seq<T>, f: (R, T) -> R, init: R, acc: R, v: View, t: nat)
    requires v.Wf() && (v.Rank() == t || v.Rank() == 0) && OpsFit(Plan(v, t), |m|)
    ensures 0 < v.Rank() == t ==> Within(Range(v.Base(), NumElements(v)), |m|)
    ensures 0 < v.Rank() == t ==>
              Exec(m, f, init, acc, Plan(v, t)) == FoldLeft(f, init, Gather(m, Range(v.Base(), NumElements(v)))) &&
              ExecAccumulating(m, f, acc, Plan(v, t)) == FoldLeft(f, acc, Gather(m, Range(v.Base(), NumElements(v))))
    ensures v.Rank() == 0 ==> v.Base() < |m|
    ensures v.Rank() == 0 ==>
              Exec(m, f, init, acc, Plan(v, t)) == f(acc, m[v.Base()]) &&
              ExecAccumulating(m, f, acc, Plan(v, t)) == f(acc, m[v.Base()])
  {
    var ops := Plan(v, t);
    if v.Rank() == 0 {
      assert ops == [Acc(v.Base())];
      OpsFitSplit(ops, |m|);
      assert ops[1..] == [];
      var b := v.Base();
      assert Head(ops[0]) == [b] && [b][0] == b;
      assert b < |m|;
      assert Gather(m, [b]) == [m[b]];
      assert FoldLeft(f, acc, [m[b]]) == f(acc, m[b]);
    } else {
      assert ops == [Block(v.Base(), NumElements(v))];
      OpsFitSplit(ops, |m|);
      assert ops[1..] == [];
    }
  }

  // ----- The overwrite, on a concrete view -----

  /** Shape [2, 1] with strides [2, 1] at offset 0: two elements at offsets 0 and 2. */
  predicate Gapped(v: View) {
    v.data == Addr(0) && v.shape == [2, 1] && v.stride == [2, 1]
  }

  lemma GappedLayout(v: View)
    requires Gapped(v)
    ensures Sub(v, 0).data == Addr(0) && Sub(v, 0).shape == [1] && Sub(v, 0).stride == [1]
    ensures Sub(v, 1).data == Addr(2) && Sub(v, 1).shape == [1] && Sub(v, 1).stride == [1]
    ensures Contiguous(Sub(v, 0)) && Contiguous(Sub(v, 1))
    ensures FindFirstTrivialDimOf(v) == 1
  {
    assert Dot(v.stride, [0]) == 0 && Dot(v.stride, [1]) == 2;
    assert Canonical([2, 1]) == [1, 1];
    assert Canonical([1]) == [1];
    assert Tail(v, 1).shape == [1] && Tail(v, 1).stride == [1] && Tail(v, 2) == v;
    ShapesEqualIsEquality([1], [1]);
    assert TrivialAt(v, v, 1) && !TrivialAt(v, v, 2);
  }

  lemma GappedPlan(v: View)
    requires Gapped(v)
    ensures Offsets(v) == [0, 2]
    ensures Plan(v, 1) == [Block(0, 1), Block(2, 1)]
  {
    GappedLayout(v);
    var v0, v1 := Sub(v, 0), Sub(v, 1);
    OffsetsContiguous(v0);
    OffsetsContiguous(v1);
    assert Range(0, 1) == [0] && Range(2, 1) == [2];
    assert OffsetRows(v, 2) == OffsetRows(v, 1) + Offsets(v1);
    assert OffsetRows(v, 1) == OffsetRows(v, 0) + Offsets(v0);
    assert PlanRows(v, 1, 2) == PlanRows(v, 1, 1) + Plan(v1, 1);
    assert PlanRows(v, 1, 1) == PlanRows(v, 1, 0) + Plan(v0, 1);
  }

  function Plus(x: int, y: int): int {
    x + y
  }

  /**
   * The overwrite on the gapped view over the memory [1, 0, 1]: its trivial dimension is 1, its
   * elements are 1 and 1, and the source's sum walk returns 1 where the sum is 2.
   */
  lemma ReducePartialExample(v: View)
    requires Gapped(v)
    ensures FindFirstTrivialDimOf(v) == 1 && Within(Offsets(v), 3) && OpsFit(Plan(v, 1), 3)
    ensures FoldLeft(Plus, 0, Values([1, 0, 1], v)) == 2
    ensures Exec([1, 0, 1], Plus, 0, 0, Plan(v, 1)) == 1
  {
    var m := [1, 0, 1];
    GappedLayout(v);
    GappedPlan(v);
    assert Values(m, v) == [1, 1];
    assert FoldLeft(Plus, 0, [1, 1]) == FoldLeft(Plus, 1, [1]) == FoldLeft(Plus, 2, []);
    ExpandPlan(v, 1);
    ReducePartialKeepsLastBlock(m, Plus, 0, v, 1);
    assert Gather(m, Head(Block(2, 1))) == [1];
    assert FoldLeft(Plus, 0, [1]) == FoldLeft(Plus, 1, []);
  }
}
