/**
 * The order in which the element-wise engine touches memory.
 *
 * `Steps(a, b, d, t)` lists, in execution order, the element writes `d[c] := f(a[c_a], b[c_b])` the
 * recursive walk performs when its trivial dimension is `t`: at rank `t` the remaining block is one
 * linear `transform` over consecutive offsets; otherwise the walk loops over axis 0 and reads index 0
 * of an operand whose extent on that axis is 1.
 */
module Dispatch {
  import opened Views
  import opened Dims

  /** Two operands and a destination of one rank. */
  predicate Shaped(a: View, b: View, d: View) {
    a.Wf() && b.Wf() && d.Wf() && a.Rank() == d.Rank() && b.Rank() == d.Rank()
  }

  predicate AllLive(a: View, b: View, d: View) {
    Shaped(a, b, d) && a.Live() && b.Live() && d.Live()
  }

  /** The axis-0 index an operand is read at: 0 on a broadcast (extent 1) axis. */
  function Pick(v: View, i: nat): nat
    requires v.Rank() > 0
  {
    if v.shape[0] == 1 then 0 else i
  }

  /** The steps of `std::transform` over `n` consecutive elements. */
  function Linear(dp: nat, lp: nat, rp: nat, n: nat): (r: seq<Step>)
    ensures |r| == n
  {
    seq(n, k requires 0 <= k < n => Step(dp + k, lp + k, rp + k))
  }

  function Steps(a: View, b: View, d: View, t: nat): seq<Step>
    requires Shaped(a, b, d)
    decreases d.Rank(), 2, 0
  {
    if d.Rank() == 0 then [Step(d.Base(), a.Base(), b.Base())]
    else if d.Rank() == t then Linear(d.Base(), a.Base(), b.Base(), NumElements(a))
    else Rows(a, b, d, t, d.shape[0])
  }

  /** The steps of the first `k` iterations over axis 0. */
  function Rows(a: View, b: View, d: View, t: nat, k: nat): seq<Step>
    requires Shaped(a, b, d) && d.Rank() > 0
    decreases d.Rank(), 1, k
  {
    if k == 0 then [] else Rows(a, b, d, t, k - 1) + Row(a, b, d, t, k - 1)
  }

  /** The steps of iteration `i` over axis 0. */
  function Row(a: View, b: View, d: View, t: nat, i: nat): seq<Step>
    requires Shaped(a, b, d) && d.Rank() > 0
    decreases d.Rank(), 0, 0
  {
    Steps(Sub(a, Pick(a, i)), Sub(b, Pick(b, i)), Sub(d, i), t)
  }

  // ----- Bounds -----

  lemma {:induction false} RowsFit(a: View, b: View, d: View, t: nat, k: nat, n: nat, m: nat)
    requires Shaped(a, b, d) && d.Rank() > 0 && k <= n
    requires StepsFit(Rows(a, b, d, t, n), m)
    ensures StepsFit(Rows(a, b, d, t, k), m)
    ensures k < n ==> StepsFit(Row(a, b, d, t, k), m)
    decreases n
  {
    if n > 0 {
      StepsFitConcat(Rows(a, b, d, t, n - 1), Row(a, b, d, t, n - 1), m);
      if k < n {
        RowsFit(a, b, d, t, k, n - 1, m);
      }
    }
  }

  /** Running `k + 1` linear steps is running `k` of them and then the step at offset `k`. */
  lemma LinearNext<T>(m: seq<T>, f: (T, T) -> T, dp: nat, lp: nat, rp: nat, k: nat, n: nat)
    requires k < n && StepsFit(Linear(dp, lp, rp, n), |m|)
    ensures StepsFit(Linear(dp, lp, rp, k + 1), |m|) && StepsFit(Linear(dp, lp, rp, k), |m|)
    ensures dp + k < |m| && lp + k < |m| && rp + k < |m|
    ensures Run(m, f, Linear(dp, lp, rp, k + 1)) == Run(Run(m, f, Linear(dp, lp, rp, k)), f, [Step(dp + k, lp + k, rp + k)])
  {
    LinearAppend(dp, lp, rp, k, 1);
    LinearFit(dp, lp, rp, k + 1, n, |m|);
    StepsFitConcat(Linear(dp, lp, rp, k), Linear(dp + k, lp + k, rp + k, 1), |m|);
    assert Linear(dp + k, lp + k, rp + k, 1)[0] == Step(dp + k, lp + k, rp + k);
    assert Linear(dp + k, lp + k, rp + k, 1) == [Step(dp + k, lp + k, rp + k)];
    RunConcat(m, f, Linear(dp, lp, rp, k), [Step(dp + k, lp + k, rp + k)]);
  }

  /** A prefix of a linear walk whose addresses fit also fits. */
  lemma LinearFit(dp: nat, lp: nat, rp: nat, k: nat, n: nat, m: nat)
    requires k <= n && StepsFit(Linear(dp, lp, rp, n), m)
    ensures StepsFit(Linear(dp, lp, rp, k), m)
  {
    forall j | 0 <= j < k
      ensures Linear(dp, lp, rp, k)[j] == Linear(dp, lp, rp, n)[j]
    {
    }
  }

  /** Running the first `i + 1` rows is running the first `i` and then row `i`. */
  lemma RowsNext<T>(m: seq<T>, f: (T, T) -> T, a: View, b: View, d: View, t: nat, i: nat)
    requires Shaped(a, b, d) && d.Rank() > 0 && i < d.shape[0]
    requires StepsFit(Rows(a, b, d, t, d.shape[0]), |m|)
    ensures StepsFit(Rows(a, b, d, t, i + 1), |m|)
    ensures StepsFit(Rows(a, b, d, t, i), |m|) && StepsFit(Row(a, b, d, t, i), |m|)
    ensures Run(m, f, Rows(a, b, d, t, i + 1)) == Run(Run(m, f, Rows(a, b, d, t, i)), f, Row(a, b, d, t, i))
  {
    RowsFit(a, b, d, t, i + 1, d.shape[0], |m|);
    RunConcat(m, f, Rows(a, b, d, t, i), Row(a, b, d, t, i));
  }

  /** On the last axis a row is the one step at the sub-views' pointers. */
  lemma LastRow(a: View, b: View, d: View, t: nat, i: nat)
    requires Shaped(a, b, d) && d.Rank() == 1
    ensures Row(a, b, d, t, i) == [Step(Sub(d, i).Base(), Sub(a, Pick(a, i)).Base(), Sub(b, Pick(b, i)).Base())]
  {
  }

  // ----- Row-major order of the recursive walk -----

  lemma {:induction false} StepsLength(a: View, b: View, d: View)
    requires Shaped(a, b, d)
    ensures |Steps(a, b, d, 0)| == NumElements(d)
    decreases d.Rank(), 1
  {
    if d.Rank() > 0 {
      RowsLength(a, b, d, d.shape[0]);
    }
  }

  lemma {:induction false} RowsLength(a: View, b: View, d: View, k: nat)
    requires Shaped(a, b, d) && d.Rank() > 0
    ensures |Rows(a, b, d, 0, k)| == k * Product(d.shape[1..])
    decreases d.Rank(), 0, k
  {
    if k > 0 {
      RowsLength(a, b, d, k - 1);
      StepsLength(Sub(a, Pick(a, k - 1)), Sub(b, Pick(b, k - 1)), Sub(d, k - 1));
      assert (k - 1) * Product(d.shape[1..]) + Product(d.shape[1..]) == k * Product(d.shape[1..]);
    }
  }

  /** Position `j = i * P + r` of the first `k` rows is position `r` of row `i`. */
  lemma {:induction false} RowsIndex(a: View, b: View, d: View, k: nat, i: nat, r: nat, j: nat)
    requires Shaped(a, b, d) && d.Rank() > 0 && i < k && r < Product(d.shape[1..])
    requires j == i * Product(d.shape[1..]) + r
    ensures |Rows(a, b, d, 0, k)| == k * Product(d.shape[1..])
    ensures j < |Rows(a, b, d, 0, k)| && |Row(a, b, d, 0, i)| == Product(d.shape[1..])
    ensures Rows(a, b, d, 0, k)[j] == Row(a, b, d, 0, i)[r]
    decreases k
  {
    var P := Product(d.shape[1..]);
    var x, y := Rows(a, b, d, 0, k - 1), Row(a, b, d, 0, k - 1);
    assert Rows(a, b, d, 0, k) == x + y;
    RowsLength(a, b, d, k);
    RowsLength(a, b, d, k - 1);
    MulBelow(i, k, P, r);
    StepsLength(Sub(a, Pick(a, i)), Sub(b, Pick(b, i)), Sub(d, i));
    if i < k - 1 {
      MulBelow(i, k - 1, P, r);
      RowsIndex(a, b, d, k - 1, i, r, j);
      assert (x + y)[j] == x[j];
    } else {
      assert (x + y)[j] == y[j - |x|];
    }
  }

  lemma MulBelow(i: nat, k: nat, P: nat, r: nat)
    requires i < k && r < P
    ensures i * P + r < k * P && (k - 1) * P + P == k * P
  {
    MulSucc(k - 1, P);
    MulMono(i, k - 1, P);
  }

  lemma MulSucc(n: nat, P: nat)
    ensures n * P + P == (n + 1) * P
  {
  }

  lemma MulMono(i: nat, j: nat, P: nat)
    requires i <= j
    ensures i * P <= j * P
  {
    assert j * P == i * P + (j - i) * P;
  }

  /** Splitting a coordinate into its axis-0 index and the rest. */
  lemma RowIndexSplit(c: seq<nat>, s: seq<nat>)
    requires |c| == |s| > 0
    ensures RowIndex(c, s) == c[0] * Product(s[1..]) + RowIndex(c[1..], s[1..])
  {
    assert Canonical(s)[1..] == Canonical(s[1..]);
  }

  /** Reading an operand through its axis-0 sub-view reads it at the clamped coordinate. */
  lemma OperandSplit(v: View, c: seq<nat>)
    requires v.Live() && |c| == v.Rank() > 0
    ensures ElementOffset(Sub(v, Pick(v, c[0])), Clamp(c[1..], Sub(v, Pick(v, c[0])).shape))
            == ElementOffset(v, Clamp(c, v.shape))
  {
    var j := Pick(v, c[0]);
    var rest := Clamp(c[1..], v.shape[1..]);
    assert Clamp(c, v.shape) == [j] + rest;
    SubViewElement(v, [j], rest);
  }

  /**
   * The recursive walk visits the destination in row-major order, each coordinate exactly at its
   * row-major position, and reads each operand at the coordinate with 0 on its extent-1 axes.
   */
  lemma {:induction false} StepsAt(a: View, b: View, d: View, c: seq<nat>)
    requires AllLive(a, b, d) && InBounds(c, d.shape)
    ensures |Steps(a, b, d, 0)| == NumElements(d)
    ensures RowIndex(c, d.shape) < NumElements(d)
    ensures Steps(a, b, d, 0)[RowIndex(c, d.shape)] ==
            Step(ElementOffset(d, c), ElementOffset(a, Clamp(c, a.shape)), ElementOffset(b, Clamp(c, b.shape)))
    decreases d.Rank()
  {
    StepsLength(a, b, d);
    if d.Rank() == 0 {
      assert c == [];
    } else {
      var i, c' := c[0], c[1..];
      var a', b', d' := Sub(a, Pick(a, i)), Sub(b, Pick(b, i)), Sub(d, i);
      var j, j' := RowIndex(c, d.shape), RowIndex(c', d'.shape);
      assert InBounds(c', d'.shape);
      StepsAt(a', b', d', c');
      RowIndexSplit(c, d.shape);
      RowsIndex(a, b, d, d.shape[0], i, j', j);
      assert Steps(a, b, d, 0)[j] == Steps(a', b', d', 0)[j'];
      assert [i] + c' == c;
      SubViewElement(d, [i], c');
      OperandSplit(a, c);
      OperandSplit(b, c);
    }
  }

  // ----- The linear fast path -----

  lemma LinearAppend(dp: nat, lp: nat, rp: nat, n: nat, m: nat)
    ensures Linear(dp, lp, rp, n) + Linear(dp + n, lp + n, rp + n, m) == Linear(dp, lp, rp, n + m)
  {
    var x, y := Linear(dp, lp, rp, n), Linear(dp + n, lp + n, rp + n, m);
    assert forall k :: 0 <= k < n + m ==> (x + y)[k] == Linear(dp, lp, rp, n + m)[k] by {
      forall k | 0 <= k < n + m
        ensures (x + y)[k] == Linear(dp, lp, rp, n + m)[k]
      {
        if k >= n {
          assert (x + y)[k] == y[k - n];
        }
      }
    }
  }

  /** The axis-0 sub-view of a contiguous view is contiguous, with the later extents. */
  lemma SubContiguous(v: View, i: nat)
    requires v.Live() && v.Rank() > 0 && Contiguous(v)
    ensures Contiguous(Sub(v, i)) && Sub(v, i).shape == v.shape[1..]
    ensures v.stride[0] == Product(v.shape[1..]) && NumElements(Sub(v, i)) == Product(v.shape[1..])
    ensures Sub(v, i).Live() && Sub(v, i).Base() == v.Base() + i * Product(v.shape[1..])
  {
    CanonicalSuffix(v.shape, 1);
    CanonicalAt(v.shape, 0);
    SubBase(v, i);
  }

  /**
   * The central lemma: on contiguous views of one shape, the recursive row-major walk visits the
   * offsets `0 .. n-1` from each base in order, i.e. it is the linear transform.
   */
  lemma {:induction false} LinearIsRecursive(a: View, b: View, d: View)
    requires AllLive(a, b, d) && Contiguous(a) && Contiguous(b) && Contiguous(d)
    requires a.shape == d.shape && b.shape == d.shape
    ensures Steps(a, b, d, 0) == Linear(d.Base(), a.Base(), b.Base(), NumElements(a))
    decreases d.Rank(), 1
  {
    if d.Rank() > 0 {
      LinearRows(a, b, d, d.shape[0]);
    }
  }

  lemma {:induction false} LinearRows(a: View, b: View, d: View, k: nat)
    requires AllLive(a, b, d) && Contiguous(a) && Contiguous(b) && Contiguous(d)
    requires a.shape == d.shape && b.shape == d.shape && d.Rank() > 0 && k <= d.shape[0]
    ensures Rows(a, b, d, 0, k) == Linear(d.Base(), a.Base(), b.Base(), k * Product(d.shape[1..]))
    decreases d.Rank(), 0, k + 1
  {
    var P := Product(d.shape[1..]);
    if k > 0 {
      var i := k - 1;
      LinearRows(a, b, d, i);
      LinearRow(a, b, d, i);
      LinearAppend(d.Base(), a.Base(), b.Base(), i * P, P);
      MulSucc(i, P);
    }
  }

  /** On contiguous views of one shape, row `i` is the linear block of `P` steps at offset `i * P`. */
  lemma LinearRow(a: View, b: View, d: View, i: nat)
    requires AllLive(a, b, d) && Contiguous(a) && Contiguous(b) && Contiguous(d)
    requires a.shape == d.shape && b.shape == d.shape && d.Rank() > 0 && i < d.shape[0]
    ensures var P := Product(d.shape[1..]);
            Row(a, b, d, 0, i) == Linear(d.Base() + i * P, a.Base() + i * P, b.Base() + i * P, P)
    decreases d.Rank(), 0, 0
  {
    assert Pick(a, i) == i && Pick(b, i) == i;
    SubContiguous(a, i);
    SubContiguous(b, i);
    SubContiguous(d, i);
    LinearIsRecursive(Sub(a, i), Sub(b, i), Sub(d, i));
  }

  /** Trivial layout depends on shapes and strides only, never on the pointer of a sub-view. */
  lemma TrivialAtSubAny(x: View, y: View, i: nat, j: nat, t: nat)
    requires x.Wf() && y.Wf() && x.Rank() == y.Rank() && t < x.Rank()
    ensures TrivialAt(Sub(x, i), Sub(y, j), t) == TrivialAt(x, y, t)
  {
    var x', y' := Sub(x, i), Sub(y, j);
    assert Tail(x', t).shape == Tail(x, t).shape && Tail(x', t).stride == Tail(x, t).stride;
    assert Tail(y', t).shape == Tail(y, t).shape && Tail(y', t).stride == Tail(y, t).stride;
  }

  /**
   * The fast path is exact: when the trailing `t` axes of both operands and the destination are
   * contiguous with one shape, the dispatched walk performs exactly the steps of the full recursion.
   */
  lemma {:induction false} FastPathAgrees(a: View, b: View, d: View, t: nat)
    requires AllLive(a, b, d) && TrivialAt(a, b, t) && TrivialAt(a, d, t)
    ensures Steps(a, b, d, t) == Steps(a, b, d, 0)
    decreases d.Rank(), 1
  {
    if d.Rank() == 0 {
    } else if d.Rank() == t {
      TailOfSub(a, 0);
      TailOfSub(b, 0);
      TailOfSub(d, 0);
      ShapesEqualIsEquality(a.shape, b.shape);
      ShapesEqualIsEquality(a.shape, d.shape);
      LinearIsRecursive(a, b, d);
    } else {
      FastPathRows(a, b, d, t, d.shape[0]);
    }
  }

  lemma {:induction false} FastPathRows(a: View, b: View, d: View, t: nat, k: nat)
    requires AllLive(a, b, d) && TrivialAt(a, b, t) && TrivialAt(a, d, t) && t < d.Rank()
    ensures Rows(a, b, d, t, k) == Rows(a, b, d, 0, k)
    decreases d.Rank(), 0, k
  {
    if k > 0 {
      var i := k - 1;
      FastPathRows(a, b, d, t, i);
      TrivialAtSubAny(a, b, Pick(a, i), Pick(b, i), t);
      TrivialAtSubAny(a, d, Pick(a, i), i, t);
      FastPathAgrees(Sub(a, Pick(a, i)), Sub(b, Pick(b, i)), Sub(d, i), t);
    }
  }
}
