/**
 * What the axis reduction leaves in memory. When the destination is injective, shaped like the
 * source without the reduced axis, and shares no element with the source, each destination element
 * ends up holding its old value folded with the source elements along the reduced axis, in index
 * order; every other address keeps its value.
 */
module AxisFolds {
  import opened Views
  import opened Dispatch
  import opened Walk
  import opened Reduction
  import opened AxisReduction

  // ----- Folding steps -----

  /** The values the steps writing address `o` read, in order. */
  function Collected<T>(m: seq<T>, steps: seq<Step>, o: nat): seq<T>
    requires StepsFit(steps, |m|)
    decreases |steps|
  {
    if steps == [] then []
    else (if steps[0].dst == o then [m[steps[0].rhs]] else []) + Collected(m, steps[1..], o)
  }

  /** Every step has the form `dst = f(dst, x)`. */
  predicate Folding(steps: seq<Step>) {
    forall k :: 0 <= k < |steps| ==> steps[k].lhs == steps[k].dst
  }

  /** No step reads a value from an address some step writes. */
  predicate ReadOnly(steps: seq<Step>) {
    forall k, k' :: 0 <= k < |steps| && 0 <= k' < |steps| ==> steps[k].rhs != steps[k'].dst
  }

  lemma {:induction false} CollectedConcat<T>(m: seq<T>, xs: seq<Step>, ys: seq<Step>, o: nat)
    requires StepsFit(xs + ys, |m|)
    ensures StepsFit(xs, |m|) && StepsFit(ys, |m|)
    ensures Collected(m, xs + ys, o) == Collected(m, xs, o) + Collected(m, ys, o)
    decreases |xs|
  {
    StepsFitConcat(xs, ys, |m|);
    if xs == [] {
      assert xs + ys == ys;
    } else {
      var z := xs + ys;
      assert z[0] == xs[0] && z[1..] == xs[1..] + ys;
      StepsFitConcat(xs[1..], ys, |m|);
      CollectedConcat(m, xs[1..], ys, o);
      assert Collected(m, z, o) == (if xs[0].dst == o then [m[xs[0].rhs]] else []) + Collected(m, z[1..], o);
    }
  }

  lemma {:induction false} CollectedNone<T>(m: seq<T>, steps: seq<Step>, o: nat)
    requires StepsFit(steps, |m|) && forall k :: 0 <= k < |steps| ==> steps[k].dst != o
    ensures Collected(m, steps, o) == []
    decreases |steps|
  {
    if steps != [] {
      assert forall k :: 0 <= k < |steps[1..]| ==> steps[1..][k] == steps[k + 1];
      CollectedNone(m, steps[1..], o);
    }
  }

  lemma {:induction false} CollectedFrame<T>(m: seq<T>, m': seq<T>, steps: seq<Step>, o: nat)
    requires |m| == |m'| && StepsFit(steps, |m|)
    requires forall k :: 0 <= k < |steps| ==> m[steps[k].rhs] == m'[steps[k].rhs]
    ensures Collected(m, steps, o) == Collected(m', steps, o)
    decreases |steps|
  {
    if steps != [] {
      assert forall k :: 0 <= k < |steps[1..]| ==> steps[1..][k] == steps[k + 1];
      CollectedFrame(m, m', steps[1..], o);
    }
  }

  /**
   * Running folding steps whose operands are never written leaves at each address its old value
   * folded with the values the steps writing it read.
   */
  lemma {:induction false} RunFolds<T>(m: seq<T>, f: (T, T) -> T, steps: seq<Step>, o: nat)
    requires StepsFit(steps, |m|) && Folding(steps) && ReadOnly(steps) && o < |m|
    ensures Run(m, f, steps)[o] == FoldLeft(f, m[o], Collected(m, steps, o))
    decreases |steps|
  {
    if steps != [] {
      var s, rest := steps[0], steps[1..];
      var m' := m[s.dst := f(m[s.dst], m[s.rhs])];
      assert forall k :: 0 <= k < |rest| ==> rest[k] == steps[k + 1];
      assert forall k :: 0 <= k < |rest| ==> m[rest[k].rhs] == m'[rest[k].rhs];
      RunFolds(m', f, rest, o);
      CollectedFrame(m, m', rest, o);
      var c := Collected(m, rest, o);
      if s.dst == o {
        assert ([m[s.rhs]] + c)[0] == m[s.rhs] && ([m[s.rhs]] + c)[1..] == c;
      } else {
        assert [] + c == c;
      }
    }
  }

  // ----- The steps of the axis reduction -----

  /** Source and destination share no element. */
  ghost predicate Separate(s: View, d: View)
    requires s.Wf() && d.Wf()
  {
    forall c, e :: InBounds(c, s.shape) && InBounds(e, d.shape) ==> ElementOffset(s, c) != ElementOffset(d, e)
  }

  lemma {:induction false} TargetInBounds(c: seq<nat>, shape: seq<nat>, sRank: nat, dRank: nat, rd: nat)
    requires InBounds(c, shape) && |c| == sRank && (dRank == sRank || dRank + 1 == sRank)
    ensures InBounds(Target(c, sRank, dRank, rd), Target(shape, sRank, dRank, rd))
    decreases sRank
  {
    if sRank > 0 {
      assert InBounds(c[1..], shape[1..]);
      if dRank < sRank && (rd == sRank || dRank == 0) {
        TargetInBounds(c[1..], shape[1..], sRank - 1, dRank, rd);
      } else {
        TargetInBounds(c[1..], shape[1..], sRank - 1, dRank - 1, rd);
      }
    }
  }

  /**
   * Each step of the walk folds the source element at the `k`-th coordinate in row-major order
   * into the destination element at its target coordinate.
   */
  lemma ReduceStepsEach(s: View, d: View, rd: nat, k: nat)
    requires Paired(s, d) && s.Live() && d.Live() && k < |ReduceSteps(s, d, rd)|
    ensures k < Product(s.shape)
    ensures var c := Unrank(k, s.shape);
            var o := ElementOffset(d, Target(c, s.Rank(), d.Rank(), rd));
            ReduceSteps(s, d, rd)[k] == Step(o, o, ElementOffset(s, c))
  {
    ReduceStepsLength(s, d, rd);
    ReduceStepsAt(s, d, rd, Unrank(k, s.shape));
  }

  /** With a target-shaped destination that shares nothing with the source, the steps fold read-only values. */
  lemma ReduceStepsFold(s: View, d: View, rd: nat)
    requires Paired(s, d) && s.Live() && d.Live() && Separate(s, d)
    requires d.shape == Target(s.shape, s.Rank(), d.Rank(), rd)
    ensures Folding(ReduceSteps(s, d, rd)) && ReadOnly(ReduceSteps(s, d, rd))
  {
    var steps := ReduceSteps(s, d, rd);
    forall k | 0 <= k < |steps|
      ensures steps[k].lhs == steps[k].dst
    {
      ReduceStepsEach(s, d, rd, k);
    }
    forall k, k' | 0 <= k < |steps| && 0 <= k' < |steps|
      ensures steps[k].rhs != steps[k'].dst
    {
      ReduceStepsEach(s, d, rd, k);
      ReduceStepsEach(s, d, rd, k');
      var c' := Unrank(k', s.shape);
      TargetInBounds(c', s.shape, s.Rank(), d.Rank(), rd);
    }
  }

  // ----- Injective destinations -----

  lemma SubInjective(d: View, i: nat)
    requires d.Live() && d.Rank() > 0 && i < d.shape[0] && Injective(d)
    ensures Injective(Sub(d, i))
    ensures forall x :: InBounds(x, Sub(d, i).shape) ==> ElementOffset(Sub(d, i), x) == ElementOffset(d, [i] + x)
    ensures forall x, e :: InBounds(x, Sub(d, i).shape) && InBounds(e, d.shape) && e[0] != i ==>
              ElementOffset(Sub(d, i), x) != ElementOffset(d, e)
  {
    forall x | InBounds(x, Sub(d, i).shape)
      ensures ElementOffset(Sub(d, i), x) == ElementOffset(d, [i] + x) && InBounds([i] + x, d.shape)
    {
      SubViewElement(d, [i], x);
    }
    forall x, x' | InBounds(x, Sub(d, i).shape) && InBounds(x', Sub(d, i).shape) && ElementOffset(Sub(d, i), x) == ElementOffset(Sub(d, i), x')
      ensures x == x'
    {
      assert ([i] + x)[1..] == x && ([i] + x')[1..] == x';
    }
    forall x, e | InBounds(x, Sub(d, i).shape) && InBounds(e, d.shape) && e[0] != i
      ensures ElementOffset(Sub(d, i), x) != ElementOffset(d, e)
    {
      assert ([i] + x)[0] == i;
    }
  }

  // ----- Equal ranks: one source element per destination element -----

  /** With equal ranks and shapes, the destination element at `e` receives the source element at `e` only. */
  lemma {:induction false} EqualCollect<T>(m: seq<T>, s: View, d: View, rd: nat, e: seq<nat>)
    requires s.Live() && d.Live() && s.Rank() == d.Rank() && s.shape == d.shape && Injective(d)
    requires StepsFit(ReduceSteps(s, d, rd), |m|) && InBounds(e, d.shape)
    ensures ElementOffset(s, e) < |m|
    ensures Collected(m, ReduceSteps(s, d, rd), ElementOffset(d, e)) == [m[ElementOffset(s, e)]]
    decreases s.Rank(), 1
  {
    if s.Rank() == 0 {
      assert e == [];
      assert ReduceSteps(s, d, rd)[0].rhs == s.Base();
    } else {
      EqualRows(m, s, d, rd, e, s.shape[0]);
    }
  }

  lemma {:induction false} EqualRows<T>(m: seq<T>, s: View, d: View, rd: nat, e: seq<nat>, k: nat)
    requires s.Live() && d.Live() && s.Rank() == d.Rank() > 0 && s.shape == d.shape && Injective(d)
    requires k <= s.shape[0] && StepsFit(ReduceRows(s, d, rd, s.shape[0]), |m|) && InBounds(e, d.shape)
    ensures StepsFit(ReduceRows(s, d, rd, k), |m|) && ElementOffset(s, e) < |m|
    ensures Collected(m, ReduceRows(s, d, rd, k), ElementOffset(d, e)) == if e[0] < k then [m[ElementOffset(s, e)]] else []
    decreases s.Rank(), 0, k + 1
  {
    var n := s.shape[0];
    ReduceRowsFit(s, d, rd, e[0], n, |m|);
    StepsFitConcat(ReduceRows(s, d, rd, e[0]), ReduceRow(s, d, rd, e[0]), |m|);
    EqualRowAt(m, s, d, rd, e);
    if k > 0 {
      var i := k - 1;
      ReduceRowsFit(s, d, rd, i, n, |m|);
      StepsFitConcat(ReduceRows(s, d, rd, i), ReduceRow(s, d, rd, i), |m|);
      EqualRows(m, s, d, rd, e, i);
      CollectedConcat(m, ReduceRows(s, d, rd, i), ReduceRow(s, d, rd, i), ElementOffset(d, e));
      if i != e[0] {
        EqualRowOther(m, s, d, rd, e, i);
      }
    }
  }

  /** Row `e[0]` writes the element at `e` once, from the source element at `e`. */
  lemma EqualRowAt<T>(m: seq<T>, s: View, d: View, rd: nat, e: seq<nat>)
    requires s.Live() && d.Live() && s.Rank() == d.Rank() > 0 && s.shape == d.shape && Injective(d)
    requires InBounds(e, d.shape) && StepsFit(ReduceRow(s, d, rd, e[0]), |m|)
    ensures ElementOffset(s, e) < |m|
    ensures Collected(m, ReduceRow(s, d, rd, e[0]), ElementOffset(d, e)) == [m[ElementOffset(s, e)]]
    decreases s.Rank(), 0, 0
  {
    var si, di := Sub(s, e[0]), Sub(d, e[0]);
    assert InBounds(e[1..], di.shape);
    SubInjective(d, e[0]);
    SubViewElement(s, [e[0]], e[1..]);
    assert [e[0]] + e[1..] == e;
    EqualCollect(m, si, di, rd, e[1..]);
  }

  /** Any other row writes only elements of `at(i)`, none of them the element at `e`. */
  lemma EqualRowOther<T>(m: seq<T>, s: View, d: View, rd: nat, e: seq<nat>, i: nat)
    requires s.Live() && d.Live() && s.Rank() == d.Rank() > 0 && s.shape == d.shape && Injective(d)
    requires InBounds(e, d.shape) && i < s.shape[0] && i != e[0] && StepsFit(ReduceRow(s, d, rd, i), |m|)
    ensures Collected(m, ReduceRow(s, d, rd, i), ElementOffset(d, e)) == []
  {
    var y := ReduceRow(s, d, rd, i);
    forall j | 0 <= j < |y|
      ensures y[j].dst != ElementOffset(d, e)
    {
      EqualStepOther(s, d, rd, e, i, j);
    }
    CollectedNone(m, y, ElementOffset(d, e));
  }

  lemma EqualStepOther(s: View, d: View, rd: nat, e: seq<nat>, i: nat, j: nat)
    requires s.Live() && d.Live() && s.Rank() == d.Rank() > 0 && s.shape == d.shape && Injective(d)
    requires InBounds(e, d.shape) && i < s.shape[0] && i != e[0] && j < |ReduceRow(s, d, rd, i)|
    ensures ReduceRow(s, d, rd, i)[j].dst != ElementOffset(d, e)
  {
    var si, di := Sub(s, i), Sub(d, i);
    assert !Reducing(s, d, rd) && ReduceRow(s, d, rd, i) == ReduceSteps(si, di, rd);
    SubBase(s, i);
    SubBase(d, i);
    ReduceStepsEach(si, di, rd, j);
    var c := Unrank(j, si.shape);
    TargetEqualRanks(c, rd);
    SubViewElement(d, [i], c);
    var ic := [i] + c;
    assert InBounds(ic, d.shape) by {
      forall q | 0 <= q < |ic|
        ensures ic[q] < d.shape[q]
      {
        if q > 0 {
          assert ic[q] == c[q - 1];
        }
      }
    }
    assert ReduceRow(s, d, rd, i)[j].dst == ElementOffset(d, ic);
    assert ic[0] != e[0];
  }

  // ----- One axis fewer: the fibre along the reduced axis -----

  /** The coordinate with `j` inserted as axis `a`. */
  function Insert(e: seq<nat>, a: nat, j: nat): (r: seq<nat>)
    requires a <= |e|
    ensures |r| == |e| + 1
  {
    e[..a] + [j] + e[a..]
  }

  /** The offsets of the source elements along axis `a` through destination coordinate `e`, in index order. */
  function FibreOffsets(s: View, a: nat, e: seq<nat>): (r: seq<nat>)
    requires s.Wf() && a < s.Rank() && |e| + 1 == s.Rank()
  {
    seq(s.shape[a], j requires 0 <= j < s.shape[a] => ElementOffset(s, Insert(e, a, j)))
  }

  lemma InsertInBounds(e: seq<nat>, shape: seq<nat>, a: nat, j: nat)
    requires a < |shape| && InBounds(e, Remove(shape, a)) && j < shape[a]
    ensures InBounds(Insert(e, a, j), shape) && Remove(Insert(e, a, j), a) == e
  {
    var c := Insert(e, a, j);
    forall q | 0 <= q < |c|
      ensures c[q] < shape[q]
    {
      if q < a {
        assert c[q] == e[q] && Remove(shape, a)[q] == shape[q];
      } else if q > a {
        assert c[q] == e[q - 1] && Remove(shape, a)[q - 1] == shape[q];
      }
    }
    assert c[..a] == e[..a] && c[a + 1..] == e[a..];
  }

  /** The fibre through `e` is the fibre of the sub-view `at(e[0])` one axis lower. */
  lemma FibreOfSub(s: View, a: nat, e: seq<nat>)
    requires s.Live() && 0 < a < s.Rank() && |e| + 1 == s.Rank()
    ensures FibreOffsets(Sub(s, e[0]), a - 1, e[1..]) == FibreOffsets(s, a, e)
  {
    forall j | 0 <= j < s.shape[a]
      ensures ElementOffset(Sub(s, e[0]), Insert(e[1..], a - 1, j)) == ElementOffset(s, Insert(e, a, j))
    {
      SubViewElement(s, [e[0]], Insert(e[1..], a - 1, j));
      assert [e[0]] + Insert(e[1..], a - 1, j) == Insert(e, a, j);
    }
  }

  /** The walk with one axis fewer in the destination folds into `e` exactly the fibre through `e`. */
  lemma {:induction false} DropCollect<T>(m: seq<T>, s: View, d: View, rd: nat, e: seq<nat>)
    requires s.Live() && d.Live() && d.Rank() + 1 == s.Rank() && Injective(d)
    requires d.shape == Remove(s.shape, ReducedAxis(s.Rank(), rd))
    requires StepsFit(ReduceSteps(s, d, rd), |m|) && InBounds(e, d.shape)
    ensures Within(FibreOffsets(s, ReducedAxis(s.Rank(), rd), e), |m|)
    ensures Collected(m, ReduceSteps(s, d, rd), ElementOffset(d, e)) == Gather(m, FibreOffsets(s, ReducedAxis(s.Rank(), rd), e))
    decreases s.Rank(), 1
  {
    var a := ReducedAxis(s.Rank(), rd);
    if Reducing(s, d, rd) {
      assert a == 0;
      ReducingRows(m, s, d, rd, e, s.shape[0]);
    } else {
      KeepingRows(m, s, d, rd, e, s.shape[0]);
    }
  }

  /** The reduced axis is axis 0: row `i` contributes the source element at `[i] + e`. */
  lemma {:induction false} ReducingRows<T>(m: seq<T>, s: View, d: View, rd: nat, e: seq<nat>, k: nat)
    requires s.Live() && d.Live() && d.Rank() + 1 == s.Rank() && Injective(d) && Reducing(s, d, rd)
    requires d.shape == s.shape[1..] && k <= s.shape[0]
    requires StepsFit(ReduceRows(s, d, rd, s.shape[0]), |m|) && InBounds(e, d.shape)
    ensures StepsFit(ReduceRows(s, d, rd, k), |m|)
    ensures Within(FibreOffsets(s, 0, e)[..k], |m|)
    ensures Collected(m, ReduceRows(s, d, rd, k), ElementOffset(d, e)) == Gather(m, FibreOffsets(s, 0, e)[..k])
    decreases s.Rank(), 0, k
  {
    var n := s.shape[0];
    var fibre := FibreOffsets(s, 0, e);
    if k > 0 {
      var i := k - 1;
      ReduceRowsFit(s, d, rd, i, n, |m|);
      StepsFitConcat(ReduceRows(s, d, rd, i), ReduceRow(s, d, rd, i), |m|);
      ReducingRows(m, s, d, rd, e, i);
      CollectedConcat(m, ReduceRows(s, d, rd, i), ReduceRow(s, d, rd, i), ElementOffset(d, e));
      ReducingRowAt(m, s, d, rd, e, i);
      GatherPrefixNext(m, fibre, i);
    }
  }

  /** Gathering one more offset of a prefix appends its value. */
  lemma GatherPrefixNext<T>(m: seq<T>, xs: seq<nat>, i: nat)
    requires i < |xs| && Within(xs[..i], |m|) && xs[i] < |m|
    ensures Within(xs[..i + 1], |m|) && Gather(m, xs[..i + 1]) == Gather(m, xs[..i]) + [m[xs[i]]]
  {
    assert xs[..i + 1] == xs[..i] + [xs[i]];
  }

  /** Row `i` folds the source element at `[i] + e` into the element at `e`. */
  lemma ReducingRowAt<T>(m: seq<T>, s: View, d: View, rd: nat, e: seq<nat>, i: nat)
    requires s.Live() && d.Live() && d.Rank() + 1 == s.Rank() && Injective(d) && Reducing(s, d, rd)
    requires d.shape == s.shape[1..] && i < s.shape[0]
    requires StepsFit(ReduceRow(s, d, rd, i), |m|) && InBounds(e, d.shape)
    ensures FibreOffsets(s, 0, e)[i] < |m|
    ensures Collected(m, ReduceRow(s, d, rd, i), ElementOffset(d, e)) == [m[FibreOffsets(s, 0, e)[i]]]
    decreases s.Rank(), 0, 0
  {
    assert ReduceRow(s, d, rd, i) == ReduceSteps(Sub(s, i), d, rd);
    EqualCollect(m, Sub(s, i), d, rd, e);
    SubViewElement(s, [i], e);
    assert Insert(e, 0, i) == [i] + e;
  }

  /** The reduced axis is deeper: only row `e[0]` writes the element, with the fibre of `at(e[0])`. */
  lemma {:induction false} KeepingRows<T>(m: seq<T>, s: View, d: View, rd: nat, e: seq<nat>, k: nat)
    requires s.Live() && d.Live() && d.Rank() + 1 == s.Rank() && Injective(d) && !Reducing(s, d, rd)
    requires d.shape == Remove(s.shape, ReducedAxis(s.Rank(), rd)) && k <= s.shape[0]
    requires StepsFit(ReduceRows(s, d, rd, s.shape[0]), |m|) && InBounds(e, d.shape)
    ensures StepsFit(ReduceRows(s, d, rd, k), |m|)
    ensures Within(FibreOffsets(s, ReducedAxis(s.Rank(), rd), e), |m|)
    ensures Collected(m, ReduceRows(s, d, rd, k), ElementOffset(d, e)) ==
            if e[0] < k then Gather(m, FibreOffsets(s, ReducedAxis(s.Rank(), rd), e)) else []
    decreases s.Rank(), 0, k + 1
  {
    var n := s.shape[0];
    KeepingShape(s, d, rd, e[0]);
    ReduceRowsFit(s, d, rd, e[0], n, |m|);
    StepsFitConcat(ReduceRows(s, d, rd, e[0]), ReduceRow(s, d, rd, e[0]), |m|);
    KeepingRowAt(m, s, d, rd, e);
    if k > 0 {
      var i := k - 1;
      ReduceRowsFit(s, d, rd, i, n, |m|);
      KeepingRows(m, s, d, rd, e, i);
      var x, y := ReduceRows(s, d, rd, i), ReduceRow(s, d, rd, i);
      CollectedConcat(m, x, y, ElementOffset(d, e));
      if i != e[0] {
        KeepingRowOther(m, s, d, rd, e, i);
      } else {
        assert [] + Collected(m, y, ElementOffset(d, e)) == Collected(m, y, ElementOffset(d, e));
      }
    }
  }

  /** Below a kept axis, the sub-views pair up with the reduced axis one lower. */
  lemma KeepingShape(s: View, d: View, rd: nat, i: nat)
    requires s.Wf() && d.Wf() && d.Rank() + 1 == s.Rank() && !Reducing(s, d, rd)
    requires d.shape == Remove(s.shape, ReducedAxis(s.Rank(), rd))
    ensures var a := ReducedAxis(s.Rank(), rd);
            0 < a && d.shape[0] == s.shape[0] && ReducedAxis(s.Rank() - 1, rd) == a - 1 &&
            Sub(d, i).shape == Remove(Sub(s, i).shape, a - 1)
  {
    var a := ReducedAxis(s.Rank(), rd);
    assert Remove(s.shape, a)[0] == s.shape[0];
    assert s.shape[1..][..a - 1] == s.shape[1..a] && s.shape[1..][a..] == s.shape[a + 1..];
  }

  /** Row `e[0]` folds the fibre through `e` into the element at `e`. */
  lemma {:induction false} KeepingRowAt<T>(m: seq<T>, s: View, d: View, rd: nat, e: seq<nat>)
    requires s.Live() && d.Live() && d.Rank() + 1 == s.Rank() && Injective(d) && !Reducing(s, d, rd)
    requires d.shape == Remove(s.shape, ReducedAxis(s.Rank(), rd)) && InBounds(e, d.shape)
    requires e[0] < s.shape[0] && StepsFit(ReduceRow(s, d, rd, e[0]), |m|)
    ensures Within(FibreOffsets(s, ReducedAxis(s.Rank(), rd), e), |m|)
    ensures Collected(m, ReduceRow(s, d, rd, e[0]), ElementOffset(d, e)) == Gather(m, FibreOffsets(s, ReducedAxis(s.Rank(), rd), e))
    decreases s.Rank(), 0, 0
  {
    var a := ReducedAxis(s.Rank(), rd);
    var si, di := Sub(s, e[0]), Sub(d, e[0]);
    KeepingShape(s, d, rd, e[0]);
    assert InBounds(e[1..], di.shape);
    SubInjective(d, e[0]);
    DropCollect(m, si, di, rd, e[1..]);
    FibreOfSub(s, a, e);
    SubViewElement(d, [e[0]], e[1..]);
    assert [e[0]] + e[1..] == e;
  }

  /** Any other row writes only elements of `at(i)`, none of them the element at `e`. */
  lemma KeepingRowOther<T>(m: seq<T>, s: View, d: View, rd: nat, e: seq<nat>, i: nat)
    requires s.Live() && d.Live() && d.Rank() + 1 == s.Rank() && Injective(d) && !Reducing(s, d, rd)
    requires d.shape == Remove(s.shape, ReducedAxis(s.Rank(), rd)) && InBounds(e, d.shape)
    requires i < s.shape[0] && i != e[0] && StepsFit(ReduceRow(s, d, rd, i), |m|)
    ensures Collected(m, ReduceRow(s, d, rd, i), ElementOffset(d, e)) == []
  {
    var y := ReduceRow(s, d, rd, i);
    forall j | 0 <= j < |y|
      ensures y[j].dst != ElementOffset(d, e)
    {
      KeepingStepOther(s, d, rd, e, i, j);
    }
    CollectedNone(m, y, ElementOffset(d, e));
  }

  /** Step `j` of row `i` writes an element of `at(i)`, which is not the element at `e`. */
  lemma KeepingStepOther(s: View, d: View, rd: nat, e: seq<nat>, i: nat, j: nat)
    requires s.Live() && d.Live() && d.Rank() + 1 == s.Rank() && Injective(d) && !Reducing(s, d, rd)
    requires d.shape == Remove(s.shape, ReducedAxis(s.Rank(), rd)) && InBounds(e, d.shape)
    requires i < s.shape[0] && i != e[0] && j < |ReduceRow(s, d, rd, i)|
    ensures ReduceRow(s, d, rd, i)[j].dst != ElementOffset(d, e)
  {
    var a := ReducedAxis(s.Rank(), rd);
    var si, di := Sub(s, i), Sub(d, i);
    KeepingShape(s, d, rd, i);
    assert ReduceRow(s, d, rd, i) == ReduceSteps(si, di, rd);
    SubBase(s, i);
    SubBase(d, i);
    ReduceStepsEach(si, di, rd, j);
    var c := Unrank(j, si.shape);
    TargetDropsAxis(c, si.Rank(), rd);
    var x := Remove(c, a - 1);
    InsertRemoveBounds(c, si.shape, a - 1);
    SubViewElement(d, [i], x);
    var ix := [i] + x;
    assert InBounds(ix, d.shape) by {
      assert di.shape == d.shape[1..];
      forall q | 0 <= q < |ix|
        ensures ix[q] < d.shape[q]
      {
        if q > 0 {
          assert ix[q] == x[q - 1];
        }
      }
    }
    assert ReduceRow(s, d, rd, i)[j].dst == ElementOffset(d, ix);
    assert ix[0] != e[0];
  }

  lemma InsertRemoveBounds(c: seq<nat>, shape: seq<nat>, a: nat)
    requires InBounds(c, shape) && a < |shape|
    ensures InBounds(Remove(c, a), Remove(shape, a))
  {
    var r, rs := Remove(c, a), Remove(shape, a);
    forall q | 0 <= q < |r|
      ensures r[q] < rs[q]
    {
      if q < a {
        assert r[q] == c[q] && rs[q] == shape[q];
      } else {
        assert r[q] == c[q + 1] && rs[q] == shape[q + 1];
      }
    }
  }

  // ----- The result -----

  /**
   * The axis reduction `dst[e] = f(... f(f(dst[e], src[e with j = 0 at axis a]), src[... j = 1 ...]) ...)`
   * over `j` below the extent of axis `a`, the axis `reduce_dim` selects; addresses outside the
   * destination keep their values.
   */
  lemma ReduceDimResult<T>(m: seq<T>, f: (T, T) -> T, s: View, d: View, rd: nat, e: seq<nat>)
    requires s.Live() && d.Live() && d.Rank() + 1 == s.Rank()
    requires d.shape == Remove(s.shape, ReducedAxis(s.Rank(), rd)) && Injective(d) && Separate(s, d)
    requires StepsFit(ReduceSteps(s, d, rd), |m|) && InBounds(e, d.shape) && ElementOffset(d, e) < |m|
    ensures Within(FibreOffsets(s, ReducedAxis(s.Rank(), rd), e), |m|)
    ensures Run(m, f, ReduceSteps(s, d, rd))[ElementOffset(d, e)] ==
            FoldLeft(f, m[ElementOffset(d, e)], Gather(m, FibreOffsets(s, ReducedAxis(s.Rank(), rd), e)))
  {
    var a := ReducedAxis(s.Rank(), rd);
    TargetShape(s, d, rd);
    ReduceStepsFold(s, d, rd);
    DropCollect(m, s, d, rd, e);
    RunFolds(m, f, ReduceSteps(s, d, rd), ElementOffset(d, e));
  }

  lemma TargetShape(s: View, d: View, rd: nat)
    requires s.Wf() && d.Wf() && d.Rank() + 1 == s.Rank()
    ensures Target(s.shape, s.Rank(), d.Rank(), rd) == Remove(s.shape, ReducedAxis(s.Rank(), rd))
  {
    TargetDropsAxis(s.shape, s.Rank(), rd);
  }

  /** Addresses the destination does not cover keep their values. */
  lemma ReduceDimUntouched<T>(m: seq<T>, f: (T, T) -> T, s: View, d: View, rd: nat, o: nat)
    requires s.Live() && d.Live() && d.Rank() + 1 == s.Rank()
    requires d.shape == Remove(s.shape, ReducedAxis(s.Rank(), rd))
    requires StepsFit(ReduceSteps(s, d, rd), |m|) && o < |m|
    requires forall e :: InBounds(e, d.shape) ==> ElementOffset(d, e) != o
    ensures Run(m, f, ReduceSteps(s, d, rd))[o] == m[o]
  {
    var steps := ReduceSteps(s, d, rd);
    TargetShape(s, d, rd);
    forall k | 0 <= k < |steps|
      ensures steps[k].dst != o
    {
      ReduceStepsEach(s, d, rd, k);
      TargetInBounds(Unrank(k, s.shape), s.shape, s.Rank(), d.Rank(), rd);
    }
    RunUntouched(m, f, steps, o);
  }
}
