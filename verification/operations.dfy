/**
 * The dispatch engine of the newer library: broadcasting, the recursive element-wise and unary
 * walks with their linear fast path, the in-place and deferred operations built on them, and the
 * two reduction walks. Memory is one array shared by every view; each walk is proved to perform
 * exactly the steps of its specification function.
 */
module Operations {
  import opened Views
  import opened Dims
  import opened Dispatch
  import opened Walk
  import opened Reduction
  import opened AxisReduction

  // ----- Broadcasting -----

  function Fill(n: nat, x: nat): (r: seq<nat>)
    ensures |r| == n && forall k :: 0 <= k < n ==> r[k] == x
  {
    seq(n, _ => x)
  }

  /** `v` padded in front to rank `n` with extent-1, stride-0 axes, tagged `explicit_broadcast`. */
  function Padded(v: View, n: nat): (r: View)
    requires v.Wf() && v.Rank() <= n
    ensures r.Wf() && r.Rank() == n
  {
    View(v.data, Fill(n - v.Rank(), 1) + v.shape, Fill(n - v.Rank(), 0) + v.stride, Explicit)
  }

  function Max(x: nat, y: nat): nat {
    if x >= y then x else y
  }

  /** A dot product whose every term has a zero factor (a zero stride or a zero index) is 0. */
  lemma {:induction false} DotZeros(z: seq<nat>, c: seq<nat>)
    requires |c| <= |z| && forall k :: 0 <= k < |c| ==> z[k] == 0 || c[k] == 0
    ensures Dot(z, c) == 0
    decreases |c|
  {
    if c != [] {
      DotZeros(z[1..], c[1..]);
    }
  }

  /** The padded axes do not move the pointer: a padded coordinate reads the element at its suffix. */
  lemma PaddedElement(v: View, n: nat, c: seq<nat>)
    requires v.Live() && v.Rank() <= n && |c| == n
    ensures Padded(v, n).Live()
    ensures ElementOffset(Padded(v, n), c) == ElementOffset(v, c[n - v.Rank()..])
  {
    var k := n - v.Rank();
    var p := Padded(v, n);
    assert c == c[..k] + c[k..];
    DotAppend(p.stride, c[..k], c[k..]);
    assert p.stride[k..] == v.stride;
    DotZeros(p.stride, c[..k]);
  }

  /**
   * Under the implicit check the padded view agrees, axis by axis, with a view of the larger rank:
   * equal extents or one of them 1.
   */
  lemma PaddedCompatible(first: View, second: View)
    requires first.Wf() && second.Wf() && second.Rank() <= first.Rank()
    requires CheckImplicit(first.shape, second.shape)
    ensures CheckExplicit(first.shape, Padded(second, first.Rank()).shape)
  {
    var n, k := first.Rank(), first.Rank() - second.Rank();
    var ps := Padded(second, n).shape;
    ImplicitAligned(first.shape, second.shape);
    ImplicitAligned(first.shape, ps);
    forall j | 0 <= j < n
      ensures Compatible(first.shape[j], ps[j])
    {
      if j >= k {
        assert ps[j] == second.shape[j - k];
      }
    }
  }

  /**
   * `BroadcastTensors<L, R>::impl(first, second)`: `second` padded in front to the larger of the two
   * ranks. Only the rank of `first` is used.
   */
  method BroadcastTensors(first: View, second: View) returns (r: View)
    requires first.Wf() && second.Wf()
    ensures r == Padded(second, Max(first.Rank(), second.Rank()))
  {
    var n := Max(first.Rank(), second.Rank());
    var shape := new nat[n];
    var stride := new nat[n];
    PadLeading(shape, stride, n - second.Rank());
    CopyTrailing(shape, stride, second);
    r := View(second.data, shape[..], stride[..], Explicit);
  }

  /** The first loop of `BroadcastTensors`: extent 1 and stride 0 on the `pad` leading axes. */
  method PadLeading(shape: array<nat>, stride: array<nat>, pad: nat)
    requires shape != stride && pad <= shape.Length == stride.Length
    modifies shape, stride
    ensures shape[..pad] == Fill(pad, 1) && stride[..pad] == Fill(pad, 0)
  {
    var k := 0;
    while k < pad
      invariant 0 <= k <= pad
      invariant shape[..k] == Fill(k, 1) && stride[..k] == Fill(k, 0)
    {
      stride[k] := 0;
      shape[k] := 1;
      k := k + 1;
    }
  }

  /** The second loop of `BroadcastTensors`: the extents and strides of `second` on the trailing axes. */
  method CopyTrailing(shape: array<nat>, stride: array<nat>, second: View)
    requires shape != stride && second.Wf() && second.Rank() <= shape.Length == stride.Length
    modifies shape, stride
    ensures var pad := shape.Length - second.Rank();
            shape[..] == old(shape[..pad]) + second.shape && stride[..] == old(stride[..pad]) + second.stride
  {
    var pad := shape.Length - second.Rank();
    ghost var shape0, stride0 := shape[..pad], stride[..pad];
    var k := pad;
    var i := 0;
    while i < second.Rank()
      invariant 0 <= i <= second.Rank() && k == pad + i
      invariant shape[..k] == shape0 + second.shape[..i]
      invariant stride[..k] == stride0 + second.stride[..i]
    {
      stride[k] := second.stride[i];
      shape[k] := second.shape[i];
      assert second.shape[..i + 1] == second.shape[..i] + [second.shape[i]];
      assert second.stride[..i + 1] == second.stride[..i] + [second.stride[i]];
      k := k + 1;
      i := i + 1;
    }
    assert second.shape[..i] == second.shape && second.stride[..i] == second.stride;
    assert shape[..] == shape[..k] && stride[..] == stride[..k];
  }

  // ----- The element-wise walk -----

  /** `std::transform` over `n` consecutive elements; reads see the writes already made. */
  method Transform<T>(f: (T, T) -> T, dp: nat, lp: nat, rp: nat, n: nat, mem: array<T>)
    requires StepsFit(Linear(dp, lp, rp, n), mem.Length)
    modifies mem
    ensures mem[..] == Run(old(mem[..]), f, Linear(dp, lp, rp, n))
  {
    ghost var m0 := mem[..];
    var k := 0;
    while k < n
      invariant 0 <= k <= n
      invariant StepsFit(Linear(dp, lp, rp, k), mem.Length)
      invariant mem[..] == Run(m0, f, Linear(dp, lp, rp, k))
    {
      LinearNext(m0, f, dp, lp, rp, k, n);
      RunSingle(mem[..], f, Step(dp + k, lp + k, rp + k));
      mem[dp + k] := f(mem[lp + k], mem[rp + k]);
      k := k + 1;
    }
  }

  /**
   * `ElementWiseOpImpl<N>::impl`: the linear transform when the rank equals the trivial dimension;
   * otherwise one pass per index of axis 0, reading index 0 of an operand whose extent there is 1.
   */
  method ElementWiseOpImpl<T>(f: (T, T) -> T, first: View, second: View, dst: View, t: nat, mem: array<T>)
    requires Shaped(first, second, dst) && dst.Rank() >= 1
    requires StepsFit(Steps(first, second, dst, t), mem.Length)
    modifies mem
    ensures mem[..] == Run(old(mem[..]), f, Steps(first, second, dst, t))
    decreases dst.Rank(), 2
  {
    if dst.Rank() == t {
      assert Steps(first, second, dst, t) == Linear(dst.Base(), first.Base(), second.Base(), NumElements(first));
      Transform(f, dst.Base(), first.Base(), second.Base(), NumElements(first), mem);
    } else {
      assert Steps(first, second, dst, t) == Rows(first, second, dst, t, dst.shape[0]);
      ElementWiseRows(f, first, second, dst, t, mem);
    }
  }

  /** The loop over axis 0 of the walk. */
  method ElementWiseRows<T>(f: (T, T) -> T, first: View, second: View, dst: View, t: nat, mem: array<T>)
    requires Shaped(first, second, dst) && dst.Rank() >= 1
    requires StepsFit(Rows(first, second, dst, t, dst.shape[0]), mem.Length)
    modifies mem
    ensures mem[..] == Run(old(mem[..]), f, Rows(first, second, dst, t, dst.shape[0]))
    decreases dst.Rank(), 1
  {
    ghost var m0 := mem[..];
    var i := 0;
    while i < dst.shape[0]
      invariant 0 <= i <= dst.shape[0]
      invariant StepsFit(Rows(first, second, dst, t, i), mem.Length)
      invariant mem[..] == Run(m0, f, Rows(first, second, dst, t, i))
    {
      RowsNext(m0, f, first, second, dst, t, i);
      ElementWiseRow(f, first, second, dst, t, i, mem);
      i := i + 1;
    }
  }

  /** One pass of the walk: index `i` of axis 0, a single step on the last axis. */
  method ElementWiseRow<T>(f: (T, T) -> T, first: View, second: View, dst: View, t: nat, i: nat, mem: array<T>)
    requires Shaped(first, second, dst) && dst.Rank() >= 1 && i < dst.shape[0]
    requires StepsFit(Row(first, second, dst, t, i), mem.Length)
    modifies mem
    ensures mem[..] == Run(old(mem[..]), f, Row(first, second, dst, t, i))
    decreases dst.Rank(), 0
  {
    var a, b, d := Sub(first, Pick(first, i)), Sub(second, Pick(second, i)), Sub(dst, i);
    if dst.Rank() == 1 {
      LastRow(first, second, dst, t, i);
      assert Row(first, second, dst, t, i)[0] == Step(d.Base(), a.Base(), b.Base());
      RunSingle(mem[..], f, Step(d.Base(), a.Base(), b.Base()));
      mem[d.Base()] := f(mem[a.Base()], mem[b.Base()]);
    } else {
      ElementWiseOpImpl(f, a, b, d, t, mem);
    }
  }

  /** A unary function as a binary one that ignores its second argument. */
  function Lift<T>(g: T -> T): (T, T) -> T {
    (x: T, _: T) => g(x)
  }

  /**
   * `UnaryOpImpl<N>::impl`: the same recursion with one operand; each step writes `g` of the source
   * element.
   */
  method UnaryOpImpl<T>(g: T -> T, src: View, dst: View, t: nat, mem: array<T>)
    requires Shaped(src, src, dst) && dst.Rank() >= 1
    requires StepsFit(Steps(src, src, dst, t), mem.Length)
    modifies mem
    ensures mem[..] == Run(old(mem[..]), Lift(g), Steps(src, src, dst, t))
  {
    ElementWiseOpImpl(Lift(g), src, src, dst, t, mem);
  }

  // ----- Reading through a padded view -----

  lemma {:induction false} ClampSuffix(c: seq<nat>, shape: seq<nat>, k: nat)
    requires |c| == |shape| && k <= |c|
    ensures Clamp(c, shape)[k..] == Clamp(c[k..], shape[k..])
    decreases k
  {
    if k > 0 {
      ClampSuffix(c[1..], shape[1..], k - 1);
      assert c[1..][k - 1..] == c[k..] && shape[1..][k - 1..] == shape[k..];
    }
  }

  /** A broadcast read through the padded view is the broadcast read of the original at the suffix. */
  lemma PaddedRead(v: View, n: nat, c: seq<nat>)
    requires v.Live() && v.Rank() <= n && |c| == n
    ensures Padded(v, n).Live()
    ensures ElementOffset(Padded(v, n), Clamp(c, Padded(v, n).shape)) == ElementOffset(v, Clamp(c[n - v.Rank()..], v.shape))
  {
    var p := Padded(v, n);
    ClampSuffix(c, p.shape, n - v.Rank());
    assert p.shape[n - v.Rank()..] == v.shape;
    PaddedElement(v, n, Clamp(c, p.shape));
  }

  // ----- In-place operations -----

  /**
   * `ElementWiseInplaceOp::impl(f, first, second)`: the assertion fails on incompatible shapes;
   * otherwise `first := f(first, second)` with `second` padded to the rank of `first`. Whatever
   * trivial dimension is found, the walk performs the steps of the full recursion.
   */
  method ElementWiseInplaceOp<T>(f: (T, T) -> T, first: View, second: View, mem: array<T>) returns (o: Outcome)
    requires first.Wf() && second.Wf() && second.Rank() <= first.Rank() && first.Rank() >= 1
    requires CheckShapes(first, second) ==>
               first.Live() && second.Live() && StepsFit(Steps(first, Padded(second, first.Rank()), first, 0), mem.Length)
    modifies mem
    ensures o.Fail? <==> !CheckShapes(first, second)
    ensures o.Fail? ==> o.error == ShapeMismatch && mem[..] == old(mem[..])
    ensures o.Pass? ==> mem[..] == Run(old(mem[..]), f, Steps(first, Padded(second, first.Rank()), first, 0))
  {
    if !CheckShapes(first, second) {
      return Fail(ShapeMismatch);
    }
    var broadcasted := BroadcastTensors(first, second);
    assert Max(first.Rank(), second.Rank()) == first.Rank();
    var t := FindFirstTrivialDim(first, broadcasted);
    TrivialAtSelf(first, broadcasted, t);
    FastPathAgrees(first, broadcasted, first, t);
    ElementWiseOpImpl(f, first, broadcasted, first, t, mem);
    o := Pass;
  }

  /**
   * `a op= b` element by element: when `first` is injective and no element of `second` it reads is an
   * element of `first`, each element of `first` becomes `f` of itself and the element of `second`
   * at the trailing part of its coordinate (index 0 on an extent-1 axis).
   */
  lemma InplaceResult<T>(m: seq<T>, f: (T, T) -> T, first: View, second: View, c: seq<nat>)
    requires first.Live() && second.Live() && second.Rank() <= first.Rank() && Injective(first)
    requires StepsFit(Steps(first, Padded(second, first.Rank()), first, 0), |m|)
    requires forall c, c' :: InBounds(c, first.shape) && InBounds(c', first.shape) ==>
               ElementOffset(first, c') != ElementOffset(second, Clamp(c[first.Rank() - second.Rank()..], second.shape))
    requires InBounds(c, first.shape)
    ensures ElementOffset(first, c) < |m| && ElementOffset(second, Clamp(c[first.Rank() - second.Rank()..], second.shape)) < |m|
    ensures Run(m, f, Steps(first, Padded(second, first.Rank()), first, 0))[ElementOffset(first, c)] ==
            f(m[ElementOffset(first, c)], m[ElementOffset(second, Clamp(c[first.Rank() - second.Rank()..], second.shape))])
  {
    var n := first.Rank();
    var p := Padded(second, n);
    forall x, x' | InBounds(x, first.shape) && InBounds(x', first.shape)
      ensures ElementOffset(first, x') != ElementOffset(p, Clamp(x, p.shape))
    {
      PaddedRead(second, n, x);
    }
    InPlaceNoHazard(first, p);
    TrivialAtZero(first, p);
    TrivialAtZero(first, first);
    WalkResult(m, f, first, p, first, 0, c);
    ClampInBounds(c, first.shape);
    PaddedRead(second, n, c);
  }

  /** `UnaryInplaceOp::impl(g, first)`: `first := g(first)`, with the trivial dimension of `first` alone. */
  method UnaryInplaceOp<T>(g: T -> T, first: View, mem: array<T>)
    requires first.Live() && first.Rank() >= 1
    requires StepsFit(Steps(first, first, first, 0), mem.Length)
    modifies mem
    ensures mem[..] == Run(old(mem[..]), Lift(g), Steps(first, first, first, 0))
  {
    var t := FindFirstTrivialDim(first, first);
    FastPathAgrees(first, first, first, t);
    UnaryOpImpl(g, first, first, t, mem);
  }

  /**
   * Applying `g` in place over an injective view (a contiguous one, or any permutation of one)
   * replaces each of its elements by `g` of its old value, and leaves every other address alone.
   */
  lemma UnaryInplaceResult<T>(m: seq<T>, g: T -> T, v: View, o: nat)
    requires v.Live() && v.Rank() >= 1 && Injective(v) && StepsFit(Steps(v, v, v, 0), |m|) && o < |m|
    ensures forall c :: InBounds(c, v.shape) && ElementOffset(v, c) == o ==>
              Run(m, Lift(g), Steps(v, v, v, 0))[o] == g(m[o])
    ensures (forall c :: InBounds(c, v.shape) ==> ElementOffset(v, c) != o) ==>
              Run(m, Lift(g), Steps(v, v, v, 0))[o] == m[o]
  {
    TrivialAtZero(v, v);
    UnaryInPlaceNoHazard(v);
    forall c | InBounds(c, v.shape) && ElementOffset(v, c) == o
      ensures Run(m, Lift(g), Steps(v, v, v, 0))[o] == g(m[o])
    {
      WalkResult(m, Lift(g), v, v, v, 0, c);
      ClampInBounds(c, v.shape);
    }
    if forall c :: InBounds(c, v.shape) ==> ElementOffset(v, c) != o {
      WalkUntouched(m, Lift(g), v, v, v, 0, o);
    }
  }

  // ----- Deferred operations -----

  /** An element-wise operation waiting for its destination: two views of one rank and a function. */
  datatype ElementWiseOperation<!T> = ElementWiseOperation(lhs: View, rhs: View, func: (T, T) -> T)

  /**
   * `ElementWiseOperation::apply(dst)`: both operands are checked against `dst` (with their own
   * policies), the trivial dimension is the smaller of the two pairs', and `dst := func(lhs, rhs)`.
   */
  method Apply<T>(op: ElementWiseOperation<T>, dst: View, mem: array<T>) returns (o: Outcome)
    requires Shaped(op.lhs, op.rhs, dst) && dst.Rank() >= 1
    requires CheckShapes(dst, op.lhs) && CheckShapes(dst, op.rhs) ==>
               AllLive(op.lhs, op.rhs, dst) && StepsFit(Steps(op.lhs, op.rhs, dst, 0), mem.Length)
    modifies mem
    ensures o.Fail? <==> !(CheckShapes(dst, op.lhs) && CheckShapes(dst, op.rhs))
    ensures o.Fail? ==> o.error == ShapeMismatch && mem[..] == old(mem[..])
    ensures o.Pass? ==> mem[..] == Run(old(mem[..]), op.func, Steps(op.lhs, op.rhs, dst, 0))
  {
    if !CheckShapes(dst, op.lhs) {
      return Fail(ShapeMismatch);
    }
    if !CheckShapes(dst, op.rhs) {
      return Fail(ShapeMismatch);
    }
    var t1 := FindFirstTrivialDim(op.lhs, op.rhs);
    var t2 := FindFirstTrivialDim(op.lhs, dst);
    var t := if t1 <= t2 then t1 else t2;
    TrivialAtDownward(op.lhs, op.rhs, t1, t);
    TrivialAtDownward(op.lhs, dst, t2, t);
    FastPathAgrees(op.lhs, op.rhs, dst, t);
    ElementWiseOpImpl(op.func, op.lhs, op.rhs, dst, t, mem);
    o := Pass;
  }

  /** A unary operation waiting for its destination; `make_unary_op` is its constructor. */
  datatype UnaryOperation<!T> = UnaryOperation(src: View, func: T -> T)

  /** `UnaryOperation::apply(dst)`: `dst := func(src)` once the shapes are checked. */
  method ApplyUnary<T>(op: UnaryOperation<T>, dst: View, mem: array<T>) returns (o: Outcome)
    requires op.src.Wf() && dst.Wf() && op.src.Rank() == dst.Rank() && dst.Rank() >= 1
    requires CheckShapes(dst, op.src) ==>
               op.src.Live() && dst.Live() && StepsFit(Steps(op.src, op.src, dst, 0), mem.Length)
    modifies mem
    ensures o.Fail? <==> !CheckShapes(dst, op.src)
    ensures o.Fail? ==> o.error == ShapeMismatch && mem[..] == old(mem[..])
    ensures o.Pass? ==> mem[..] == Run(old(mem[..]), Lift(op.func), Steps(op.src, op.src, dst, 0))
  {
    if !CheckShapes(dst, op.src) {
      return Fail(ShapeMismatch);
    }
    var t := FindFirstTrivialDim(op.src, dst);
    TrivialAtSelf(op.src, dst, t);
    FastPathAgrees(op.src, op.src, dst, t);
    UnaryOpImpl(op.func, op.src, dst, t, mem);
    o := Pass;
  }

  // ----- The binary factory -----

  /**
   * The binary factory `make_reduce_operation(f, first, second)` (`make_binary_op` in the older
   * headers) as written: after the shape check, the operation's left operand is `second` broadcast
   * against `first`, and its right operand `first` broadcast against `second`: the operands come
   * out swapped.
   */
  method MakeBinaryOp<T>(f: (T, T) -> T, first: View, second: View) returns (r: Result<ElementWiseOperation<T>>)
    requires first.Wf() && second.Wf()
    ensures r.Err? <==> !CheckShapes(first, second)
    ensures r.Err? ==> r.error == ShapeMismatch
    ensures r.Ok? ==> var n := Max(first.Rank(), second.Rank());
                      r.value == ElementWiseOperation(Padded(second, n), Padded(first, n), f)
  {
    if !CheckShapes(first, second) {
      return Err(ShapeMismatch);
    }
    var firstBroadcasted := BroadcastTensors(first, second);
    var secondBroadcasted := BroadcastTensors(second, first);
    assert Max(second.Rank(), first.Rank()) == Max(first.Rank(), second.Rank());
    r := Ok(ElementWiseOperation(firstBroadcasted, secondBroadcasted, f));
  }

  /** The factory with the operands in the order they were given. */
  method MakeBinaryOpInOrder<T>(f: (T, T) -> T, first: View, second: View) returns (r: Result<ElementWiseOperation<T>>)
    requires first.Wf() && second.Wf()
    ensures r.Err? <==> !CheckShapes(first, second)
    ensures r.Err? ==> r.error == ShapeMismatch
    ensures r.Ok? ==> var n := Max(first.Rank(), second.Rank());
                      r.value == ElementWiseOperation(Padded(first, n), Padded(second, n), f)
  {
    if !CheckShapes(first, second) {
      return Err(ShapeMismatch);
    }
    var secondBroadcasted := BroadcastTensors(first, second);
    var firstBroadcasted := BroadcastTensors(second, first);
    assert Max(second.Rank(), first.Rank()) == Max(first.Rank(), second.Rank());
    r := Ok(ElementWiseOperation(firstBroadcasted, secondBroadcasted, f));
  }

  /**
   * The element an operation on `x` and `y` broadcast to rank `n` writes at `c`: `f` of the element of
   * `x` and the element of `y` read at the trailing parts of `c`, in that order.
   */
  lemma PaddedWalkResult<T>(m: seq<T>, f: (T, T) -> T, x: View, y: View, dst: View, c: seq<nat>)
    requires x.Live() && y.Live() && dst.Live() && x.Rank() <= dst.Rank() && y.Rank() <= dst.Rank()
    requires NoHazard(Padded(x, dst.Rank()), Padded(y, dst.Rank()), dst)
    requires StepsFit(Steps(Padded(x, dst.Rank()), Padded(y, dst.Rank()), dst, 0), |m|) && InBounds(c, dst.shape)
    ensures ElementOffset(dst, c) < |m|
    ensures ElementOffset(x, Clamp(c[dst.Rank() - x.Rank()..], x.shape)) < |m|
    ensures ElementOffset(y, Clamp(c[dst.Rank() - y.Rank()..], y.shape)) < |m|
    ensures Run(m, f, Steps(Padded(x, dst.Rank()), Padded(y, dst.Rank()), dst, 0))[ElementOffset(dst, c)] ==
            f(m[ElementOffset(x, Clamp(c[dst.Rank() - x.Rank()..], x.shape))],
              m[ElementOffset(y, Clamp(c[dst.Rank() - y.Rank()..], y.shape))])
  {
    var n := dst.Rank();
    var a, b := Padded(x, n), Padded(y, n);
    TrivialAtZero(a, b);
    TrivialAtZero(a, dst);
    WalkResult(m, f, a, b, dst, 0, c);
    PaddedRead(x, n, c);
    PaddedRead(y, n, c);
  }

  function Minus(x: int, y: int): int {
    x - y
  }

  /**
   * With `first` = [5] and `second` = [3] (one element each, rank 1) and subtraction, the operation
   * the factory builds stores 3 - 5 = -2 instead of 5 - 3 = 2; the factory in order stores 2.
   */
  lemma OperandOrderExample(first: View, second: View, dst: View)
    requires first == View(Addr(0), [1], [1], Implicit) && second == View(Addr(1), [1], [1], Implicit)
    requires dst == View(Addr(2), [1], [1], Implicit)
    ensures CheckShapes(first, second) && CheckShapes(dst, Padded(second, 1)) && CheckShapes(dst, Padded(first, 1))
    ensures StepsFit(Steps(Padded(second, 1), Padded(first, 1), dst, 0), 3)
    ensures StepsFit(Steps(Padded(first, 1), Padded(second, 1), dst, 0), 3)
    ensures Run([5, 3, 0], Minus, Steps(Padded(second, 1), Padded(first, 1), dst, 0))[2] == -2
    ensures Run([5, 3, 0], Minus, Steps(Padded(first, 1), Padded(second, 1), dst, 0))[2] == 2
  {
    var a, b := Padded(first, 1), Padded(second, 1);
    assert Fill(0, 1) == [] && Fill(0, 0) == [];
    assert a == View(Addr(0), [1], [1], Explicit) && b == View(Addr(1), [1], [1], Explicit);
    assert Dot([1], [0]) == 0;
    assert Sub(a, 0) == View(Addr(0), [], [], Explicit);
    assert Sub(b, 0) == View(Addr(1), [], [], Explicit);
    assert Sub(dst, 0) == View(Addr(2), [], [], Implicit);
    assert Steps(b, a, dst, 0) == [Step(2, 1, 0)];
    assert Steps(a, b, dst, 0) == [Step(2, 0, 1)];
  }

  /** The steps with the operands exchanged. */
  function Swap(steps: seq<Step>): (r: seq<Step>)
    ensures |r| == |steps|
  {
    seq(|steps|, k requires 0 <= k < |steps| => Step(steps[k].dst, steps[k].rhs, steps[k].lhs))
  }

  /** Exchanging the operands of the walk exchanges them in every step. */
  lemma {:induction false} StepsSwap(a: View, b: View, d: View)
    requires Shaped(a, b, d)
    ensures Steps(b, a, d, 0) == Swap(Steps(a, b, d, 0))
    decreases d.Rank(), 1
  {
    if d.Rank() > 0 {
      RowsSwap(a, b, d, d.shape[0]);
    }
  }

  lemma {:induction false} RowsSwap(a: View, b: View, d: View, k: nat)
    requires Shaped(a, b, d) && d.Rank() > 0
    ensures Rows(b, a, d, 0, k) == Swap(Rows(a, b, d, 0, k))
    decreases d.Rank(), 0, k
  {
    if k > 0 {
      var i := k - 1;
      RowsSwap(a, b, d, i);
      StepsSwap(Sub(a, Pick(a, i)), Sub(b, Pick(b, i)), Sub(d, i));
      var x, y := Rows(a, b, d, 0, i), Row(a, b, d, 0, i);
      assert Swap(x + y) == Swap(x) + Swap(y);
    }
  }

  /** Running the exchanged steps with a commutative function changes nothing. */
  lemma {:induction false} RunSwap<T>(m: seq<T>, f: (T, T) -> T, steps: seq<Step>)
    requires StepsFit(steps, |m|) && forall x, y :: f(x, y) == f(y, x)
    ensures StepsFit(Swap(steps), |m|) && Run(m, f, Swap(steps)) == Run(m, f, steps)
    decreases |steps|
  {
    if steps != [] {
      var s := steps[0];
      assert Swap(steps)[1..] == Swap(steps[1..]);
      assert f(m[s.lhs], m[s.rhs]) == f(m[s.rhs], m[s.lhs]);
      RunSwap(m[s.dst := f(m[s.lhs], m[s.rhs])], f, steps[1..]);
    }
  }

  /** For a commutative function the order of the operands does not matter (the tests' `+` and `*`). */
  lemma CommutativeOrderIrrelevant<T>(m: seq<T>, f: (T, T) -> T, a: View, b: View, d: View)
    requires Shaped(a, b, d) && StepsFit(Steps(a, b, d, 0), |m|) && forall x, y :: f(x, y) == f(y, x)
    ensures StepsFit(Steps(b, a, d, 0), |m|)
    ensures Run(m, f, Steps(b, a, d, 0)) == Run(m, f, Steps(a, b, d, 0))
  {
    StepsSwap(a, b, d);
    RunSwap(m, f, Steps(a, b, d, 0));
  }

  // ----- The all-reduce walk -----

  /**
   * `AllReduceImpl<N>::impl(f, view, t, trivial_dim, initial_value)`: `std::accumulate` from
   * `initial_value` over a contiguous block, stored into the accumulator; otherwise one pass per
   * index of axis 0, and `t = f(t, element)` on the last axis.
   */
  method AllReduceImpl<T, R>(f: (R, T) -> R, v: View, acc: R, t: nat, init: R, mem: array<T>) returns (r: R)
    requires v.Wf() && v.Rank() >= 1 && OpsFit(Plan(v, t), mem.Length)
    ensures r == Exec(mem[..], f, init, acc, Plan(v, t))
    decreases v.Rank(), 2
  {
    if v.Rank() == t {
      ExecSingle(mem[..], f, init, acc, v, t);
      r := FoldLeft(f, init, Gather(mem[..], Range(v.Base(), NumElements(v))));
    } else {
      assert Plan(v, t) == PlanRows(v, t, v.shape[0]);
      r := AllReduceRows(f, v, acc, t, init, mem);
    }
  }

  /** The loop over axis 0 of the all-reduce walk. */
  method AllReduceRows<T, R>(f: (R, T) -> R, v: View, acc: R, t: nat, init: R, mem: array<T>) returns (r: R)
    requires v.Wf() && v.Rank() >= 1 && OpsFit(PlanRows(v, t, v.shape[0]), mem.Length)
    ensures r == Exec(mem[..], f, init, acc, PlanRows(v, t, v.shape[0]))
    decreases v.Rank(), 1
  {
    r := acc;
    var i := 0;
    while i < v.shape[0]
      invariant 0 <= i <= v.shape[0]
      invariant OpsFit(PlanRows(v, t, i), mem.Length)
      invariant r == Exec(mem[..], f, init, acc, PlanRows(v, t, i))
    {
      PlanRowsNext(mem[..], f, init, acc, v, t, i);
      r := AllReduceRow(f, v, r, t, init, i, mem);
      i := i + 1;
    }
  }

  /** One pass of the all-reduce walk: `t = f(t, element)` on the last axis. */
  method AllReduceRow<T, R>(f: (R, T) -> R, v: View, acc: R, t: nat, init: R, i: nat, mem: array<T>) returns (r: R)
    requires v.Wf() && v.Rank() >= 1 && i < v.shape[0] && OpsFit(Plan(Sub(v, i), t), mem.Length)
    ensures r == Exec(mem[..], f, init, acc, Plan(Sub(v, i), t))
    decreases v.Rank(), 0
  {
    var sub := Sub(v, i);
    if v.Rank() == 1 {
      ExecSingle(mem[..], f, init, acc, sub, t);
      r := f(acc, mem[sub.Base()]);
    } else {
      r := AllReduceImpl(f, sub, acc, t, init, mem);
    }
  }

  /** The all-reduce walk with each contiguous block folded on from the running accumulator. */
  method AllReduceAccumulating<T, R>(f: (R, T) -> R, v: View, acc: R, t: nat, mem: array<T>) returns (r: R)
    requires v.Wf() && v.Rank() >= 1 && OpsFit(Plan(v, t), mem.Length)
    ensures r == ExecAccumulating(mem[..], f, acc, Plan(v, t))
    decreases v.Rank(), 2
  {
    if v.Rank() == t {
      ExecSingle(mem[..], f, acc, acc, v, t);
      r := FoldLeft(f, acc, Gather(mem[..], Range(v.Base(), NumElements(v))));
    } else {
      assert Plan(v, t) == PlanRows(v, t, v.shape[0]);
      r := AllReduceAccumulatingRows(f, v, acc, t, mem);
    }
  }

  /** The loop over axis 0 of the accumulating walk. */
  method AllReduceAccumulatingRows<T, R>(f: (R, T) -> R, v: View, acc: R, t: nat, mem: array<T>) returns (r: R)
    requires v.Wf() && v.Rank() >= 1 && OpsFit(PlanRows(v, t, v.shape[0]), mem.Length)
    ensures r == ExecAccumulating(mem[..], f, acc, PlanRows(v, t, v.shape[0]))
    decreases v.Rank(), 1
  {
    r := acc;
    var i := 0;
    while i < v.shape[0]
      invariant 0 <= i <= v.shape[0]
      invariant OpsFit(PlanRows(v, t, i), mem.Length)
      invariant r == ExecAccumulating(mem[..], f, acc, PlanRows(v, t, i))
    {
      PlanRowsNext(mem[..], f, acc, acc, v, t, i);
      r := AllReduceAccumulatingRow(f, v, r, t, i, mem);
      i := i + 1;
    }
  }

  /** One pass of the accumulating walk. */
  method AllReduceAccumulatingRow<T, R>(f: (R, T) -> R, v: View, acc: R, t: nat, i: nat, mem: array<T>) returns (r: R)
    requires v.Wf() && v.Rank() >= 1 && i < v.shape[0] && OpsFit(Plan(Sub(v, i), t), mem.Length)
    ensures r == ExecAccumulating(mem[..], f, acc, Plan(Sub(v, i), t))
    decreases v.Rank(), 0
  {
    var sub := Sub(v, i);
    if v.Rank() == 1 {
      ExecSingle(mem[..], f, acc, acc, sub, t);
      r := f(acc, mem[sub.Base()]);
    } else {
      r := AllReduceAccumulating(f, sub, acc, t, mem);
    }
  }

  // ----- The axis reduction walk -----

  /**
   * `ReduceDim<N, M>::impl(f, src, dst, reduce_dim)`: one pass per index of the source's axis 0,
   * keeping `dst` whole at the reduced depth and stepping into `dst.at(i)` otherwise; on the last
   * source axis `dst = f(dst, src.at(i))` (`M` = 0) or `dst.at(i) = f(dst.at(i), src.at(i))` (`M` = 1).
   */
  method ReduceDim<T>(f: (T, T) -> T, src: View, dst: View, rd: nat, mem: array<T>)
    requires Paired(src, dst) && src.Rank() >= 1 && StepsFit(ReduceSteps(src, dst, rd), mem.Length)
    modifies mem
    ensures mem[..] == Run(old(mem[..]), f, ReduceSteps(src, dst, rd))
    decreases src.Rank(), 1
  {
    assert ReduceSteps(src, dst, rd) == ReduceRows(src, dst, rd, src.shape[0]);
    ghost var m0 := mem[..];
    var i := 0;
    while i < src.shape[0]
      invariant 0 <= i <= src.shape[0]
      invariant StepsFit(ReduceRows(src, dst, rd, i), mem.Length)
      invariant mem[..] == Run(m0, f, ReduceRows(src, dst, rd, i))
    {
      ReduceRowsNext(m0, f, src, dst, rd, i);
      ReduceDimRow(f, src, dst, rd, i, mem);
      i := i + 1;
    }
  }

  /** One pass of the reduction: index `i` of the source's axis 0, a single fold on the last axis. */
  method ReduceDimRow<T>(f: (T, T) -> T, src: View, dst: View, rd: nat, i: nat, mem: array<T>)
    requires Paired(src, dst) && src.Rank() >= 1 && i < src.shape[0]
    requires StepsFit(ReduceRow(src, dst, rd, i), mem.Length)
    modifies mem
    ensures mem[..] == Run(old(mem[..]), f, ReduceRow(src, dst, rd, i))
    decreases src.Rank(), 0
  {
    var s := Sub(src, i);
    var d := if Reducing(src, dst, rd) then dst else Sub(dst, i);
    assert ReduceRow(src, dst, rd, i) == ReduceSteps(s, d, rd);
    if src.Rank() == 1 {
      var step := Step(d.Base(), d.Base(), s.Base());
      assert ReduceSteps(s, d, rd) == [step];
      assert ReduceSteps(s, d, rd)[0] == step;
      RunSingle(mem[..], f, step);
      mem[d.Base()] := f(mem[d.Base()], mem[s.Base()]);
    } else {
      ReduceDim(f, s, d, rd, mem);
    }
  }
}
