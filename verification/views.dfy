/**
 * The shared data model of a non-owning strided view.
 *
 * Memory is one flat sequence of elements; a view is a data pointer (an element offset into that
 * memory, or null), a shape and a stride of equal length, and a broadcast policy tag.  The rank of
 * a view is the length of its shape.  Both generations of the library share this model.
 */
module Views {

  /** The three broadcast policy tags `implicit_broadcast`, `explicit_broadcast`, `disable_broadcast`. */
  datatype Policy = Implicit | Explicit | Disable

  /** A data pointer: null, or the offset of an element in the flat memory. */
  datatype Ptr = Null | Addr(offset: nat)

  /**
   * The errors the library raises through its assertion macro: incompatible shapes, reshaping a
   * non-contiguous view, a second `-1` placeholder in a reshape, and a reshape whose size differs.
   */
  datatype Error = ShapeMismatch | NonContiguousReshape | TooManyPlaceholders | InvalidReshapeShape

  datatype Result<R> = Ok(value: R) | Err(error: Error)

  datatype Outcome = Pass | Fail(error: Error)

  datatype View = View(data: Ptr, shape: seq<nat>, stride: seq<nat>, policy: Policy) {

    /** The class invariant of every view: one stride per axis. */
    predicate Wf() {
      |shape| == |stride|
    }

    /** A well-formed view whose pointer is not null: the only kind whose elements may be accessed. */
    predicate Live() {
      Wf() && data.Addr?
    }

    function Rank(): nat {
      |shape|
    }

    /** The offset the data pointer designates (0 stands in for null, which is never dereferenced). */
    function Base(): nat {
      match data
      case Null => 0
      case Addr(o) => o
    }

    predicate Empty() {
      data.Null?
    }
  }

  /** Product of extents, the fold `accumulate(shape, shape + n, 1, multiplies)`. */
  function Product(s: seq<nat>): nat {
    if s == [] then 1 else s[0] * Product(s[1..])
  }

  /** Number of elements a view designates. */
  function NumElements(v: View): nat {
    Product(v.shape)
  }

  /** `Σ stride[j] * idx[j]` over the leading `|idx|` axes. */
  function Dot(stride: seq<nat>, idx: seq<nat>): nat
    requires |idx| <= |stride|
  {
    if idx == [] then 0 else stride[0] * idx[0] + Dot(stride[1..], idx[1..])
  }

  /** Pointer arithmetic `p + k`. */
  function Advance(p: Ptr, k: nat): Ptr {
    match p
    case Null => Null
    case Addr(o) => Addr(o + k)
  }

  /** The sub-view with the leading coordinates fixed to `idx`: suffix shape and stride, advanced pointer. */
  function SubView(v: View, idx: seq<nat>): View
    requires v.Wf() && |idx| <= v.Rank()
  {
    View(Advance(v.data, Dot(v.stride, idx)), v.shape[|idx|..], v.stride[|idx|..], v.policy)
  }

  /** The axis-0 sub-view `v.at(i)`. */
  function Sub(v: View, i: nat): View
    requires v.Wf() && v.Rank() > 0
  {
    SubView(v, [i])
  }

  /** The offset of the element a full coordinate tuple designates. */
  function ElementOffset(v: View, idx: seq<nat>): nat
    requires v.Wf() && |idx| == v.Rank()
  {
    v.Base() + Dot(v.stride, idx)
  }

  /** Canonical row-major strides: each stride is the product of the later extents. */
  function Canonical(shape: seq<nat>): (r: seq<nat>)
    ensures |r| == |shape|
  {
    if shape == [] then [] else [Product(shape[1..])] + Canonical(shape[1..])
  }

  /** The layout is canonical row-major. */
  predicate Contiguous(v: View) {
    v.stride == Canonical(v.shape)
  }

  predicate InBounds(idx: seq<nat>, shape: seq<nat>) {
    |idx| == |shape| && forall j :: 0 <= j < |idx| ==> idx[j] < shape[j]
  }

  /** Position of a coordinate tuple in row-major order. */
  function RowIndex(idx: seq<nat>, shape: seq<nat>): nat
    requires |idx| == |shape|
  {
    Dot(Canonical(shape), idx)
  }

  /** The coordinate an operand is read at: index 0 on every axis whose extent is 1. */
  function Clamp(idx: seq<nat>, shape: seq<nat>): (r: seq<nat>)
    requires |idx| == |shape|
    ensures |r| == |idx|
  {
    if idx == [] then [] else [if shape[0] == 1 then 0 else idx[0]] + Clamp(idx[1..], shape[1..])
  }

  // ----- Facts about the arithmetic -----

  /** The `i`-th canonical stride is the product of the extents after axis `i`. */
  lemma {:induction false} CanonicalAt(s: seq<nat>, i: nat)
    requires i < |s|
    ensures |Canonical(s)| == |s| && Canonical(s)[i] == Product(s[i + 1..])
  {
    if i > 0 {
      CanonicalAt(s[1..], i - 1);
      assert s[1..][i..] == s[i + 1..];
    }
  }

  /** The product of the extents from axis `i` on. */
  lemma ProductFrom(s: seq<nat>, i: nat)
    requires i < |s|
    ensures Product(s[i..]) == s[i] * Product(s[i + 1..])
  {
    assert s[i..][0] == s[i] && s[i..][1..] == s[i + 1..];
  }

  /** A suffix of canonical strides is the canonical stride of the suffix shape. */
  lemma {:induction false} CanonicalSuffix(s: seq<nat>, k: nat)
    requires k <= |s|
    ensures |Canonical(s)| == |s| && Canonical(s)[k..] == Canonical(s[k..])
  {
    if k > 0 {
      CanonicalSuffix(s[1..], k - 1);
      assert s[1..][k - 1..] == s[k..];
    }
  }

  /** The canonical strides end in 1 and satisfy `stride[i] == stride[i+1] * shape[i+1]`. */
  lemma CanonicalRecurrence(s: seq<nat>)
    ensures |Canonical(s)| == |s|
    ensures |s| > 0 ==> Canonical(s)[|s| - 1] == 1
    ensures forall i :: 0 <= i < |s| - 1 ==> Canonical(s)[i] == Canonical(s)[i + 1] * s[i + 1]
  {
    if |s| > 0 {
      CanonicalAt(s, |s| - 1);
      assert s[|s|..] == [];
    }
    forall i | 0 <= i < |s| - 1
      ensures Canonical(s)[i] == Canonical(s)[i + 1] * s[i + 1]
    {
      CanonicalAt(s, i);
      CanonicalAt(s, i + 1);
      assert s[i + 1..] == [s[i + 1]] + s[i + 2..];
    }
  }

  lemma {:induction false} DotAppend(stride: seq<nat>, a: seq<nat>, b: seq<nat>)
    requires |a| + |b| <= |stride|
    ensures Dot(stride, a + b) == Dot(stride, a) + Dot(stride[|a|..], b)
  {
    if a == [] {
      assert a + b == b;
    } else {
      assert (a + b)[1..] == a[1..] + b;
      DotAppend(stride[1..], a[1..], b);
      assert stride[1..][|a| - 1..] == stride[|a|..];
    }
  }

  lemma AdvanceAdvance(p: Ptr, a: nat, b: nat)
    ensures Advance(Advance(p, a), b) == Advance(p, a + b)
  {
  }

  /** `view.at(a).at(b...) == view.at(a, b...)` for sub-views. */
  lemma SubViewCompose(v: View, a: seq<nat>, b: seq<nat>)
    requires v.Wf() && |a| + |b| <= v.Rank()
    ensures SubView(SubView(v, a), b) == SubView(v, a + b)
  {
    DotAppend(v.stride, a, b);
    assert v.shape[|a|..][|b|..] == v.shape[|a + b|..];
    assert v.stride[|a|..][|b|..] == v.stride[|a + b|..];
  }

  /** `view.at(a).at(b...) == view.at(a, b...)` for elements. */
  lemma SubViewElement(v: View, a: seq<nat>, b: seq<nat>)
    requires v.Live() && |a| + |b| == v.Rank()
    ensures ElementOffset(SubView(v, a), b) == ElementOffset(v, a + b)
  {
    DotAppend(v.stride, a, b);
  }

  lemma SubBase(v: View, i: nat)
    requires v.Live() && v.Rank() > 0
    ensures Sub(v, i).Live() && Sub(v, i).Base() == v.Base() + v.stride[0] * i
  {
    assert Dot(v.stride, [i]) == v.stride[0] * i + Dot(v.stride[1..], []);
  }

  lemma {:induction false} ProductAppend(a: seq<nat>, b: seq<nat>)
    ensures Product(a + b) == Product(a) * Product(b)
  {
    if a == [] {
      assert a + b == b;
    } else {
      assert (a + b)[1..] == a[1..] + b;
      ProductAppend(a[1..], b);
    }
  }

  // ----- Memory effect of a walk -----

  /**
   * One step of an element-wise walk: `mem[dst] := f(mem[lhs], mem[rhs])`, where the reads see
   * every write made by the steps before it.
   */
  datatype Step = Step(dst: nat, lhs: nat, rhs: nat)

  /** Every address a list of steps touches lies inside a memory of `n` elements. */
  predicate StepsFit(steps: seq<Step>, n: nat) {
    forall k :: 0 <= k < |steps| ==> steps[k].dst < n && steps[k].lhs < n && steps[k].rhs < n
  }

  /** Performing the steps one after the other. */
  function Run<T>(m: seq<T>, f: (T, T) -> T, steps: seq<Step>): (r: seq<T>)
    requires StepsFit(steps, |m|)
    ensures |r| == |m|
    decreases |steps|
  {
    if steps == [] then m
    else
      var s := steps[0];
      Run(m[s.dst := f(m[s.lhs], m[s.rhs])], f, steps[1..])
  }

  lemma StepsFitConcat(a: seq<Step>, b: seq<Step>, n: nat)
    ensures StepsFit(a + b, n) <==> StepsFit(a, n) && StepsFit(b, n)
  {
    if StepsFit(a, n) && StepsFit(b, n) {
      forall k | 0 <= k < |a + b|
        ensures (a + b)[k].dst < n && (a + b)[k].lhs < n && (a + b)[k].rhs < n
      {
        if k >= |a| {
          assert (a + b)[k] == b[k - |a|];
        }
      }
    }
    if StepsFit(a + b, n) {
      forall k | 0 <= k < |a|
        ensures a[k].dst < n && a[k].lhs < n && a[k].rhs < n
      {
        assert (a + b)[k] == a[k];
      }
      forall k | 0 <= k < |b|
        ensures b[k].dst < n && b[k].lhs < n && b[k].rhs < n
      {
        assert (a + b)[|a| + k] == b[k];
      }
    }
  }

  /** Running two lists of steps one after the other is running their concatenation. */
  lemma {:induction false} RunConcat<T>(m: seq<T>, f: (T, T) -> T, a: seq<Step>, b: seq<Step>)
    requires StepsFit(a + b, |m|)
    ensures StepsFit(a, |m|) && StepsFit(b, |m|)
    ensures Run(m, f, a + b) == Run(Run(m, f, a), f, b)
    decreases |a|
  {
    StepsFitConcat(a, b, |m|);
    if a == [] {
      assert a + b == b;
    } else {
      var s := a[0];
      var m' := m[s.dst := f(m[s.lhs], m[s.rhs])];
      assert (a + b)[0] == s;
      assert (a + b)[1..] == a[1..] + b;
      RunConcat(m', f, a[1..], b);
    }
  }

  /** Running one step writes its destination and nothing else. */
  lemma RunSingle<T>(m: seq<T>, f: (T, T) -> T, s: Step)
    requires s.dst < |m| && s.lhs < |m| && s.rhs < |m|
    ensures StepsFit([s], |m|) && Run(m, f, [s]) == m[s.dst := f(m[s.lhs], m[s.rhs])]
  {
    assert [s][0] == s && [s][1..] == [];
  }

  /** No step reads or overwrites an address an earlier step wrote. */
  predicate Independent(steps: seq<Step>) {
    forall k, k' :: 0 <= k' < k < |steps| ==>
      steps[k'].dst != steps[k].dst && steps[k'].dst != steps[k].lhs && steps[k'].dst != steps[k].rhs
  }

  /** An address no step writes keeps its value. */
  lemma {:induction false} RunUntouched<T>(m: seq<T>, f: (T, T) -> T, steps: seq<Step>, o: nat)
    requires StepsFit(steps, |m|) && o < |m|
    requires forall k :: 0 <= k < |steps| ==> steps[k].dst != o
    ensures Run(m, f, steps)[o] == m[o]
    decreases |steps|
  {
    if steps != [] {
      var s := steps[0];
      RunUntouched(m[s.dst := f(m[s.lhs], m[s.rhs])], f, steps[1..], o);
    }
  }

  /**
   * When the steps are independent, every written address ends up holding `f` of the values its
   * step reads in the initial memory.
   */
  lemma {:induction false} RunIndependent<T>(m: seq<T>, f: (T, T) -> T, steps: seq<Step>, k: nat)
    requires StepsFit(steps, |m|) && Independent(steps) && k < |steps|
    ensures Run(m, f, steps)[steps[k].dst] == f(m[steps[k].lhs], m[steps[k].rhs])
    decreases |steps|
  {
    var s := steps[0];
    var m' := m[s.dst := f(m[s.lhs], m[s.rhs])];
    if k == 0 {
      forall j | 0 <= j < |steps[1..]|
        ensures steps[1..][j].dst != s.dst
      {
        assert steps[1..][j] == steps[j + 1];
      }
      RunUntouched(m', f, steps[1..], s.dst);
    } else {
      assert steps[1..][k - 1] == steps[k];
      assert Independent(steps[1..]) by {
        forall a, b | 0 <= b < a < |steps[1..]|
          ensures steps[1..][b].dst != steps[1..][a].dst && steps[1..][b].dst != steps[1..][a].lhs
                  && steps[1..][b].dst != steps[1..][a].rhs
        {
          assert steps[1..][a] == steps[a + 1] && steps[1..][b] == steps[b + 1];
        }
      }
      RunIndependent(m', f, steps[1..], k - 1);
      assert s.dst != steps[k].lhs && s.dst != steps[k].rhs;
    }
  }
}
