/** Energy expressions of the Kohn-Sham functional (base_eks.py): a tree of
    constant, tensor, negation, sum, product and quotient nodes, built by
    operator overloading and evaluated pointwise on a density.

    A density is a one-dimensional tensor of grid values. A computed value
    is `Some(x)` for a finite real x and `None` for an infinity or NaN; a
    quotient by zero is the only source of `None`. Shapes combine by
    torch's broadcasting rule for one-dimensional tensors, whose failure
    is a RuntimeError. */
module Eks {
  import opened Wrappers

  type Value = Option<real>

  datatype Eks =
    | TensorEks(tensor: seq<real>)
    | ConstEks(c: real)
    | NegEks(eks: Eks)
    | AddEks(a: Eks, b: Eks)
    | MultEks(a: Eks, b: Eks)
    | DivEks(a: Eks, b: Eks)

  datatype BinOp = Plus | Minus | Times | Over

  /** One arithmetic operation on two computed values. */
  function Apply(op: BinOp, x: Value, y: Value): (v: Value)
    ensures v.Some? <==> x.Some? && y.Some? && (op == Over ==> y.value != 0.0)
  {
    if x.None? || y.None? then None
    else match op
      case Plus => Some(x.value + y.value)
      case Minus => Some(x.value - y.value)
      case Times => Some(x.value * y.value)
      case Over => if y.value == 0.0 then None else Some(x.value / y.value)
  }

  function Negate(x: Value): (v: Value)
  {
    if x.None? then None else Some(-x.value)
  }

  /** The length two one-dimensional shapes broadcast to. */
  function BroadcastLen(n: nat, m: nat): (r: Option<nat>)
    ensures r.Some? <==> n == m || n == 1 || m == 1
    ensures r.Some? ==> r.value == if n == 1 then m else n
  {
    if n == m then Some(n) else if n == 1 then Some(m) else if m == 1 then Some(n) else None
  }

  /** Element i of a tensor broadcast along its single axis. */
  function At(x: seq<Value>, i: nat): Value
    requires i < |x| || |x| == 1
  {
    if |x| == 1 then x[0] else x[i]
  }

  /** A binary operation on two tensors after broadcasting. */
  function Combine(op: BinOp, x: seq<Value>, y: seq<Value>): (r: Result<seq<Value>, Exception>)
    ensures r.Failure? <==> BroadcastLen(|x|, |y|).None?
    ensures r.Failure? ==> r.error == RuntimeError
    ensures r.Success? ==> |r.value| == BroadcastLen(|x|, |y|).value
    ensures r.Success? ==> forall i :: 0 <= i < |r.value| ==> r.value[i] == Apply(op, At(x, i), At(y, i))
  {
    match BroadcastLen(|x|, |y|)
    case None => Failure(RuntimeError)
    case Some(n) => Success(seq(n, i requires 0 <= i < n => Apply(op, At(x, i), At(y, i))))
  }

  /** A binary operation on the results of two evaluations: the first
      exception raised wins. */
  function Binary(op: BinOp, ra: Result<seq<Value>, Exception>, rb: Result<seq<Value>, Exception>): Result<seq<Value>, Exception>
  {
    if ra.Failure? then ra else if rb.Failure? then rb else Combine(op, ra.value, rb.value)
  }

  function Finite(t: seq<real>): (v: seq<Value>)
    ensures |v| == |t| && forall i :: 0 <= i < |t| ==> v[i] == Some(t[i])
  {
    seq(|t|, i requires 0 <= i < |t| => Some(t[i]))
  }

  /** `density * 0`. */
  function ZerosLike(d: seq<real>): (z: seq<Value>)
    ensures |z| == |d| && forall i :: 0 <= i < |d| ==> z[i] == Some(0.0)
  {
    seq(|d|, _ => Some(0.0))
  }

  /** The `forward` methods: evaluation of a tree at a density. Only
      broadcasting can raise. */
  function Eval(e: Eks, d: seq<real>): (r: Result<seq<Value>, Exception>)
    ensures r.Failure? ==> r.error == RuntimeError
  {
    match e
    case TensorEks(t) => Combine(Plus, ZerosLike(d), Finite(t))
    case ConstEks(c) => Combine(Plus, ZerosLike(d), [Some(c)])
    case NegEks(x) =>
      var v :- Eval(x, d);
      Success(seq(|v|, i requires 0 <= i < |v| => Negate(v[i])))
    case AddEks(a, b) => Binary(Plus, Eval(a, d), Eval(b, d))
    case MultEks(a, b) => Binary(Times, Eval(a, d), Eval(b, d))
    case DivEks(a, b) => Binary(Over, Eval(a, d), Eval(b, d))
  }

  // ---------------------------------------------------------------------
  // What evaluation computes

  /** `ConstEKS(c).forward(d)`: c at every point of d. */
  lemma ConstEval(c: real, d: seq<real>)
    ensures Eval(ConstEks(c), d).Success?
    ensures |Eval(ConstEks(c), d).value| == |d|
    ensures forall i :: 0 <= i < |d| ==> Eval(ConstEks(c), d).value[i] == Some(c)
  {
    var v := Eval(ConstEks(c), d).value;
    forall i | 0 <= i < |d| ensures v[i] == Some(c) {
      assert v[i] == Apply(Plus, Some(0.0), Some(c));
    }
  }

  /** `TensorEKS(t).forward(d)`: t itself when it has d's shape, t broadcast
      when it has one element, and the same whatever d's values. */
  lemma TensorEval(t: seq<real>, d: seq<real>, d': seq<real>)
    requires |d'| == |d|
    ensures Eval(TensorEks(t), d).Success? <==> |t| == |d| || |t| == 1 || |d| == 1
    ensures |t| == |d| ==> Eval(TensorEks(t), d) == Success(Finite(t))
    ensures |t| == 1 ==> Eval(TensorEks(t), d) == Success(seq(|d|, _ => Some(t[0])))
    ensures Eval(TensorEks(t), d') == Eval(TensorEks(t), d)
  {
    var r := Eval(TensorEks(t), d);
    if |t| == |d| {
      assert r.value == Finite(t) by {
        forall i | 0 <= i < |t| ensures r.value[i] == Some(t[i]) {
          assert r.value[i] == Apply(Plus, At(ZerosLike(d), i), At(Finite(t), i));
        }
      }
    }
    if |t| == 1 {
      assert r.value == seq(|d|, _ => Some(t[0])) by {
        forall i | 0 <= i < |d| ensures r.value[i] == Some(t[0]) {
          assert r.value[i] == Apply(Plus, At(ZerosLike(d), i), At(Finite(t), i));
        }
      }
    }
    assert ZerosLike(d') == ZerosLike(d);
  }

  /** `NegEKS(e).forward(d)`: the pointwise negation of e's value. */
  lemma NegEval(e: Eks, d: seq<real>)
    ensures Eval(NegEks(e), d).Success? <==> Eval(e, d).Success?
    ensures Eval(NegEks(e), d).Success? ==>
      && |Eval(NegEks(e), d).value| == |Eval(e, d).value|
      && forall i :: 0 <= i < |Eval(e, d).value| ==> Eval(NegEks(e), d).value[i] == Negate(Eval(e, d).value[i])
  {
  }

  /** Negating twice gives back the original evaluation. */
  lemma NegNeg(e: Eks, d: seq<real>)
    ensures Eval(NegEks(NegEks(e)), d) == Eval(e, d)
  {
    var r := Eval(e, d);
    NegEval(e, d);
    NegEval(NegEks(e), d);
    if r.Success? {
      var v := Eval(NegEks(NegEks(e)), d).value;
      forall i | 0 <= i < |r.value| ensures v[i] == r.value[i] {
        assert v[i] == Negate(Negate(r.value[i]));
      }
      assert v == r.value;
    }
  }

  /** Adding a negated tensor is subtracting it, on either side. */
  lemma PlusNegated(x: seq<Value>, y: seq<Value>, ny: seq<Value>)
    requires |ny| == |y| && forall i :: 0 <= i < |y| ==> ny[i] == Negate(y[i])
    ensures Combine(Plus, x, ny) == Combine(Minus, x, y)
    ensures Combine(Plus, ny, x) == Combine(Minus, x, y)
  {
    var l, l', r := Combine(Plus, x, ny), Combine(Plus, ny, x), Combine(Minus, x, y);
    if r.Success? {
      forall i | 0 <= i < |r.value| ensures l.value[i] == r.value[i] && l'.value[i] == r.value[i] {
        assert At(ny, i) == Negate(At(y, i));
      }
      assert l.value == r.value;
      assert l'.value == r.value;
    }
  }

  /** `a + NegEKS(b)` evaluates to a(d) - b(d). */
  lemma SubEval(a: Eks, b: Eks, d: seq<real>)
    ensures Eval(AddEks(a, NegEks(b)), d) == Binary(Minus, Eval(a, d), Eval(b, d))
  {
    var ra, rb, rn := Eval(a, d), Eval(b, d), Eval(NegEks(b), d);
    assert Eval(AddEks(a, NegEks(b)), d) == Binary(Plus, ra, rn);
    NegEval(b, d);
    if ra.Success? && rb.Success? {
      PlusNegated(ra.value, rb.value, rn.value);
    } else if ra.Success? {
      assert rn == Failure(RuntimeError) == rb;
    }
  }

  /** `NegEKS(a) + b` evaluates to b(d) - a(d). */
  lemma RSubEval(a: Eks, b: Eks, d: seq<real>)
    ensures Eval(AddEks(NegEks(a), b), d) == Binary(Minus, Eval(b, d), Eval(a, d))
  {
    var ra, rb, rn := Eval(a, d), Eval(b, d), Eval(NegEks(a), d);
    assert Eval(AddEks(NegEks(a), b), d) == Binary(Plus, rn, rb);
    NegEval(a, d);
    if ra.Success? && rb.Success? {
      PlusNegated(rb.value, ra.value, rn.value);
    } else if rb.Failure? {
      assert rb == Failure(RuntimeError);
    } else {
      assert rn == Failure(RuntimeError) == ra;
    }
  }

  lemma CombineCommutes(op: BinOp, x: seq<Value>, y: seq<Value>)
    requires op == Plus || op == Times
    ensures Combine(op, x, y) == Combine(op, y, x)
  {
    var l, r := Combine(op, x, y), Combine(op, y, x);
    if l.Success? {
      forall i | 0 <= i < |l.value| ensures l.value[i] == r.value[i] {
        var u, v := At(x, i), At(y, i);
        if u.Some? && v.Some? {
          assert u.value + v.value == v.value + u.value;
          assert u.value * v.value == v.value * u.value;
        }
      }
      assert l.value == r.value;
    }
  }

  /** Sums and products evaluate the same with their operands swapped. */
  lemma AddCommutes(a: Eks, b: Eks, d: seq<real>)
    ensures Eval(AddEks(a, b), d) == Eval(AddEks(b, a), d)
    ensures Eval(MultEks(a, b), d) == Eval(MultEks(b, a), d)
  {
    if Eval(a, d).Success? && Eval(b, d).Success? {
      CombineCommutes(Plus, Eval(a, d).value, Eval(b, d).value);
      CombineCommutes(Times, Eval(a, d).value, Eval(b, d).value);
    }
  }

  /** `DivEKS(a, b).forward(d)` at point i: defined exactly where both
      operands are and the divisor is not zero, and there the quotient. */
  lemma DivEval(a: Eks, b: Eks, d: seq<real>, i: nat)
    requires Eval(DivEks(a, b), d).Success? && i < |Eval(DivEks(a, b), d).value|
    ensures Eval(a, d).Success? && Eval(b, d).Success?
    ensures Eval(DivEks(a, b), d).value[i].Some?
        <==> At(Eval(a, d).value, i).Some? && At(Eval(b, d).value, i).Some? && At(Eval(b, d).value, i).value != 0.0
    ensures Eval(DivEks(a, b), d).value[i].Some? ==>
      Eval(DivEks(a, b), d).value[i].value == At(Eval(a, d).value, i).value / At(Eval(b, d).value, i).value
  {
    var x, y := At(Eval(a, d).value, i), At(Eval(b, d).value, i);
    assert Eval(DivEks(a, b), d).value[i] == Apply(Over, x, y);
  }

  /** Every tensor leaf broadcasts against a density of `n` points. */
  predicate Conforms(e: Eks, n: nat)
  {
    match e
    case TensorEks(t) => |t| == n || |t| == 1
    case ConstEks(_) => true
    case NegEks(x) => Conforms(x, n)
    case AddEks(a, b) => Conforms(a, n) && Conforms(b, n)
    case MultEks(a, b) => Conforms(a, n) && Conforms(b, n)
    case DivEks(a, b) => Conforms(a, n) && Conforms(b, n)
  }

  predicate HasDiv(e: Eks)
  {
    match e
    case TensorEks(_) => false
    case ConstEks(_) => false
    case NegEks(x) => HasDiv(x)
    case AddEks(a, b) => HasDiv(a) || HasDiv(b)
    case MultEks(a, b) => HasDiv(a) || HasDiv(b)
    case DivEks(_, _) => true
  }

  /** A tree whose tensors fit the density never raises and keeps the
      density's shape; without quotients every value is finite. */
  lemma {:induction false} ConformingEval(e: Eks, d: seq<real>)
    requires Conforms(e, |d|)
    ensures Eval(e, d).Success? && |Eval(e, d).value| == |d|
    ensures !HasDiv(e) ==> forall i :: 0 <= i < |d| ==> Eval(e, d).value[i].Some?
  {
    match e
    case TensorEks(t) =>
      TensorEval(t, d, d);
    case ConstEks(c) =>
      ConstEval(c, d);
    case NegEks(x) =>
      ConformingEval(x, d);
      NegEval(x, d);
    case AddEks(a, b) =>
      ConformingEval(a, d);
      ConformingEval(b, d);
    case MultEks(a, b) =>
      ConformingEval(a, d);
      ConformingEval(b, d);
    case DivEks(a, b) =>
      ConformingEval(a, d);
      ConformingEval(b, d);
  }

  // ---------------------------------------------------------------------
  // Operands and `_normalize`

  /** A Python operand of an arithmetic operator. A bool is an int. */
  datatype Operand =
    | EksOperand(e: Eks)
    | TensorOperand(t: seq<real>)
    | IntOperand(i: int)
    | FloatOperand(f: real)
    | OtherOperand

  /** `_normalize` as written: the tensor branch calls `TensorEKS()`
      without its argument, which raises TypeError. */
  function NormalizeAsWritten(a: Operand): (r: Result<Eks, Exception>)
    ensures r.Success? <==> a.EksOperand? || a.IntOperand? || a.FloatOperand?
    ensures r.Failure? ==> r.error == TypeError
  {
    match a
    case EksOperand(e) => Success(e)
    case TensorOperand(_) => Failure(TypeError)
    case IntOperand(i) => Success(ConstEks(i as real * 1.0))
    case FloatOperand(f) => Success(ConstEks(f * 1.0))
    case OtherOperand => Failure(TypeError)
  }

  /** `_normalize` with the tensor wrapped as evidently intended: an EKS
      operand is kept, a number becomes a constant, a tensor a tensor node
      and anything else raises TypeError. */
  function Normalize(a: Operand): (r: Result<Eks, Exception>)
    ensures r.Success? <==> !a.OtherOperand?
    ensures r.Failure? ==> r.error == TypeError
    ensures a.EksOperand? ==> r == Success(a.e)
    ensures a.IntOperand? ==> r.Success? && r.value.ConstEks? && r.value.c == a.i as real
    ensures a.FloatOperand? ==> r.Success? && r.value.ConstEks? && r.value.c == a.f
  {
    match a
    case EksOperand(e) => Success(e)
    case TensorOperand(t) => Success(TensorEks(t))
    case IntOperand(i) => Success(ConstEks(i as real * 1.0))
    case FloatOperand(f) => Success(ConstEks(f * 1.0))
    case OtherOperand => Failure(TypeError)
  }

  /** The two agree except on tensors, where the written branch raises and
      the intended node evaluates to the tensor itself. */
  lemma NormalizeTensorBranch(a: Operand, d: seq<real>)
    ensures !a.TensorOperand? ==> NormalizeAsWritten(a) == Normalize(a)
    ensures a.TensorOperand? ==> NormalizeAsWritten(a) == Failure(TypeError)
    ensures a.TensorOperand? && |a.t| == |d| ==>
      Normalize(a).Success? && Eval(Normalize(a).value, d) == Success(Finite(a.t))
  {
    if a.TensorOperand? {
      TensorEval(a.t, d, d);
    }
  }

  /** Which `_normalize` the overloads call: the source's, whose tensor branch
      raises, or the corrected one. */
  datatype Normalizer = AsWritten | Corrected

  function NormalizeWith(which: Normalizer, a: Operand): (r: Result<Eks, Exception>)
    ensures r.Failure? ==> r.error == TypeError
    ensures which == AsWritten && a.TensorOperand? ==> r == Failure(TypeError)
    ensures which == Corrected && a.TensorOperand? ==> r == Success(TensorEks(a.t))
    ensures !a.TensorOperand? ==> r == Normalize(a)
  {
    NormalizeTensorBranch(a, []);
    match which
    case AsWritten => NormalizeAsWritten(a)
    case Corrected => Normalize(a)
  }

  // ---------------------------------------------------------------------
  // The operator overloads of BaseEKS, over either `_normalize`

  /** `__add__`: the right operand is normalized first. */
  function Add(which: Normalizer, self: Eks, other: Operand): (r: Result<Eks, Exception>)
    ensures r.Success? <==> NormalizeWith(which, other).Success?
    ensures r.Failure? ==> r.error == TypeError
    ensures which == AsWritten && other.TensorOperand? ==> r == Failure(TypeError)
  {
    var o :- NormalizeWith(which, other);
    Success(AddEks(self, o))
  }

  /** `__sub__`: self plus the negated operand. */
  function Sub(which: Normalizer, self: Eks, other: Operand): (r: Result<Eks, Exception>)
    ensures r.Success? <==> NormalizeWith(which, other).Success?
    ensures r.Failure? ==> r.error == TypeError
    ensures which == AsWritten && other.TensorOperand? ==> r == Failure(TypeError)
  {
    var o :- NormalizeWith(which, other);
    Success(AddEks(self, NegEks(o)))
  }

  /** `__rsub__`: the operand plus the negated self. */
  function RSub(which: Normalizer, self: Eks, other: Operand): (r: Result<Eks, Exception>)
    ensures r.Success? <==> NormalizeWith(which, other).Success?
    ensures r.Failure? ==> r.error == TypeError
    ensures which == AsWritten && other.TensorOperand? ==> r == Failure(TypeError)
  {
    var o :- NormalizeWith(which, other);
    Success(AddEks(NegEks(self), o))
  }

  /** `__mul__`. */
  function Mul(which: Normalizer, self: Eks, other: Operand): (r: Result<Eks, Exception>)
    ensures r.Success? <==> NormalizeWith(which, other).Success?
    ensures r.Failure? ==> r.error == TypeError
    ensures which == AsWritten && other.TensorOperand? ==> r == Failure(TypeError)
  {
    var o :- NormalizeWith(which, other);
    Success(MultEks(self, o))
  }

  /** `__div__`. */
  function Div(which: Normalizer, self: Eks, other: Operand): (r: Result<Eks, Exception>)
    ensures r.Success? <==> NormalizeWith(which, other).Success?
    ensures r.Failure? ==> r.error == TypeError
    ensures which == AsWritten && other.TensorOperand? ==> r == Failure(TypeError)
  {
    var o :- NormalizeWith(which, other);
    Success(DivEks(self, o))
  }

  /** `__rdiv__`: the operand divided by self. */
  function RDiv(which: Normalizer, self: Eks, other: Operand): (r: Result<Eks, Exception>)
    ensures r.Success? <==> NormalizeWith(which, other).Success?
    ensures r.Failure? ==> r.error == TypeError
    ensures which == AsWritten && other.TensorOperand? ==> r == Failure(TypeError)
  {
    var o :- NormalizeWith(which, other);
    Success(DivEks(o, self))
  }

  /** `__neg__`. */
  function Neg(self: Eks): Eks
  {
    NegEks(self)
  }

  /** Each overload builds a tree that evaluates to the operation it names,
      with the operands in the order the operator reads them. */
  lemma OperatorsEvaluate(which: Normalizer, self: Eks, other: Operand, d: seq<real>)
    requires NormalizeWith(which, other).Success?
    ensures
      var o := NormalizeWith(which, other).value;
      && Eval(Add(which, self, other).value, d) == Binary(Plus, Eval(self, d), Eval(o, d))
      && Eval(Sub(which, self, other).value, d) == Binary(Minus, Eval(self, d), Eval(o, d))
      && Eval(RSub(which, self, other).value, d) == Binary(Minus, Eval(o, d), Eval(self, d))
      && Eval(Mul(which, self, other).value, d) == Binary(Times, Eval(self, d), Eval(o, d))
      && Eval(Div(which, self, other).value, d) == Binary(Over, Eval(self, d), Eval(o, d))
      && Eval(RDiv(which, self, other).value, d) == Binary(Over, Eval(o, d), Eval(self, d))
  {
    var o := NormalizeWith(which, other).value;
    SubEval(self, o, d);
    RSubEval(self, o, d);
  }

  /** `-e` evaluates to the negation of e, and `-(-e)` to e. */
  lemma NegOperator(self: Eks, d: seq<real>)
    ensures Eval(Neg(self), d).Success? <==> Eval(self, d).Success?
    ensures Eval(Neg(self), d).Success? ==>
      forall i :: 0 <= i < |Eval(self, d).value| ==> Eval(Neg(self), d).value[i] == Negate(Eval(self, d).value[i])
    ensures Eval(Neg(Neg(self)), d) == Eval(self, d)
  {
    NegEval(self, d);
    NegNeg(self, d);
  }

  // ---------------------------------------------------------------------
  // Python 3 operator dispatch

  /** The binary operators `+`, `-`, `*` and `/`. */
  datatype PyOp = PyAdd | PySub | PyMul | PyTrueDiv

  function Arith(op: PyOp): BinOp
  {
    match op
    case PyAdd => Plus
    case PySub => Minus
    case PyMul => Times
    case PyTrueDiv => Over
  }

  /** `x op y` under Python 3 with the methods BaseEKS defines: the left
      operand's method if it has one, else the right operand's reflected
      method. `/` looks for `__truediv__`/`__rtruediv__`, which are not
      defined, and there is no `__radd__` or `__rmul__`; the numbers and
      tensors on the left return NotImplemented for an EKS operand. */
  function DispatchAsWritten(op: PyOp, x: Operand, y: Operand): (r: Result<Eks, Exception>)
    requires x.EksOperand? || y.EksOperand?
    ensures r.Failure? ==> r.error == TypeError
    ensures x.TensorOperand? || y.TensorOperand? ==> r == Failure(TypeError)
  {
    if x.EksOperand? then
      match op
      case PyAdd => Add(AsWritten, x.e, y)
      case PySub => Sub(AsWritten, x.e, y)
      case PyMul => Mul(AsWritten, x.e, y)
      case PyTrueDiv => Failure(TypeError)
    else
      match op
      case PySub => RSub(AsWritten, y.e, x)
      case _ => Failure(TypeError)
  }

  /** `__radd__` as evidently intended: the operand plus self. */
  function RAdd(self: Eks, other: Operand): (r: Result<Eks, Exception>)
    ensures r.Success? <==> Normalize(other).Success?
    ensures r.Failure? ==> r.error == TypeError
  {
    var o :- Normalize(other);
    Success(AddEks(o, self))
  }

  /** `__rmul__` as evidently intended: the operand times self. */
  function RMul(self: Eks, other: Operand): (r: Result<Eks, Exception>)
    ensures r.Success? <==> Normalize(other).Success?
    ensures r.Failure? ==> r.error == TypeError
  {
    var o :- Normalize(other);
    Success(MultEks(o, self))
  }

  /** `x op y` with the division methods under their Python 3 names and the
      reflected sum and product defined: it fails only when an operand
      cannot be normalized. */
  function Dispatch(op: PyOp, x: Operand, y: Operand): (r: Result<Eks, Exception>)
    requires x.EksOperand? || y.EksOperand?
    ensures r.Success? <==> Normalize(x).Success? && Normalize(y).Success?
    ensures r.Failure? ==> r.error == TypeError
  {
    if x.EksOperand? then
      match op
      case PyAdd => Add(Corrected, x.e, y)
      case PySub => Sub(Corrected, x.e, y)
      case PyMul => Mul(Corrected, x.e, y)
      case PyTrueDiv => Div(Corrected, x.e, y)
    else
      match op
      case PyAdd => RAdd(y.e, x)
      case PySub => RSub(Corrected, y.e, x)
      case PyMul => RMul(y.e, x)
      case PyTrueDiv => RDiv(Corrected, y.e, x)
  }

  /** Whichever side the EKS operand is on, `x op y` evaluates to the
      operation applied to x's and y's values in that order. */
  lemma DispatchEvaluates(op: PyOp, x: Operand, y: Operand, d: seq<real>)
    requires x.EksOperand? || y.EksOperand?
    requires Normalize(x).Success? && Normalize(y).Success?
    ensures Eval(Dispatch(op, x, y).value, d)
         == Binary(Arith(op), Eval(Normalize(x).value, d), Eval(Normalize(y).value, d))
  {
    if x.EksOperand? {
      OperatorsEvaluate(Corrected, x.e, y, d);
    } else {
      OperatorsEvaluate(Corrected, y.e, x, d);
    }
  }

  /** Where the written dispatch succeeds it builds the intended tree; it
      fails for every `/`, for `+` and `*` whenever the EKS operand is on
      the right, and whenever the other operand is a tensor. */
  lemma DispatchAsWrittenGaps(op: PyOp, x: Operand, y: Operand)
    requires x.EksOperand? || y.EksOperand?
    ensures DispatchAsWritten(op, x, y).Success? ==> DispatchAsWritten(op, x, y) == Dispatch(op, x, y)
    ensures DispatchAsWritten(op, x, y).Success?
        <==> && Dispatch(op, x, y).Success? && op != PyTrueDiv && (x.EksOperand? || op == PySub)
             && !x.TensorOperand? && !y.TensorOperand?
  {
  }

  /** `e + 2.0` works but `2.0 + e` raises, `e / 2.0` raises although
      `__div__` exists, and `e + torch.ones(3)` raises in `_normalize`; the
      intended dispatch gives trees that evaluate to the sum and the
      quotient, and wraps the tensor. */
  lemma ReflectedAndDivisionMissing(e: Eks, d: seq<real>)
    ensures DispatchAsWritten(PyAdd, EksOperand(e), FloatOperand(2.0)) == Success(AddEks(e, ConstEks(2.0)))
    ensures DispatchAsWritten(PyAdd, FloatOperand(2.0), EksOperand(e)) == Failure(TypeError)
    ensures DispatchAsWritten(PyMul, FloatOperand(2.0), EksOperand(e)) == Failure(TypeError)
    ensures DispatchAsWritten(PyTrueDiv, EksOperand(e), FloatOperand(2.0)) == Failure(TypeError)
    ensures DispatchAsWritten(PyAdd, EksOperand(e), TensorOperand([1.0, 1.0, 1.0])) == Failure(TypeError)
    ensures Dispatch(PyAdd, EksOperand(e), TensorOperand([1.0, 1.0, 1.0])) == Success(AddEks(e, TensorEks([1.0, 1.0, 1.0])))
    ensures Eval(Dispatch(PyAdd, FloatOperand(2.0), EksOperand(e)).value, d)
         == Eval(Dispatch(PyAdd, EksOperand(e), FloatOperand(2.0)).value, d)
    ensures Eval(Dispatch(PyTrueDiv, EksOperand(e), FloatOperand(2.0)).value, d)
         == Binary(Over, Eval(e, d), Eval(ConstEks(2.0), d))
  {
    AddCommutes(e, ConstEks(2.0), d);
  }
}
