/** Addition, subtraction and negation: one ripple-carry adder over the
    operands sign-extended to the result width, which is one bit wider than
    the wider operand, clamped to the bitwidth. */
module AddSub {
  import opened Arith
  import opened Circuit
  import opened Adder
  import opened BitVector

  /** One bit more than the wider operand, but never more than bitwidth. */
  function SumWidth(a: TwosComplementInt, b: TwosComplementInt): nat
  {
    Min(Max(|a.bits|, |b.bits|) + 1, a.factory.bitwidth)
  }

  function Plus(a: TwosComplementInt, b: TwosComplementInt): (r: TwosComplementInt)
    requires Valid(a) && Valid(b) && SameFactory(a, b)
    ensures r.factory == a.factory && Valid(r)
    ensures |r.bits| == SumWidth(a, b)
  {
    var w := SumWidth(a, b);
    TwosComplementInt(a.factory, Ripple(Extend(a, w), Extend(b, w), FALSE).sum)
  }

  /** The subtrahend's bits, complemented, for subtraction by adding. */
  function Negated(b: TwosComplementInt, w: nat): (r: seq<Node>)
    requires 1 <= |b.bits| <= w
    ensures |r| == w
  {
    seq(w, i requires 0 <= i < w => MkNot(Bit(b, i)))
  }

  lemma {:induction false} NegatedBits(b: TwosComplementInt, w: nat, env: Assignment)
    requires 1 <= |b.bits| <= w
    ensures EvalBits(Negated(b, w), env) == Complement(EvalBits(Extend(b, w), env))
  {
  }

  /** a - b computed as a + ~b + 1. */
  function Minus(a: TwosComplementInt, b: TwosComplementInt): (r: TwosComplementInt)
    requires Valid(a) && Valid(b) && SameFactory(a, b)
    ensures r.factory == a.factory && Valid(r)
    ensures |r.bits| == SumWidth(a, b)
  {
    var w := SumWidth(a, b);
    TwosComplementInt(a.factory, Ripple(Extend(a, w), Negated(b, w), TRUE).sum)
  }

  /** The exact result of a width-(m+1) operation on m-bit values also
      survives wrapping to any wider width. */
  lemma {:induction false} ExactAtSumWidth(x: int, m: nat, w: nat, bw: nat)
    requires 1 <= m && w == Min(m + 1, bw) && m <= bw && InRange(x, m + 1)
    ensures Wrap(x, w) == Wrap(x, bw)
    ensures w < bw ==> Wrap(x, w) == x
  {
    if w == m + 1 {
      WrapInRange(x, w);
      InRangeWiden(x, w, bw);
      WrapInRange(x, bw);
    }
  }

  /** The sum wraps to the bitwidth, and is exact below it. */
  lemma {:induction false} PlusValue(a: TwosComplementInt, b: TwosComplementInt, env: Assignment)
    requires Valid(a) && Valid(b) && SameFactory(a, b)
    ensures EvalInt(Plus(a, b), env) == Wrap(EvalInt(a, env) + EvalInt(b, env), a.factory.bitwidth)
    ensures |Plus(a, b).bits| < a.factory.bitwidth ==> EvalInt(Plus(a, b), env) == EvalInt(a, env) + EvalInt(b, env)
  {
    var w, m := SumWidth(a, b), Max(|a.bits|, |b.bits|);
    var x, y := EvalInt(a, env), EvalInt(b, env);
    PlusAtSumWidth(a, b, env);
    OperandsFit(a, b, env);
    ExactAtSumWidth(x + y, m, w, a.factory.bitwidth);
  }

  lemma {:induction false} PlusAtSumWidth(a: TwosComplementInt, b: TwosComplementInt, env: Assignment)
    requires Valid(a) && Valid(b) && SameFactory(a, b)
    ensures EvalInt(Plus(a, b), env) == Wrap(EvalInt(a, env) + EvalInt(b, env), SumWidth(a, b))
  {
    var w := SumWidth(a, b);
    var xa, yb := Extend(a, w), Extend(b, w);
    ExtendValue(a, w, env);
    ExtendValue(b, w, env);
    RippleWrap(xa, yb, FALSE, env, EvalInt(a, env) + EvalInt(b, env));
    assert Plus(a, b).bits == Ripple(xa, yb, FALSE).sum;
  }

  /** Both operands' values fit the wider operand's width. */
  lemma {:induction false} OperandsFit(a: TwosComplementInt, b: TwosComplementInt, env: Assignment)
    requires Valid(a) && Valid(b)
    ensures var m := Max(|a.bits|, |b.bits|);
      InRange(EvalInt(a, env) + EvalInt(b, env), m + 1) && InRange(EvalInt(a, env) - EvalInt(b, env), m + 1)
  {
    var m := Max(|a.bits|, |b.bits|);
    var x, y := EvalInt(a, env), EvalInt(b, env);
    ToIntRange(EvalBits(a.bits, env));
    ToIntRange(EvalBits(b.bits, env));
    InRangeWiden(x, |a.bits|, m);
    InRangeWiden(y, |b.bits|, m);
    InRangeAddSub(x, y, m);
  }

  /** The difference wraps to the bitwidth, and is exact below it. */
  lemma {:induction false} MinusValue(a: TwosComplementInt, b: TwosComplementInt, env: Assignment)
    requires Valid(a) && Valid(b) && SameFactory(a, b)
    ensures EvalInt(Minus(a, b), env) == Wrap(EvalInt(a, env) - EvalInt(b, env), a.factory.bitwidth)
    ensures |Minus(a, b).bits| < a.factory.bitwidth ==> EvalInt(Minus(a, b), env) == EvalInt(a, env) - EvalInt(b, env)
  {
    var w, m := SumWidth(a, b), Max(|a.bits|, |b.bits|);
    var x, y := EvalInt(a, env), EvalInt(b, env);
    MinusAtSumWidth(a, b, env);
    OperandsFit(a, b, env);
    ExactAtSumWidth(x - y, m, w, a.factory.bitwidth);
  }

  lemma {:induction false} MinusAtSumWidth(a: TwosComplementInt, b: TwosComplementInt, env: Assignment)
    requires Valid(a) && Valid(b) && SameFactory(a, b)
    ensures EvalInt(Minus(a, b), env) == Wrap(EvalInt(a, env) - EvalInt(b, env), SumWidth(a, b))
  {
    var w := SumWidth(a, b);
    var xa, nb := Extend(a, w), Negated(b, w);
    ExtendValue(a, w, env);
    NegatedValue(b, w, env);
    RippleWrap(xa, nb, TRUE, env, EvalInt(a, env) - EvalInt(b, env));
    assert Minus(a, b).bits == Ripple(xa, nb, TRUE).sum;
  }

  lemma {:induction false} NegatedValue(b: TwosComplementInt, w: nat, env: Assignment)
    requires 1 <= |b.bits| <= w
    ensures ToInt(EvalBits(Negated(b, w), env)) == -EvalInt(b, env) - 1
  {
    ExtendValue(b, w, env);
    NegatedBits(b, w, env);
    ToIntComplement(EvalBits(Extend(b, w), env));
  }

  /** Subtracting b undoes adding b, under every assignment. */
  lemma {:induction false} MinusUndoesPlus(a: TwosComplementInt, b: TwosComplementInt, env: Assignment)
    requires Valid(a) && Valid(b) && SameFactory(a, b)
    ensures EvalInt(Minus(Plus(a, b), b), env) == EvalInt(a, env)
  {
    var bw := a.factory.bitwidth;
    var s := Plus(a, b);
    var x, y, z := EvalInt(a, env), EvalInt(b, env), EvalInt(s, env);
    assert z == Wrap(x + y, bw) by {
      PlusValue(a, b, env);
    }
    assert EvalInt(Minus(s, b), env) == Wrap(z - y, bw) by {
      MinusValue(s, b, env);
    }
    assert InRange(x, bw) by {
      Fits(a, env);
    }
    WrapUndo(x, y, z, bw);
  }

  /** A value read from a vector fits the bitwidth. */
  lemma {:induction false} Fits(x: TwosComplementInt, env: Assignment)
    requires Valid(x)
    ensures InRange(EvalInt(x, env), x.factory.bitwidth)
  {
    ToIntRange(EvalBits(x.bits, env));
    InRangeWiden(EvalInt(x, env), |x.bits|, x.factory.bitwidth);
  }

  /** Adding y and then subtracting it, each wrapped, gives back x. */
  lemma {:induction false} WrapUndo(x: int, y: int, z: int, w: nat)
    requires w >= 1 && InRange(x, w) && z == Wrap(x + y, w)
    ensures Wrap(z - y, w) == x
  {
    WrapAdd(x + y, -y, w);
    WrapInRange(x, w);
  }

  /** Negation: the one-bit zero minus x. */
  function Negate(x: TwosComplementInt): (r: TwosComplementInt)
    requires Valid(x)
    ensures r.factory == x.factory && Valid(r)
    ensures |r.bits| == Min(|x.bits| + 1, x.factory.bitwidth)
  {
    Minus(TwosComplementInt(x.factory, [FALSE]), x)
  }

  lemma {:induction false} NegateValue(x: TwosComplementInt, env: Assignment)
    requires Valid(x)
    ensures EvalInt(Negate(x), env) == Wrap(-EvalInt(x, env), x.factory.bitwidth)
  {
    var zero := TwosComplementInt(x.factory, [FALSE]);
    MinusValue(zero, x, env);
    assert EvalBits(zero.bits, env) == [false];
    assert [false][..0] == [];
  }

  /** Negating twice gives back the value, the most negative one included. */
  lemma {:induction false} NegateInvolutive(x: TwosComplementInt, env: Assignment)
    requires Valid(x)
    ensures EvalInt(Negate(Negate(x)), env) == EvalInt(x, env)
  {
    var bw, v := x.factory.bitwidth, EvalInt(x, env);
    var n := Negate(x);
    var u := EvalInt(n, env);
    assert u == Wrap(-v, bw) by {
      NegateValue(x, env);
    }
    assert EvalInt(Negate(n), env) == Wrap(-u, bw) by {
      NegateValue(n, env);
    }
    assert Wrap(-u, bw) == v by {
      Fits(x, env);
      WrapNegate(v, u, bw);
    }
  }

  /** Negating twice modulo 2^w gives back any value in range. */
  lemma {:induction false} WrapNegate(v: int, u: int, w: nat)
    requires w >= 1 && InRange(v, w) && u == Wrap(-v, w)
    ensures Wrap(-u, w) == v
  {
    var k := WrapOffset(-v, w);
    var p := Pow2(w);
    assert u == -v + k * p;
    assert -u == v + (-k) * p by {
      assert (-k) * p == -(k * p);
    }
    WrapShift(-u, v, -k, w);
    WrapInRange(v, w);
  }
}
