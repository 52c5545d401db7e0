/** Bitwise and unary operations: position-wise gates over the operands
    sign-extended to the wider width, complement, choice, absolute value
    and sign. */
module Bitwise {
  import opened Arith
  import opened Circuit
  import opened BitVector
  import opened AddSub

  /** Binary bitwise operators on single bits. */
  datatype BitOp = AndBits | OrBits | XorBits

  function ApplyBit(op: BitOp, p: bool, q: bool): bool
  {
    match op
    case AndBits => p && q
    case OrBits => p || q
    case XorBits => p != q
  }

  function BitGate(op: BitOp, p: Node, q: Node): (r: Node)
    ensures forall env :: Eval(r, env) == ApplyBit(op, Eval(p, env), Eval(q, env))
  {
    match op
    case AndBits => MkAnd(p, q)
    case OrBits => MkOr(p, q)
    case XorBits => MkXor(p, q)
  }

  /** The gate applied to each pair of bits over the wider width. */
  function Bitwise(op: BitOp, a: TwosComplementInt, b: TwosComplementInt): (r: TwosComplementInt)
    requires Valid(a) && Valid(b) && SameFactory(a, b)
    ensures r.factory == a.factory && Valid(r)
    ensures |r.bits| == Max(|a.bits|, |b.bits|)
  {
    var w := Max(|a.bits|, |b.bits|);
    TwosComplementInt(a.factory, seq(w, i requires 0 <= i < w => BitGate(op, Bit(a, i), Bit(b, i))))
  }

  function And(a: TwosComplementInt, b: TwosComplementInt): (r: TwosComplementInt)
    requires Valid(a) && Valid(b) && SameFactory(a, b)
    ensures r.factory == a.factory && Valid(r)
    ensures |r.bits| == Max(|a.bits|, |b.bits|)
    ensures forall env, i: nat :: Eval(Bit(r, i), env) == (Eval(Bit(a, i), env) && Eval(Bit(b, i), env))
  {
    var r := Bitwise(AndBits, a, b);
    forall env, i: nat
      ensures Eval(Bit(r, i), env) == (Eval(Bit(a, i), env) && Eval(Bit(b, i), env))
    {
      BitwiseBits(AndBits, a, b, env);
    }
    r
  }

  function Or(a: TwosComplementInt, b: TwosComplementInt): (r: TwosComplementInt)
    requires Valid(a) && Valid(b) && SameFactory(a, b)
    ensures r.factory == a.factory && Valid(r)
    ensures |r.bits| == Max(|a.bits|, |b.bits|)
    ensures forall env, i: nat :: Eval(Bit(r, i), env) == (Eval(Bit(a, i), env) || Eval(Bit(b, i), env))
  {
    var r := Bitwise(OrBits, a, b);
    forall env, i: nat
      ensures Eval(Bit(r, i), env) == (Eval(Bit(a, i), env) || Eval(Bit(b, i), env))
    {
      BitwiseBits(OrBits, a, b, env);
    }
    r
  }

  function Xor(a: TwosComplementInt, b: TwosComplementInt): (r: TwosComplementInt)
    requires Valid(a) && Valid(b) && SameFactory(a, b)
    ensures r.factory == a.factory && Valid(r)
    ensures |r.bits| == Max(|a.bits|, |b.bits|)
    ensures forall env, i: nat :: Eval(Bit(r, i), env) == (Eval(Bit(a, i), env) != Eval(Bit(b, i), env))
  {
    var r := Bitwise(XorBits, a, b);
    forall env, i: nat
      ensures Eval(Bit(r, i), env) == (Eval(Bit(a, i), env) != Eval(Bit(b, i), env))
    {
      BitwiseBits(XorBits, a, b, env);
    }
    r
  }

  /** Every bit of the result, at every position including those past the
      width, is the operator applied to the operands' bits there. */
  lemma {:induction false} BitwiseBits(op: BitOp, a: TwosComplementInt, b: TwosComplementInt, env: Assignment)
    requires Valid(a) && Valid(b) && SameFactory(a, b)
    ensures forall i: nat :: Eval(Bit(Bitwise(op, a, b), i), env)
                          == ApplyBit(op, Eval(Bit(a, i), env), Eval(Bit(b, i), env))
  {
  }

  /** Bitwise complement keeps the width and maps v to -v - 1. */
  function Not(x: TwosComplementInt): (r: TwosComplementInt)
    requires Valid(x)
    ensures r.factory == x.factory && Valid(r)
    ensures |r.bits| == |x.bits|
    ensures forall env :: EvalInt(r, env) == -EvalInt(x, env) - 1
  {
    var r := TwosComplementInt(x.factory, seq(|x.bits|, i requires 0 <= i < |x.bits| => MkNot(x.bits[i])));
    assert forall env :: EvalInt(r, env) == -EvalInt(x, env) - 1 by {
      forall env
        ensures EvalInt(r, env) == -EvalInt(x, env) - 1
      {
        assert EvalBits(r.bits, env) == Complement(EvalBits(x.bits, env));
        ToIntComplement(EvalBits(x.bits, env));
      }
    }
    r
  }

  /** De Morgan on bit vectors: the complement of a conjunction is the
      disjunction of the complements, as integers under every assignment. */
  lemma {:induction false} NotAndIsOrNot(a: TwosComplementInt, b: TwosComplementInt, env: Assignment)
    requires Valid(a) && Valid(b) && SameFactory(a, b)
    ensures EvalInt(Not(And(a, b)), env) == EvalInt(Or(Not(a), Not(b)), env)
  {
    var w := Max(|a.bits|, |b.bits|);
    var l, r := Not(And(a, b)), Or(Not(a), Not(b));
    assert EvalBits(l.bits, env) == EvalBits(r.bits, env) by {
      forall i | 0 <= i < w
        ensures EvalBits(l.bits, env)[i] == EvalBits(r.bits, env)[i]
      {
        assert Bit(Not(a), i) == MkNot(Bit(a, i));
        assert Bit(Not(b), i) == MkNot(Bit(b, i));
      }
    }
  }

  /** Position-wise if-then-else over the wider width. */
  function Choice(x: TwosComplementInt, condition: Node, other: TwosComplementInt): (r: TwosComplementInt)
    requires Valid(x) && Valid(other) && SameFactory(x, other)
    ensures r.factory == x.factory && Valid(r)
    ensures |r.bits| == Max(|x.bits|, |other.bits|)
  {
    var w := Max(|x.bits|, |other.bits|);
    TwosComplementInt(x.factory, seq(w, i requires 0 <= i < w => MkIte(condition, Bit(x, i), Bit(other, i))))
  }

  /** The choice denotes the first operand where the condition holds and
      the second elsewhere. */
  lemma {:induction false} ChoiceValue(x: TwosComplementInt, condition: Node, other: TwosComplementInt, env: Assignment)
    requires Valid(x) && Valid(other) && SameFactory(x, other)
    ensures EvalInt(Choice(x, condition, other), env)
         == if Eval(condition, env) then EvalInt(x, env) else EvalInt(other, env)
  {
    var chosen := if Eval(condition, env) then x else other;
    ChoiceBits(x, condition, other, env);
    ExtendValue(chosen, Max(|x.bits|, |other.bits|), env);
  }

  lemma {:induction false} ChoiceBits(x: TwosComplementInt, condition: Node, other: TwosComplementInt, env: Assignment)
    requires Valid(x) && Valid(other) && SameFactory(x, other)
    ensures var chosen := if Eval(condition, env) then x else other;
      EvalBits(Choice(x, condition, other).bits, env) == EvalBits(Extend(chosen, Max(|x.bits|, |other.bits|)), env)
  {
    var w := Max(|x.bits|, |other.bits|);
    var chosen := if Eval(condition, env) then x else other;
    var cs := EvalBits(Choice(x, condition, other).bits, env);
    var es := EvalBits(Extend(chosen, w), env);
    forall i | 0 <= i < w
      ensures cs[i] == es[i]
    {
    }
  }

  /** Absolute value: x where its sign bit is clear, its negation elsewhere. */
  function Abs(x: TwosComplementInt): (r: TwosComplementInt)
    requires Valid(x)
    ensures r.factory == x.factory && Valid(r)
    ensures |r.bits| == Min(|x.bits| + 1, x.factory.bitwidth)
  {
    Choice(x, MkNot(x.bits[|x.bits| - 1]), Negate(x))
  }

  /** Non-negative values are kept; negative ones are negated modulo the
      bitwidth, so the most negative value stays where it is. */
  lemma {:induction false} AbsValue(x: TwosComplementInt, env: Assignment)
    requires Valid(x)
    ensures var v := EvalInt(x, env);
      EvalInt(Abs(x), env) == if v >= 0 then v else Wrap(-v, x.factory.bitwidth)
  {
    ChoiceValue(x, MkNot(x.bits[|x.bits| - 1]), Negate(x), env);
    NegateValue(x, env);
    ToIntSign(EvalBits(x.bits, env));
  }

  /** Sign: bit 0 is "some bit is set", bit 1 the sign bit, so the two bits
      read -1, 0 or 1. The width is always 2, even at bitwidth 1. */
  function Sgn(x: TwosComplementInt): (r: TwosComplementInt)
    requires Valid(x)
    ensures r.factory == x.factory
    ensures |r.bits| == 2
  {
    TwosComplementInt(x.factory, [Reduce(OrOp, x.bits), x.bits[|x.bits| - 1]])
  }

  /** A value is zero exactly when none of its bits is set. */
  lemma {:induction false} ZeroIffNoBitSet(s: seq<bool>)
    requires |s| >= 1
    ensures ToInt(s) == 0 <==> forall i :: 0 <= i < |s| ==> !s[i]
  {
    ToIntSign(s);
    if forall i :: 0 <= i < |s| ==> !s[i] {
      assert s == Fill(|s|, false);
      UnsignedZeros(|s|);
    } else if !s[|s| - 1] && ToInt(s) == 0 {
      UnsignedZeros(|s|);
      UnsignedInjective(s, Fill(|s|, false));
    }
  }

  lemma {:induction false} SgnValue(x: TwosComplementInt, env: Assignment)
    requires Valid(x)
    ensures var v := EvalInt(x, env);
      EvalInt(Sgn(x), env) == if v > 0 then 1 else if v == 0 then 0 else -1
  {
    var s := EvalBits(x.bits, env);
    ZeroIffNoBitSet(s);
    ToIntSign(s);
    var t := EvalBits(Sgn(x).bits, env);
    assert t[..1] == [t[0]];
    assert Unsigned(t) == Unsigned(t[..1]) + Weight(t[1], 1);
    assert Unsigned(t[..1]) == Unsigned([]) + Weight(t[0], 0);
    if Combine(OrOp, x.bits, env) {
      var i :| 0 <= i < |x.bits| && Eval(x.bits[i], env);
      assert s[i];
    }
  }
}
