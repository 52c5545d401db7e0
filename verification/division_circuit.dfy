/** The circuit side of non-restoring division. The partial remainder is a
    register of 2w+1 nodes. It starts as the dividend sign-extended, and
    each step shifts it left by one and adds the divisor, complemented with
    carry-in TRUE (a subtraction) when the quotient bit of that step is
    set, at bit position w. The lemmas show that under every assignment the
    register after i steps reads as the integer partial remainder Rem of
    DivisionTheory, and that the quotient bits read as its digits. */
module DivisionCircuit {
  import opened Arith
  import opened Circuit
  import opened Adder
  import opened BitVector
  import opened RingBuffer
  import opened DivisionTheory
  import Bitwise

  /** The register width: 2w+1 bits. */
  function Span(w: nat): nat
  {
    2 * w + 1
  }

  /** Both operands have between 1 and w bits, w being the bitwidth. */
  predicate Operands(a: TwosComplementInt, d: TwosComplementInt, w: nat)
  {
    1 <= |a.bits| <= w && 1 <= |d.bits| <= w
  }

  /** Bits 0 .. w of the divisor, each flipped when qb holds. */
  function Controlled(d: TwosComplementInt, qb: Node, w: nat): (r: seq<Node>)
    requires |d.bits| >= 1
    ensures |r| == w + 1
    ensures forall i :: 0 <= i <= w ==> r[i] == MkXor(qb, Bit(d, i))
  {
    seq(w + 1, i requires 0 <= i <= w => MkXor(qb, Bit(d, i)))
  }

  /** One step on the register: the quotient bit says whether the sign of
      the remainder agrees with the divisor's; then shift, and add the
      controlled divisor at position w with that bit as carry-in. */
  function Step(l: seq<Node>, d: TwosComplementInt, w: nat): (r: seq<Node>)
    requires |l| == Span(w) && |d.bits| >= 1
    ensures |r| == Span(w)
  {
    var qb := MkIff(l[2 * w], Bit(d, w));
    var sh := Shifted(l);
    sh[..w] + Ripple(sh[w..], Controlled(d, qb, w), qb).sum
  }

  /** The register after i steps. */
  function State(a: TwosComplementInt, d: TwosComplementInt, w: nat, i: nat): (r: seq<Node>)
    requires Operands(a, d, w)
    ensures |r| == Span(w)
    decreases i
  {
    if i == 0 then Extend(a, Span(w)) else Step(State(a, d, w, i - 1), d, w)
  }

  /** The quotient bit of step i. */
  function QNode(a: TwosComplementInt, d: TwosComplementInt, w: nat, i: nat): Node
    requires Operands(a, d, w)
  {
    MkIff(State(a, d, w, i)[2 * w], Bit(d, w))
  }

  // ---------------------------------------------------------------------
  // Values under an assignment

  /** Bit w of a vector of at most w bits is its sign. */
  lemma {:induction false} SignBitValue(x: TwosComplementInt, w: nat, env: Assignment)
    requires 1 <= |x.bits| <= w
    ensures Eval(Bit(x, w), env) == (EvalInt(x, env) < 0)
  {
    ToIntSign(EvalBits(x.bits, env));
  }

  /** Both operands denote w-bit values. */
  lemma {:induction false} OperandRanges(a: TwosComplementInt, d: TwosComplementInt, w: nat, env: Assignment)
    requires Operands(a, d, w)
    ensures InRange(EvalInt(a, env), w) && InRange(EvalInt(d, env), w)
  {
    ToIntRange(EvalBits(a.bits, env));
    ToIntRange(EvalBits(d.bits, env));
    InRangeWiden(EvalInt(a, env), |a.bits|, w);
    InRangeWiden(EvalInt(d, env), |d.bits|, w);
  }

  /** The shifted register reads as twice the register, when the register's
      value fits in 2w bits. */
  lemma {:induction false} ShiftedValue(l: seq<Node>, w: nat, env: Assignment, s: int)
    requires |l| == Span(w) && w >= 1
    requires s == ToInt(EvalBits(l, env)) && InRange(s, 2 * w)
    ensures ToInt(EvalBits(Shifted(l), env)) == 2 * s
  {
    var e := EvalBits(l, env);
    var f := EvalBits(Shifted(l), env);
    assert f == [false] + e[..2 * w];
    assert f[1..] == e[..2 * w];
    assert ToInt(f) == 2 * ToInt(e[..2 * w]) by {
      ToIntDropLow(f);
    }
    assert ToInt(e[..2 * w]) == s by {
      ToIntPrefix(e, 2 * w);
      WrapInRange(s, 2 * w);
    }
  }

  /** The controlled divisor plus its carry-in adds -d when qb holds and d
      otherwise. */
  lemma {:induction false} ControlledValue(d: TwosComplementInt, qb: Node, w: nat, env: Assignment)
    requires 1 <= |d.bits| <= w
    ensures ToInt(EvalBits(Controlled(d, qb, w), env)) + Weight(Eval(qb, env), 0)
      == (if Eval(qb, env) then -EvalInt(d, env) else EvalInt(d, env))
  {
    var c := EvalBits(Controlled(d, qb, w), env);
    var ext := EvalBits(Extend(d, w + 1), env);
    assert ToInt(ext) == EvalInt(d, env) by {
      ExtendValue(d, w + 1, env);
    }
    if Eval(qb, env) {
      assert c == Complement(ext);
      assert ToInt(c) == -ToInt(ext) - 1 by {
        ToIntComplement(ext);
      }
    } else {
      assert c == ext;
    }
  }

  /** One step of the register computes one step of the recurrence. */
  lemma {:induction false} StepValue(l: seq<Node>, d: TwosComplementInt, w: nat, env: Assignment, s: int)
    requires |l| == Span(w) && w >= 1 && 1 <= |d.bits| <= w
    requires s == ToInt(EvalBits(l, env)) && EvalInt(d, env) != 0
    requires -Bound(EvalInt(d, env), w) <= s < Bound(EvalInt(d, env), w)
    requires Bound(EvalInt(d, env), w) <= Pow2(2 * w - 1)
    ensures ToInt(EvalBits(Step(l, d, w), env)) == NextRem(s, EvalInt(d, env), w)
  {
    var dv := EvalInt(d, env);
    var qb := MkIff(l[2 * w], Bit(d, w));
    assert Eval(qb, env) == QBit(s, dv) by {
      ToIntSign(EvalBits(l, env));
      SignBitValue(d, w, env);
    }
    var sh := Shifted(l);
    var y := Controlled(d, qb, w);
    var delta := if QBit(s, dv) then -dv else dv;
    assert ToInt(EvalBits(y, env)) + Weight(Eval(qb, env), 0) == delta by {
      ControlledValue(d, qb, w, env);
    }
    assert ToInt(EvalBits(sh, env)) == 2 * s by {
      ShiftedValue(l, w, env, s);
    }
    var sum := Ripple(sh[w..], y, qb).sum;
    assert Step(l, d, w) == sh[..w] + sum;
    NextRemFits(s, dv, w);
    StepCore(sh, sum, w, env, s, dv, delta, y, qb);
  }

  /** The step on values: the assembled register reads as NextRem. */
  lemma {:induction false} StepCore(sh: seq<Node>, sum: seq<Node>, w: nat, env: Assignment, s: int, dv: int, delta: int,
                 y: seq<Node>, qb: Node)
    requires |sh| == Span(w) && w >= 1 && |y| == w + 1 && dv != 0
    requires ToInt(EvalBits(sh, env)) == 2 * s
    requires ToInt(EvalBits(y, env)) + Weight(Eval(qb, env), 0) == delta
    requires delta == (if QBit(s, dv) then -dv else dv)
    requires sum == Ripple(sh[w..], y, qb).sum
    requires -Pow2(2 * w) <= NextRem(s, dv, w) < Pow2(2 * w)
    ensures ToInt(EvalBits(sh[..w] + sum, env)) == NextRem(s, dv, w)
  {
    var next := NextRem(s, dv, w);
    var h := Pow2(2 * w);
    var x := ToInt(EvalBits(sh[..w] + sum, env));
    var k := StepAssemble(sh, sum, w, env, s, delta, y, qb);
    assert next == 2 * s + Pow2(w) * delta by {
      NextRemForm(s, dv, w, delta);
    }
    assert -h <= x < h by {
      ToIntRange(EvalBits(sh[..w] + sum, env));
    }
    WideEqual(x, next, h, k);
  }

  lemma {:induction false} NextRemForm(s: int, dv: int, w: nat, delta: int)
    requires delta == (if QBit(s, dv) then -dv else dv)
    ensures NextRem(s, dv, w) == 2 * s + Pow2(w) * delta
  {
    assert Pow2(w) * (-dv) == -(Pow2(w) * dv);
  }

  /** While the remainder stays within the bound, the next one fits in 2w+1
      bits. */
  lemma {:induction false} NextRemFits(s: int, dv: int, w: nat)
    requires w >= 1 && dv != 0
    requires -Bound(dv, w) <= s < Bound(dv, w) && Bound(dv, w) <= Pow2(2 * w - 1)
    ensures -Pow2(2 * w) <= NextRem(s, dv, w) < Pow2(2 * w)
  {
    NextRemRange(s, dv, w, Bound(dv, w));
    assert Pow2(2 * w) == 2 * Pow2(2 * w - 1);
  }

  /** Two values in [-h, h) that differ by a multiple of 2h are equal. */
  lemma {:induction false} WideEqual(x: int, y: int, h: int, k: int)
    requires h >= 1 && -h <= x < h && -h <= y < h
    requires x - y == k * (2 * h)
    ensures x == y
  {
    if k >= 1 {
      MulAtLeast(k, 2 * h);
    } else if k <= -1 {
      MulAtLeast(-k, 2 * h);
    }
  }

  /** The register after the step: the low w bits of the shifted register
      followed by the w+1 bit sum, which is the shifted value plus 2^w
      times delta, up to a multiple of 2^(2w+1). */
  lemma {:induction false} StepAssemble(sh: seq<Node>, sum: seq<Node>, w: nat, env: Assignment, s: int, delta: int,
                     y: seq<Node>, qb: Node) returns (k: int)
    requires |sh| == Span(w) && w >= 1 && |y| == w + 1
    requires ToInt(EvalBits(sh, env)) == 2 * s
    requires ToInt(EvalBits(y, env)) + Weight(Eval(qb, env), 0) == delta
    requires sum == Ripple(sh[w..], y, qb).sum
    ensures ToInt(EvalBits(sh[..w] + sum, env)) - (2 * s + Pow2(w) * delta) == k * (2 * Pow2(2 * w))
  {
    var e := EvalBits(sh, env);
    var p := Pow2(w);
    var u, h := Unsigned(e[..w]), ToInt(e[w..]);
    assert 2 * s == u + p * h by {
      ToIntSplit(e, w);
    }
    var se := EvalBits(sum, env);
    var sv := ToInt(se);
    assert sv == Wrap(h + delta, w + 1) by {
      assert EvalBits(sh[w..], env) == e[w..];
      RippleWrap(sh[w..], y, qb, env, h + delta);
    }
    var x := ToInt(EvalBits(sh[..w] + sum, env));
    assert x == u + p * sv by {
      var nb := EvalBits(sh[..w] + sum, env);
      assert nb[..w] == e[..w] && nb[w..] == se;
      ToIntSplit(nb, w);
    }
    k := WrapArith(u, p, h, delta, sv, x, s, w);
  }

  /** The arithmetic of the step: with sv the wrapped sum of the upper
      part, the assembled value is off from 2s + 2^w * delta by a multiple
      of 2^(2w+1). */
  lemma {:induction false} WrapArith(u: int, p: int, h: int, delta: int, sv: int, x: int, s: int, w: nat) returns (k: int)
    requires p == Pow2(w) && 2 * s == u + p * h
    requires sv == Wrap(h + delta, w + 1) && x == u + p * sv
    ensures x - (2 * s + p * delta) == k * (2 * Pow2(2 * w))
  {
    k := WrapOffset(h + delta, w + 1);
    var p1 := Pow2(w + 1);
    Pow2Double(w);
    StepArith(u, p, h, delta, k, p1, x, sv);
  }

  lemma {:induction false} Pow2Double(w: nat)
    ensures 2 * Pow2(2 * w) == Pow2(w) * Pow2(w + 1)
  {
    Pow2Add(w, w + 1);
    assert w + (w + 1) == 2 * w + 1;
  }

  lemma {:induction false} StepArith(u: int, p: int, h: int, delta: int, k: int, p1: int, x: int, sv: int)
    requires sv == h + delta + k * p1 && x == u + p * sv
    ensures x - ((u + p * h) + p * delta) == k * (p * p1)
  {
    assert p * sv == p * h + p * delta + p * (k * p1);
  }

  /** The register after i steps is one step from the register after i-1. */
  lemma {:induction false} StateNext(a: TwosComplementInt, d: TwosComplementInt, w: nat, i: nat)
    requires Operands(a, d, w) && i >= 1
    ensures State(a, d, w, i) == Step(State(a, d, w, i - 1), d, w)
  {
  }

  /** Under every assignment with a non-zero divisor, the register after i
      steps reads as the i-th partial remainder. */
  lemma {:induction false} StateValue(a: TwosComplementInt, d: TwosComplementInt, w: nat, i: nat, env: Assignment)
    requires Operands(a, d, w) && w >= 1 && EvalInt(d, env) != 0
    ensures ToInt(EvalBits(State(a, d, w, i), env)) == Rem(EvalInt(a, env), EvalInt(d, env), w, i)
    decreases i
  {
    if i == 0 {
      ExtendValue(a, Span(w), env);
    } else {
      var prev := i - 1;
      var av, dv := EvalInt(a, env), EvalInt(d, env);
      var r := Rem(av, dv, w, prev);
      var st := State(a, d, w, prev);
      StateNext(a, d, w, i);
      assert Rem(av, dv, w, i) == NextRem(r, dv, w);
      assert ToInt(EvalBits(Step(st, d, w), env)) == NextRem(r, dv, w) by {
        assert ToInt(EvalBits(st, env)) == r by {
          StateValue(a, d, w, prev, env);
        }
        assert -Bound(dv, w) <= r < Bound(dv, w) && Bound(dv, w) <= Pow2(2 * w - 1) by {
          OperandRanges(a, d, w, env);
          DividendFits(av, dv, w);
          BoundFits(dv, w);
          RemRange(av, dv, w, prev, Bound(dv, w));
        }
        StepValue(st, d, w, env, r);
      }
    }
  }

  /** The quotient bit of step i is the digit of the recurrence. */
  lemma {:induction false} QNodeValue(a: TwosComplementInt, d: TwosComplementInt, w: nat, i: nat, env: Assignment)
    requires Operands(a, d, w) && w >= 1 && EvalInt(d, env) != 0
    ensures Eval(QNode(a, d, w, i), env) == QBit(Rem(EvalInt(a, env), EvalInt(d, env), w, i), EvalInt(d, env))
  {
    StateValue(a, d, w, i, env);
    ToIntSign(EvalBits(State(a, d, w, i), env));
    SignBitValue(d, w, env);
  }

  /** Some bit of the register is set exactly when the partial remainder is
      non-zero. */
  lemma {:induction false} OrValue(a: TwosComplementInt, d: TwosComplementInt, w: nat, i: nat, env: Assignment)
    requires Operands(a, d, w) && w >= 1 && EvalInt(d, env) != 0
    ensures Combine(OrOp, State(a, d, w, i), env) <==> Rem(EvalInt(a, env), EvalInt(d, env), w, i) != 0
  {
    StateValue(a, d, w, i, env);
    Bitwise.ZeroIffNoBitSet(EvalBits(State(a, d, w, i), env));
  }

  // ---------------------------------------------------------------------
  // Reading the quotient bits

  /** The quotient bit of step j sits at position w-1-j. */
  ghost predicate QuotientDigits(bs: seq<bool>, av: int, dv: int, w: nat)
  {
    |bs| == w && forall j :: 0 <= j < w ==> bs[w - 1 - j] == QBit(Rem(av, dv, w, j), dv)
  }

  /** The top i quotient bits, read unsigned, give the first i digits: each
      set bit is a digit +1 and each clear bit a digit -1. */
  lemma {:induction false} DigitsUnsigned(bs: seq<bool>, av: int, dv: int, w: nat, i: nat)
    requires QuotientDigits(bs, av, dv, w) && i <= w
    ensures Digits(av, dv, w, i) == 2 * Unsigned(bs[w - i..]) + 1 - Pow2(i)
    decreases i
  {
    if i > 0 {
      var prev := i - 1;
      DigitsUnsigned(bs, av, dv, w, prev);
      var b := bs[w - i];
      assert b == QBit(Rem(av, dv, w, prev), dv);
      assert bs[w - i..] == [b] + bs[w - prev..];
      assert Unsigned(bs[w - i..]) == Weight(b, 0) + 2 * Unsigned(bs[w - prev..]) by {
        UnsignedConcat([b], bs[w - prev..]);
        assert Unsigned([b]) == Weight(b, 0) by {
          assert [b][..0] == [];
        }
      }
    }
  }

  /** Shifting the quotient bits up by one and setting bit 0 gives, in two's
      complement, the digits' value wrapped to w bits. */
  lemma {:induction false} QuotientValue(bs: seq<bool>, av: int, dv: int, w: nat)
    requires QuotientDigits(bs, av, dv, w) && w >= 1
    ensures ToInt([true] + bs[..w - 1]) == Wrap(Digits(av, dv, w, w), w)
  {
    var e := [true] + bs[..w - 1];
    var top := bs[w - 1];
    var lowU := Unsigned(bs[..w - 1]);
    assert Digits(av, dv, w, w) == 2 * Unsigned(bs) + 1 - Pow2(w) by {
      DigitsUnsigned(bs, av, dv, w, w);
      assert bs[w - w..] == bs;
    }
    assert Unsigned(bs) == lowU + Weight(top, w - 1);
    assert Unsigned(e) == 1 + 2 * lowU by {
      UnsignedConcat([true], bs[..w - 1]);
      assert [true][..0] == [];
    }
    assert ToInt(e) == Wrap(Unsigned(e), w) by {
      ToIntIsWrap(e);
    }
    var k := if top then 0 else 1;
    assert Pow2(w) == 2 * Pow2(w - 1);
    WrapShift(Unsigned(e), Digits(av, dv, w, w), k, w);
  }

  /** The top w+1 bits of a register whose value is 2^w * r read as r. */
  lemma {:induction false} HighPartValue(l: seq<Node>, w: nat, env: Assignment, r: int)
    requires |l| == Span(w) && ToInt(EvalBits(l, env)) == Pow2(w) * r
    ensures ToInt(EvalBits(l[w..], env)) == r
  {
    var e := EvalBits(l, env);
    var p := Pow2(w);
    var u, h := Unsigned(e[..w]), ToInt(e[w..]);
    assert p * r == u + p * h by {
      ToIntSplit(e, w);
    }
    assert u < p by {
      UnsignedBound(e[..w]);
    }
    ScaleEqual(p, r, u, h);
    assert EvalBits(l[w..], env) == e[w..];
  }

  lemma {:induction false} ScaleEqual(p: int, r: int, u: int, h: int)
    requires p >= 1 && p * r == u + p * h && 0 <= u < p
    ensures r == h
  {
    assert p * (r - h) == u;
    if r - h >= 1 {
      MulAtLeast(r - h, p);
    } else if r - h <= -1 {
      MulAtLeast(h - r, p);
    }
  }
}
