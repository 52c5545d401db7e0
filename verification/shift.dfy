/** The barrel shifters: shift left, logical shift right and arithmetic
    shift right by an amount held in another bit vector. Stage i of a
    shifter moves every bit by 2^i positions where bit i of the amount is
    set, and leaves it where it is otherwise; there is one stage per bit of
    the bitwidth, so the amount is read as its low bitwidth bits. */
module Shift {
  import opened Arith
  import opened Circuit
  import opened BitVector

  // ---------------------------------------------------------------------
  // Shifting truth values

  /** s moved up by sh positions, zeros shifted in at the bottom, bits
      shifted out at the top dropped. */
  function ShiftedLeft(s: seq<bool>, sh: nat): (r: seq<bool>)
    ensures |r| == |s|
  {
    seq(|s|, j requires 0 <= j < |s| => if j < sh then false else s[j - sh])
  }

  /** s moved down by sh positions, fill shifted in at the top. */
  function ShiftedRight(s: seq<bool>, sh: nat, fill: bool): (r: seq<bool>)
    ensures |r| == |s|
  {
    seq(|s|, j requires 0 <= j < |s| => if j + sh < |s| then s[j + sh] else fill)
  }

  lemma {:induction false} LowHighArith(us: int, lo: int, hi: int, p: int, pk: int, m: int, ut: int)
    requires us == lo + pk * hi && m == p * pk && ut == p * lo && 0 <= ut < m
    ensures (us * p) % m == ut
  {
    assert us * p == ut + hi * m;
    DivModUnique(us * p, m, hi, ut);
  }

  lemma {:induction false} MulRegroup(x: int, e: int, m: int, p: int)
    requires p == m * e
    ensures x * p == (x * e) * m
  {
  }

  /** Shifting left by sh multiplies the unsigned reading by 2^sh modulo
      2^|s|. */
  lemma {:induction false} ShiftedLeftValue(s: seq<bool>, sh: nat, p: int, m: int)
    requires p == Pow2(sh) && m == Pow2(|s|)
    ensures Unsigned(ShiftedLeft(s, sh)) == (Unsigned(s) * p) % m
  {
    var t := ShiftedLeft(s, sh);
    var n := |s|;
    if sh >= n {
      assert t == Fill(n, false);
      UnsignedZeros(n);
      var e := Pow2(sh - n);
      Pow2Add(n, sh - n);
      assert n + (sh - n) == sh;
      assert p == m * e;
      MulRegroup(Unsigned(s), e, m, p);
      DivModUnique(Unsigned(s) * p, m, Unsigned(s) * e, 0);
    } else {
      var k := n - sh;
      var zeros, low := Fill(sh, false), s[..k];
      assert t == zeros + low;
      UnsignedConcat(zeros, low);
      UnsignedZeros(sh);
      assert Unsigned(t) == p * Unsigned(low);
      UnsignedSplit(s, k);
      UnsignedBound(t);
      Pow2Add(sh, k);
      LowHighArith(Unsigned(s), Unsigned(s[..k]), Unsigned(s[k..]), p, Pow2(k), m, Unsigned(t));
    }
  }

  /** Shifting right with zero fill divides the unsigned reading by 2^sh. */
  lemma {:induction false} ShiftedRightValue(s: seq<bool>, sh: nat, p: int)
    requires p == Pow2(sh)
    ensures Unsigned(ShiftedRight(s, sh, false)) == Unsigned(s) / p
  {
    if sh >= |s| {
      ShiftedOutValue(s, sh, p);
    } else {
      ShiftedPartlyValue(s, sh, p);
    }
  }

  lemma {:induction false} ShiftedOutValue(s: seq<bool>, sh: nat, p: int)
    requires p == Pow2(sh) && sh >= |s|
    ensures Unsigned(ShiftedRight(s, sh, false)) == Unsigned(s) / p
  {
    var n := |s|;
    assert ShiftedRight(s, sh, false) == Fill(n, false);
    UnsignedZeros(n);
    UnsignedBound(s);
    Pow2Monotone(n, sh);
    DivModUnique(Unsigned(s), p, 0, Unsigned(s));
  }

  lemma {:induction false} SplitDiv(u: int, lo: int, hi: int, p: int)
    requires u == lo + p * hi && 0 <= lo < p
    ensures u / p == hi
  {
    DivModUnique(u, p, hi, lo);
  }

  lemma {:induction false} ShiftedPartlyValue(s: seq<bool>, sh: nat, p: int)
    requires p == Pow2(sh) && sh < |s|
    ensures Unsigned(ShiftedRight(s, sh, false)) == Unsigned(s) / p
  {
    var t := ShiftedRight(s, sh, false);
    var high, zeros := s[sh..], Fill(sh, false);
    assert t == high + zeros;
    UnsignedConcat(high, zeros);
    UnsignedZeros(sh);
    assert Unsigned(t) == Unsigned(high);
    UnsignedSplit(s, sh);
    UnsignedBound(s[..sh]);
    var lo, hi := Unsigned(s[..sh]), Unsigned(high);
    SplitDiv(Unsigned(s), lo, hi, p);
  }

  /** Shifting right with the sign bit as fill is floor division of the
      two's-complement reading by 2^sh. */
  lemma {:induction false} ShiftedRightSignedValue(s: seq<bool>, sh: nat, p: int)
    requires |s| >= 1 && p == Pow2(sh)
    ensures ToInt(ShiftedRight(s, sh, s[|s| - 1])) == ToInt(s) / p
  {
    var n := |s|;
    var top := s[n - 1];
    var t := ShiftedRight(s, sh, top);
    ToIntRange(s);
    ToIntSign(s);
    if sh >= n {
      assert t == Fill(n, top);
      Pow2Monotone(n - 1, sh);
      if top {
        UnsignedOnes(n);
        DivModUnique(ToInt(s), p, -1, ToInt(s) + p);
      } else {
        UnsignedZeros(n);
        DivModUnique(ToInt(s), p, 0, ToInt(s));
      }
    } else {
      assert t == SignExtend(s[sh..], n);
      SignExtendValue(s[sh..], n);
      ToIntSplit(s, sh);
      UnsignedBound(s[..sh]);
      DivModUnique(ToInt(s), p, ToInt(s[sh..]), Unsigned(s[..sh]));
    }
  }

  /** Floor division by a then by b is floor division by a * b. */
  lemma {:induction false} DivDiv(x: int, a: int, b: int, ab: int)
    requires a > 0 && b > 0 && ab == a * b
    ensures (x / a) / b == x / ab
  {
    var q1, r1 := x / a, x % a;
    var q2, r2 := q1 / b, q1 % b;
    assert x == q2 * ab + (r2 * a + r1) by {
      assert x == q1 * a + r1;
      assert q1 == q2 * b + r2;
    }
    MulMonotone(r2, a, b - 1, a);
    assert (b - 1) * a == ab - a;
    DivModUnique(x, ab, q2, r2 * a + r1);
  }

  lemma {:induction false} MulAssoc(x: int, a: int, b: int, ab: int)
    requires ab == a * b
    ensures (x * a) * b == x * ab
  {
  }

  lemma {:induction false} ModMulMod(y: int, c: int, m: int)
    requires m > 0
    ensures ((y % m) * c) % m == (y * c) % m
  {
    var q := y / m;
    assert y * c == (y % m) * c + (q * c) * m;
    ModAddMultiple((y % m) * c, q * c, m);
  }

  // ---------------------------------------------------------------------
  // Stages on circuit nodes

  /** One left-shifter stage: where bit is set, position j takes the node
      sh positions below it (FALSE below position sh). */
  function ShlStage(bits: seq<Node>, bit: Node, sh: nat): (r: seq<Node>)
    ensures |r| == |bits|
  {
    seq(|bits|, j requires 0 <= j < |bits| => MkIte(bit, if j < sh then FALSE else bits[j - sh], bits[j]))
  }

  /** One right-shifter stage: where bit is set, position j takes the node
      sh positions above it (the fill node past the top). */
  function ShrStage(bits: seq<Node>, bit: Node, sh: nat, fill: Node): (r: seq<Node>)
    ensures |r| == |bits|
  {
    seq(|bits|, j requires 0 <= j < |bits| => MkIte(bit, Above(bits, j, sh, fill), bits[j]))
  }

  /** The node sh positions above position j, or fill past the top. */
  function Above(bits: seq<Node>, j: nat, sh: nat, fill: Node): Node
  {
    if j + sh < |bits| then bits[j + sh] else fill
  }

  lemma {:induction false} ShlStageEval(bits: seq<Node>, bit: Node, sh: nat, env: Assignment)
    ensures EvalBits(ShlStage(bits, bit, sh), env)
         == if Eval(bit, env) then ShiftedLeft(EvalBits(bits, env), sh) else EvalBits(bits, env)
  {
  }

  lemma {:induction false} ShrStageEval(bits: seq<Node>, bit: Node, sh: nat, fill: Node, env: Assignment)
    ensures EvalBits(ShrStage(bits, bit, sh, fill), env)
         == if Eval(bit, env) then ShiftedRight(EvalBits(bits, env), sh, Eval(fill, env)) else EvalBits(bits, env)
  {
    if Eval(bit, env) {
      ShrStageOn(bits, bit, sh, fill, env);
    } else {
      ShrStageOff(bits, bit, sh, fill, env);
    }
  }

  lemma {:induction false} ShrStageOn(bits: seq<Node>, bit: Node, sh: nat, fill: Node, env: Assignment)
    requires Eval(bit, env)
    ensures EvalBits(ShrStage(bits, bit, sh, fill), env) == ShiftedRight(EvalBits(bits, env), sh, Eval(fill, env))
  {
    var l := EvalBits(ShrStage(bits, bit, sh, fill), env);
    var shifted := ShiftedRight(EvalBits(bits, env), sh, Eval(fill, env));
    forall j | 0 <= j < |bits|
      ensures l[j] == shifted[j]
    {
      assert ShrStage(bits, bit, sh, fill)[j] == MkIte(bit, Above(bits, j, sh, fill), bits[j]);
    }
  }

  lemma {:induction false} ShrStageOff(bits: seq<Node>, bit: Node, sh: nat, fill: Node, env: Assignment)
    requires !Eval(bit, env)
    ensures EvalBits(ShrStage(bits, bit, sh, fill), env) == EvalBits(bits, env)
  {
    var l := EvalBits(ShrStage(bits, bit, sh, fill), env);
    forall j | 0 <= j < |bits|
      ensures l[j] == EvalBits(bits, env)[j]
    {
      assert ShrStage(bits, bit, sh, fill)[j] == MkIte(bit, Above(bits, j, sh, fill), bits[j]);
    }
  }

  /** The in-place left stage: positions are rewritten from the top down,
      so the node read at j - sh has not been overwritten yet. */
  method ShlStep(bits: seq<Node>, bit: Node, sh: nat) returns (r: seq<Node>)
    ensures r == ShlStage(bits, bit, sh)
  {
    r := bits;
    var j := |bits| - 1;
    while j >= 0
      invariant -1 <= j < |bits| && |r| == |bits|
      invariant forall k :: 0 <= k <= j ==> r[k] == bits[k]
      invariant forall k :: j < k < |bits| ==> r[k] == ShlStage(bits, bit, sh)[k]
    {
      var moved := if j < sh then FALSE else r[j - sh];
      r := r[j := MkIte(bit, moved, r[j])];
      j := j - 1;
    }
  }

  /** The in-place right stage: positions are rewritten from the bottom up,
      so the node read at j + sh has not been overwritten yet. */
  method ShrStep(bits: seq<Node>, bit: Node, sh: nat, fill: Node) returns (r: seq<Node>)
    ensures r == ShrStage(bits, bit, sh, fill)
  {
    r := bits;
    var j := 0;
    while j < |bits|
      invariant 0 <= j <= |bits| && |r| == |bits|
      invariant forall k :: j <= k < |bits| ==> r[k] == bits[k]
      invariant forall k :: 0 <= k < j ==> r[k] == ShrStage(bits, bit, sh, fill)[k]
    {
      var moved := Above(r, j, sh, fill);
      r := r[j := MkIte(bit, moved, r[j])];
      j := j + 1;
    }
  }

  /** The first i stages of the left shifter, stage k shifting by 2^k under
      bit k of the amount. */
  function ShlStages(x: seq<Node>, amount: seq<Node>, i: nat): (r: seq<Node>)
    requires i <= |amount|
    ensures |r| == |x|
    decreases i
  {
    if i == 0 then x else ShlStage(ShlStages(x, amount, i - 1), amount[i - 1], Pow2(i - 1))
  }

  function ShrStages(x: seq<Node>, amount: seq<Node>, i: nat, fill: Node): (r: seq<Node>)
    requires i <= |amount|
    ensures |r| == |x|
    decreases i
  {
    if i == 0 then x else ShrStage(ShrStages(x, amount, i - 1, fill), amount[i - 1], Pow2(i - 1), fill)
  }

  lemma {:induction false} ShlStagesNext(x: seq<Node>, amount: seq<Node>, i: nat, next: nat)
    requires i < |amount| && next == i + 1
    ensures ShlStages(x, amount, next) == ShlStage(ShlStages(x, amount, i), amount[i], Pow2(i))
  {
  }

  lemma {:induction false} ShrStagesNext(x: seq<Node>, amount: seq<Node>, i: nat, next: nat, fill: Node)
    requires i < |amount| && next == i + 1
    ensures ShrStages(x, amount, next, fill) == ShrStage(ShrStages(x, amount, i, fill), amount[i], Pow2(i), fill)
  {
  }

  lemma {:induction false} StageExponent(amt: seq<bool>, i: nat, k: int, sh: int)
    requires 1 <= i <= |amt| && k == Unsigned(amt[..i - 1]) && sh == Pow2(i - 1)
    ensures Unsigned(amt[..i]) == if amt[i - 1] then k + sh else k
  {
    UnsignedPrefix(amt, i - 1);
  }

  /** After i left stages the unsigned reading is the input's times 2^K
      modulo 2^|x|, K the unsigned reading of the first i amount bits. */
  lemma {:induction false} ShlStagesValue(x: seq<Node>, amount: seq<Node>, i: nat, env: Assignment)
    requires i <= |amount|
    ensures Unsigned(EvalBits(ShlStages(x, amount, i), env))
         == (Unsigned(EvalBits(x, env)) * Pow2(Unsigned(EvalBits(amount, env)[..i]))) % Pow2(|x|)
    decreases i
  {
    if i == 0 {
      var ux := Unsigned(EvalBits(x, env));
      UnsignedBound(EvalBits(x, env));
      assert EvalBits(amount, env)[..0] == [];
      DivModUnique(ux, Pow2(|x|), 0, ux);
    } else {
      ShlStagesValue(x, amount, i - 1, env);
      ShlStagesStep(x, amount, i, env);
    }
  }

  lemma {:induction false} ShlStagesStep(x: seq<Node>, amount: seq<Node>, i: nat, env: Assignment)
    requires 1 <= i <= |amount|
    requires Unsigned(EvalBits(ShlStages(x, amount, i - 1), env))
          == (Unsigned(EvalBits(x, env)) * Pow2(Unsigned(EvalBits(amount, env)[..i - 1]))) % Pow2(|x|)
    ensures Unsigned(EvalBits(ShlStages(x, amount, i), env))
         == (Unsigned(EvalBits(x, env)) * Pow2(Unsigned(EvalBits(amount, env)[..i]))) % Pow2(|x|)
  {
    var amt := EvalBits(amount, env);
    var ux, m := Unsigned(EvalBits(x, env)), Pow2(|x|);
    var prev := ShlStages(x, amount, i - 1);
    var k := Unsigned(amt[..i - 1]);
    var sh := Pow2(i - 1);
    ShlStageEval(prev, amount[i - 1], sh, env);
    StageExponent(amt, i, k, sh);
    if amt[i - 1] {
      var y := ux * Pow2(k);
      var ps := Pow2(sh);
      ShiftedLeftValue(EvalBits(prev, env), sh, ps, m);
      ModMulMod(y, ps, m);
      Pow2Add(k, sh);
      MulAssoc(ux, Pow2(k), ps, Pow2(k + sh));
    }
  }

  /** After i right stages with zero fill the unsigned reading is the
      input's divided by 2^K. */
  lemma {:induction false} ShrStagesValue(x: seq<Node>, amount: seq<Node>, i: nat, env: Assignment)
    requires i <= |amount|
    ensures Unsigned(EvalBits(ShrStages(x, amount, i, FALSE), env))
         == Unsigned(EvalBits(x, env)) / Pow2(Unsigned(EvalBits(amount, env)[..i]))
    decreases i
  {
    if i == 0 {
      assert EvalBits(amount, env)[..0] == [];
    } else {
      ShrStagesValue(x, amount, i - 1, env);
      ShrStagesStep(x, amount, i, env);
    }
  }

  lemma {:induction false} ShrStagesStep(x: seq<Node>, amount: seq<Node>, i: nat, env: Assignment)
    requires 1 <= i <= |amount|
    requires Unsigned(EvalBits(ShrStages(x, amount, i - 1, FALSE), env))
          == Unsigned(EvalBits(x, env)) / Pow2(Unsigned(EvalBits(amount, env)[..i - 1]))
    ensures Unsigned(EvalBits(ShrStages(x, amount, i, FALSE), env))
         == Unsigned(EvalBits(x, env)) / Pow2(Unsigned(EvalBits(amount, env)[..i]))
  {
    var amt := EvalBits(amount, env);
    var ux := Unsigned(EvalBits(x, env));
    var prev := ShrStages(x, amount, i - 1, FALSE);
    var k := Unsigned(amt[..i - 1]);
    var sh := Pow2(i - 1);
    ShrStageEval(prev, amount[i - 1], sh, FALSE, env);
    StageExponent(amt, i, k, sh);
    if amt[i - 1] {
      ShiftedRightValue(EvalBits(prev, env), sh, Pow2(sh));
      Pow2Add(k, sh);
      DivDiv(ux, Pow2(k), Pow2(sh), Pow2(k + sh));
    }
  }

  /** After i right stages filling with a node that evaluates to the input's
      top bit, the top bit is unchanged and the two's-complement reading is
      the input's floor-divided by 2^K. */
  lemma {:induction false} ShaStagesValue(x: seq<Node>, amount: seq<Node>, i: nat, fill: Node, env: Assignment)
    requires i <= |amount| && |x| >= 1 && Eval(x[|x| - 1], env) == Eval(fill, env)
    ensures var r := EvalBits(ShrStages(x, amount, i, fill), env);
      && r[|r| - 1] == Eval(fill, env)
      && ToInt(r) == ToInt(EvalBits(x, env)) / Pow2(Unsigned(EvalBits(amount, env)[..i]))
    decreases i
  {
    if i == 0 {
      assert EvalBits(amount, env)[..0] == [];
    } else {
      ShaStagesValue(x, amount, i - 1, fill, env);
      ShaStagesStep(x, amount, i, fill, env);
    }
  }

  lemma {:induction false} ShaStagesStep(x: seq<Node>, amount: seq<Node>, i: nat, fill: Node, env: Assignment)
    requires 1 <= i <= |amount| && |x| >= 1
    requires var r := EvalBits(ShrStages(x, amount, i - 1, fill), env);
      && r[|r| - 1] == Eval(fill, env)
      && ToInt(r) == ToInt(EvalBits(x, env)) / Pow2(Unsigned(EvalBits(amount, env)[..i - 1]))
    ensures var r := EvalBits(ShrStages(x, amount, i, fill), env);
      && r[|r| - 1] == Eval(fill, env)
      && ToInt(r) == ToInt(EvalBits(x, env)) / Pow2(Unsigned(EvalBits(amount, env)[..i]))
  {
    var amt := EvalBits(amount, env);
    var vx := ToInt(EvalBits(x, env));
    var prev := ShrStages(x, amount, i - 1, fill);
    var k := Unsigned(amt[..i - 1]);
    var sh := Pow2(i - 1);
    ShrStageEval(prev, amount[i - 1], sh, fill, env);
    StageExponent(amt, i, k, sh);
    if amt[i - 1] {
      var s := EvalBits(prev, env);
      ShiftedRightSignedValue(s, sh, Pow2(sh));
      Pow2Add(k, sh);
      DivDiv(vx, Pow2(k), Pow2(sh), Pow2(k + sh));
    }
  }

  // ---------------------------------------------------------------------
  // The shift amount

  /** The amount as the shifters read it: its low bitwidth bits, unsigned. */
  function ShiftAmount(other: TwosComplementInt, env: Assignment): nat
    requires Valid(other)
  {
    Unsigned(EvalBits(Extend(other, other.factory.bitwidth), env))
  }

  /** A non-negative amount is read as itself; a negative one as itself
      plus 2^bitwidth, which is at least the bitwidth. */
  lemma {:induction false} ShiftAmountValue(other: TwosComplementInt, env: Assignment)
    requires Valid(other)
    ensures var k, w := EvalInt(other, env), other.factory.bitwidth;
      && (k >= 0 ==> ShiftAmount(other, env) == k)
      && (k < 0 ==> ShiftAmount(other, env) == k + Pow2(w) >= w)
  {
    var w := other.factory.bitwidth;
    var s := EvalBits(Extend(other, w), env);
    var k := EvalInt(other, env);
    ExtendValue(other, w, env);
    UnsignedIsMod(s);
    ToIntRange(s);
    if k >= 0 {
      DivModUnique(k, Pow2(w), 0, k);
    } else {
      DivModUnique(k, Pow2(w), -1, k + Pow2(w));
      Pow2ExceedsExponent(w - 1);
    }
  }

  /** A multiple of 2^w wraps to 0. */
  lemma {:induction false} WrapLargeShift(v: int, e: nat, w: nat)
    requires 1 <= w <= e
    ensures Wrap(v * Pow2(e), w) == 0
  {
    var d: nat := e - w;
    var pe, pw, pd := Pow2(e), Pow2(w), Pow2(d);
    Pow2Add(w, d);
    assert w + d == e;
    assert pe == pw * pd;
    var k := v * pd;
    MulRegroup(v, pd, pw, pe);
    WrapShift(v * pe, 0, k, w);
    WrapInRange(0, w);
  }

  // ---------------------------------------------------------------------
  // The shifters

  /** The left shifter's bits: bitwidth stages over the operand extended to
      the bitwidth. */
  function ShlBits(a: TwosComplementInt, other: TwosComplementInt): (r: seq<Node>)
    requires Valid(a) && Valid(other) && SameFactory(a, other)
    ensures |r| == a.factory.bitwidth
  {
    var w := a.factory.bitwidth;
    ShlStages(Extend(a, w), Extend(other, w), w)
  }

  function ShrBits(a: TwosComplementInt, other: TwosComplementInt, fill: Node): (r: seq<Node>)
    requires Valid(a) && Valid(other) && SameFactory(a, other)
    ensures |r| == a.factory.bitwidth
  {
    var w := a.factory.bitwidth;
    ShrStages(Extend(a, w), Extend(other, w), w, fill)
  }

  /** Shift left: the operand times 2^K wrapped to the bitwidth, K the
      amount's low bitwidth bits read unsigned. */
  lemma {:induction false} ShlValue(a: TwosComplementInt, other: TwosComplementInt, env: Assignment)
    requires Valid(a) && Valid(other) && SameFactory(a, other)
    ensures var w := a.factory.bitwidth;
      ToInt(EvalBits(ShlBits(a, other), env)) == Wrap(EvalInt(a, env) * Pow2(ShiftAmount(other, env)), w)
  {
    var w := a.factory.bitwidth;
    var ext := EvalBits(Extend(a, w), env);
    var r := EvalBits(ShlBits(a, other), env);
    var p := Pow2(ShiftAmount(other, env));
    var amt := EvalBits(Extend(other, w), env);
    assert amt[..w] == amt;
    ShlStagesValue(Extend(a, w), Extend(other, w), w, env);
    ToIntIsWrap(r);
    ExtendValue(a, w, env);
    UnsignedIsMod(ext);
    ShlWrap(EvalInt(a, env), Unsigned(ext), p, Unsigned(r), w);
  }

  lemma {:induction false} ShlWrap(v: int, u: int, p: int, ur: int, w: nat)
    requires w >= 1 && u == v % Pow2(w) && ur == (u * p) % Pow2(w)
    ensures Wrap(ur, w) == Wrap(v * p, w)
  {
    var m := Pow2(w);
    var q, q2 := v / m, (u * p) / m;
    ShlWrapArith(v, u, p, ur, m, q, q2);
    WrapShift(ur, v * p, -(q * p) - q2, w);
  }

  lemma {:induction false} ShlWrapArith(v: int, u: int, p: int, ur: int, m: int, q: int, q2: int)
    requires m > 0 && v == u + q * m && u * p == q2 * m + ur
    ensures ur == v * p + (-(q * p) - q2) * m
  {
    assert v * p == u * p + (q * p) * m;
  }

  /** Logical shift right: the operand's low bitwidth bits read unsigned,
      divided by 2^K, read back in two's complement. */
  lemma {:induction false} ShrValue(a: TwosComplementInt, other: TwosComplementInt, env: Assignment)
    requires Valid(a) && Valid(other) && SameFactory(a, other)
    ensures var w := a.factory.bitwidth;
      ToInt(EvalBits(ShrBits(a, other, FALSE), env))
      == Wrap((EvalInt(a, env) % Pow2(w)) / Pow2(ShiftAmount(other, env)), w)
  {
    var w := a.factory.bitwidth;
    var ext := EvalBits(Extend(a, w), env);
    var r := EvalBits(ShrBits(a, other, FALSE), env);
    var amt := EvalBits(Extend(other, w), env);
    assert amt[..w] == amt;
    ShrStagesValue(Extend(a, w), Extend(other, w), w, env);
    ToIntIsWrap(r);
    ExtendValue(a, w, env);
    UnsignedIsMod(ext);
  }

  /** Arithmetic shift right: floor division by 2^K. */
  lemma {:induction false} ShaValue(a: TwosComplementInt, other: TwosComplementInt, env: Assignment)
    requires Valid(a) && Valid(other) && SameFactory(a, other)
    ensures ToInt(EvalBits(ShrBits(a, other, a.bits[|a.bits| - 1]), env))
         == EvalInt(a, env) / Pow2(ShiftAmount(other, env))
  {
    var w := a.factory.bitwidth;
    var x := Extend(a, w);
    var amt := EvalBits(Extend(other, w), env);
    assert amt[..w] == amt;
    ShaStagesValue(x, Extend(other, w), w, a.bits[|a.bits| - 1], env);
    ExtendValue(a, w, env);
  }

  /** Shift left by the amount other, over bitwidth stages. */
  method Shl(a: TwosComplementInt, other: TwosComplementInt) returns (r: TwosComplementInt)
    requires Valid(a) && Valid(other) && SameFactory(a, other)
    ensures r.factory == a.factory && Valid(r) && |r.bits| == a.factory.bitwidth
    ensures r.bits == ShlBits(a, other)
    ensures forall env :: EvalInt(other, env) >= 0 ==>
      EvalInt(r, env) == Wrap(EvalInt(a, env) * Pow2(EvalInt(other, env)), a.factory.bitwidth)
    ensures forall env :: EvalInt(other, env) < 0 ==> EvalInt(r, env) == 0
  {
    var width := a.factory.bitwidth;
    var shifted := Extend(a, width);
    ghost var x, amount := shifted, Extend(other, width);
    var i := 0;
    while i != width
      invariant 0 <= i <= width
      invariant shifted == ShlStages(x, amount, i)
    {
      var next := i + 1;
      assert amount[i] == Bit(other, i);
      ShlStagesNext(x, amount, i, next);
      shifted := ShlStep(shifted, Bit(other, i), Pow2(i));
      i := next;
    }
    r := TwosComplementInt(a.factory, shifted);
    ShlMeaning(a, other, r);
  }

  lemma {:induction false} ShlMeaning(a: TwosComplementInt, other: TwosComplementInt, r: TwosComplementInt)
    requires Valid(a) && Valid(other) && SameFactory(a, other)
    requires r.bits == ShlBits(a, other)
    ensures forall env :: EvalInt(other, env) >= 0 ==>
      EvalInt(r, env) == Wrap(EvalInt(a, env) * Pow2(EvalInt(other, env)), a.factory.bitwidth)
    ensures forall env :: EvalInt(other, env) < 0 ==> EvalInt(r, env) == 0
  {
    forall env
      ensures EvalInt(other, env) >= 0 ==>
        EvalInt(r, env) == Wrap(EvalInt(a, env) * Pow2(EvalInt(other, env)), a.factory.bitwidth)
      ensures EvalInt(other, env) < 0 ==> EvalInt(r, env) == 0
    {
      ShlValue(a, other, env);
      ShiftAmountValue(other, env);
      if EvalInt(other, env) < 0 {
        WrapLargeShift(EvalInt(a, env), ShiftAmount(other, env), a.factory.bitwidth);
      }
    }
  }

  /** The shared right shifter, filling with the node fill. */
  method ShiftRight(a: TwosComplementInt, other: TwosComplementInt, fill: Node) returns (r: TwosComplementInt)
    requires Valid(a) && Valid(other) && SameFactory(a, other)
    ensures r.factory == a.factory && Valid(r)
    ensures r.bits == ShrBits(a, other, fill)
  {
    var width := a.factory.bitwidth;
    var shifted := Extend(a, width);
    ghost var x, amount := shifted, Extend(other, width);
    var i := 0;
    while i != width
      invariant 0 <= i <= width
      invariant shifted == ShrStages(x, amount, i, fill)
    {
      var next := i + 1;
      assert amount[i] == Bit(other, i);
      ShrStagesNext(x, amount, i, next, fill);
      shifted := ShrStep(shifted, Bit(other, i), Pow2(i), fill);
      i := next;
    }
    r := TwosComplementInt(a.factory, shifted);
  }

  /** Logical shift right: zeros shifted in at the top. */
  method Shr(a: TwosComplementInt, other: TwosComplementInt) returns (r: TwosComplementInt)
    requires Valid(a) && Valid(other) && SameFactory(a, other)
    ensures r.factory == a.factory && Valid(r) && |r.bits| == a.factory.bitwidth
    ensures forall env :: EvalInt(other, env) >= 0 ==>
      EvalInt(r, env) == Wrap((EvalInt(a, env) % Pow2(a.factory.bitwidth)) / Pow2(EvalInt(other, env)), a.factory.bitwidth)
    ensures forall env :: EvalInt(other, env) < 0 ==> EvalInt(r, env) == 0
  {
    r := ShiftRight(a, other, FALSE);
    ShrMeaning(a, other, r);
  }

  lemma {:induction false} ShrMeaning(a: TwosComplementInt, other: TwosComplementInt, r: TwosComplementInt)
    requires Valid(a) && Valid(other) && SameFactory(a, other)
    requires r.bits == ShrBits(a, other, FALSE)
    ensures forall env :: EvalInt(other, env) >= 0 ==>
      EvalInt(r, env) == Wrap((EvalInt(a, env) % Pow2(a.factory.bitwidth)) / Pow2(EvalInt(other, env)), a.factory.bitwidth)
    ensures forall env :: EvalInt(other, env) < 0 ==> EvalInt(r, env) == 0
  {
    var w := a.factory.bitwidth;
    forall env
      ensures EvalInt(other, env) >= 0 ==>
        EvalInt(r, env) == Wrap((EvalInt(a, env) % Pow2(w)) / Pow2(EvalInt(other, env)), w)
      ensures EvalInt(other, env) < 0 ==> EvalInt(r, env) == 0
    {
      ShrValue(a, other, env);
      ShiftAmountValue(other, env);
      if EvalInt(other, env) < 0 {
        var u := EvalInt(a, env) % Pow2(w);
        var e := ShiftAmount(other, env);
        Pow2Monotone(w, e);
        DivModUnique(u, Pow2(e), 0, u);
        WrapInRange(0, w);
      }
    }
  }

  /** Arithmetic shift right: the operand's sign bit shifted in at the top. */
  method Sha(a: TwosComplementInt, other: TwosComplementInt) returns (r: TwosComplementInt)
    requires Valid(a) && Valid(other) && SameFactory(a, other)
    ensures r.factory == a.factory && Valid(r) && |r.bits| == a.factory.bitwidth
    ensures forall env :: EvalInt(other, env) >= 0 ==>
      EvalInt(r, env) == EvalInt(a, env) / Pow2(EvalInt(other, env))
    ensures forall env :: EvalInt(other, env) < 0 ==>
      EvalInt(r, env) == if EvalInt(a, env) < 0 then -1 else 0
  {
    r := ShiftRight(a, other, a.bits[|a.bits| - 1]);
    ShaMeaning(a, other, r);
  }

  lemma {:induction false} ShaMeaning(a: TwosComplementInt, other: TwosComplementInt, r: TwosComplementInt)
    requires Valid(a) && Valid(other) && SameFactory(a, other)
    requires r.bits == ShrBits(a, other, a.bits[|a.bits| - 1])
    ensures forall env :: EvalInt(other, env) >= 0 ==>
      EvalInt(r, env) == EvalInt(a, env) / Pow2(EvalInt(other, env))
    ensures forall env :: EvalInt(other, env) < 0 ==>
      EvalInt(r, env) == if EvalInt(a, env) < 0 then -1 else 0
  {
    var w := a.factory.bitwidth;
    forall env
      ensures EvalInt(other, env) >= 0 ==>
        EvalInt(r, env) == EvalInt(a, env) / Pow2(EvalInt(other, env))
      ensures EvalInt(other, env) < 0 ==>
        EvalInt(r, env) == if EvalInt(a, env) < 0 then -1 else 0
    {
      ShaValue(a, other, env);
      ShiftAmountValue(other, env);
      if EvalInt(other, env) < 0 {
        var v := EvalInt(a, env);
        var e := ShiftAmount(other, env);
        ToIntRange(EvalBits(a.bits, env));
        Pow2Monotone(|a.bits| - 1, e);
        if v < 0 {
          DivModUnique(v, Pow2(e), -1, v + Pow2(e));
        } else {
          DivModUnique(v, Pow2(e), 0, v);
        }
      }
    }
  }
}
