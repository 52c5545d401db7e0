/** The ripple-carry adder the bit-vector operations are built from: a
    chain of full adders, bit 0 first, the carry of each position feeding
    the next. */
module Adder {
  import opened Arith
  import opened Circuit

  datatype AddResult = AddResult(sum: seq<Node>, carry: Node)

  /** Adds two equally long bit vectors and a carry-in; bit i of the sum is
      the full-adder sum of x[i], y[i] and the carry out of position i-1. */
  function Ripple(x: seq<Node>, y: seq<Node>, cin: Node): (r: AddResult)
    requires |x| == |y|
    ensures |r.sum| == |x|
    decreases |x|
  {
    if |x| == 0 then AddResult([], cin)
    else
      var n := |x| - 1;
      var p := Ripple(x[..n], y[..n], cin);
      AddResult(p.sum + [MkSum(x[n], y[n], p.carry)], MkCarry(x[n], y[n], p.carry))
  }

  /** One full adder at position n, as arithmetic on weights. */
  lemma {:induction false} FullAdder(a: bool, b: bool, c: bool, n: nat)
    ensures Weight(Xor3(a, b, c), n) + Weight(Majority(a, b, c), n + 1)
         == Weight(a, n) + Weight(b, n) + Weight(c, n)
  {
  }

  /** The ripple adder on truth values: the sum bits and the carry out. */
  function AddBits(xs: seq<bool>, ys: seq<bool>, c: bool): (r: (seq<bool>, bool))
    requires |xs| == |ys|
    ensures |r.0| == |xs|
    decreases |xs|
  {
    if |xs| == 0 then ([], c)
    else
      var n := |xs| - 1;
      var p := AddBits(xs[..n], ys[..n], c);
      (p.0 + [Xor3(xs[n], ys[n], p.1)], Majority(xs[n], ys[n], p.1))
  }

  /** The adder circuit evaluates to the adder on the evaluated inputs. */
  lemma {:induction false} RippleEval(x: seq<Node>, y: seq<Node>, cin: Node, env: Assignment)
    requires |x| == |y|
    ensures var r, s := Ripple(x, y, cin), AddBits(EvalBits(x, env), EvalBits(y, env), Eval(cin, env));
      EvalBits(r.sum, env) == s.0 && Eval(r.carry, env) == s.1
    decreases |x|
  {
    if |x| > 0 {
      var n := |x| - 1;
      var p := Ripple(x[..n], y[..n], cin);
      RippleEval(x[..n], y[..n], cin, env);
      EvalBitsSlice(x, 0, n, env);
      EvalBitsSlice(y, 0, n, env);
      assert x[0..n] == x[..n] && y[0..n] == y[..n];
      EvalBitsConcat(p.sum, [MkSum(x[n], y[n], p.carry)], env);
    }
  }

  /** The sum bits and the carry-out together hold the exact sum. */
  lemma {:induction false} AddBitsValue(xs: seq<bool>, ys: seq<bool>, c: bool)
    requires |xs| == |ys|
    ensures var s := AddBits(xs, ys, c);
      Unsigned(s.0) + Weight(s.1, |xs|) == Unsigned(xs) + Unsigned(ys) + Weight(c, 0)
    decreases |xs|
  {
    if |xs| > 0 {
      var n := |xs| - 1;
      var p := AddBits(xs[..n], ys[..n], c);
      AddBitsValue(xs[..n], ys[..n], c);
      var s := AddBits(xs, ys, c);
      FullAdder(xs[n], ys[n], p.1, n);
      UnsignedAppend(p.0, Xor3(xs[n], ys[n], p.1));
      assert Unsigned(s.0) == Unsigned(p.0) + Weight(Xor3(xs[n], ys[n], p.1), n);
      assert Unsigned(xs) == Unsigned(xs[..n]) + Weight(xs[n], n);
      assert Unsigned(ys) == Unsigned(ys[..n]) + Weight(ys[n], n);
    }
  }

  lemma {:induction false} RippleValue(x: seq<Node>, y: seq<Node>, cin: Node, env: Assignment)
    requires |x| == |y|
    ensures var r := Ripple(x, y, cin);
      Unsigned(EvalBits(r.sum, env)) + Weight(Eval(r.carry, env), |x|)
      == Unsigned(EvalBits(x, env)) + Unsigned(EvalBits(y, env)) + Weight(Eval(cin, env), 0)
  {
    RippleEval(x, y, cin, env);
    AddBitsValue(EvalBits(x, env), EvalBits(y, env), Eval(cin, env));
  }

  /** The sum bits alone: the sum modulo 2^|x|, read in two's complement. */
  lemma {:induction false} RippleWrap(x: seq<Node>, y: seq<Node>, cin: Node, env: Assignment, total: int)
    requires 1 <= |x| == |y|
    requires total == ToInt(EvalBits(x, env)) + ToInt(EvalBits(y, env)) + Weight(Eval(cin, env), 0)
    ensures ToInt(EvalBits(Ripple(x, y, cin).sum, env)) == Wrap(total, |x|)
  {
    var n := |x|;
    var r := Ripple(x, y, cin);
    var s, xs, ys := EvalBits(r.sum, env), EvalBits(x, env), EvalBits(y, env);
    RippleValue(x, y, cin, env);
    ToIntIsWrap(s);
    var p := Pow2(n);
    var c, tx, ty := Eval(r.carry, env), xs[n - 1], ys[n - 1];
    assert ToInt(xs) == Unsigned(xs) - Weight(tx, n);
    assert ToInt(ys) == Unsigned(ys) - Weight(ty, n);
    SumOffset(Unsigned(s), Unsigned(xs), Unsigned(ys), Weight(Eval(cin, env), 0),
      Weight(c, n), Weight(tx, n), Weight(ty, n), total, p, c, tx, ty);
    WrapShift(Unsigned(s), total, Bit01(tx) + Bit01(ty) - Bit01(c), n);
  }

  /** A truth value as 0 or 1. */
  function Bit01(b: bool): int
  {
    if b then 1 else 0
  }

  lemma {:induction false} SumOffset(us: int, ux: int, uy: int, ci: int, wc: int, wx: int, wy: int,
                  total: int, p: int, c: bool, tx: bool, ty: bool)
    requires us + wc == ux + uy + ci
    requires wc == (if c then p else 0) && wx == (if tx then p else 0) && wy == (if ty then p else 0)
    requires total == (ux - wx) + (uy - wy) + ci
    ensures us == total + (Bit01(tx) + Bit01(ty) - Bit01(c)) * p
  {
  }

  /** A string while row is being added in place at offset lo with carry
      in cin: positions lo .. lo+j-1 hold the first j sum bits, the rest is
      unchanged. */
  function Spliced(before: seq<Node>, lo: nat, row: seq<Node>, cin: Node, j: nat): (r: seq<Node>)
    requires lo + |row| <= |before| && j <= |row|
    ensures |r| == |before|
  {
    before[..lo] + Ripple(before[lo..lo + j], row[..j], cin).sum + before[lo + j..]
  }

  lemma {:induction false} SplicedNone(before: seq<Node>, lo: nat, row: seq<Node>, cin: Node)
    requires lo + |row| <= |before|
    ensures Spliced(before, lo, row, cin, 0) == before
  {
    assert before[lo..lo] == [] && row[..0] == [];
    assert before[..lo] + [] + before[lo..] == before;
  }

  lemma {:induction false} SplicedAll(before: seq<Node>, lo: nat, row: seq<Node>, cin: Node)
    requires lo + |row| <= |before|
    ensures Spliced(before, lo, row, cin, |row|)
      == before[..lo] + Ripple(before[lo..lo + |row|], row, cin).sum + before[lo + |row|..]
  {
    assert row[..|row|] == row;
  }

  /** One full adder at position lo + j extends the splice by a position. */
  lemma {:induction false} SplicedStep(before: seq<Node>, lo: nat, row: seq<Node>, cin: Node, j: nat, next: nat, l: seq<Node>, carry: Node)
    requires lo + |row| <= |before| && j < |row| && next == j + 1
    requires l == Spliced(before, lo, row, cin, j)
    requires carry == Ripple(before[lo..lo + j], row[..j], cin).carry
    ensures l[lo + j] == before[lo + j]
    ensures l[lo + j := MkSum(before[lo + j], row[j], carry)] == Spliced(before, lo, row, cin, next)
    ensures MkCarry(before[lo + j], row[j], carry) == Ripple(before[lo..lo + next], row[..next], cin).carry
  {
    var p := Ripple(before[lo..lo + j], row[..j], cin);
    RippleExtend(before, lo, row, cin, j, next, p);
    SpliceShift(before, lo, j, next, p.sum, MkSum(before[lo + j], row[j], carry), l);
  }

  /** Ripple over one more position of a window appends one full adder. */
  lemma {:induction false} RippleExtend(before: seq<Node>, lo: nat, row: seq<Node>, cin: Node, j: nat, next: nat, p: AddResult)
    requires lo + |row| <= |before| && j < |row| && next == j + 1
    requires p == Ripple(before[lo..lo + j], row[..j], cin)
    ensures Ripple(before[lo..lo + next], row[..next], cin)
      == AddResult(p.sum + [MkSum(before[lo + j], row[j], p.carry)], MkCarry(before[lo + j], row[j], p.carry))
  {
    var x, y := before[lo..lo + next], row[..next];
    assert x[..j] == before[lo..lo + j] && y[..j] == row[..j];
    assert x[j] == before[lo + j] && y[j] == row[j];
  }

  /** Overwriting the first untouched position of a splice extends it. */
  lemma {:induction false} SpliceShift(before: seq<Node>, lo: nat, j: nat, next: nat, sum: seq<Node>, x0: Node, l: seq<Node>)
    requires lo + j < |before| && next == j + 1 && |sum| == j
    requires l == before[..lo] + sum + before[lo + j..]
    ensures l[lo + j] == before[lo + j]
    ensures l[lo + j := x0] == before[..lo] + (sum + [x0]) + before[lo + next..]
  {
    assert before[lo + j..] == [before[lo + j]] + before[lo + next..];
    var front := before[..lo] + sum;
    assert l == front + [before[lo + j]] + before[lo + next..];
    UpdateMiddle(front, before[lo + j], before[lo + next..], x0);
  }

  lemma {:induction false} UpdateMiddle<T>(xs: seq<T>, a: T, ys: seq<T>, b: T)
    ensures (xs + [a] + ys)[|xs| := b] == xs + [b] + ys
  {
  }
}
