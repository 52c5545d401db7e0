/** The n-ary forms of the operations. Sums and products of many operands
    are formed by pairwise reduction in place, halving the number of
    partial results each round; the n-ary AND and OR build one accumulator
    per bit position over all operands, stopping at the first input that
    short-circuits it. */
module Reduce {
  import opened Arith
  import opened Circuit
  import opened BitVector
  import opened AddSub
  import opened Multiply

  /** Every operand is a vector of factory f. */
  predicate AllOf(xs: seq<TwosComplementInt>, f: Factory)
  {
    forall k :: 0 <= k < |xs| ==> Valid(xs[k]) && xs[k].factory == f
  }

  // ---------------------------------------------------------------------
  // Sums and products of many operands

  /** The result of the intended multiplication of a and b. */
  function Times(a: TwosComplementInt, b: TwosComplementInt): TwosComplementInt
    requires Valid(a) && Valid(b) && SameFactory(a, b)
  {
    TwosComplementInt(a.factory, Product(a, b))
  }

  /** Integer addition or multiplication. */
  function Op2(plus: bool, x: int, y: int): int
  {
    if plus then x + y else x * y
  }

  /** The integer an operand denotes; operands are never empty, and the
      empty case reads 0 only to keep the total free of preconditions. */
  function IntOf(x: TwosComplementInt, env: Assignment): int
  {
    if |x.bits| == 0 then 0 else EvalInt(x, env)
  }

  /** The exact sum (or product) of the integers the operands denote. */
  function Total(plus: bool, xs: seq<TwosComplementInt>, env: Assignment): int
    decreases |xs|
  {
    if |xs| == 0 then (if plus then 0 else 1)
    else Op2(plus, Total(plus, xs[..|xs| - 1], env), IntOf(xs[|xs| - 1], env))
  }

  lemma {:induction false} TotalConcat(plus: bool, xs: seq<TwosComplementInt>, ys: seq<TwosComplementInt>, env: Assignment)
    ensures Total(plus, xs + ys, env) == Op2(plus, Total(plus, xs, env), Total(plus, ys, env))
    decreases |ys|
  {
    if |ys| == 0 {
      assert xs + ys == xs;
    } else {
      var n := |ys| - 1;
      var front := ys[..n];
      TotalConcat(plus, xs, front, env);
      assert (xs + ys)[..|xs + ys| - 1] == xs + front;
      Op2Assoc(plus, Total(plus, xs, env), Total(plus, front, env), IntOf(ys[n], env));
    }
  }

  lemma {:induction false} Op2Assoc(plus: bool, x: int, y: int, z: int)
    ensures Op2(plus, Op2(plus, x, y), z) == Op2(plus, x, Op2(plus, y, z))
  {
    if !plus {
      assert (x * y) * z == x * (y * z);
    }
  }

  lemma {:induction false} TotalSnoc(plus: bool, xs: seq<TwosComplementInt>, y: TwosComplementInt, env: Assignment)
    ensures Total(plus, xs + [y], env) == Op2(plus, Total(plus, xs, env), IntOf(y, env))
  {
    assert (xs + [y])[..|xs|] == xs;
  }

  /** Wrapping either operand first does not change the wrapped result. */
  lemma {:induction false} WrapOp2(plus: bool, x: int, x2: int, y: int, y2: int, w: nat)
    requires w >= 1 && Wrap(x, w) == Wrap(x2, w) && Wrap(y, w) == Wrap(y2, w)
    ensures Wrap(Op2(plus, x, y), w) == Wrap(Op2(plus, x2, y2), w)
  {
    if plus {
      WrapAdd(x, y, w);
      WrapAdd(x2, y, w);
      WrapAdd(y, x2, w);
      WrapAdd(y2, x2, w);
    } else {
      WrapMul(x, y, w);
      WrapMul(x2, y, w);
      WrapMul(y, x2, w);
      WrapMul(y2, x2, w);
    }
  }

  /** One pairwise step: a plus b, or a times b, by the code's binary
      multiplication when asWritten holds and by the intended one
      otherwise. */
  function Pair(plus: bool, asWritten: bool, a: TwosComplementInt, b: TwosComplementInt): (r: TwosComplementInt)
    requires Valid(a) && Valid(b) && SameFactory(a, b)
  {
    if plus then Plus(a, b)
    else if asWritten then TwosComplementInt(a.factory, ProductAsWritten(a, b))
    else Times(a, b)
  }

  /** Whether a pairwise step wraps the exact result: always, except for
      the code's binary multiplication at bitwidth 1, whose products all
      read 0. */
  predicate Exact(plus: bool, asWritten: bool, w: nat)
  {
    plus || !asWritten || w >= 2
  }

  /** The vector reads 0 under every assignment. */
  ghost predicate ReadsZero(x: TwosComplementInt)
    requires |x.bits| >= 1
  {
    forall env :: EvalInt(x, env) == 0
  }

  /** A pairwise step stays in the factory and wraps the exact result, or,
      for the code's multiplication at bitwidth 1, reads 0. */
  lemma {:induction false} PairValue(plus: bool, asWritten: bool, a: TwosComplementInt, b: TwosComplementInt)
    requires Valid(a) && Valid(b) && SameFactory(a, b)
    ensures Pair(plus, asWritten, a, b).factory == a.factory && Valid(Pair(plus, asWritten, a, b))
    ensures Exact(plus, asWritten, a.factory.bitwidth) ==>
      forall env :: EvalInt(Pair(plus, asWritten, a, b), env)
                 == Wrap(Op2(plus, EvalInt(a, env), EvalInt(b, env)), a.factory.bitwidth)
    ensures !Exact(plus, asWritten, a.factory.bitwidth) ==> ReadsZero(Pair(plus, asWritten, a, b))
  {
    if plus {
      forall env
        ensures EvalInt(Pair(plus, asWritten, a, b), env) == Wrap(EvalInt(a, env) + EvalInt(b, env), a.factory.bitwidth)
      {
        PlusValue(a, b, env);
      }
    } else if asWritten {
      var r := Pair(plus, asWritten, a, b);
      ProductAsWrittenAll(a, b, r);
      assert |r.bits| == 1 <==> a.factory.bitwidth == 1;
    } else {
      ProductAll(a, b, Times(a, b));
    }
  }

  /** Replacing two neighbouring operands by their wrapped combination keeps
      the wrapped total. */
  lemma {:induction false} PairStep(plus: bool, pre: seq<TwosComplementInt>, c: TwosComplementInt,
                 a: TwosComplementInt, b: TwosComplementInt, rest: seq<TwosComplementInt>,
                 w: nat, env: Assignment)
    requires w >= 1
    requires |a.bits| >= 1 && |b.bits| >= 1 && |c.bits| >= 1
    requires EvalInt(c, env) == Wrap(Op2(plus, EvalInt(a, env), EvalInt(b, env)), w)
    ensures Wrap(Total(plus, pre + [c] + rest, env), w) == Wrap(Total(plus, pre + [a, b] + rest, env), w)
  {
    var va, vb, vc := IntOf(a, env), IntOf(b, env), IntOf(c, env);
    var tp, tr := Total(plus, pre, env), Total(plus, rest, env);
    var withC, withAB := pre + [c], pre + [a] + [b];
    assert pre + [a, b] == withAB;
    TotalConcat(plus, withC, rest, env);
    TotalConcat(plus, withAB, rest, env);
    TotalSnoc(plus, pre, c, env);
    TotalSnoc(plus, pre, a, env);
    TotalSnoc(plus, pre + [a], b, env);
    var ab := Op2(plus, va, vb);
    WrapIdempotent(ab, w);
    WrapOp2(plus, tp, tp, vc, ab, w);
    Op2Assoc(plus, tp, va, vb);
    WrapOp2(plus, Op2(plus, tp, vc), Op2(plus, Op2(plus, tp, va), vb), tr, tr, w);
  }

  lemma {:induction false} WrapIdempotent(x: int, w: nat)
    requires w >= 1
    ensures Wrap(Wrap(x, w), w) == Wrap(x, w)
  {
    WrapAdd(x, 0, w);
  }

  /** The wrapped total is unchanged between rounds. */
  ghost predicate SameTotal(plus: bool, xs: seq<TwosComplementInt>, ys: seq<TwosComplementInt>, w: nat)
    requires w >= 1
  {
    forall env :: Wrap(Total(plus, xs, env), w) == Wrap(Total(plus, ys, env), w)
  }

  /** Pairwise reduction of [x] + others, as the code does it: in each
      round the pairs (0,1), (2,3), ... are combined into slots 0, 1, ...
      and an odd element out moves down after them. The result wraps the
      exact sum or product of all operands to the bitwidth, except that
      the code's multiplication at bitwidth 1 makes any product of two or
      more operands read 0. */
  method ApplyArith(plus: bool, asWritten: bool, x: TwosComplementInt, others: seq<TwosComplementInt>)
    returns (r: TwosComplementInt)
    requires Valid(x) && AllOf(others, x.factory)
    ensures r.factory == x.factory && Valid(r)
    ensures Exact(plus, asWritten, x.factory.bitwidth) || |others| == 0 ==>
      forall env :: EvalInt(r, env) == Wrap(Total(plus, [x] + others, env), x.factory.bitwidth)
    ensures !Exact(plus, asWritten, x.factory.bitwidth) && |others| >= 1 ==> ReadsZero(r)
  {
    var f := x.factory;
    var ints := [x] + others;
    ghost var all := ints;
    ghost var exact := Exact(plus, asWritten, f.bitwidth);
    var part := |ints|;
    assert ints[..part] == all;
    while part > 1
      invariant 1 <= part <= |ints| == |all|
      invariant AllOf(ints, f)
      invariant exact || part == |ints| ==> SameTotal(plus, ints[..part], all, f.bitwidth)
      invariant !exact && part < |ints| ==> ReadsZero(ints[0])
    {
      ghost var before := ints;
      ints := Round(plus, asWritten, ints, part, f);
      if exact {
        SameTotalTrans(plus, ints[..part - part / 2], before[..part], all, f.bitwidth);
      }
      part := part - part / 2;
    }
    r := ints[0];
    if exact || |others| == 0 {
      Single(plus, ints, all, f.bitwidth);
    }
  }

  lemma {:induction false} SameTotalTrans(plus: bool, xs: seq<TwosComplementInt>, ys: seq<TwosComplementInt>,
                       zs: seq<TwosComplementInt>, w: nat)
    requires w >= 1
    requires SameTotal(plus, xs, ys, w) && SameTotal(plus, ys, zs, w)
    ensures SameTotal(plus, xs, zs, w)
  {
  }

  /** One round over the first part slots: pairs combined into the low
      slots, an odd last element moved down after them. */
  method Round(plus: bool, asWritten: bool, ints: seq<TwosComplementInt>, part: nat, f: Factory)
    returns (next: seq<TwosComplementInt>)
    requires 1 < part <= |ints| && AllOf(ints, f) && f.bitwidth >= 1
    ensures |next| == |ints| && AllOf(next, f)
    ensures Exact(plus, asWritten, f.bitwidth) ==> SameTotal(plus, next[..part - part / 2], ints[..part], f.bitwidth)
    ensures !Exact(plus, asWritten, f.bitwidth) ==> ReadsZero(next[0])
  {
    var max := part - 1;
    var h;
    next, h := Pairs(plus, asWritten, ints, part, f);
    if max % 2 == 0 {
      next := next[h := next[max]];
    }
    if Exact(plus, asWritten, f.bitwidth) {
      RoundEnd(plus, next, ints, part, max, h, f.bitwidth);
    }
  }

  /** The pairs (0,1), (2,3), ... below part combined into slots 0, 1, ... */
  method Pairs(plus: bool, asWritten: bool, ints: seq<TwosComplementInt>, part: nat, f: Factory)
    returns (next: seq<TwosComplementInt>, h: nat)
    requires 1 < part <= |ints| && AllOf(ints, f) && f.bitwidth >= 1
    ensures |next| == |ints| && AllOf(next, f)
    ensures 2 * h == part || 2 * h == part - 1
    ensures forall k :: 2 * h <= k < |ints| ==> next[k] == ints[k]
    ensures Exact(plus, asWritten, f.bitwidth) ==> SameTotal(plus, next[..h] + ints[2 * h..part], ints[..part], f.bitwidth)
    ensures !Exact(plus, asWritten, f.bitwidth) ==> ReadsZero(next[0])
  {
    next := ints;
    var i := 0;
    h := 0;
    assert ints[..h] + ints[i..part] == ints[..part];
    while i < part - 1
      invariant Pairing(plus, asWritten, next, ints, part, f, i, h)
      invariant i >= 2 || i == 0
    {
      var i2, h2 := i + 2, h + 1;
      next := PairUp(plus, asWritten, next, ints, i, h, part, f, i2, h2);
      i, h := i2, h2;
    }
  }

  /** The state of Pairs after h pairs: slots 0 .. h-1 hold the combined
      pairs, slots from i = 2h on are untouched, and the whole still has
      the total of ints[..part]. */
  ghost predicate Pairing(plus: bool, asWritten: bool, next: seq<TwosComplementInt>, ints: seq<TwosComplementInt>,
                          part: nat, f: Factory, i: nat, h: nat)
  {
    && i == 2 * h && i <= part <= |ints| && f.bitwidth >= 1
    && |next| == |ints| && AllOf(next, f) && AllOf(ints, f)
    && (forall k :: i <= k < |ints| ==> next[k] == ints[k])
    && (Exact(plus, asWritten, f.bitwidth) ==> SameTotal(plus, next[..h] + ints[i..part], ints[..part], f.bitwidth))
    && (!Exact(plus, asWritten, f.bitwidth) && h >= 1 ==> ReadsZero(next[0]))
  }

  /** Slot h receives the combination of slots i and i + 1. */
  method PairUp(plus: bool, asWritten: bool, cur: seq<TwosComplementInt>, ints: seq<TwosComplementInt>,
                i: nat, h: nat, part: nat, f: Factory, i2: nat, h2: nat) returns (next: seq<TwosComplementInt>)
    requires Pairing(plus, asWritten, cur, ints, part, f, i, h) && i + 1 < part && i2 == i + 2 && h2 == h + 1
    ensures Pairing(plus, asWritten, next, ints, part, f, i2, h2)
  {
    var c := Combined(plus, asWritten, cur[i], cur[i + 1]);
    if Exact(plus, asWritten, f.bitwidth) {
      RoundStep(plus, cur, ints, c, i, h, part, f.bitwidth);
    }
    next := cur[h := c];
  }

  /** a plus b, or a times b by the code's binary multiplication
      (asWritten) or by the intended one: the wrapped sum or product, or 0
      for the code's multiplication at bitwidth 1. */
  method Combined(plus: bool, asWritten: bool, a: TwosComplementInt, b: TwosComplementInt) returns (c: TwosComplementInt)
    requires Valid(a) && Valid(b) && SameFactory(a, b)
    ensures c.factory == a.factory && Valid(c)
    ensures c == Pair(plus, asWritten, a, b)
    ensures Exact(plus, asWritten, a.factory.bitwidth) ==>
      forall env :: EvalInt(c, env) == Wrap(Op2(plus, EvalInt(a, env), EvalInt(b, env)), a.factory.bitwidth)
    ensures !Exact(plus, asWritten, a.factory.bitwidth) ==> ReadsZero(c)
  {
    if plus {
      c := Plus(a, b);
    } else if asWritten {
      c := MultiplyAsWritten(a, b);
    } else {
      c := Multiply.Multiply(a, b);
    }
    PairValue(plus, asWritten, a, b);
  }

  lemma {:induction false} RoundStep(plus: bool, ints: seq<TwosComplementInt>, start: seq<TwosComplementInt>,
                  c: TwosComplementInt, i: nat, h: nat, part: nat, w: nat)
    requires |ints| == |start| && i + 1 < part <= |ints| && h <= i && w >= 1
    requires AllOf(ints, c.factory) && AllOf(start, c.factory) && Valid(c)
    requires ints[i] == start[i] && ints[i + 1] == start[i + 1]
    requires forall env :: EvalInt(c, env) == Wrap(Op2(plus, EvalInt(ints[i], env), EvalInt(ints[i + 1], env)), w)
    requires SameTotal(plus, ints[..h] + start[i..part], start[..part], w)
    ensures SameTotal(plus, ints[h := c][..h + 1] + start[i + 2..part], start[..part], w)
  {
    var pre, rest := ints[..h], start[i + 2..part];
    assert ints[h := c][..h + 1] == pre + [c];
    assert start[i..part] == [start[i], start[i + 1]] + rest;
    assert pre + [start[i], start[i + 1]] + rest == pre + start[i..part];
    assert pre + [c] + rest == ints[h := c][..h + 1] + rest;
    forall env
      ensures Wrap(Total(plus, pre + [c] + rest, env), w) == Wrap(Total(plus, pre + [start[i], start[i + 1]] + rest, env), w)
    {
      PairStep(plus, pre, c, start[i], start[i + 1], rest, w, env);
    }
  }

  lemma {:induction false} RoundEnd(plus: bool, ints: seq<TwosComplementInt>, start: seq<TwosComplementInt>,
                 part: nat, max: nat, h: nat, w: nat)
    requires |ints| == |start| && 1 < part <= |ints| && max == part - 1 && w >= 1
    requires 2 * h >= max && 2 * h <= part
    requires max % 2 == 0 ==> ints[h] == start[max] && 2 * h == max
    requires max % 2 == 1 ==> 2 * h == part
    requires SameTotal(plus, ints[..h] + start[2 * h..part], start[..part], w)
    ensures SameTotal(plus, ints[..part - part / 2], start[..part], w)
  {
    var next := part - part / 2;
    if max % 2 == 0 {
      assert next == h + 1;
      assert start[2 * h..part] == [ints[h]];
      assert ints[..next] == ints[..h] + start[2 * h..part];
    } else {
      assert next == h;
      assert ints[..h] + start[2 * h..part] == ints[..next];
    }
  }

  lemma {:induction false} Single(plus: bool, ints: seq<TwosComplementInt>, all: seq<TwosComplementInt>, w: nat)
    requires 1 <= |ints| && Valid(ints[0]) && ints[0].factory.bitwidth == w
    requires SameTotal(plus, ints[..1], all, w)
    ensures forall env :: EvalInt(ints[0], env) == Wrap(Total(plus, all, env), w)
  {
    forall env
      ensures EvalInt(ints[0], env) == Wrap(Total(plus, all, env), w)
    {
      var v := EvalInt(ints[0], env);
      assert ints[..1][..0] == [];
      assert Total(plus, ints[..1], env) == v;
      ToIntRange(EvalBits(ints[0].bits, env));
      InRangeWiden(v, |ints[0].bits|, w);
      WrapInRange(v, w);
    }
  }

  /** The sum of x and all of others, wrapped to the bitwidth. */
  method PlusAll(x: TwosComplementInt, others: seq<TwosComplementInt>) returns (r: TwosComplementInt)
    requires Valid(x) && AllOf(others, x.factory)
    ensures r.factory == x.factory && Valid(r)
    ensures forall env :: EvalInt(r, env) == Wrap(Total(true, [x] + others, env), x.factory.bitwidth)
  {
    r := ApplyArith(true, false, x, others);
  }

  /** The product of x and all of others as the code forms it, pairwise by
      its binary multiplication: the product wrapped to the bitwidth from
      bitwidth 2 up, but 0 at bitwidth 1 once there is a second operand. */
  method MultiplyAll(x: TwosComplementInt, others: seq<TwosComplementInt>) returns (r: TwosComplementInt)
    requires Valid(x) && AllOf(others, x.factory)
    ensures r.factory == x.factory && Valid(r)
    ensures x.factory.bitwidth >= 2 || |others| == 0 ==>
      forall env :: EvalInt(r, env) == Wrap(Total(false, [x] + others, env), x.factory.bitwidth)
    ensures x.factory.bitwidth == 1 && |others| >= 1 ==> forall env :: EvalInt(r, env) == 0
  {
    r := ApplyArith(false, true, x, others);
  }

  /** The product as intended, pairwise by the corrected multiplication:
      the product of all operands wrapped to the bitwidth at every
      bitwidth. */
  method MultiplyAllIntended(x: TwosComplementInt, others: seq<TwosComplementInt>) returns (r: TwosComplementInt)
    requires Valid(x) && AllOf(others, x.factory)
    ensures r.factory == x.factory && Valid(r)
    ensures forall env :: EvalInt(r, env) == Wrap(Total(false, [x] + others, env), x.factory.bitwidth)
  {
    r := ApplyArith(false, false, x, others);
  }

  /** At bitwidth 1 the code's n-ary product of -1 and -1 reads 0 although
      the wrapped product is -1. */
  lemma {:induction false} ProductAllWrongAtWidthOne()
    ensures var minusOne := TwosComplementInt(Factory(0, 1), [TRUE]);
      && EvalInt(Pair(false, true, minusOne, minusOne), {}) == 0
      && Wrap(Total(false, [minusOne] + [minusOne], {}), 1) == -1
  {
    var minusOne := TwosComplementInt(Factory(0, 1), [TRUE]);
    var env: Assignment := {};
    PairValue(false, true, minusOne, minusOne);
    assert EvalBits(minusOne.bits, env) == [true];
    assert Unsigned([true]) == Unsigned([true][..0]) + Weight(true, 0);
    assert EvalInt(minusOne, env) == -1;
    var ops := [minusOne] + [minusOne];
    assert ops[..1] == [minusOne] && ops[..1][..0] == [];
    assert IntOf(minusOne, env) == -1;
    assert Total(false, ops[..1], env) == -1;
    assert Total(false, ops, env) == 1;
    assert Wrap(1, 1) == -1;
  }

  // ---------------------------------------------------------------------
  // AND and OR of many operands

  /** The widest of x and others. */
  function MaxWidth(x: TwosComplementInt, others: seq<TwosComplementInt>): (m: nat)
    ensures m >= |x.bits|
    ensures forall k :: 0 <= k < |others| ==> m >= |others[k].bits|
    ensures Valid(x) && AllOf(others, x.factory) ==> m <= x.factory.bitwidth
    decreases |others|
  {
    if |others| == 0 then |x.bits|
    else Max(MaxWidth(x, others[..|others| - 1]), |others[|others| - 1].bits|)
  }

  /** Bit i of every operand, x first. */
  function Column(x: TwosComplementInt, others: seq<TwosComplementInt>, i: nat): (c: seq<Node>)
    requires Valid(x) && AllOf(others, x.factory)
    ensures |c| == |others| + 1
    ensures c[0] == Bit(x, i)
    ensures forall k :: 1 <= k < |c| ==> c[k] == Bit(others[k - 1], i)
  {
    seq(|others| + 1, k requires 0 <= k <= |others| => ColumnAt(x, others, i, k))
  }

  /** Bit i of operand k, where operand 0 is x and operand k + 1 is others[k]. */
  function ColumnAt(x: TwosComplementInt, others: seq<TwosComplementInt>, i: nat, k: nat): Node
    requires Valid(x) && AllOf(others, x.factory) && k <= |others|
  {
    if k == 0 then Bit(x, i) else Bit(others[k - 1], i)
  }

  /** One bit position: the accumulator over the column, fed x's bit and
      then the others' bits until it short-circuits. */
  method GateColumn(op: Op, x: TwosComplementInt, others: seq<TwosComplementInt>, i: nat) returns (b: Node)
    requires Valid(x) && AllOf(others, x.factory)
    ensures b == Reduce(op, Column(x, others, i))
    ensures forall env :: Eval(b, env) == Combine(op, Column(x, others, i), env)
  {
    ghost var column := Column(x, others, i);
    var acc := Add(TreeGate(op), Bit(x, i));
    assert column[..1] == [Bit(x, i)];
    var n := 1;
    while n < |others| + 1
      invariant 1 <= n <= |others| + 1
      invariant acc == AddAll(TreeGate(op), column[..n])
    {
      var next := n + 1;
      acc := Add(acc, Bit(others[n - 1], i));
      assert acc == AddAll(TreeGate(op), column[..next]) by {
        AddAllNext(TreeGate(op), column, n, next);
      }
      if acc.shorted {
        ShortedIsFinal(op, column, next);
        break;
      }
      n := next;
    }
    assert acc == AddAll(TreeGate(op), column) by {
      if n == |others| + 1 {
        assert column[..n] == column;
      }
    }
    b := Accumulate(acc);
  }

  /** Two short-circuited accumulators over the same op are the same. */
  lemma {:induction false} ShortedIsFinal(op: Op, column: seq<Node>, k: nat)
    requires k <= |column| && AddAll(TreeGate(op), column[..k]).shorted
    ensures AddAll(TreeGate(op), column[..k]) == AddAll(TreeGate(op), column)
  {
    AddAllStaysShorted(op, column, k);
    ShortedShape(op, column[..k]);
    ShortedShape(op, column);
  }

  lemma {:induction false} ShortedShape(op: Op, vs: seq<Node>)
    requires AddAll(TreeGate(op), vs).shorted
    ensures AddAll(TreeGate(op), vs) == Accumulator(op, [], true)
    decreases |vs|
  {
    var n := |vs|;
    if n > 0 && AddAll(TreeGate(op), vs[..n - 1]).shorted {
      ShortedShape(op, vs[..n - 1]);
    }
  }

  /** The n-ary gate over the widest width: bit i of the result is op over
      bit i of every operand, and so, by sign extension, is every bit at or
      past the width. */
  method ApplyGate(op: Op, x: TwosComplementInt, others: seq<TwosComplementInt>) returns (r: TwosComplementInt)
    requires Valid(x) && AllOf(others, x.factory)
    ensures r.factory == x.factory && Valid(r)
    ensures |r.bits| == MaxWidth(x, others)
    ensures forall i :: 0 <= i < |r.bits| ==> r.bits[i] == Reduce(op, Column(x, others, i))
    ensures forall env, i: nat :: Eval(Bit(r, i), env) == Combine(op, Column(x, others, i), env)
  {
    var width := MaxWidth(x, others);
    var bits: seq<Node> := [];
    var i := 0;
    while i < width
      invariant 0 <= i <= width && |bits| == i
      invariant forall j :: 0 <= j < i ==> bits[j] == Reduce(op, Column(x, others, j))
    {
      var b := GateColumn(op, x, others, i);
      bits := bits + [b];
      i := i + 1;
    }
    r := TwosComplementInt(x.factory, bits);
    ColumnsPastWidth(op, x, others, r);
  }

  /** Past the widest width every column repeats the top one. */
  lemma {:induction false} ColumnsPastWidth(op: Op, x: TwosComplementInt, others: seq<TwosComplementInt>, r: TwosComplementInt)
    requires Valid(x) && AllOf(others, x.factory)
    requires |r.bits| == MaxWidth(x, others) >= 1
    requires forall i :: 0 <= i < |r.bits| ==> r.bits[i] == Reduce(op, Column(x, others, i))
    ensures forall env, i: nat :: Eval(Bit(r, i), env) == Combine(op, Column(x, others, i), env)
  {
    forall env, i: nat
      ensures Eval(Bit(r, i), env) == Combine(op, Column(x, others, i), env)
    {
      ColumnPastWidthAt(op, x, others, r, env, i);
    }
  }

  lemma {:induction false} ColumnPastWidthAt(op: Op, x: TwosComplementInt, others: seq<TwosComplementInt>, r: TwosComplementInt, env: Assignment, i: nat)
    requires Valid(x) && AllOf(others, x.factory)
    requires |r.bits| == MaxWidth(x, others) >= 1
    requires forall i :: 0 <= i < |r.bits| ==> r.bits[i] == Reduce(op, Column(x, others, i))
    ensures Eval(Bit(r, i), env) == Combine(op, Column(x, others, i), env)
  {
    var j := Min(i, |r.bits| - 1);
    var cj := Column(x, others, j);
    assert Bit(r, i) == Reduce(op, cj);
    assert Eval(Reduce(op, cj), env) == Combine(op, cj, env);
    ColumnRepeats(x, others, i, j);
  }

  lemma {:induction false} ColumnRepeats(x: TwosComplementInt, others: seq<TwosComplementInt>, i: nat, j: nat)
    requires Valid(x) && AllOf(others, x.factory)
    requires j == Min(i, MaxWidth(x, others) - 1)
    ensures Column(x, others, i) == Column(x, others, j)
  {
    var ci, cj := Column(x, others, i), Column(x, others, j);
    forall k | 0 <= k < |ci|
      ensures ci[k] == cj[k]
    {
      assert ci[k] == ColumnAt(x, others, i, k) && cj[k] == ColumnAt(x, others, j, k);
      if k > 0 {
        var o := others[k - 1];
        assert |o.bits| <= MaxWidth(x, others);
        assert Min(i, |o.bits| - 1) == Min(j, |o.bits| - 1);
      }
    }
  }

  method AndAll(x: TwosComplementInt, others: seq<TwosComplementInt>) returns (r: TwosComplementInt)
    requires Valid(x) && AllOf(others, x.factory)
    ensures r.factory == x.factory && Valid(r)
    ensures |r.bits| == MaxWidth(x, others)
    ensures forall env, i: nat ::
      Eval(Bit(r, i), env) <==> Eval(Bit(x, i), env) && forall k :: 0 <= k < |others| ==> Eval(Bit(others[k], i), env)
  {
    r := ApplyGate(AndOp, x, others);
    forall env, i: nat
      ensures Eval(Bit(r, i), env)
         <==> Eval(Bit(x, i), env) && forall k :: 0 <= k < |others| ==> Eval(Bit(others[k], i), env)
    {
      var column := Column(x, others, i);
      assert forall k :: 0 <= k < |others| ==> column[k + 1] == Bit(others[k], i);
    }
  }

  method OrAll(x: TwosComplementInt, others: seq<TwosComplementInt>) returns (r: TwosComplementInt)
    requires Valid(x) && AllOf(others, x.factory)
    ensures r.factory == x.factory && Valid(r)
    ensures |r.bits| == MaxWidth(x, others)
    ensures forall env, i: nat ::
      Eval(Bit(r, i), env) <==> Eval(Bit(x, i), env) || exists k :: 0 <= k < |others| && Eval(Bit(others[k], i), env)
  {
    r := ApplyGate(OrOp, x, others);
    forall env, i: nat
      ensures Eval(Bit(r, i), env)
         <==> Eval(Bit(x, i), env) || exists k :: 0 <= k < |others| && Eval(Bit(others[k], i), env)
    {
      OrColumn(x, others, i, env);
    }
  }

  /** Some entry of a column is set exactly when x's bit or some other
      operand's bit is. */
  lemma {:induction false} OrColumn(x: TwosComplementInt, others: seq<TwosComplementInt>, i: nat, env: Assignment)
    requires Valid(x) && AllOf(others, x.factory)
    ensures Combine(OrOp, Column(x, others, i), env)
        <==> Eval(Bit(x, i), env) || exists k :: 0 <= k < |others| && Eval(Bit(others[k], i), env)
  {
    var column := Column(x, others, i);
    if Combine(OrOp, column, env) {
      var j :| 0 <= j < |column| && Eval(column[j], env);
      if j > 0 {
        assert Eval(Bit(others[j - 1], i), env);
      }
    }
    if exists k :: 0 <= k < |others| && Eval(Bit(others[k], i), env) {
      var k :| 0 <= k < |others| && Eval(Bit(others[k], i), env);
      assert Eval(column[k + 1], env);
    }
  }
}
