/** The two's-complement bit-vector integer: a least-significant-bit-first
    sequence of circuit nodes drawn from one circuit factory, whose global
    bitwidth bounds the number of materialised bits. Reading a bit at or
    past the width yields the sign bit, so every vector is conceptually
    sign-extended to any width. */
module BitVector {
  import opened Arith
  import opened Circuit
  import opened Results

  /** A circuit factory, by identity, and the global bitwidth it fixes. */
  datatype Factory = Factory(id: nat, bitwidth: nat)

  datatype TwosComplementInt = TwosComplementInt(factory: Factory, bits: seq<Node>)

  /** At least one bit, and no more than the factory's bitwidth. */
  predicate Valid(x: TwosComplementInt)
  {
    1 <= |x.bits| <= x.factory.bitwidth
  }

  predicate SameFactory(a: TwosComplementInt, b: TwosComplementInt)
  {
    a.factory == b.factory
  }

  /** The number of bits: the value always fits that many two's-complement
      bits, and every index from the width on reads the top bit. */
  function Width(x: TwosComplementInt): (w: nat)
    ensures w == |x.bits|
    ensures |x.bits| >= 1 ==>
      && w >= 1
      && (forall env :: InRange(EvalInt(x, env), w))
      && (forall i: nat :: i >= w ==> Bit(x, i) == Bit(x, w - 1))
  {
    var w := |x.bits|;
    assert w >= 1 ==> forall env :: InRange(EvalInt(x, env), w) by {
      if w >= 1 {
        forall env
          ensures InRange(EvalInt(x, env), w)
        {
          ToIntRange(EvalBits(x.bits, env));
        }
      }
    }
    w
  }

  /** The integer a vector denotes under an assignment of the variables. */
  function EvalInt(x: TwosComplementInt, env: Assignment): int
    requires |x.bits| >= 1
  {
    ToInt(EvalBits(x.bits, env))
  }

  /** Bit i; every index at or past the width reads the sign bit. */
  function Bit(x: TwosComplementInt, i: nat): Node
    requires |x.bits| >= 1
  {
    x.bits[Min(i, |x.bits| - 1)]
  }

  /** The vector's bits sign-extended to n >= width positions. */
  function Extend(x: TwosComplementInt, n: nat): (r: seq<Node>)
    requires 1 <= |x.bits| <= n
    ensures |r| == n
    ensures forall i :: 0 <= i < n ==> r[i] == Bit(x, i)
  {
    x.bits + seq(n - |x.bits|, _ => x.bits[|x.bits| - 1])
  }

  /** Under any assignment, the extended bits are the sign extension of the
      evaluated bits. */
  lemma {:induction false} ExtendBits(x: TwosComplementInt, n: nat, env: Assignment)
    requires 1 <= |x.bits| <= n
    ensures EvalBits(Extend(x, n), env) == SignExtend(EvalBits(x.bits, env), n)
  {
  }

  /** Position k of the extended bits, evaluated, is bit k of x evaluated. */
  lemma {:induction false} ExtendEval(x: TwosComplementInt, n: nat, env: Assignment)
    requires 1 <= |x.bits| <= n
    ensures forall k :: 0 <= k < n ==> EvalBits(Extend(x, n), env)[k] == Eval(Bit(x, k), env)
  {
    forall k | 0 <= k < n
      ensures EvalBits(Extend(x, n), env)[k] == Eval(Bit(x, k), env)
    {
      assert Extend(x, n)[k] == Bit(x, k);
    }
  }

  /** Sign extension keeps the integer a vector denotes. */
  lemma {:induction false} ExtendValue(x: TwosComplementInt, n: nat, env: Assignment)
    requires 1 <= |x.bits| <= n
    ensures ToInt(EvalBits(Extend(x, n), env)) == EvalInt(x, env)
  {
    ExtendBits(x, n, env);
    SignExtendValue(EvalBits(x.bits, env), n);
  }

  /** Reading bit i of x under env is reading bit i of the evaluated bits
      sign-extended to any width above i. */
  lemma {:induction false} BitValue(x: TwosComplementInt, i: nat, n: nat, env: Assignment)
    requires 1 <= |x.bits| <= n && i < n
    ensures Eval(Bit(x, i), env) == SignExtend(EvalBits(x.bits, env), n)[i]
  {
  }

  // ---------------------------------------------------------------------
  // Constant vectors

  /** The unsigned reading of a run of constant nodes, or the failure the
      first non-constant node causes. */
  function ConstUnsigned(bits: seq<Node>): (r: Result<nat>)
    ensures r.Success? <==> forall i :: 0 <= i < |bits| ==> bits[i].Const?
    ensures r.Success? ==> forall env :: r.value == Unsigned(EvalBits(bits, env))
    ensures r.Failure? ==> r.error == IllegalState
    decreases |bits|
  {
    if |bits| == 0 then Success(0)
    else
      var n := |bits| - 1;
      match ConstUnsigned(bits[..n])
      case Failure(e) => Failure(e)
      case Success(u) =>
        if bits[n].Const? then
          assert forall env :: EvalBits(bits, env)[..n] == EvalBits(bits[..n], env);
          Success(u + Weight(bits[n].value, n))
        else Failure(IllegalState)
  }

  /** The integer a vector of constant bits holds; IllegalState if some bit
      is not a constant. */
  function Value(x: TwosComplementInt): (r: Result<int>)
    requires |x.bits| >= 1
    ensures r.Success? <==> forall i :: 0 <= i < |x.bits| ==> x.bits[i].Const?
    ensures r.Success? ==> forall env :: r.value == EvalInt(x, env)
    ensures r.Failure? ==> r.error == IllegalState
  {
    var n := |x.bits| - 1;
    match ConstUnsigned(x.bits)
    case Failure(e) => Failure(e)
    case Success(u) => Success(u - Weight(x.bits[n].value, n + 1))
  }

  /** Scans the bits from the top down for a non-constant one. */
  method IsConstant(x: TwosComplementInt) returns (r: bool)
    requires |x.bits| >= 1
    ensures r <==> forall i :: 0 <= i < |x.bits| ==> x.bits[i].Const?
    ensures r <==> Value(x).Success?
  {
    var i := |x.bits| - 1;
    while i >= 0
      invariant -1 <= i < |x.bits|
      invariant forall k :: i < k < |x.bits| ==> x.bits[k].Const?
    {
      var b := Bit(x, i);
      if b != TRUE && b != FALSE {
        return false;
      }
      i := i - 1;
    }
    return true;
  }

  // ---------------------------------------------------------------------
  // Literals

  const INT_MIN: int := -0x8000_0000
  const INT_MAX: int := 0x7fff_ffff

  predicate IsJavaInt(n: int)
  {
    INT_MIN <= n <= INT_MAX
  }

  /** Number of bits in the binary representation of n (0 for 0). */
  function BitLength(n: nat): nat
    decreases n
  {
    if n == 0 then 0 else 1 + BitLength(n / 2)
  }

  lemma {:induction false} BitLengthBounds(n: nat)
    ensures n < Pow2(BitLength(n))
    ensures n > 0 ==> Pow2(BitLength(n) - 1) <= n
    decreases n
  {
    if n > 0 {
      BitLengthBounds(n / 2);
    }
  }

  /** Leading zeros of a non-negative 32-bit integer. */
  function NumberOfLeadingZeros(n: int): int
    requires 0 <= n <= INT_MAX
  {
    32 - BitLength(n)
  }

  lemma {:induction false} BitLengthInt(n: int)
    requires 0 <= n <= INT_MAX
    ensures BitLength(n) <= 31
  {
    BitLengthBounds(n);
    if BitLength(n) > 31 {
      Pow2Monotone(31, BitLength(n) - 1);
      Pow2Of31();
    }
  }

  lemma {:induction false} Pow2Of31()
    ensures Pow2(31) == 0x8000_0000
  {
    assert Pow2(4) == 16;
    Pow2Add(4, 4);
    Pow2Add(8, 8);
    Pow2Add(16, 8);
    Pow2Add(24, 4);
    Pow2Add(28, 3);
    assert Pow2(3) == 8;
  }

  /** Width of the literal vector for number: the fewest two's-complement
      bits that hold it (one for 0), clamped to the bitwidth. */
  function LiteralWidth(f: Factory, number: int): nat
    requires IsJavaInt(number)
  {
    if number > 0 then
      BitLengthInt(number);
      Min(33 - NumberOfLeadingZeros(number), f.bitwidth)
    else if number < 0 then
      BitLengthInt(-number - 1);
      Min(33 - NumberOfLeadingZeros(-number - 1), f.bitwidth)
    else 1
  }

  /** The literal width is the least width that holds the number, unless
      the bitwidth cuts it short. */
  lemma {:induction false} LiteralWidthMinimal(f: Factory, number: int)
    requires IsJavaInt(number) && f.bitwidth >= 1
    ensures var w := LiteralWidth(f, number);
      && 1 <= w <= f.bitwidth
      && (InRange(number, w) || w == f.bitwidth)
      && (w > 1 ==> !InRange(number, w - 1))
  {
    var w := LiteralWidth(f, number);
    if number != 0 {
      var m: nat := if number > 0 then number else -number - 1;
      var l := BitLength(m);
      BitLengthBounds(m);
      BitLengthInt(m);
      assert w == Min(l + 1, f.bitwidth);
      assert w == l + 1 ==> InRange(number, w) by {
        var p := Pow2(l);
        assert m < p;
      }
      if w > 1 {
        assert Pow2(l - 1) <= m;
        Pow2Monotone(w - 2, l - 1);
        var q := Pow2(w - 2);
        assert q <= m;
        assert !InRange(number, w - 1);
      }
    }
  }

  /** The literal constructor: bit i is FALSE where number has a 0 and the
      selector bit where it has a 1, so the vector denotes number when the
      selector holds and 0 otherwise. */
  function Literal(f: Factory, number: int, bit: Node): (x: TwosComplementInt)
    requires IsJavaInt(number) && f.bitwidth >= 1
    ensures x.factory == f && Valid(x)
    ensures |x.bits| == LiteralWidth(f, number)
    ensures forall i :: 0 <= i < |x.bits| ==> x.bits[i] == FALSE || x.bits[i] == bit
  {
    var w := LiteralWidth(f, number);
    LiteralWidthMinimal(f, number);
    TwosComplementInt(f, seq(w, i requires 0 <= i < w => if TestBit(number, i) then bit else FALSE))
  }

  /** Under any assignment a literal denotes number wrapped to the bitwidth
      when its selector bit is true, and 0 otherwise. */
  lemma {:induction false} LiteralValue(f: Factory, number: int, bit: Node, env: Assignment)
    requires IsJavaInt(number) && f.bitwidth >= 1
    ensures EvalInt(Literal(f, number, bit), env)
         == if Eval(bit, env) then Wrap(number, f.bitwidth) else 0
  {
    var x := Literal(f, number, bit);
    var w := |x.bits|;
    var s := EvalBits(x.bits, env);
    if Eval(bit, env) {
      assert s == LowBits(number, w);
      ToIntLowBits(number, w);
      LiteralWidthMinimal(f, number);
      if w < f.bitwidth {
        WrapInRange(number, w);
        InRangeWiden(number, w, f.bitwidth);
        WrapInRange(number, f.bitwidth);
      }
    } else {
      assert s == Fill(w, false);
      UnsignedZeros(w);
    }
  }

  /** A literal selected by TRUE is constant, and value() gives back the
      number whenever it fits in the bitwidth. */
  lemma {:induction false} LiteralRoundTrip(f: Factory, number: int)
    requires IsJavaInt(number) && f.bitwidth >= 1 && InRange(number, f.bitwidth)
    ensures Value(Literal(f, number, TRUE)) == Success(number)
  {
    var x := Literal(f, number, TRUE);
    var env: Assignment := {};
    LiteralValue(f, number, TRUE, env);
    WrapInRange(number, f.bitwidth);
  }

  // ---------------------------------------------------------------------
  // The public bit view

  /** The vector's bits as a list of exactly bitwidth entries. */
  function TwosComplementBits(x: TwosComplementInt): (r: seq<Node>)
    requires Valid(x)
    ensures |r| == x.factory.bitwidth
    ensures forall env :: ToInt(EvalBits(r, env)) == EvalInt(x, env)
  {
    var r := Extend(x, x.factory.bitwidth);
    assert forall env :: ToInt(EvalBits(r, env)) == EvalInt(x, env) by {
      forall env
        ensures ToInt(EvalBits(r, env)) == EvalInt(x, env)
      {
        ExtendValue(x, x.factory.bitwidth, env);
      }
    }
    r
  }

  /** Element i of the bit view; IndexOutOfBounds outside [0, bitwidth). */
  function TwosComplementBitsGet(x: TwosComplementInt, i: int): (r: Result<Node>)
    requires Valid(x)
    ensures r.Success? <==> 0 <= i < x.factory.bitwidth
    ensures r.Success? ==> r.value == TwosComplementBits(x)[i]
    ensures r.Failure? ==> r.error == IndexOutOfBounds
  {
    if i < 0 || i >= x.factory.bitwidth then Failure(IndexOutOfBounds) else Success(Bit(x, i))
  }
}
