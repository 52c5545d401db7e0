/** Shift-and-add multiplication. Row 0 of the partial products is written
    into the result; rows 1 .. last-1 are each added in place at their
    offset by a chain of full adders; the last row is added as the
    complement of a single bit with carry-in TRUE, which subtracts that
    bit's weight (the technique of a multiplication ALU).

    When the result width is 1, row 0 is also the last row, and the code
    adds it twice: the result is always 0. ProductAsWritten models the code
    as it stands, Product the evident intent, which skips the last-row
    step when row 0 already covered it. */
module Multiply {
  import opened Arith
  import opened Circuit
  import opened Adder
  import opened BitVector

  /** Bits at least wide enough for the exact product, clamped to bitwidth. */
  function ProductWidth(a: TwosComplementInt, b: TwosComplementInt): nat
  {
    Min(|a.bits| + |b.bits|, a.factory.bitwidth)
  }

  /** The operand's evaluated bits sign-extended to w positions. */
  function Ext(x: TwosComplementInt, w: nat, env: Assignment): (s: seq<bool>)
    requires 1 <= |x.bits| <= w
    ensures |s| == w
  {
    EvalBits(Extend(x, w), env)
  }

  /** Adds newBit and a carry-in into bits[index] in place; returns the
      updated bits and the carry out of that position. */
  function AddAndCarry(bits: seq<Node>, index: nat, newBit: Node, cin: Node): (r: (seq<Node>, Node))
    requires index < |bits|
    ensures |r.0| == |bits|
    ensures forall k :: 0 <= k < |bits| && k != index ==> r.0[k] == bits[k]
    ensures forall env ::
      (Weight(Eval(r.0[index], env), 0) + Weight(Eval(r.1, env), 1)
       == Weight(Eval(bits[index], env), 0) + Weight(Eval(newBit, env), 0) + Weight(Eval(cin, env), 0))
  {
    (bits[index := MkSum(bits[index], newBit, cin)], MkCarry(bits[index], newBit, cin))
  }

  /** Row i of the partial products: bit i of a and'ed with bits 0 .. n-1 of b. */
  function RowBits(a: TwosComplementInt, b: TwosComplementInt, i: nat, n: nat): (r: seq<Node>)
    requires |a.bits| >= 1 && |b.bits| >= 1
    ensures |r| == n
    ensures forall j :: 0 <= j < n ==> r[j] == MkAnd(Bit(a, i), Bit(b, j))
  {
    seq(n, j requires 0 <= j < n => MkAnd(Bit(a, i), Bit(b, j)))
  }

  /** Adds r, with carry-in cin, into m at offset i, dropping the carry out
      of the top position. */
  function AddAt(m: seq<Node>, i: nat, r: seq<Node>, cin: Node): (res: seq<Node>)
    requires i + |r| == |m|
    ensures |res| == |m|
    ensures res[..i] == m[..i]
  {
    m[..i] + Ripple(m[i..], r, cin).sum
  }

  /** The partial product after rows 0 .. i-1 have been accumulated. */
  function PartialProduct(a: TwosComplementInt, b: TwosComplementInt, w: nat, i: nat): (m: seq<Node>)
    requires |a.bits| >= 1 && |b.bits| >= 1 && 1 <= i <= w
    ensures |m| == w
    decreases i
  {
    if i == 1 then RowBits(a, b, 0, w)
    else AddAt(PartialProduct(a, b, w, i - 1), i - 1, RowBits(a, b, i - 1, w - (i - 1)), FALSE)
  }

  /** The last row: the complement of bit w-1 of a and'ed with bit 0 of b. */
  function LastRow(a: TwosComplementInt, b: TwosComplementInt, w: nat): seq<Node>
    requires |a.bits| >= 1 && |b.bits| >= 1 && w >= 1
  {
    [MkNot(MkAnd(Bit(a, w - 1), Bit(b, 0)))]
  }

  /** The product's bits as the code computes them: the last-row step is
      taken even when the last row is row 0. */
  function ProductAsWritten(a: TwosComplementInt, b: TwosComplementInt): (m: seq<Node>)
    requires Valid(a) && Valid(b) && SameFactory(a, b)
    ensures |m| == ProductWidth(a, b)
  {
    var w := ProductWidth(a, b);
    AddAt(PartialProduct(a, b, w, Max(w - 1, 1)), w - 1, LastRow(a, b, w), TRUE)
  }

  /** The product's bits as intended: the last-row step only when the last
      row is not row 0. */
  function Product(a: TwosComplementInt, b: TwosComplementInt): (m: seq<Node>)
    requires Valid(a) && Valid(b) && SameFactory(a, b)
    ensures |m| == ProductWidth(a, b)
  {
    var w := ProductWidth(a, b);
    if w - 1 > 0 then AddAt(PartialProduct(a, b, w, w - 1), w - 1, LastRow(a, b, w), TRUE)
    else PartialProduct(a, b, w, 1)
  }


  // ---------------------------------------------------------------------
  // The in-place computation

  /** Writes row 0 and adds rows 1 .. last-1 in place, as the code does. */
  method PartialProducts(a: TwosComplementInt, b: TwosComplementInt) returns (mult: seq<Node>)
    requires Valid(a) && Valid(b) && SameFactory(a, b)
    ensures mult == PartialProduct(a, b, ProductWidth(a, b), Max(ProductWidth(a, b) - 1, 1))
  {
    var width := ProductWidth(a, b);
    var iBit := Bit(a, 0);
    mult := seq(width, _ => FALSE);
    var j := 0;
    while j < width
      invariant 0 <= j <= width && |mult| == width
      invariant forall k :: 0 <= k < j ==> mult[k] == MkAnd(iBit, Bit(b, k))
    {
      mult := mult[j := MkAnd(iBit, Bit(b, j))];
      j := j + 1;
    }
    assert mult == RowBits(a, b, 0, width);
    var last := width - 1;
    var i := 1;
    while i < last
      invariant 1 <= i <= Max(last, 1)
      invariant mult == PartialProduct(a, b, width, i)
    {
      mult := AddRow(a, b, mult, width, i);
      PartialProductNext(a, b, width, i);
      i := i + 1;
    }
    assert i == Max(last, 1);
  }

  /** Adds row i at offset i into mult in place, one full adder per
      position, the carry rippling upwards and dropped at the top. */
  method AddRow(a: TwosComplementInt, b: TwosComplementInt, mult: seq<Node>, width: nat, i: nat) returns (r: seq<Node>)
    requires |a.bits| >= 1 && |b.bits| >= 1 && i < |mult| == width
    ensures r == AddAt(mult, i, RowBits(a, b, i, width - i), FALSE)
  {
    var carry := FALSE;
    var iBit := Bit(a, i);
    ghost var row := RowBits(a, b, i, width - i);
    r := mult;
    var j := 0;
    var jmax := width - i;
    SplicedNone(mult, i, row, FALSE);
    while j < jmax
      invariant 0 <= j <= jmax
      invariant r == Spliced(mult, i, row, FALSE, j)
      invariant carry == Ripple(mult[i..i + j], row[..j], FALSE).carry
    {
      var t := AddAndCarry(r, j + i, MkAnd(iBit, Bit(b, j)), carry);
      var next := j + 1;
      RippleStep(mult, i, row, j, next, r, carry, t);
      r, carry := t.0, t.1;
      j := next;
    }
    SplicedIsAddAt(mult, i, row);
  }

  /** All of row added at offset i is AddAt. */
  lemma {:induction false} SplicedIsAddAt(before: seq<Node>, i: nat, row: seq<Node>)
    requires i + |row| == |before|
    ensures Spliced(before, i, row, FALSE, |row|) == AddAt(before, i, row, FALSE)
  {
    SplicedAll(before, i, row, FALSE);
    assert before[i..i + |row|] == before[i..];
    assert before[i + |row|..] == [];
  }

  lemma {:induction false} PartialProductNext(a: TwosComplementInt, b: TwosComplementInt, w: nat, i: nat)
    requires |a.bits| >= 1 && |b.bits| >= 1 && 1 <= i < w
    ensures PartialProduct(a, b, w, i + 1) == AddAt(PartialProduct(a, b, w, i), i, RowBits(a, b, i, w - i), FALSE)
  {
  }

  /** One full adder at position i + j extends the splice by one position. */
  lemma {:induction false} RippleStep(before: seq<Node>, i: nat, row: seq<Node>, j: nat, next: nat, mult: seq<Node>, carry: Node, t: (seq<Node>, Node))
    requires i + |row| == |before| && j < |row| && next == j + 1
    requires mult == Spliced(before, i, row, FALSE, j)
    requires carry == Ripple(before[i..i + j], row[..j], FALSE).carry
    requires t == AddAndCarry(mult, j + i, row[j], carry)
    ensures t.0 == Spliced(before, i, row, FALSE, next)
    ensures t.1 == Ripple(before[i..i + next], row[..next], FALSE).carry
  {
    SplicedStep(before, i, row, FALSE, j, next, mult, carry);
  }

  /** Adding a one-bit row at the top position is one in-place full adder. */
  lemma {:induction false} AddAtTop(m: seq<Node>, x: Node, cin: Node)
    requires |m| >= 1
    ensures AddAt(m, |m| - 1, [x], cin) == AddAndCarry(m, |m| - 1, x, cin).0
  {
    var n := |m| - 1;
    assert m[n..] == [m[n]];
    assert [m[n]][..0] == [] && [x][..0] == [];
    assert Ripple(m[n..], [x], cin).sum == [MkSum(m[n], x, cin)];
  }

  /** Multiplication exactly as the code does it. */
  method MultiplyAsWritten(a: TwosComplementInt, b: TwosComplementInt) returns (r: TwosComplementInt)
    requires Valid(a) && Valid(b) && SameFactory(a, b)
    ensures r.factory == a.factory && Valid(r)
    ensures r.bits == ProductAsWritten(a, b)
    ensures |r.bits| == 1 ==> forall env :: EvalInt(r, env) == 0
    ensures |r.bits| >= 2 ==> forall env :: EvalInt(r, env) == Wrap(EvalInt(a, env) * EvalInt(b, env), a.factory.bitwidth)
  {
    var mult := PartialProducts(a, b);
    var last := |mult| - 1;
    var t := AddAndCarry(mult, last, MkNot(MkAnd(Bit(a, last), Bit(b, 0))), TRUE);
    LastStep(a, b, mult, last, t);
    r := TwosComplementInt(a.factory, t.0);
    ProductAsWrittenAll(a, b, r);
  }

  /** The final in-place step of the code yields the product's bits. */
  lemma {:induction false} LastStep(a: TwosComplementInt, b: TwosComplementInt, mult: seq<Node>, last: nat, t: (seq<Node>, Node))
    requires Valid(a) && Valid(b) && SameFactory(a, b)
    requires mult == PartialProduct(a, b, ProductWidth(a, b), Max(ProductWidth(a, b) - 1, 1))
    requires last == |mult| - 1
    requires t == AddAndCarry(mult, last, MkNot(MkAnd(Bit(a, last), Bit(b, 0))), TRUE)
    ensures t.0 == ProductAsWritten(a, b)
    ensures last > 0 ==> t.0 == Product(a, b)
    ensures last == 0 ==> mult == Product(a, b)
  {
    AddAtTop(mult, MkNot(MkAnd(Bit(a, last), Bit(b, 0))), TRUE);
  }

  lemma {:induction false} ProductAsWrittenAll(a: TwosComplementInt, b: TwosComplementInt, r: TwosComplementInt)
    requires Valid(a) && Valid(b) && SameFactory(a, b)
    requires r == TwosComplementInt(a.factory, ProductAsWritten(a, b))
    ensures Valid(r)
    ensures |r.bits| == 1 ==> forall env :: EvalInt(r, env) == 0
    ensures |r.bits| >= 2 ==> forall env :: EvalInt(r, env) == Wrap(EvalInt(a, env) * EvalInt(b, env), a.factory.bitwidth)
  {
    forall env
      ensures |r.bits| == 1 ==> EvalInt(r, env) == 0
      ensures |r.bits| >= 2 ==> EvalInt(r, env) == Wrap(EvalInt(a, env) * EvalInt(b, env), a.factory.bitwidth)
    {
      ProductAsWrittenValue(a, b, env);
    }
  }

  /** Multiplication as intended: also correct at result width 1. */
  method Multiply(a: TwosComplementInt, b: TwosComplementInt) returns (r: TwosComplementInt)
    requires Valid(a) && Valid(b) && SameFactory(a, b)
    ensures r.factory == a.factory && Valid(r)
    ensures |r.bits| == ProductWidth(a, b)
    ensures r.bits == Product(a, b)
    ensures forall env :: EvalInt(r, env) == Wrap(EvalInt(a, env) * EvalInt(b, env), a.factory.bitwidth)
  {
    var mult := PartialProducts(a, b);
    var last := |mult| - 1;
    var t := AddAndCarry(mult, last, MkNot(MkAnd(Bit(a, last), Bit(b, 0))), TRUE);
    LastStep(a, b, mult, last, t);
    if last > 0 {
      mult := t.0;
    }
    r := TwosComplementInt(a.factory, mult);
    ProductAll(a, b, r);
  }

  lemma {:induction false} ProductAll(a: TwosComplementInt, b: TwosComplementInt, r: TwosComplementInt)
    requires Valid(a) && Valid(b) && SameFactory(a, b)
    requires r == TwosComplementInt(a.factory, Product(a, b))
    ensures Valid(r)
    ensures forall env :: EvalInt(r, env) == Wrap(EvalInt(a, env) * EvalInt(b, env), a.factory.bitwidth)
  {
    forall env
      ensures EvalInt(r, env) == Wrap(EvalInt(a, env) * EvalInt(b, env), a.factory.bitwidth)
    {
      ProductValue(a, b, env);
    }
  }

  // ---------------------------------------------------------------------
  // What the bits mean

  /** Adding r with carry-in cin at offset i adds 2^i times r + cin to the
      unsigned reading of m, modulo 2^|m|; y names that sum. */
  lemma {:induction false} AddAtValue(m: seq<Node>, i: nat, r: seq<Node>, cin: Node, env: Assignment, u: int, y: int, p: int)
    requires i + |r| == |m| && p == Pow2(|m|)
    requires u == Unsigned(EvalBits(r, env)) + Weight(Eval(cin, env), 0)
    requires y == Unsigned(EvalBits(m, env)) + Pow2(i) * u
    ensures Unsigned(EvalBits(AddAt(m, i, r, cin), env)) == y % p
  {
    var res := Ripple(m[i..], r, cin);
    var sm, hi, t := EvalBits(m, env), EvalBits(res.sum, env), EvalBits(AddAt(m, i, r, cin), env);
    var c := Eval(res.carry, env);
    RippleValue(m[i..], r, cin, env);
    AddAtBits(m, i, r, cin, env);
    assert Unsigned(hi) + Weight(c, |hi|) == Unsigned(sm[i..]) + u;
    OffsetLinear(sm, hi, t, i, u, c, y);
    UnsignedBound(t);
    WeightMod(Unsigned(t), c, |m|, y, p);
  }

  /** The evaluated bits of AddAt: m's low part, then the adder's sum. */
  lemma {:induction false} AddAtBits(m: seq<Node>, i: nat, r: seq<Node>, cin: Node, env: Assignment)
    requires i + |r| == |m|
    ensures EvalBits(m[i..], env) == EvalBits(m, env)[i..]
    ensures EvalBits(AddAt(m, i, r, cin), env) == EvalBits(m, env)[..i] + EvalBits(Ripple(m[i..], r, cin).sum, env)
  {
    EvalBitsSlice(m, i, |m|, env);
    assert m[i..|m|] == m[i..];
    EvalBitsConcat(m[..i], Ripple(m[i..], r, cin).sum, env);
    EvalBitsSlice(m, 0, i, env);
    assert m[0..i] == m[..i];
  }

  /** Replacing the bits of sm from i up by hi, where hi with its carry-out
      c is the old high part plus u, adds 2^i * u and drops c at the top. */
  lemma {:induction false} OffsetLinear(sm: seq<bool>, hi: seq<bool>, t: seq<bool>, i: nat, u: int, c: bool, y: int)
    requires i + |hi| == |sm| && t == sm[..i] + hi
    requires Unsigned(hi) + Weight(c, |hi|) == Unsigned(sm[i..]) + u
    requires y == Unsigned(sm) + Pow2(i) * u
    ensures Unsigned(t) + Weight(c, |sm|) == y
  {
    var lo := sm[..i];
    UnsignedConcat(lo, hi);
    UnsignedSplit(sm, i);
    MulWeight(Pow2(i), c, i, |sm| - i);
    LinearArith(Unsigned(t), Unsigned(lo), Unsigned(hi), Unsigned(sm), Unsigned(sm[i..]),
      Pow2(i), u, Weight(c, |sm| - i), Weight(c, |sm|));
  }

  lemma {:induction false} LinearArith(unew: int, ulo: int, uhi: int, usm: int, usmhi: int, p: int, u: int, wc: int, wt: int)
    requires unew == ulo + p * uhi
    requires usm == ulo + p * usmhi
    requires uhi + wc == usmhi + u
    requires p * wc == wt
    ensures unew + wt == usm + p * u
  {
    Distribute(p, usmhi + u, wc);
    Distribute(p, usmhi, u);
    assert p * uhi == p * (usmhi + u - wc);
  }

  /** A value below 2^w plus a multiple 0 or 1 of 2^w is its own residue. */
  lemma {:induction false} WeightMod(x: int, c: bool, w: nat, y: int, p: int)
    requires p == Pow2(w) && 0 <= x < p && x + Weight(c, w) == y
    ensures x == y % p
  {
    DivModUnique(y, p, if c then 1 else 0, x);
  }

  /** A row reads as b's low bits where a's bit is set, and as 0 elsewhere. */
  lemma {:induction false} RowValue(a: TwosComplementInt, b: TwosComplementInt, i: nat, n: nat, w: nat, env: Assignment)
    requires 1 <= |a.bits| <= w && 1 <= |b.bits| <= w && i < w && n <= w
    ensures Unsigned(EvalBits(RowBits(a, b, i, n), env))
         == if Ext(a, w, env)[i] then Unsigned(Ext(b, w, env)[..n]) else 0
  {
    var row := EvalBits(RowBits(a, b, i, n), env);
    if Ext(a, w, env)[i] {
      assert row == Ext(b, w, env)[..n];
    } else {
      assert row == Fill(n, false);
      UnsignedZeros(n);
    }
  }

  /** The partial product after rows 0 .. i-1 holds a's low i bits times b,
      modulo 2^w. */
  lemma {:induction false} PartialProductValue(a: TwosComplementInt, b: TwosComplementInt, w: nat, i: nat, env: Assignment)
    requires 1 <= |a.bits| <= w && 1 <= |b.bits| <= w && 1 <= i <= w
    ensures Unsigned(EvalBits(PartialProduct(a, b, w, i), env))
         == (Unsigned(Ext(a, w, env)[..i]) * Unsigned(Ext(b, w, env))) % Pow2(w)
    decreases i
  {
    if i == 1 {
      FirstRowValue(a, b, w, i, env);
    } else {
      var j := i - 1;
      PartialProductValue(a, b, w, j, env);
      PartialProductStep(a, b, w, j, i, env);
    }
  }

  /** Adding row i-1 to the partial product of rows 0 .. i-2. */
  lemma {:induction false} PartialProductStep(a: TwosComplementInt, b: TwosComplementInt, w: nat, j: nat, i: nat, env: Assignment)
    requires 1 <= |a.bits| <= w && 1 <= |b.bits| <= w && 1 <= j && i == j + 1 <= w
    requires Unsigned(EvalBits(PartialProduct(a, b, w, j), env))
          == (Unsigned(Ext(a, w, env)[..j]) * Unsigned(Ext(b, w, env))) % Pow2(w)
    ensures Unsigned(EvalBits(PartialProduct(a, b, w, i), env))
         == (Unsigned(Ext(a, w, env)[..i]) * Unsigned(Ext(b, w, env))) % Pow2(w)
  {
    var prev := PartialProduct(a, b, w, i - 1);
    RowAddedValue(a, b, w, i, prev, env);
  }

  /** Row 0 alone holds a's low bit times b, modulo 2^w. */
  lemma {:induction false} FirstRowValue(a: TwosComplementInt, b: TwosComplementInt, w: nat, i: nat, env: Assignment)
    requires 1 <= |a.bits| <= w && 1 <= |b.bits| <= w && i == 1
    ensures Unsigned(EvalBits(PartialProduct(a, b, w, i), env))
         == (Unsigned(Ext(a, w, env)[..i]) * Unsigned(Ext(b, w, env))) % Pow2(w)
  {
    var sa, sb := Ext(a, w, env), Ext(b, w, env);
    var ub := Unsigned(sb);
    RowValue(a, b, 0, w, w, env);
    assert sb[..w] == sb;
    UnsignedBound(sb);
    assert Unsigned(sa[..1]) == Unsigned(sa[..1][..0]) + Weight(sa[0], 0);
    FirstRowArith(sa[0], Unsigned(sa[..1]), ub, Pow2(w));
  }

  /** Adding row i-1 at offset i-1 to a partial product holding a's low
      i-1 bits times b gives one holding a's low i bits times b, modulo 2^w. */
  lemma {:induction false} RowAddedValue(a: TwosComplementInt, b: TwosComplementInt, w: nat, i: nat, prev: seq<Node>, env: Assignment)
    requires 1 <= |a.bits| <= w && 1 <= |b.bits| <= w && 2 <= i <= w && |prev| == w
    requires Unsigned(EvalBits(prev, env)) == (Unsigned(Ext(a, w, env)[..i - 1]) * Unsigned(Ext(b, w, env))) % Pow2(w)
    ensures Unsigned(EvalBits(AddAt(prev, i - 1, RowBits(a, b, i - 1, w - (i - 1)), FALSE), env))
         == (Unsigned(Ext(a, w, env)[..i]) * Unsigned(Ext(b, w, env))) % Pow2(w)
  {
    var sa, sb := Ext(a, w, env), Ext(b, w, env);
    var j := i - 1;
    var row := RowBits(a, b, j, w - j);
    var pw, pj := Pow2(w), Pow2(j);
    var u := Unsigned(EvalBits(row, env)) + Weight(Eval(FALSE, env), 0);
    var v := Unsigned(EvalBits(prev, env));
    var y := v + pj * u;
    var x := Unsigned(EvalBits(AddAt(prev, j, row, FALSE), env));
    assert x == y % pw by {
      AddAtValue(prev, j, row, FALSE, env, u, y, pw);
    }
    assert u == if sa[j] then Unsigned(sb[..w - j]) else 0 by {
      RowValue(a, b, j, w - j, w, env);
    }
    var wt := Weight(sa[j], j);
    var h := RowStep(wt, sa[j], u, sb, j, w);
    var lowA, la := Unsigned(sa[..j]), Unsigned(sa[..i]);
    assert la == lowA + wt by {
      UnsignedPrefix(sa, j);
    }
    RowArith(lowA, wt, Unsigned(sb), pj, u, h, pw, v, y, x, la);
  }

  lemma {:induction false} FirstRowArith(bit: bool, la: int, ub: int, m: int)
    requires 0 <= ub < m && la == Weight(bit, 0)
    ensures (if bit then ub else 0) == (la * ub) % m
  {
    if bit {
      DivModUnique(la * ub, m, 0, ub);
    } else {
      DivModUnique(la * ub, m, 0, 0);
    }
  }

  /** Adding d to the residue of lowA * ub, where d differs from wt * ub by
      a multiple of m, leaves the residue of (lowA + wt) * ub. */
  lemma {:induction false} RowArith(lowA: int, wt: int, ub: int, pj: int, u: int, h: int, m: int, v: int, y: int, x: int, la: int)
    requires m > 0 && v == (lowA * ub) % m && y == v + pj * u && x == y % m
    requires wt * ub == pj * u + h * m && la == lowA + wt
    ensures x == (la * ub) % m
  {
    var q := lowA * ub;
    DivIdentity(q, m);
    assert la * ub == q + wt * ub;
    assert (q / m) * m + h * m == (q / m + h) * m;
    assert la * ub == y + (q / m + h) * m;
    ModAddMultiple(y, q / m + h, m);
  }

  /** One row step: 2^j times the row differs from bit j's weight times all
      of b by a multiple of 2^w. */
  lemma {:induction false} RowStep(wt: int, bit: bool, ur: int, sb: seq<bool>, j: nat, w: nat) returns (h: int)
    requires 1 <= j < w && |sb| == w
    requires wt == Weight(bit, j)
    requires ur == if bit then Unsigned(sb[..w - j]) else 0
    ensures wt * Unsigned(sb) == Pow2(j) * ur + h * Pow2(w)
  {
    if bit {
      UnsignedSplit(sb, w - j);
      Pow2Add(j, w - j);
      h := Unsigned(sb[w - j..]);
      SplitProduct(Pow2(j), Unsigned(sb[..w - j]), h, Pow2(w - j), Pow2(w), Unsigned(sb));
    } else {
      h := 0;
    }
  }

  lemma {:induction false} SplitProduct(p: int, lo: int, hi: int, q: int, m: int, ub: int)
    requires ub == lo + q * hi && m == p * q
    ensures p * ub == p * lo + hi * m
  {
    Distribute(p, lo, q * hi);
    assert p * (q * hi) == hi * (p * q);
  }

  /** Both readings of a product's bits agree with a times b modulo 2^w once
      its unsigned reading does. */
  lemma {:induction false} ProductFromUnsigned(a: TwosComplementInt, b: TwosComplementInt, m: seq<Node>, env: Assignment)
    requires Valid(a) && Valid(b) && SameFactory(a, b)
    requires |m| == ProductWidth(a, b)
    requires var w := |m|;
      Unsigned(EvalBits(m, env)) == (Unsigned(Ext(a, w, env)) * Unsigned(Ext(b, w, env))) % Pow2(w)
    ensures ToInt(EvalBits(m, env)) == Wrap(EvalInt(a, env) * EvalInt(b, env), a.factory.bitwidth)
  {
    var w := |m|;
    var sm, sa, sb := EvalBits(m, env), Ext(a, w, env), Ext(b, w, env);
    var x, y := EvalInt(a, env), EvalInt(b, env);
    ExtendValue(a, w, env);
    ExtendValue(b, w, env);
    ToIntIsWrap(sm);
    ToIntIsWrap(sa);
    ToIntIsWrap(sb);
    ToIntRange(EvalBits(a.bits, env));
    ToIntRange(EvalBits(b.bits, env));
    ProductWrap(Unsigned(sa), Unsigned(sb), Unsigned(sm), x, y, |a.bits|, |b.bits|, w, a.factory.bitwidth);
  }

  /** The integer part: if us is ua * ub modulo 2^w, and x, y are ua, ub
      read in w bits, then us read in w bits is x * y wrapped to the
      bitwidth, since the exact product needs no more than |a| + |b| bits. */
  lemma {:induction false} ProductWrap(ua: int, ub: int, us: int, x: int, y: int, wa: nat, wb: nat, w: nat, bw: nat)
    requires 1 <= wa && 1 <= wb && w == Min(wa + wb, bw) && w >= 1
    requires us == (ua * ub) % Pow2(w)
    requires x == Wrap(ua, w) && y == Wrap(ub, w)
    requires InRange(x, wa) && InRange(y, wb)
    ensures Wrap(us, w) == Wrap(x * y, bw)
  {
    var z := ua * ub;
    DivIdentity(z, Pow2(w));
    WrapShift(z, us, z / Pow2(w), w);
    WrapMul(ua, ub, w);
    WrapMul(ub, x, w);
    assert ub * x == x * ub && y * x == x * y;
    assert Wrap(us, w) == Wrap(x * y, w);
    ProductInRange(x, y, wa, wb);
    if w < bw {
      WrapInRange(x * y, w);
      InRangeWiden(x * y, w, bw);
      WrapInRange(x * y, bw);
    }
  }

  /** The last-row step at w >= 2: adding (not x) + 1 at the top position
      is, modulo 2^w, adding x there, so a partial product holding a's low
      w-1 bits times b becomes one holding all of a times b. */
  lemma {:induction false} LastRowStep(a: TwosComplementInt, b: TwosComplementInt, w: nat, prev: seq<Node>, env: Assignment)
    requires 1 <= |a.bits| <= w && 1 <= |b.bits| <= w && w >= 2 && |prev| == w
    requires Unsigned(EvalBits(prev, env)) == (Unsigned(Ext(a, w, env)[..w - 1]) * Unsigned(Ext(b, w, env))) % Pow2(w)
    ensures Unsigned(EvalBits(AddAt(prev, w - 1, LastRow(a, b, w), TRUE), env))
         == (Unsigned(Ext(a, w, env)) * Unsigned(Ext(b, w, env))) % Pow2(w)
  {
    var sa, sb := Ext(a, w, env), Ext(b, w, env);
    var x := sa[w - 1] && sb[0];
    var last := EvalBits(LastRow(a, b, w), env);
    assert last == [] + [!x];
    UnsignedAppend([], !x);
    var u := Unsigned(last) + Weight(Eval(TRUE, env), 0);
    assert u == Bit01(!x) + 1;
    var y := Unsigned(EvalBits(prev, env)) + Pow2(w - 1) * u;
    AddAtValue(prev, w - 1, LastRow(a, b, w), TRUE, env, u, y, Pow2(w));
    var wt := Weight(sa[w - 1], w - 1);
    assert Unsigned(sa) == Unsigned(sa[..w - 1]) + wt;
    var h := LastRowArith(sa[w - 1], sb, x, w - 1, w, wt, u);
    RowArith(Unsigned(sa[..w - 1]), wt, Unsigned(sb), Pow2(w - 1), u, h, Pow2(w), Unsigned(EvalBits(prev, env)),
      y, Unsigned(EvalBits(AddAt(prev, w - 1, LastRow(a, b, w), TRUE), env)), Unsigned(sa));
  }

  /** The last row, complemented with carry-in 1, differs from the top bit's
      weight times b by a multiple of 2^w. */
  lemma {:induction false} LastRowArith(top: bool, sb: seq<bool>, x: bool, l: nat, w: nat, wt: int, u: int) returns (h: int)
    requires w == l + 1 && |sb| == w && x == (top && sb[0])
    requires wt == Weight(top, l) && u == Bit01(!x) + 1
    ensures wt * Unsigned(sb) == Pow2(l) * u + h * Pow2(w)
  {
    UnsignedSplit(sb, 1);
    assert Unsigned(sb[..1]) == Unsigned(sb[..1][..0]) + Weight(sb[..1][0], 0);
    assert Pow2(w) == 2 * Pow2(l);
    h := LastRowInt(Pow2(l), Pow2(w), sb[0], Unsigned(sb[1..]), Unsigned(sb), top, wt, u);
  }

  lemma {:induction false} LastRowInt(p: int, m: int, b0: bool, rest: int, ub: int, top: bool, wt: int, u: int) returns (h: int)
    requires m == 2 * p && ub == Bit01(b0) + 2 * rest
    requires wt == (if top then p else 0) && u == Bit01(!(top && b0)) + 1
    ensures wt * ub == p * u + h * m
  {
    if top {
      Distribute(p, Bit01(b0), 2 * rest);
      assert p * (2 * rest) == rest * m;
      h := if b0 then rest else rest - 1;
    } else {
      h := -1;
    }
  }

  lemma {:induction false} ProductValue(a: TwosComplementInt, b: TwosComplementInt, env: Assignment)
    requires Valid(a) && Valid(b) && SameFactory(a, b)
    ensures ToInt(EvalBits(Product(a, b), env)) == Wrap(EvalInt(a, env) * EvalInt(b, env), a.factory.bitwidth)
  {
    var w := ProductWidth(a, b);
    if w - 1 > 0 {
      PartialProductValue(a, b, w, w - 1, env);
      LastRowStep(a, b, w, PartialProduct(a, b, w, w - 1), env);
    } else {
      PartialProductValue(a, b, w, 1, env);
      assert Ext(a, w, env)[..1] == Ext(a, w, env);
    }
    ProductFromUnsigned(a, b, Product(a, b), env);
  }

  /** As written: correct from width 2 up, and always 0 at width 1. */
  lemma {:induction false} ProductAsWrittenValue(a: TwosComplementInt, b: TwosComplementInt, env: Assignment)
    requires Valid(a) && Valid(b) && SameFactory(a, b)
    ensures ProductWidth(a, b) == 1 ==> ToInt(EvalBits(ProductAsWritten(a, b), env)) == 0
    ensures ProductWidth(a, b) >= 2 ==>
      ToInt(EvalBits(ProductAsWritten(a, b), env)) == Wrap(EvalInt(a, env) * EvalInt(b, env), a.factory.bitwidth)
  {
    var w := ProductWidth(a, b);
    if w >= 2 {
      ProductValue(a, b, env);
    } else {
      var m := ProductAsWritten(a, b);
      var lastBit := MkNot(MkAnd(Bit(a, 0), Bit(b, 0)));
      assert m == AddAt(RowBits(a, b, 0, 1), 0, [lastBit], TRUE);
      AddAtTop(RowBits(a, b, 0, 1), lastBit, TRUE);
      assert m == [MkSum(MkAnd(Bit(a, 0), Bit(b, 0)), lastBit, TRUE)];
      assert EvalBits(m, env) == [false];
      assert Unsigned([false]) == Unsigned([false][..0]) + Weight(false, 0);
      assert ToInt(EvalBits(m, env)) == Unsigned([false]) - Weight(false, 1);
    }
  }

  /** The discrepancy at bitwidth 1: -1 times -1 is 1, which wraps to -1 in
      one bit, yet the code's product reads 0. */
  lemma {:induction false} ProductAsWrittenWrongAtWidthOne()
    ensures var f := Factory(0, 1);
      var minusOne := TwosComplementInt(f, [TRUE]);
      && ToInt(EvalBits(ProductAsWritten(minusOne, minusOne), {})) == 0
      && Wrap(EvalInt(minusOne, {}) * EvalInt(minusOne, {}), 1) == -1
      && ToInt(EvalBits(Product(minusOne, minusOne), {})) == -1
  {
    var f := Factory(0, 1);
    var minusOne := TwosComplementInt(f, [TRUE]);
    ProductAsWrittenValue(minusOne, minusOne, {});
    ProductValue(minusOne, minusOne, {});
    assert EvalBits(minusOne.bits, {}) == [true];
    assert Unsigned([true]) == Unsigned([true][..0]) + Weight(true, 0);
    assert Pow2(1) == 2;
    assert EvalInt(minusOne, {}) == Unsigned([true]) - Weight(true, 1) == -1;
    assert Wrap(1, 1) == -1;
  }
}
