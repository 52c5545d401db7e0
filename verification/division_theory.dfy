/** The integer theory behind non-restoring division. The partial remainder
    starts as the dividend a. At each of w steps it is doubled, and then
    2^w * d is subtracted when its sign agrees with the divisor's, or added
    when it does not. Each step also records one quotient digit, +1 or -1.
    After w steps the digits and the remainder satisfy a = d * q + r with
    -|d| <= r < |d|. The remainder is exactly -|d| when some partial
    remainder was zero. One final correction step then gives the quotient
    truncated toward zero and a remainder with the dividend's sign. */
module DivisionTheory {
  import opened Arith

  function Abs(x: int): nat
  {
    if x < 0 then -x else x
  }

  /** Integer division truncated toward zero, as Java's / operator does it. */
  function Quot(a: int, d: int): int
    requires d != 0
  {
    if (a >= 0) == (d > 0) then Abs(a) / Abs(d) else -(Abs(a) / Abs(d))
  }

  /** The remainder that goes with Quot, as Java's % operator gives it. */
  function JRem(a: int, d: int): int
    requires d != 0
  {
    a - d * Quot(a, d)
  }

  /** The remainder is smaller than the divisor in magnitude and is zero or
      has the dividend's sign. */
  lemma {:induction false} JRemBounds(a: int, d: int)
    requires d != 0
    ensures Abs(JRem(a, d)) < Abs(d)
    ensures JRem(a, d) == 0 || (JRem(a, d) < 0) == (a < 0)
  {
    var q := Abs(a) / Abs(d);
    var r := Abs(a) % Abs(d);
    assert Abs(a) == Abs(d) * q + r;
    if (a >= 0) == (d > 0) {
      AbsSplit(a, d, q, r, Quot(a, d), 1);
    } else {
      AbsSplit(a, d, q, r, Quot(a, d), -1);
    }
  }

  lemma {:induction false} AbsSplit(a: int, d: int, q: nat, r: nat, qq: int, sg: int)
    requires d != 0 && Abs(a) == Abs(d) * q + r && r < Abs(d)
    requires sg == 1 || sg == -1
    requires qq == sg * q
    requires (sg == 1) == ((a >= 0) == (d > 0))
    ensures Abs(a - d * qq) < Abs(d)
    ensures a - d * qq == 0 || (a - d * qq < 0) == (a < 0)
  {
    var x := d * q;
    assert Abs(d) * q == (if d < 0 then -x else x);
    assert d * qq == sg * x;
  }

  /** Truncated division is the only split a = d * q + r whose remainder is
      smaller than the divisor and is zero or has the dividend's sign. */
  lemma {:induction false} QuotUnique(a: int, d: int, q: int, r: int)
    requires d != 0 && a == d * q + r && Abs(r) < Abs(d)
    requires r == 0 || (r < 0) == (a < 0)
    ensures q == Quot(a, d) && r == JRem(a, d)
  {
    var ad := Abs(d);
    var aq := Abs(q);
    var ar := Abs(r);
    ProductSign(d, q, a, r);
    assert Abs(d * q) == ad * aq by {
      AbsMul(d, q);
    }
    assert Abs(a) == ad * aq + ar;
    DivModUnique(Abs(a), ad, aq, ar);
    if q != 0 {
      assert (q > 0) == ((a >= 0) == (d > 0));
    }
  }

  lemma {:induction false} AbsMul(x: int, y: int)
    ensures Abs(x * y) == Abs(x) * Abs(y)
  {
    if x < 0 && y < 0 {
      assert x * y == (-x) * (-y);
    } else if x < 0 {
      assert x * y == -((-x) * y);
    } else if y < 0 {
      assert x * y == -(x * (-y));
    }
  }

  /** The sign and size of a product of a non-zero d with q. */
  lemma {:induction false} ProductOf(d: int, q: int)
    requires d != 0
    ensures Abs(d * q) == Abs(d) * Abs(q)
    ensures q == 0 ==> d * q == 0
    ensures q != 0 ==> Abs(d * q) >= Abs(d)
    ensures q != 0 ==> (d * q > 0 <==> (d > 0) == (q > 0))
  {
    AbsMul(d, q);
    if q != 0 {
      MulAtLeast(Abs(q), Abs(d));
      if d > 0 && q > 0 {
        assert d * q == Abs(d) * Abs(q);
      } else if d < 0 && q < 0 {
        assert d * q == Abs(d) * Abs(q);
      } else {
        assert d * q == -(Abs(d) * Abs(q));
      }
    }
  }

  /** In a = d * q + r with a small remainder of the dividend's sign, the
      product d * q has the dividend's sign too, so magnitudes add up, and
      a non-zero q carries the sign of a / d. */
  lemma {:induction false} ProductSign(d: int, q: int, a: int, r: int)
    requires d != 0 && a == d * q + r && Abs(r) < Abs(d)
    requires r == 0 || (r < 0) == (a < 0)
    ensures Abs(a) == Abs(d * q) + Abs(r)
    ensures q != 0 ==> ((q > 0) == ((a >= 0) == (d > 0)))
  {
    ProductOf(d, q);
    var x := d * q;
    assert a == x + r;
  }

  // ---------------------------------------------------------------------
  // The recurrence

  /** The next quotient digit is +1 when the partial remainder's sign
      agrees with the divisor's. */
  function QBit(s: int, d: int): bool
  {
    (s < 0) == (d < 0)
  }

  function Digit(s: int, d: int): int
  {
    if QBit(s, d) then 1 else -1
  }

  /** Double the partial remainder, then subtract or add 2^w * d. */
  function NextRem(s: int, d: int, w: nat): int
  {
    if QBit(s, d) then 2 * s - Pow2(w) * d else 2 * s + Pow2(w) * d
  }

  /** The partial remainder after i steps. */
  function Rem(a: int, d: int, w: nat, i: nat): int
    decreases i
  {
    if i == 0 then a else NextRem(Rem(a, d, w, i - 1), d, w)
  }

  /** The quotient digits of the first i steps, read as a binary number
      with digits +1 and -1, the first digit most significant. */
  function Digits(a: int, d: int, w: nat, i: nat): int
    decreases i
  {
    if i == 0 then 0 else 2 * Digits(a, d, w, i - 1) + Digit(Rem(a, d, w, i - 1), d)
  }

  /** Some partial remainder among the first i was zero. */
  predicate SawZero(a: int, d: int, w: nat, i: nat)
  {
    exists j :: 0 <= j < i && Rem(a, d, w, j) == 0
  }

  /** After i steps the partial remainder is 2^i * a - 2^w * d * digits. */
  lemma {:induction false} RemClosed(a: int, d: int, w: nat, i: nat, pi: int, p: int)
    requires pi == Pow2(i) && p == Pow2(w)
    ensures Rem(a, d, w, i) == pi * a - p * (d * Digits(a, d, w, i))
    decreases i
  {
    if i > 0 {
      var prev := i - 1;
      RemClosed(a, d, w, prev, Pow2(prev), p);
      var s := Rem(a, d, w, prev);
      ClosedStep(s, Pow2(prev), a, p, d, Digits(a, d, w, prev), Digit(s, d));
    }
  }

  lemma {:induction false} ClosedStep(s: int, pi: int, a: int, p: int, d: int, q: int, sg: int)
    requires s == pi * a - p * (d * q)
    ensures 2 * s - sg * (p * d) == (2 * pi) * a - p * (d * (2 * q + sg))
  {
  }

  /** The magnitude bound: 2^w * |d|. */
  function Bound(d: int, w: nat): int
  {
    Pow2(w) * Abs(d)
  }

  lemma {:induction false} BoundIsProduct(d: int, w: nat)
    requires d != 0
    ensures Bound(d, w) >= Pow2(w)
    ensures d > 0 ==> Pow2(w) * d == Bound(d, w)
    ensures d < 0 ==> Pow2(w) * d == -Bound(d, w)
  {
    var p, m := Pow2(w), Abs(d);
    MulAtLeast(m, p);
    assert Bound(d, w) == m * p;
    if d < 0 {
      assert p * d == -(p * m);
    }
  }

  /** One step keeps the partial remainder in [-m, m), and lands on -m
      exactly from 0 or from -m. */
  lemma {:induction false} NextRemRange(s: int, d: int, w: nat, m: int)
    requires d != 0 && m == Bound(d, w) && -m <= s < m
    ensures -m <= NextRem(s, d, w) < m
    ensures NextRem(s, d, w) == -m <==> s == 0 || s == -m
  {
    BoundIsProduct(d, w);
  }

  /** Every partial remainder lies in [-m, m), and equals -m exactly when an
      earlier one was zero. */
  lemma {:induction false} RemRange(a: int, d: int, w: nat, i: nat, m: int)
    requires d != 0 && m == Bound(d, w) && -m < a < m
    ensures -m <= Rem(a, d, w, i) < m
    ensures Rem(a, d, w, i) == -m <==> SawZero(a, d, w, i)
    decreases i
  {
    if i == 0 {
      assert !SawZero(a, d, w, 0);
    } else {
      var prev := i - 1;
      RemRange(a, d, w, prev, m);
      var s := Rem(a, d, w, prev);
      NextRemRange(s, d, w, m);
      SawZeroStep(a, d, w, prev, i);
    }
  }

  lemma {:induction false} SawZeroStep(a: int, d: int, w: nat, prev: nat, i: nat)
    requires i == prev + 1
    ensures SawZero(a, d, w, i) <==> SawZero(a, d, w, prev) || Rem(a, d, w, prev) == 0
  {
    if SawZero(a, d, w, i) && !SawZero(a, d, w, prev) {
      var j :| 0 <= j < i && Rem(a, d, w, j) == 0;
      assert j == prev;
    }
  }

  /** A w-bit dividend lies strictly inside the bound. */
  lemma {:induction false} DividendFits(a: int, d: int, w: nat)
    requires w >= 1 && d != 0 && InRange(a, w)
    ensures -Bound(d, w) < a < Bound(d, w)
  {
    BoundIsProduct(d, w);
  }

  /** With a w-bit divisor the bound is at most 2^(2w-1), so twice any
      partial remainder fits in 2w+1 bits. */
  lemma {:induction false} BoundFits(d: int, w: nat)
    requires w >= 1 && d != 0 && InRange(d, w)
    ensures Bound(d, w) <= Pow2(2 * w - 1)
  {
    Pow2Add(w, w - 1);
    MulMonotone(Pow2(w), Abs(d), Pow2(w), Pow2(w - 1));
  }

  // ---------------------------------------------------------------------
  // The correction step

  /** The result needs correcting when some partial remainder was zero, or
      when the remainder is non-zero and its sign differs from the
      dividend's. */
  function Incorrect(zero: bool, r: int, a: int): bool
  {
    zero || ((r < 0) != (a < 0) && r != 0)
  }

  /** Whether the remainder's sign matches the divisor's. */
  function Corrector(r: int, d: int): bool
  {
    (r < 0) == (d < 0)
  }

  /** The correction to the quotient: +1 when the signs match, else -1. */
  function Adjustment(incorrect: bool, corrector: bool): int
  {
    if !incorrect then 0 else if corrector then 1 else -1
  }

  /** Non-restoring division is correct: after w steps and the correction,
      the quotient is a / d truncated toward zero and the remainder is the
      matching one. */
  lemma {:induction false} NonRestoringCorrect(a: int, d: int, w: nat)
    requires w >= 1 && d != 0 && InRange(a, w)
    ensures var q := Digits(a, d, w, w);
      var r := a - d * q;
      var c := Adjustment(Incorrect(SawZero(a, d, w, w), r, a), Corrector(r, d));
      q + c == Quot(a, d) && r - d * c == JRem(a, d)
  {
    var q := Digits(a, d, w, w);
    var r := a - d * q;
    var p := Pow2(w);
    var m := Bound(d, w);
    var ad := Abs(d);
    DividendFits(a, d, w);
    RemRange(a, d, w, w, m);
    var pr := Rem(a, d, w, w);
    assert pr == p * r by {
      FinalRemainder(a, d, w);
    }
    ScaleDown(p, r, ad, pr, m);
    var zero := SawZero(a, d, w, w);
    var c := Adjustment(Incorrect(zero, r, a), Corrector(r, d));
    CorrectionCases(a, d, q, r, zero, c);
  }

  /** After w steps the partial remainder is 2^w times a - d * digits. */
  lemma {:induction false} FinalRemainder(a: int, d: int, w: nat)
    ensures Rem(a, d, w, w) == Pow2(w) * (a - d * Digits(a, d, w, w))
  {
    var p := Pow2(w);
    var x := d * Digits(a, d, w, w);
    RemClosed(a, d, w, w, p, p);
    Distribute(p, a, x);
  }

  /** Scaling by a positive factor keeps the sign, and keeps zero. */
  lemma {:induction false} ScaledSign(p: int, r: int)
    requires p >= 1
    ensures (p * r < 0) == (r < 0) && (p * r != 0) == (r != 0)
  {
    if r > 0 {
      MulAtLeast(p, r);
    } else if r < 0 {
      MulAtLeast(p, -r);
      assert p * r == -(p * (-r));
    }
  }

  /** The correction may as well test the final partial remainder, which is
      what the register holds: it has the sign of a - d * digits and is zero
      exactly when that is. */
  lemma {:induction false} RegisterCorrection(a: int, d: int, w: nat)
    requires w >= 1 && d != 0 && InRange(a, w)
    ensures var q, rem := Digits(a, d, w, w), Rem(a, d, w, w);
      var c := Adjustment(Incorrect(SawZero(a, d, w, w), rem, a), Corrector(rem, d));
      q + c == Quot(a, d) && a - d * q - d * c == JRem(a, d)
  {
    var q := Digits(a, d, w, w);
    var r := a - d * q;
    assert Rem(a, d, w, w) == Pow2(w) * r by {
      FinalRemainder(a, d, w);
    }
    ScaledSign(Pow2(w), r);
    NonRestoringCorrect(a, d, w);
  }

  lemma {:induction false} ScaleDown(p: int, r: int, ad: int, pr: int, m: int)
    requires p >= 1 && pr == p * r && m == p * ad && -m <= pr < m
    ensures -ad <= r < ad
    ensures pr == -m <==> r == -ad
  {
    assert p * (-ad) == -m;
    if r < -ad {
      MulMonotoneStrict(p, r, -ad);
    } else if r > -ad {
      MulMonotoneStrict(p, -ad, r);
    }
    if r >= ad {
      MulMonotoneWeak(p, ad, r);
    }
  }

  lemma {:induction false} MulMonotoneStrict(p: int, x: int, y: int)
    requires p >= 1 && x < y
    ensures p * x < p * y
  {
    assert p * y - p * x == p * (y - x);
    MulAtLeast(p, y - x);
  }

  lemma {:induction false} MulMonotoneWeak(p: int, x: int, y: int)
    requires p >= 1 && x <= y
    ensures p * x <= p * y
  {
    if x < y {
      MulMonotoneStrict(p, x, y);
    }
  }

  /** The case analysis of the correction step, from the remainder bounds. */
  lemma {:induction false} CorrectionCases(a: int, d: int, q: int, r: int, zero: bool, c: int)
    requires d != 0 && r == a - d * q
    requires -(Abs(d) as int) <= r < Abs(d)
    requires zero <==> r == -(Abs(d) as int)
    requires c == Adjustment(Incorrect(zero, r, a), Corrector(r, d))
    ensures q + c == Quot(a, d) && r - d * c == JRem(a, d)
  {
    var r2 := r - d * c;
    assert a == d * (q + c) + r2 by {
      assert d * (q + c) == d * q + d * c;
    }
    assert c == 0 || c == 1 || c == -1;
    assert d * c == (if c == 0 then 0 else if c == 1 then d else -d);
    QuotUnique(a, d, q + c, r2);
  }
}
