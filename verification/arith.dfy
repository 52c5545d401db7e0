/** Integer readings of little-endian bit strings (index 0 is the least
    significant bit): the unsigned reading, the two's-complement reading,
    sign extension, and wrap-around into a fixed width. */
module Arith {

  function Pow2(n: nat): (r: int)
    ensures r >= 1
  {
    if n == 0 then 1 else 2 * Pow2(n - 1)
  }

  /** The contribution of a bit b at position n to an unsigned reading. */
  function Weight(b: bool, n: nat): int
  {
    if b then Pow2(n) else 0
  }

  function Min(a: int, b: int): int
  {
    if a <= b then a else b
  }

  function Max(a: int, b: int): int
  {
    if a >= b then a else b
  }

  /** Unsigned reading of a little-endian bit string. */
  function Unsigned(s: seq<bool>): nat
    decreases |s|
  {
    if |s| == 0 then 0 else Unsigned(s[..|s| - 1]) + Weight(s[|s| - 1], |s| - 1)
  }

  /** An n-bit string reads below 2^n. */
  lemma {:induction false} UnsignedBound(s: seq<bool>)
    ensures Unsigned(s) < Pow2(|s|)
    decreases |s|
  {
    if |s| > 0 {
      UnsignedBound(s[..|s| - 1]);
    }
  }

  /** Two's-complement reading: the top bit carries weight -2^(n-1). */
  function ToInt(s: seq<bool>): int
    requires |s| >= 1
  {
    Unsigned(s) - Weight(s[|s| - 1], |s|)
  }

  /** The values a w-bit two's-complement string can hold. */
  predicate InRange(x: int, w: nat)
    requires w >= 1
  {
    -Pow2(w - 1) <= x < Pow2(w - 1)
  }

  /** The unique w-bit two's-complement value congruent to x modulo 2^w. */
  function Wrap(x: int, w: nat): (r: int)
    requires w >= 1
    ensures InRange(r, w)
  {
    (x + Pow2(w - 1)) % Pow2(w) - Pow2(w - 1)
  }

  /** Reads bit i of s, repeating the top bit past the end. */
  function SignExtend(s: seq<bool>, n: nat): (r: seq<bool>)
    requires |s| >= 1
    ensures |r| == n
    ensures forall i :: 0 <= i < n ==> r[i] == s[if i < |s| then i else |s| - 1]
  {
    seq(n, i requires 0 <= i < n => s[if i < |s| then i else |s| - 1])
  }

  function Complement(s: seq<bool>): (r: seq<bool>)
    ensures |r| == |s|
    ensures forall i :: 0 <= i < |s| ==> r[i] == !s[i]
  {
    seq(|s|, i requires 0 <= i < |s| => !s[i])
  }

  function Fill(n: nat, b: bool): (r: seq<bool>)
    ensures |r| == n
    ensures forall i :: 0 <= i < n ==> r[i] == b
  {
    seq(n, i => b)
  }


  // ---------------------------------------------------------------------
  // Powers of two and Euclidean division

  lemma {:induction false} Pow2Add(a: nat, b: nat)
    ensures Pow2(a + b) == Pow2(a) * Pow2(b)
    decreases b
  {
    if b > 0 {
      Pow2Add(a, b - 1);
      assert Pow2(a + b) == 2 * Pow2(a + b - 1);
    }
  }

  lemma {:induction false} Pow2Monotone(a: nat, b: nat)
    requires a <= b
    ensures Pow2(a) <= Pow2(b)
    decreases b
  {
    if a < b {
      Pow2Monotone(a, b - 1);
    }
  }

  lemma {:induction false} Pow2ExceedsExponent(n: nat)
    ensures n < Pow2(n)
  {
    if n > 0 {
      Pow2ExceedsExponent(n - 1);
    }
  }

  lemma {:induction false} MulAtLeast(d: int, m: int)
    requires d >= 1 && m > 0
    ensures d * m >= m
  {
    assert d * m == (d - 1) * m + m;
  }

  lemma {:induction false} DivModUnique(a: int, m: int, q: int, r: int)
    requires m > 0 && 0 <= r < m && a == q * m + r
    ensures a / m == q && a % m == r
  {
    var q', r' := a / m, a % m;
    assert a == q' * m + r';
    assert (q - q') * m == r' - r;
    if q > q' {
      MulAtLeast(q - q', m);
    } else if q < q' {
      MulAtLeast(q' - q, m);
    }
  }

  lemma {:induction false} DivIdentity(n: int, p: int)
    requires p > 0
    ensures n == n % p + (n / p) * p
  {
  }

  lemma {:induction false} ModAddMultiple(a: int, k: int, m: int)
    requires m > 0
    ensures (a + k * m) % m == a % m
    ensures (a + k * m) / m == a / m + k
  {
    assert a == (a / m) * m + a % m;
    assert a + k * m == (a / m + k) * m + a % m;
    DivModUnique(a + k * m, m, a / m + k, a % m);
  }

  lemma {:induction false} ModAddLeft(x: int, y: int, m: int)
    requires m > 0
    ensures (x % m + y) % m == (x + y) % m
  {
    DivIdentity(x, m);
    ModAddMultiple(x % m + y, x / m, m);
  }

  lemma {:induction false} MulMonotone(x: int, y: int, xMax: int, yMax: int)
    requires 0 <= x <= xMax && 0 <= y <= yMax
    ensures x * y <= xMax * yMax
  {
    assert x * y <= xMax * y;
    assert xMax * y <= xMax * yMax;
  }

  // ---------------------------------------------------------------------
  // Wrap-around

  /** Adding a multiple of 2^w does not change the wrapped value. */
  lemma {:induction false} WrapShift(y: int, x: int, k: int, w: nat)
    requires w >= 1 && y == x + k * Pow2(w)
    ensures Wrap(y, w) == Wrap(x, w)
  {
    ModShift(x, k, Pow2(w - 1), Pow2(w));
  }

  lemma {:induction false} ModShift(x: int, k: int, h: int, m: int)
    requires m > 0
    ensures ((x + k * m) + h) % m == (x + h) % m
  {
    ModAddMultiple(x + h, k, m);
    assert (x + k * m) + h == (x + h) + k * m;
  }

  lemma {:induction false} WrapInRange(x: int, w: nat)
    requires w >= 1 && InRange(x, w)
    ensures Wrap(x, w) == x
  {
    DivModUnique(x + Pow2(w - 1), Pow2(w), 0, x + Pow2(w - 1));
  }

  /** Wrap(x, w) differs from x by a multiple of 2^w. */
  lemma {:induction false} WrapOffset(x: int, w: nat) returns (k: int)
    requires w >= 1
    ensures Wrap(x, w) == x + k * Pow2(w)
  {
    var a := x + Pow2(w - 1);
    assert a == (a / Pow2(w)) * Pow2(w) + a % Pow2(w);
    k := -(a / Pow2(w));
  }

  lemma {:induction false} WrapAdd(x: int, y: int, w: nat)
    requires w >= 1
    ensures Wrap(Wrap(x, w) + y, w) == Wrap(x + y, w)
  {
    var k := WrapOffset(x, w);
    WrapShift(Wrap(x, w) + y, x + y, k, w);
  }

  lemma {:induction false} WrapMul(x: int, y: int, w: nat)
    requires w >= 1
    ensures Wrap(Wrap(x, w) * y, w) == Wrap(x * y, w)
  {
    var k := WrapOffset(x, w);
    var p := Pow2(w);
    var u, v := Wrap(x, w) * y, x * y;
    MulShiftArith(x, y, k, p, Wrap(x, w));
    WrapShift(u, v, k * y, w);
  }

  lemma {:induction false} MulShiftArith(x: int, y: int, k: int, p: int, wx: int)
    requires wx == x + k * p
    ensures wx * y == x * y + (k * y) * p
  {
  }

  lemma {:induction false} Regroup(k: int, p1: int, p2: int, p: int)
    requires p == p1 * p2
    ensures k * p == (k * p2) * p1
  {
  }

  /** Wrapping to a wider width first does not change a narrower wrap. */
  lemma {:induction false} WrapNarrow(x: int, w1: nat, w2: nat)
    requires 1 <= w1 <= w2
    ensures Wrap(Wrap(x, w2), w1) == Wrap(x, w1)
  {
    var k := WrapOffset(x, w2);
    Pow2Add(w1, w2 - w1);
    var p1, p2 := Pow2(w1), Pow2(w2 - w1);
    Regroup(k, p1, p2, Pow2(w2));
    WrapShift(Wrap(x, w2), x, k * p2, w1);
  }

  lemma {:induction false} InRangeWiden(x: int, w1: nat, w2: nat)
    requires 1 <= w1 <= w2 && InRange(x, w1)
    ensures InRange(x, w2)
  {
    Pow2Monotone(w1 - 1, w2 - 1);
  }

  // ---------------------------------------------------------------------
  // Unsigned and two's-complement readings

  lemma {:induction false} UnsignedAppend(s: seq<bool>, b: bool)
    ensures Unsigned(s + [b]) == Unsigned(s) + Weight(b, |s|)
  {
    assert (s + [b])[..|s|] == s;
  }

  /** Extending a prefix by one bit adds that bit's weight. */
  lemma {:induction false} UnsignedPrefix(s: seq<bool>, j: nat)
    requires j < |s|
    ensures Unsigned(s[..j + 1]) == Unsigned(s[..j]) + Weight(s[j], j)
  {
    assert s[..j + 1][..j] == s[..j];
  }

  lemma {:induction false} UnsignedZeros(n: nat)
    ensures Unsigned(Fill(n, false)) == 0
  {
    if n > 0 {
      assert Fill(n, false)[..n - 1] == Fill(n - 1, false);
      UnsignedZeros(n - 1);
    }
  }

  lemma {:induction false} UnsignedOnes(n: nat)
    ensures Unsigned(Fill(n, true)) == Pow2(n) - 1
  {
    if n > 0 {
      assert Fill(n, true)[..n - 1] == Fill(n - 1, true);
      UnsignedOnes(n - 1);
    }
  }

  lemma {:induction false} MulWeight(p: int, b: bool, m: nat, n: nat)
    requires p == Pow2(m)
    ensures p * Weight(b, n) == Weight(b, m + n)
  {
    Pow2Add(m, n);
  }

  lemma {:induction false} Distribute(p: int, x: int, y: int)
    ensures p * (x + y) == p * x + p * y
    ensures p * (x - y) == p * x - p * y
  {
  }

  lemma {:induction false} MulCongruent(p: int, a: int, b: int)
    requires a == b
    ensures p * a == p * b
  {
  }

  /** Splitting a bit string at k splits its unsigned reading. */
  lemma {:induction false} UnsignedSplit(s: seq<bool>, k: nat)
    requires k <= |s|
    ensures Unsigned(s) == Unsigned(s[..k]) + Pow2(k) * Unsigned(s[k..])
    decreases |s|
  {
    if |s| == k {
      assert s[..k] == s;
      assert s[k..] == [];
    } else {
      var n := |s|;
      var s' := s[..n - 1];
      var b := s[n - 1];
      UnsignedSplit(s', k);
      assert s'[..k] == s[..k];
      assert s[k..] == s'[k..] + [b];
      UnsignedAppend(s'[k..], b);
      Distribute(Pow2(k), Unsigned(s'[k..]), Weight(b, n - 1 - k));
      MulWeight(Pow2(k), b, k, n - 1 - k);
    }
  }

  lemma {:induction false} UnsignedConcat(a: seq<bool>, b: seq<bool>)
    ensures Unsigned(a + b) == Unsigned(a) + Pow2(|a|) * Unsigned(b)
  {
    UnsignedSplit(a + b, |a|);
    assert (a + b)[..|a|] == a;
    assert (a + b)[|a|..] == b;
  }

  lemma {:induction false} UnsignedComplement(s: seq<bool>)
    ensures Unsigned(Complement(s)) == Pow2(|s|) - 1 - Unsigned(s)
    decreases |s|
  {
    if |s| > 0 {
      var n := |s|;
      assert Complement(s)[..n - 1] == Complement(s[..n - 1]);
      UnsignedComplement(s[..n - 1]);
    }
  }

  lemma {:induction false} ToIntRange(s: seq<bool>)
    requires |s| >= 1
    ensures InRange(ToInt(s), |s|)
  {
    assert Unsigned(s) == Unsigned(s[..|s| - 1]) + Weight(s[|s| - 1], |s| - 1);
    UnsignedBound(s[..|s| - 1]);
  }

  /** The top bit is set exactly when the two's-complement value is negative. */
  lemma {:induction false} ToIntSign(s: seq<bool>)
    requires |s| >= 1
    ensures ToInt(s) < 0 <==> s[|s| - 1]
    ensures !s[|s| - 1] ==> ToInt(s) == Unsigned(s)
  {
    assert Unsigned(s) == Unsigned(s[..|s| - 1]) + Weight(s[|s| - 1], |s| - 1);
    UnsignedBound(s[..|s| - 1]);
  }

  lemma {:induction false} ToIntIsWrap(s: seq<bool>)
    requires |s| >= 1
    ensures ToInt(s) == Wrap(Unsigned(s), |s|)
  {
    ToIntRange(s);
    WrapShift(Unsigned(s), ToInt(s), if s[|s| - 1] then 1 else 0, |s|);
    WrapInRange(ToInt(s), |s|);
  }

  lemma {:induction false} UnsignedIsMod(s: seq<bool>)
    requires |s| >= 1
    ensures Unsigned(s) == ToInt(s) % Pow2(|s|)
  {
    UnsignedBound(s);
    DivModUnique(ToInt(s), Pow2(|s|), if s[|s| - 1] then -1 else 0, Unsigned(s));
  }

  /** Splitting at k < |s|: the low part reads unsigned, the high part signed. */
  lemma {:induction false} ToIntSplit(s: seq<bool>, k: nat)
    requires k < |s|
    ensures ToInt(s) == Unsigned(s[..k]) + Pow2(k) * ToInt(s[k..])
  {
    var n := |s|;
    var t := s[k..];
    UnsignedSplit(s, k);
    assert t[|t| - 1] == s[n - 1];
    assert ToInt(t) == Unsigned(t) - Weight(s[n - 1], n - k);
    assert ToInt(s) == Unsigned(s) - Weight(s[n - 1], n);
    MulWeight(Pow2(k), s[n - 1], k, n - k);
    SplitArith(Pow2(k), Unsigned(t), ToInt(t), Weight(s[n - 1], n - k));
  }

  lemma {:induction false} SplitArith(p: int, u: int, v: int, w: int)
    requires v == u - w
    ensures p * u - p * w == p * v
  {
    Distribute(p, v, w);
  }

  /** The low k bits of a string read as its value wrapped to k bits. */
  lemma {:induction false} ToIntPrefix(s: seq<bool>, k: nat)
    requires 1 <= k <= |s|
    ensures ToInt(s[..k]) == Wrap(ToInt(s), k)
  {
    if k == |s| {
      assert s[..k] == s;
      ToIntRange(s);
      WrapInRange(ToInt(s), k);
    } else {
      ToIntProperPrefix(s, k);
    }
  }

  lemma {:induction false} ToIntProperPrefix(s: seq<bool>, k: nat)
    requires 1 <= k < |s|
    ensures ToInt(s[..k]) == Wrap(ToInt(s), k)
  {
    var low := s[..k];
    var t, u, h := ToInt(s), Unsigned(low), ToInt(s[k..]);
    assert t == u + h * Pow2(k) by {
      ToIntSplit(s, k);
    }
    assert ToInt(low) == Wrap(u, k) by {
      ToIntIsWrap(low);
    }
    WrapShift(t, u, h, k);
  }

  lemma {:induction false} ToIntDropLow(s: seq<bool>)
    requires |s| >= 2
    ensures ToInt(s) == (if s[0] then 1 else 0) + 2 * ToInt(s[1..])
  {
    ToIntSplit(s, 1);
    assert s[..1] == [] + [s[0]];
    UnsignedAppend([], s[0]);
  }

  lemma {:induction false} ToIntAppendSign(s: seq<bool>)
    requires |s| >= 1
    ensures ToInt(s + [s[|s| - 1]]) == ToInt(s)
  {
    UnsignedAppend(s, s[|s| - 1]);
    assert (s + [s[|s| - 1]])[|s|] == s[|s| - 1];
  }

  /** Sign extension preserves the two's-complement value. */
  lemma {:induction false} SignExtendValue(s: seq<bool>, n: nat)
    requires 1 <= |s| <= n
    ensures ToInt(SignExtend(s, n)) == ToInt(s)
    decreases n
  {
    if n == |s| {
      assert SignExtend(s, n) == s;
    } else {
      var t := SignExtend(s, n - 1);
      SignExtendValue(s, n - 1);
      assert SignExtend(s, n) == t + [t[|t| - 1]];
      ToIntAppendSign(t);
    }
  }

  lemma {:induction false} UnsignedInjective(s: seq<bool>, t: seq<bool>)
    requires |s| == |t| && Unsigned(s) == Unsigned(t)
    ensures s == t
    decreases |s|
  {
    if |s| > 0 {
      var n := |s|;
      assert Unsigned(s) == Unsigned(s[..n - 1]) + Weight(s[n - 1], n - 1);
      assert Unsigned(t) == Unsigned(t[..n - 1]) + Weight(t[n - 1], n - 1);
      UnsignedBound(s[..n - 1]);
      UnsignedBound(t[..n - 1]);
      assert s[n - 1] == t[n - 1];
      UnsignedInjective(s[..n - 1], t[..n - 1]);
      assert s == s[..n - 1] + [s[n - 1]];
      assert t == t[..n - 1] + [t[n - 1]];
    }
  }

  /** Equal-width bit strings with equal values are equal. */
  lemma {:induction false} ToIntInjective(s: seq<bool>, t: seq<bool>)
    requires |s| == |t| >= 1 && ToInt(s) == ToInt(t)
    ensures s == t
  {
    UnsignedIsMod(s);
    UnsignedIsMod(t);
    UnsignedInjective(s, t);
  }

  /** The product of an m-bit and an n-bit value fits in m + n bits. */
  lemma {:induction false} ProductInRange(x: int, y: int, m: nat, n: nat)
    requires m >= 1 && n >= 1 && InRange(x, m) && InRange(y, n)
    ensures InRange(x * y, m + n)
  {
    var px, py := Pow2(m - 1), Pow2(n - 1);
    Pow2Add(m - 1, n - 1);
    assert Pow2(m + n - 1) == 2 * Pow2(m - 1 + (n - 1));
    ProductBound(x, y, px, py, Pow2(m + n - 1));
  }

  lemma {:induction false} ProductBound(x: int, y: int, px: int, py: int, p: int)
    requires -px <= x < px && -py <= y < py && p == 2 * (px * py)
    ensures -p <= x * y < p
  {
    var ax := if x >= 0 then x else -x;
    var ay := if y >= 0 then y else -y;
    MulMonotone(ax, ay, px, py);
    AbsProduct(x, y, ax, ay);
    MulAtLeast(px, py);
  }

  lemma {:induction false} AbsProduct(x: int, y: int, ax: int, ay: int)
    requires ax == (if x >= 0 then x else -x) && ay == (if y >= 0 then y else -y)
    ensures x * y == ax * ay || x * y == -(ax * ay)
  {
    if x < 0 && y < 0 {
      assert x * y == (-x) * (-y);
    } else if x < 0 {
      assert x * y == -((-x) * y);
    } else if y < 0 {
      assert x * y == -(x * (-y));
    }
  }

  /** Complementing every bit maps value v to -v - 1. */
  lemma {:induction false} ToIntComplement(s: seq<bool>)
    requires |s| >= 1
    ensures ToInt(Complement(s)) == -ToInt(s) - 1
  {
    UnsignedComplement(s);
  }

  /** Sums and differences of m-bit values fit in m + 1 bits. */
  lemma {:induction false} InRangeAddSub(x: int, y: int, m: nat)
    requires m >= 1 && InRange(x, m) && InRange(y, m)
    ensures InRange(x + y, m + 1) && InRange(x - y, m + 1)
  {
  }

  // ---------------------------------------------------------------------
  // The bits of an integer

  /** Bit i of the two's-complement representation of n. */
  function TestBit(n: int, i: nat): bool
  {
    (n / Pow2(i)) % 2 == 1
  }

  /** The w low-order bits of n. */
  function LowBits(n: int, w: nat): (r: seq<bool>)
    ensures |r| == w
    ensures forall i :: 0 <= i < w ==> r[i] == TestBit(n, i)
  {
    seq(w, i requires 0 <= i < w => TestBit(n, i))
  }

  lemma {:induction false} ModPow2Step(n: int, w: nat)
    ensures n % Pow2(w + 1) == n % Pow2(w) + Weight(TestBit(n, w), w)
  {
    var p := Pow2(w);
    var q, r0 := n / p, n % p;
    var h, b := q / 2, q % 2;
    assert n == q * p + r0;
    assert q * p == (2 * h + b) * p;
    assert (2 * h + b) * p == h * (2 * p) + b * p;
    DivModUnique(n, 2 * p, h, b * p + r0);
  }

  lemma {:induction false} UnsignedLowBits(n: int, w: nat)
    ensures Unsigned(LowBits(n, w)) == n % Pow2(w)
    decreases w
  {
    if w > 0 {
      UnsignedLowBits(n, w - 1);
      assert LowBits(n, w)[..w - 1] == LowBits(n, w - 1);
      ModPow2Step(n, w - 1);
    }
  }

  /** The w low-order bits of n read back as n wrapped to w bits. */
  lemma {:induction false} ToIntLowBits(n: int, w: nat)
    requires w >= 1
    ensures ToInt(LowBits(n, w)) == Wrap(n, w)
  {
    var s := LowBits(n, w);
    var p := Pow2(w);
    var q, m := n / p, n % p;
    ToIntIsWrap(s);
    UnsignedLowBits(n, w);
    assert ToInt(s) == Wrap(m, w);
    DivIdentity(n, p);
    WrapShift(n, m, q, w);
  }

  // ---------------------------------------------------------------------
  // Comparison from the most significant bit down

  /** All bits at positions j and above agree. */
  predicate HighEqual(s: seq<bool>, t: seq<bool>, j: int)
    requires |s| == |t|
  {
    forall k :: j <= k < |s| && 0 <= k ==> s[k] == t[k]
  }

  /** Unsigned order read from the top: wherever all higher bits agree,
      s's bit implies t's bit. */
  predicate LexLe(s: seq<bool>, t: seq<bool>)
    requires |s| == |t|
  {
    forall j :: 0 <= j < |s| ==> (HighEqual(s, t, j + 1) ==> (s[j] ==> t[j]))
  }

  /** Agreement from j up is agreement at j and from j + 1 up. */
  lemma {:induction false} HighEqualStep(s: seq<bool>, t: seq<bool>, j: nat)
    requires |s| == |t| && j < |s|
    ensures HighEqual(s, t, j) <==> s[j] == t[j] && HighEqual(s, t, j + 1)
  {
  }

  lemma {:induction false} HighEqualDropTop(s: seq<bool>, t: seq<bool>, j: int)
    requires |s| == |t| >= 1 && s[|s| - 1] == t[|t| - 1]
    ensures HighEqual(s, t, j) <==> HighEqual(s[..|s| - 1], t[..|t| - 1], j)
  {
  }

  lemma {:induction false} UnsignedLe(s: seq<bool>, t: seq<bool>)
    requires |s| == |t|
    ensures Unsigned(s) <= Unsigned(t) <==> LexLe(s, t)
    decreases |s|
  {
    if |s| > 0 {
      var n := |s|;
      var s', t' := s[..n - 1], t[..n - 1];
      UnsignedLe(s', t');
      UnsignedBound(s');
      UnsignedBound(t');
      assert Unsigned(s) == Unsigned(s') + Weight(s[n - 1], n - 1);
      assert Unsigned(t) == Unsigned(t') + Weight(t[n - 1], n - 1);
      if s[n - 1] == t[n - 1] {
        LexLeDropEqualTop(s, t);
      } else if s[n - 1] {
        assert HighEqual(s, t, n);
      } else {
        forall j | 1 <= j < n
          ensures !HighEqual(s, t, j)
        {
          assert s[n - 1] != t[n - 1];
        }
      }
    }
  }

  lemma {:induction false} LexLeDropEqualTop(s: seq<bool>, t: seq<bool>)
    requires |s| == |t| >= 1 && s[|s| - 1] == t[|t| - 1]
    ensures LexLe(s, t) <==> LexLe(s[..|s| - 1], t[..|t| - 1])
  {
    var n := |s|;
    var s', t' := s[..n - 1], t[..n - 1];
    if LexLe(s', t') {
      forall j | 0 <= j < n && HighEqual(s, t, j + 1)
        ensures s[j] ==> t[j]
      {
        if j < n - 1 {
          HighEqualDropTop(s, t, j + 1);
          assert s'[j] ==> t'[j];
        }
      }
    }
    if LexLe(s, t) {
      forall j | 0 <= j < n - 1 && HighEqual(s', t', j + 1)
        ensures s'[j] ==> t'[j]
      {
        HighEqualDropTop(s, t, j + 1);
        assert s[j] ==> t[j];
      }
    }
  }

  /** Signed order read from the top: the sign bits decide unless they agree,
      and then the remaining bits compare as unsigned. */
  predicate SignedLexLe(s: seq<bool>, t: seq<bool>)
    requires |s| == |t| >= 1
  {
    && (t[|t| - 1] ==> s[|s| - 1])
    && forall j :: 0 <= j < |s| - 1 ==> (HighEqual(s, t, j + 1) ==> (s[j] ==> t[j]))
  }

  lemma {:induction false} SignedLe(s: seq<bool>, t: seq<bool>)
    requires |s| == |t| >= 1
    ensures ToInt(s) <= ToInt(t) <==> SignedLexLe(s, t)
  {
    var n := |s|;
    var s', t' := s[..n - 1], t[..n - 1];
    UnsignedLe(s', t');
    UnsignedBound(s');
    UnsignedBound(t');
    assert Unsigned(s) == Unsigned(s') + Weight(s[n - 1], n - 1);
    assert Unsigned(t) == Unsigned(t') + Weight(t[n - 1], n - 1);
    if s[n - 1] == t[n - 1] {
      if LexLe(s', t') {
        forall j | 0 <= j < n - 1 && HighEqual(s, t, j + 1)
          ensures s[j] ==> t[j]
        {
          HighEqualDropTop(s, t, j + 1);
          assert s'[j] ==> t'[j];
        }
      }
      if SignedLexLe(s, t) {
        forall j | 0 <= j < n - 1 && HighEqual(s', t', j + 1)
          ensures s'[j] ==> t'[j]
        {
          HighEqualDropTop(s, t, j + 1);
          assert s[j] ==> t[j];
        }
      }
    } else {
      forall j | 1 <= j < n
        ensures !HighEqual(s, t, j)
      {
        assert s[n - 1] != t[n - 1];
      }
    }
  }
}
