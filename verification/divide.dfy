/** Signed division and remainder of bit-vector integers by non-restoring
    division (Parhami, Computer Arithmetic, pp. 218-221). The partial
    remainder lives in a circular register of 2w+1 nodes. Each step reads
    the quotient bit from the register's sign, shifts by moving the start
    slot, and adds the controlled divisor at logical position w. At the end
    one correction adds +1, -1 or 0 to the quotient, or the matching
    multiple of the divisor to the remainder. */
module Division {
  import opened Arith
  import opened Circuit
  import opened Adder
  import opened BitVector
  import opened RingBuffer
  import opened DivisionTheory
  import opened DivisionCircuit
  import Bitwise

  /** v is a node meaning that some bit of l is set. */
  ghost predicate OrOf(v: Node, l: seq<Node>)
  {
    forall env :: Eval(v, env) == Combine(OrOp, l, env)
  }

  /** One step of the main loop on the circular register s, whose logical
      string starts at slot o: record the zero test and the quotient bit,
      shift, and add the controlled divisor at logical position w. */
  method DivStep(d: TwosComplementInt, w: nat, s: seq<Node>, o: nat, ghost st: seq<Node>)
    returns (t: seq<Node>, o2: nat, qbit: Node, sv: Node)
    requires |d.bits| >= 1 && |s| == Span(w) && o < |s|
    requires Log(s, o) == st
    ensures |t| == |s| && o2 == Slot(o, |s| - 1, |s|)
    ensures Log(t, o2) == Step(st, d, w)
    ensures qbit == MkIff(st[2 * w], Bit(d, w))
    ensures OrOf(sv, st)
  {
    var n := |s|;
    sv := Reduce(OrOp, s);
    assert OrOf(sv, st) by {
      forall env
        ensures Eval(sv, env) == Combine(OrOp, st, env)
      {
        CombineLog(s, o, env);
      }
    }
    var sright := (o + n - 1) % n;
    assert sright == Slot(o, n - 1, n) by {
      SlotMod(o, n - 1, n);
    }
    assert s[sright] == st[2 * w];
    qbit := MkIff(s[sright], Bit(d, w));
    t := s[sright := FALSE];
    o2 := sright;
    ghost var sh := Log(t, o2);
    assert sh == Shifted(st) by {
      LogShift(s, o);
    }
    var row := Controlled(d, qbit, w);
    t := AddInPlace(t, o2, w, row, qbit);
    assert Log(t, o2) == sh[..w] + Ripple(sh[w..w + |row|], row, qbit).sum + sh[w + |row|..];
    assert Log(t, o2) == Step(st, d, w) by {
      StepSplice(st, sh, d, w, qbit, Log(t, o2));
    }
  }

  /** Adding the controlled divisor into the upper w+1 positions of the
      shifted register is one step. */
  lemma {:induction false} StepSplice(st: seq<Node>, sh: seq<Node>, d: TwosComplementInt, w: nat, qbit: Node, l: seq<Node>)
    requires |st| == Span(w) && |d.bits| >= 1
    requires sh == Shifted(st) && qbit == MkIff(st[2 * w], Bit(d, w))
    requires l == sh[..w] + Ripple(sh[w..w + (w + 1)], Controlled(d, qbit, w), qbit).sum + sh[w + (w + 1)..]
    ensures l == Step(st, d, w)
  {
    assert sh[w..w + (w + 1)] == sh[w..];
    assert sh[w + (w + 1)..] == [];
  }

  /** The first i quotient bits, bit j of the recurrence at position w-1-j. */
  ghost predicate QuotientSlots(q: seq<Node>, a: TwosComplementInt, d: TwosComplementInt, w: nat, i: nat)
    requires Operands(a, d, w)
  {
    |q| == w && i <= w && forall j :: 0 <= j < i ==> q[w - 1 - j] == QNode(a, d, w, j)
  }

  /** The first i zero tests, test j saying whether the register after j
      steps has a set bit. */
  ghost predicate ZeroTests(svalues: seq<Node>, a: TwosComplementInt, d: TwosComplementInt, w: nat, i: nat)
    requires Operands(a, d, w)
  {
    |svalues| == w && i <= w && forall j :: 0 <= j < i ==> OrOf(svalues[j], State(a, d, w, j))
  }

  /** The loop's state after i steps: the register's logical string starts
      at slot o (0 before the first step, then one slot lower each step)
      and holds the i-th register of the recurrence, and the quotient bits
      and zero tests of the first i steps are recorded. */
  ghost predicate Progress(a: TwosComplementInt, d: TwosComplementInt, w: nat, s: seq<Node>, o: nat,
                           q: seq<Node>, svalues: seq<Node>, i: nat)
  {
    && Operands(a, d, w) && i <= w
    && |s| == Span(w) && o == (if i == 0 then 0 else Span(w) - i)
    && Log(s, o) == State(a, d, w, i)
    && QuotientSlots(q, a, d, w, i) && ZeroTests(svalues, a, d, w, i)
  }

  /** The main loop: w steps, then the register's logical string starts at
      slot w+1, so its top w+1 bits sit in slots 0 .. w. */
  method Iterate(a: TwosComplementInt, d: TwosComplementInt, w: nat)
    returns (s: seq<Node>, o: nat, q: seq<Node>, svalues: seq<Node>)
    requires Operands(a, d, w) && w >= 1
    ensures |s| == Span(w) && o == w + 1 && Slot(o, w, Span(w)) == 0
    ensures Log(s, w + 1) == State(a, d, w, w)
    ensures QuotientSlots(q, a, d, w, w) && ZeroTests(svalues, a, d, w, w)
  {
    s := Extend(a, Span(w));
    o := 0;
    LogZero(s);
    q := seq(w, _ => FALSE);
    svalues := seq(w, _ => FALSE);
    var i := 0;
    while i < w
      invariant Progress(a, d, w, s, o, q, svalues, i)
    {
      var next := i + 1;
      s, o, q, svalues := Advance(a, d, w, s, o, q, svalues, i, next);
      i := next;
    }
  }

  /** One iteration of the main loop, recording quotient bit i and zero
      test i. */
  method Advance(a: TwosComplementInt, d: TwosComplementInt, w: nat, s: seq<Node>, o: nat,
                 q: seq<Node>, svalues: seq<Node>, i: nat, next: nat)
    returns (s2: seq<Node>, o2: nat, q2: seq<Node>, svalues2: seq<Node>)
    requires Progress(a, d, w, s, o, q, svalues, i) && i < w && next == i + 1
    ensures Progress(a, d, w, s2, o2, q2, svalues2, next)
  {
    var qbit, sv;
    s2, o2, qbit, sv := DivStep(d, w, s, o, State(a, d, w, i));
    q2 := q[w - i - 1 := qbit];
    svalues2 := svalues[i := sv];
    QuotientSlotsStep(q, a, d, w, i, next, qbit);
    ZeroTestsStep(svalues, a, d, w, i, next, sv);
    StateNext(a, d, w, next);
  }

  lemma {:induction false} QuotientSlotsStep(q: seq<Node>, a: TwosComplementInt, d: TwosComplementInt, w: nat, i: nat, next: nat, qbit: Node)
    requires Operands(a, d, w) && i < w && next == i + 1
    requires QuotientSlots(q, a, d, w, i) && qbit == QNode(a, d, w, i)
    ensures QuotientSlots(q[w - i - 1 := qbit], a, d, w, next)
  {
    var q2 := q[w - i - 1 := qbit];
    forall j | 0 <= j < next
      ensures q2[w - 1 - j] == QNode(a, d, w, j)
    {
      if j < i {
        assert q[w - 1 - j] == QNode(a, d, w, j);
      }
    }
  }

  lemma {:induction false} ZeroTestsStep(svalues: seq<Node>, a: TwosComplementInt, d: TwosComplementInt, w: nat, i: nat, next: nat, sv: Node)
    requires Operands(a, d, w) && i < w && next == i + 1
    requires ZeroTests(svalues, a, d, w, i) && OrOf(sv, State(a, d, w, i))
    ensures ZeroTests(svalues[i := sv], a, d, w, next)
  {
    var s2 := svalues[i := sv];
    forall j | 0 <= j < next
      ensures OrOf(s2[j], State(a, d, w, j))
    {
      if j < i {
        assert OrOf(svalues[j], State(a, d, w, j));
      }
    }
  }

  /** The bits of the quotient (when quotient holds) or of the remainder.
      Under every assignment with a non-zero divisor, the quotient is a / d
      truncated toward zero and wrapped to the bitwidth, and the remainder
      is the matching one, with the dividend's sign. */
  method NonRestoringDivision(a: TwosComplementInt, d: TwosComplementInt, quotient: bool) returns (r: seq<Node>)
    requires Valid(a) && Valid(d) && SameFactory(a, d)
    ensures |r| == a.factory.bitwidth
    ensures forall env :: EvalInt(d, env) != 0 ==>
      ToInt(EvalBits(r, env)) == (if quotient then Wrap(Quot(EvalInt(a, env), EvalInt(d, env)), a.factory.bitwidth)
                                  else JRem(EvalInt(a, env), EvalInt(d, env)))
  {
    var w := a.factory.bitwidth;
    var s, o, q, svalues := Iterate(a, d, w);
    var incorrect := MkOr(MkNot(Reduce(AndOp, svalues)), MkAnd(MkXor(s[w], Bit(a, w)), Reduce(OrOp, s)));
    var corrector := MkIff(s[w], Bit(d, w));
    assert Finished(a, d, w, s, svalues, incorrect, corrector);
    if quotient {
      r := CorrectQuotient(a, d, w, s, q, svalues, incorrect, corrector);
    } else {
      r := CorrectRemainder(a, d, w, s, svalues, incorrect, corrector);
    }
  }

  /** The register after the main loop and the two correction flags read
      from it: incorrect when some partial remainder before the last was
      zero, or the last is non-zero with a sign other than the dividend's;
      corrector when the last has the divisor's sign. */
  ghost predicate Finished(a: TwosComplementInt, d: TwosComplementInt, w: nat, s: seq<Node>, svalues: seq<Node>,
                           incorrect: Node, corrector: Node)
  {
    && Operands(a, d, w) && w >= 1
    && |s| == Span(w) && Log(s, w + 1) == State(a, d, w, w)
    && ZeroTests(svalues, a, d, w, w)
    && incorrect == MkOr(MkNot(Reduce(AndOp, svalues)), MkAnd(MkXor(s[w], Bit(a, w)), Reduce(OrOp, s)))
    && corrector == MkIff(s[w], Bit(d, w))
  }

  /** The quotient branch of the correction: the recorded bits shifted up
      with bit 0 set, plus all ones (-1) when the quotient is one too big,
      or plus the carry-in (+1) when it is one too small. */
  method CorrectQuotient(a: TwosComplementInt, d: TwosComplementInt, w: nat, s: seq<Node>, q: seq<Node>, svalues: seq<Node>,
                         incorrect: Node, corrector: Node) returns (r: seq<Node>)
    requires Finished(a, d, w, s, svalues, incorrect, corrector) && QuotientSlots(q, a, d, w, w)
    ensures |r| == w
    ensures forall env :: EvalInt(d, env) != 0 ==>
      ToInt(EvalBits(r, env)) == Wrap(Quot(EvalInt(a, env), EvalInt(d, env)), w)
  {
    var q2 := [TRUE] + q[..w - 1];
    var carry := MkAnd(incorrect, corrector);
    var row := SignRow(w, incorrect, corrector);
    r := AddAtBottom(q2, row, carry);
    assert r == Ripple(q2, row, carry).sum by {
      assert q2[..w] == q2 && r[..w] == r;
    }
    QuotientCorrect(a, d, w, s, q, svalues, incorrect, corrector, q2, row, carry);
  }

  /** The corrected quotient under every assignment with a non-zero
      divisor. */
  lemma {:induction false} QuotientCorrect(a: TwosComplementInt, d: TwosComplementInt, w: nat, s: seq<Node>, q: seq<Node>, svalues: seq<Node>,
                        incorrect: Node, corrector: Node, q2: seq<Node>, row: seq<Node>, carry: Node)
    requires Finished(a, d, w, s, svalues, incorrect, corrector) && QuotientSlots(q, a, d, w, w)
    requires q2 == [TRUE] + q[..w - 1] && row == SignRow(w, incorrect, corrector) && carry == MkAnd(incorrect, corrector)
    ensures forall env :: EvalInt(d, env) != 0 ==>
      ToInt(EvalBits(Ripple(q2, row, carry).sum, env)) == Wrap(Quot(EvalInt(a, env), EvalInt(d, env)), w)
  {
    forall env | EvalInt(d, env) != 0
      ensures ToInt(EvalBits(Ripple(q2, row, carry).sum, env)) == Wrap(Quot(EvalInt(a, env), EvalInt(d, env)), w)
    {
      QuotientOutcome(a, d, w, s, q, svalues, env, incorrect, corrector, q2, row, carry);
    }
  }

  /** The remainder branch of the correction: the top w+1 bits of the
      register, which sit in slots 0 .. w, plus d or -d when the remainder
      needs correcting; the low w bits of the sum are the remainder. */
  method CorrectRemainder(a: TwosComplementInt, d: TwosComplementInt, w: nat, s: seq<Node>, svalues: seq<Node>,
                          incorrect: Node, corrector: Node) returns (r: seq<Node>)
    requires Finished(a, d, w, s, svalues, incorrect, corrector)
    ensures |r| == w
    ensures forall env :: EvalInt(d, env) != 0 ==>
      ToInt(EvalBits(r, env)) == JRem(EvalInt(a, env), EvalInt(d, env))
  {
    var carry := MkAnd(incorrect, corrector);
    var row := CorrectionRow(d, w, incorrect, corrector);
    var t := AddAtBottom(s, row, carry);
    var low := t[..w + 1];
    assert low == Ripple(s[..w + 1], row, carry).sum;
    r := low[..w];
    RemainderCorrect(a, d, w, s, svalues, incorrect, corrector, s[..w + 1], row, carry, low);
  }

  /** The corrected remainder under every assignment with a non-zero
      divisor. */
  lemma {:induction false} RemainderCorrect(a: TwosComplementInt, d: TwosComplementInt, w: nat, s: seq<Node>, svalues: seq<Node>,
                         incorrect: Node, corrector: Node, x: seq<Node>, row: seq<Node>, carry: Node, low: seq<Node>)
    requires Finished(a, d, w, s, svalues, incorrect, corrector)
    requires x == s[..w + 1] && row == CorrectionRow(d, w, incorrect, corrector) && carry == MkAnd(incorrect, corrector)
    requires low == Ripple(x, row, carry).sum
    ensures forall env :: EvalInt(d, env) != 0 ==> ToInt(EvalBits(low[..w], env)) == JRem(EvalInt(a, env), EvalInt(d, env))
  {
    forall env | EvalInt(d, env) != 0
      ensures ToInt(EvalBits(low[..w], env)) == JRem(EvalInt(a, env), EvalInt(d, env))
    {
      RemainderOutcome(a, d, w, s, svalues, env, incorrect, corrector, x, row, carry, low);
    }
  }

  /** Adds row, with carry in cin, into the low positions of a register read
      from slot 0; the positions above keep their bits. */
  method AddAtBottom(s: seq<Node>, row: seq<Node>, cin: Node) returns (t: seq<Node>)
    requires 1 <= |row| <= |s|
    ensures |t| == |s|
    ensures t[..|row|] == Ripple(s[..|row|], row, cin).sum
    ensures t[|row|..] == s[|row|..]
  {
    t := AddInPlace(s, 0, 0, row, cin);
    FrontSum(s, t, row, cin);
  }

  /** Adding a row at the bottom of a register read from slot 0 leaves the
      sum in the low slots. */
  lemma {:induction false} FrontSum(s: seq<Node>, t: seq<Node>, row: seq<Node>, cin: Node)
    requires 1 <= |row| <= |s| == |t|
    requires Log(t, 0) == Log(s, 0)[..0] + Ripple(Log(s, 0)[0..|row|], row, cin).sum + Log(s, 0)[|row|..]
    ensures t[..|row|] == Ripple(s[..|row|], row, cin).sum
    ensures t[|row|..] == s[|row|..]
  {
    LogZero(s);
    LogZero(t);
    var k := |row|;
    assert s[0..k] == s[..k];
    FrontSplit(s, t, Ripple(s[..k], row, cin).sum, k);
  }

  lemma {:induction false} FrontSplit(s: seq<Node>, t: seq<Node>, sum: seq<Node>, k: nat)
    requires k <= |s| && |sum| == k
    requires t == s[..0] + sum + s[k..]
    ensures t[..k] == sum && t[k..] == s[k..]
  {
    assert s[..0] + sum == sum;
  }

  /** The quotient's correction: all ones when the quotient is one too big
      (incorrect, and the remainder's sign differs from the divisor's). */
  function SignRow(n: nat, incorrect: Node, corrector: Node): (r: seq<Node>)
    ensures |r| == n
    ensures forall i :: 0 <= i < n ==> r[i] == MkAnd(incorrect, MkNot(corrector))
  {
    seq(n, _ => MkAnd(incorrect, MkNot(corrector)))
  }

  /** Bit i of the remainder's correction: bit i of d, complemented when
      corrector holds, and nothing unless incorrect holds. */
  function CorrectionRow(d: TwosComplementInt, w: nat, incorrect: Node, corrector: Node): (r: seq<Node>)
    requires |d.bits| >= 1
    ensures |r| == w + 1
    ensures forall i :: 0 <= i <= w ==> r[i] == MkAnd(incorrect, MkXor(corrector, Bit(d, i)))
  {
    seq(w + 1, i requires 0 <= i <= w => MkAnd(incorrect, MkXor(corrector, Bit(d, i))))
  }

  /** a / d, truncated toward zero, in the factory's bitwidth. */
  method Divide(a: TwosComplementInt, d: TwosComplementInt) returns (r: TwosComplementInt)
    requires Valid(a) && Valid(d) && SameFactory(a, d)
    ensures r.factory == a.factory && Valid(r) && |r.bits| == a.factory.bitwidth
    ensures forall env :: EvalInt(d, env) != 0 ==>
      EvalInt(r, env) == Wrap(Quot(EvalInt(a, env), EvalInt(d, env)), a.factory.bitwidth)
  {
    var bits := NonRestoringDivision(a, d, true);
    r := TwosComplementInt(a.factory, bits);
  }

  /** The remainder of a / d: a - d * (a / d), zero or of a's sign. */
  method Modulo(a: TwosComplementInt, d: TwosComplementInt) returns (r: TwosComplementInt)
    requires Valid(a) && Valid(d) && SameFactory(a, d)
    ensures r.factory == a.factory && Valid(r) && |r.bits| == a.factory.bitwidth
    ensures forall env :: EvalInt(d, env) != 0 ==>
      EvalInt(r, env) == JRem(EvalInt(a, env), EvalInt(d, env))
  {
    var bits := NonRestoringDivision(a, d, false);
    r := TwosComplementInt(a.factory, bits);
  }

  /** Quotient and remainder recombine to the dividend, in w-bit
      arithmetic: the one quotient that wraps (the most negative value
      divided by -1) wraps back. */
  lemma {:induction false} QuotientTimesDivisorPlusRemainder(av: int, dv: int, w: nat)
    requires w >= 1 && dv != 0 && InRange(av, w)
    ensures Wrap(Wrap(Quot(av, dv), w) * dv + JRem(av, dv), w) == av
  {
    var q := Quot(av, dv);
    calc {
      Wrap(Wrap(q, w) * dv + JRem(av, dv), w);
      { WrapAdd(Wrap(q, w) * dv, JRem(av, dv), w);
        WrapMul(q, dv, w);
        WrapAdd(q * dv, JRem(av, dv), w); }
      Wrap(q * dv + JRem(av, dv), w);
      { assert q * dv + JRem(av, dv) == av; WrapInRange(av, w); }
      av;
    }
  }

  /** The remainder always fits: it is smaller than the divisor. */
  lemma {:induction false} RemainderFits(av: int, dv: int, w: nat)
    requires w >= 1 && dv != 0 && InRange(dv, w)
    ensures InRange(JRem(av, dv), w)
  {
    JRemBounds(av, dv);
  }

  // ---------------------------------------------------------------------
  // The correction step under an assignment

  /** The correction flags after the main loop, read on the final partial
      remainder rem: incorrect holds when some earlier partial remainder was
      zero, or when rem is non-zero with a sign other than the dividend's;
      corrector holds when rem has the divisor's sign. */
  lemma {:induction false} FlagValues(a: TwosComplementInt, d: TwosComplementInt, w: nat, s: seq<Node>, svalues: seq<Node>, env: Assignment,
                   incorrect: Node, corrector: Node, rem: int, zero: bool)
    requires Operands(a, d, w) && |s| == Span(w)
    requires Eval(s[w], env) == (rem < 0) && Combine(OrOp, s, env) == (rem != 0) && Combine(AndOp, svalues, env) == !zero
    requires incorrect == MkOr(MkNot(Reduce(AndOp, svalues)), MkAnd(MkXor(s[w], Bit(a, w)), Reduce(OrOp, s)))
    requires corrector == MkIff(s[w], Bit(d, w))
    ensures Eval(incorrect, env) == Incorrect(zero, rem, EvalInt(a, env))
    ensures Eval(corrector, env) == Corrector(rem, EvalInt(d, env))
  {
    SignBitValue(a, w, env);
    SignBitValue(d, w, env);
  }

  /** After the main loop, slot w holds the sign of the final partial
      remainder, and some slot is set exactly when it is non-zero. */
  lemma {:induction false} RegisterFlags(a: TwosComplementInt, d: TwosComplementInt, w: nat, s: seq<Node>, env: Assignment)
    requires Operands(a, d, w) && w >= 1 && EvalInt(d, env) != 0
    requires |s| == Span(w) && Log(s, w + 1) == State(a, d, w, w)
    ensures var rem := Rem(EvalInt(a, env), EvalInt(d, env), w, w);
      Eval(s[w], env) == (rem < 0) && Combine(OrOp, s, env) == (rem != 0)
  {
    var st := State(a, d, w, w);
    var rem := Rem(EvalInt(a, env), EvalInt(d, env), w, w);
    assert ToInt(EvalBits(st, env)) == rem by {
      StateValue(a, d, w, w, env);
    }
    RegisterBits(s, st, w, env, rem);
  }

  lemma {:induction false} RegisterBits(s: seq<Node>, l: seq<Node>, w: nat, env: Assignment, rem: int)
    requires |s| == Span(w) && w >= 1 && Log(s, w + 1) == l && ToInt(EvalBits(l, env)) == rem
    ensures Eval(s[w], env) == (rem < 0) && Combine(OrOp, s, env) == (rem != 0)
  {
    var e := EvalBits(l, env);
    assert Eval(s[w], env) == (rem < 0) by {
      assert s[w] == l[2 * w];
      ToIntSign(e);
    }
    assert Combine(OrOp, s, env) == (rem != 0) by {
      CombineLog(s, w + 1, env);
      Bitwise.ZeroIffNoBitSet(e);
    }
  }

  /** The zero tests together say whether some partial remainder before the
      last was zero. */
  lemma {:induction false} ZeroTestsValue(a: TwosComplementInt, d: TwosComplementInt, w: nat, svalues: seq<Node>, env: Assignment)
    requires Operands(a, d, w) && w >= 1 && EvalInt(d, env) != 0
    requires ZeroTests(svalues, a, d, w, w)
    ensures Combine(AndOp, svalues, env) == !SawZero(EvalInt(a, env), EvalInt(d, env), w, w)
  {
    forall j | 0 <= j < w
      ensures Eval(svalues[j], env) == (Rem(EvalInt(a, env), EvalInt(d, env), w, j) != 0)
    {
      assert OrOf(svalues[j], State(a, d, w, j));
      OrValue(a, d, w, j, env);
    }
  }

  /** Both correction flags, in terms of the integer recurrence. */
  lemma {:induction false} Flags(a: TwosComplementInt, d: TwosComplementInt, w: nat, s: seq<Node>, svalues: seq<Node>, env: Assignment,
              incorrect: Node, corrector: Node)
    requires Finished(a, d, w, s, svalues, incorrect, corrector) && EvalInt(d, env) != 0
    ensures var av, dv := EvalInt(a, env), EvalInt(d, env);
      var rem := Rem(av, dv, w, w);
      Eval(incorrect, env) == Incorrect(SawZero(av, dv, w, w), rem, av) && Eval(corrector, env) == Corrector(rem, dv)
  {
    var av, dv := EvalInt(a, env), EvalInt(d, env);
    RegisterFlags(a, d, w, s, env);
    ZeroTestsValue(a, d, w, svalues, env);
    FlagValues(a, d, w, s, svalues, env, incorrect, corrector, Rem(av, dv, w, w), SawZero(av, dv, w, w));
  }

  /** Before wrapping: the recorded digits plus the sign row and its carry
      make the truncated quotient. */
  lemma {:induction false} QuotientTotal(a: TwosComplementInt, d: TwosComplementInt, w: nat, s: seq<Node>, svalues: seq<Node>,
                      env: Assignment, incorrect: Node, corrector: Node, row: seq<Node>, carry: Node)
    requires Finished(a, d, w, s, svalues, incorrect, corrector) && EvalInt(d, env) != 0
    requires row == SignRow(w, incorrect, corrector) && carry == MkAnd(incorrect, corrector)
    ensures Digits(EvalInt(a, env), EvalInt(d, env), w, w) + (ToInt(EvalBits(row, env)) + Weight(Eval(carry, env), 0))
      == Quot(EvalInt(a, env), EvalInt(d, env))
  {
    var av, dv := EvalInt(a, env), EvalInt(d, env);
    assert Digits(av, dv, w, w) + Adjustment(Eval(incorrect, env), Eval(corrector, env)) == Quot(av, dv) by {
      Flags(a, d, w, s, svalues, env, incorrect, corrector);
      OperandRanges(a, d, w, env);
      RegisterCorrection(av, dv, w);
    }
    SignRowValue(w, incorrect, corrector, env);
  }

  /** The corrected quotient under an assignment. */
  lemma {:induction false} QuotientOutcome(a: TwosComplementInt, d: TwosComplementInt, w: nat, s: seq<Node>, q: seq<Node>, svalues: seq<Node>,
                        env: Assignment, incorrect: Node, corrector: Node, q2: seq<Node>, row: seq<Node>, carry: Node)
    requires Finished(a, d, w, s, svalues, incorrect, corrector) && QuotientSlots(q, a, d, w, w) && EvalInt(d, env) != 0
    requires q2 == [TRUE] + q[..w - 1] && row == SignRow(w, incorrect, corrector) && carry == MkAnd(incorrect, corrector)
    ensures ToInt(EvalBits(Ripple(q2, row, carry).sum, env)) == Wrap(Quot(EvalInt(a, env), EvalInt(d, env)), w)
  {
    var av, dv := EvalInt(a, env), EvalInt(d, env);
    var digits := Digits(av, dv, w, w);
    assert digits + (ToInt(EvalBits(row, env)) + Weight(Eval(carry, env), 0)) == Quot(av, dv) by {
      QuotientTotal(a, d, w, s, svalues, env, incorrect, corrector, row, carry);
    }
    assert ToInt(EvalBits(q2, env)) == Wrap(digits, w) by {
      QuotientBitsValue(a, d, w, q, env);
    }
    WrappedSum(q2, row, carry, env, digits, Quot(av, dv));
  }

  /** Adding to the wrapped value of x wraps the exact sum. */
  lemma {:induction false} WrappedSum(x: seq<Node>, y: seq<Node>, cin: Node, env: Assignment, xv: int, total: int)
    requires 1 <= |x| == |y| && ToInt(EvalBits(x, env)) == Wrap(xv, |x|)
    requires xv + (ToInt(EvalBits(y, env)) + Weight(Eval(cin, env), 0)) == total
    ensures ToInt(EvalBits(Ripple(x, y, cin).sum, env)) == Wrap(total, |x|)
  {
    var delta := ToInt(EvalBits(y, env)) + Weight(Eval(cin, env), 0);
    RippleWrap(x, y, cin, env, Wrap(xv, |x|) + delta);
    WrapAdd(xv, delta, |x|);
  }

  /** The recorded quotient bits, shifted up with bit 0 set, read as the
      digits wrapped to w bits. */
  lemma {:induction false} QuotientBitsValue(a: TwosComplementInt, d: TwosComplementInt, w: nat, q: seq<Node>, env: Assignment)
    requires Operands(a, d, w) && w >= 1 && EvalInt(d, env) != 0
    requires QuotientSlots(q, a, d, w, w)
    ensures ToInt(EvalBits([TRUE] + q[..w - 1], env)) == Wrap(Digits(EvalInt(a, env), EvalInt(d, env), w, w), w)
  {
    var av, dv := EvalInt(a, env), EvalInt(d, env);
    var bs := EvalBits(q, env);
    forall j | 0 <= j < w
      ensures bs[w - 1 - j] == QBit(Rem(av, dv, w, j), dv)
    {
      QNodeValue(a, d, w, j, env);
    }
    assert EvalBits([TRUE] + q[..w - 1], env) == [true] + bs[..w - 1];
    QuotientValue(bs, av, dv, w);
  }

  /** The quotient's correction row plus its carry in reads as the
      adjustment due: -1 when the quotient is one too big, +1 when it is
      one too small, 0 when it is correct. */
  lemma {:induction false} SignRowValue(n: nat, incorrect: Node, corrector: Node, env: Assignment)
    requires n >= 1
    ensures ToInt(EvalBits(SignRow(n, incorrect, corrector), env)) + Weight(Eval(MkAnd(incorrect, corrector), env), 0)
      == Adjustment(Eval(incorrect, env), Eval(corrector, env))
  {
    var b := Eval(incorrect, env) && !Eval(corrector, env);
    assert EvalBits(SignRow(n, incorrect, corrector), env) == Fill(n, b);
    ToIntFill(n, b);
  }

  /** A run of equal bits reads as 0 or -1. */
  lemma {:induction false} ToIntFill(n: nat, b: bool)
    requires n >= 1
    ensures ToInt(Fill(n, b)) == (if b then -1 else 0)
  {
    if b {
      UnsignedOnes(n);
    } else {
      UnsignedZeros(n);
    }
  }

  /** Before wrapping: the top of the register plus the correction row and
      its carry make the remainder. */
  lemma {:induction false} RemainderTotal(a: TwosComplementInt, d: TwosComplementInt, w: nat, s: seq<Node>, svalues: seq<Node>,
                       env: Assignment, incorrect: Node, corrector: Node, row: seq<Node>, carry: Node)
    requires Finished(a, d, w, s, svalues, incorrect, corrector) && EvalInt(d, env) != 0
    requires row == CorrectionRow(d, w, incorrect, corrector) && carry == MkAnd(incorrect, corrector)
    ensures ToInt(EvalBits(s[..w + 1], env)) + (ToInt(EvalBits(row, env)) + Weight(Eval(carry, env), 0))
      == JRem(EvalInt(a, env), EvalInt(d, env))
  {
    var av, dv := EvalInt(a, env), EvalInt(d, env);
    var c := Adjustment(Eval(incorrect, env), Eval(corrector, env));
    assert av - dv * Digits(av, dv, w, w) - dv * c == JRem(av, dv) by {
      Flags(a, d, w, s, svalues, env, incorrect, corrector);
      OperandRanges(a, d, w, env);
      RegisterCorrection(av, dv, w);
    }
    assert ToInt(EvalBits(s[..w + 1], env)) == av - dv * Digits(av, dv, w, w) by {
      TopValue(a, d, w, s, env);
    }
    assert ToInt(EvalBits(row, env)) + Weight(Eval(carry, env), 0) == -(dv * c) by {
      CorrectionRowValue(d, w, incorrect, corrector, env);
    }
  }

  /** The corrected remainder under an assignment. */
  lemma {:induction false} RemainderOutcome(a: TwosComplementInt, d: TwosComplementInt, w: nat, s: seq<Node>, svalues: seq<Node>,
                         env: Assignment, incorrect: Node, corrector: Node, x: seq<Node>, row: seq<Node>, carry: Node,
                         low: seq<Node>)
    requires Finished(a, d, w, s, svalues, incorrect, corrector) && EvalInt(d, env) != 0
    requires x == s[..w + 1] && row == CorrectionRow(d, w, incorrect, corrector) && carry == MkAnd(incorrect, corrector)
    requires low == Ripple(x, row, carry).sum
    ensures ToInt(EvalBits(low[..w], env)) == JRem(EvalInt(a, env), EvalInt(d, env))
  {
    var jr := JRem(EvalInt(a, env), EvalInt(d, env));
    assert ToInt(EvalBits(x, env)) + (ToInt(EvalBits(row, env)) + Weight(Eval(carry, env), 0)) == jr by {
      RemainderTotal(a, d, w, s, svalues, env, incorrect, corrector, row, carry);
    }
    assert InRange(jr, w) by {
      OperandRanges(a, d, w, env);
      RemainderFits(EvalInt(a, env), EvalInt(d, env), w);
    }
    WrappedPrefix(x, row, carry, env, w, jr);
  }

  /** A sum one bit wider than the value it must hold: its low w bits are
      that value. */
  lemma {:induction false} WrappedPrefix(x: seq<Node>, y: seq<Node>, cin: Node, env: Assignment, w: nat, v: int)
    requires w >= 1 && |x| == |y| == w + 1 && InRange(v, w)
    requires ToInt(EvalBits(x, env)) + (ToInt(EvalBits(y, env)) + Weight(Eval(cin, env), 0)) == v
    ensures ToInt(EvalBits(Ripple(x, y, cin).sum[..w], env)) == v
  {
    var sum := Ripple(x, y, cin).sum;
    RippleWrap(x, y, cin, env, v);
    assert EvalBits(sum[..w], env) == EvalBits(sum, env)[..w];
    FittingPrefix(EvalBits(sum, env), w, v);
  }

  /** The top w+1 bits of the final register read as a - d * digits. */
  lemma {:induction false} TopValue(a: TwosComplementInt, d: TwosComplementInt, w: nat, s: seq<Node>, env: Assignment)
    requires Operands(a, d, w) && w >= 1 && EvalInt(d, env) != 0
    requires |s| == Span(w) && Log(s, w + 1) == State(a, d, w, w)
    ensures var av, dv := EvalInt(a, env), EvalInt(d, env);
      ToInt(EvalBits(s[..w + 1], env)) == av - dv * Digits(av, dv, w, w)
  {
    var av, dv := EvalInt(a, env), EvalInt(d, env);
    var st := State(a, d, w, w);
    assert s[..w + 1] == st[w..] by {
      TopSlots(s, st, w);
    }
    assert ToInt(EvalBits(st, env)) == Pow2(w) * (av - dv * Digits(av, dv, w, w)) by {
      StateValue(a, d, w, w, env);
      FinalRemainder(av, dv, w);
    }
    HighPartValue(st, w, env, av - dv * Digits(av, dv, w, w));
  }

  /** The register read from slot w+1: its top w+1 positions are slots
      0 .. w. */
  lemma {:induction false} TopSlots(s: seq<Node>, l: seq<Node>, w: nat)
    requires w >= 1 && |s| == Span(w) && Log(s, w + 1) == l
    ensures s[..w + 1] == l[w..]
  {
    forall p | 0 <= p <= w
      ensures s[p] == l[w + p]
    {
      assert Slot(w + 1, w + p, |s|) == p;
    }
  }

  /** The remainder's correction row plus its carry in reads as d times
      the negated adjustment: -d when the quotient was decremented, +d when
      it was incremented, 0 when no correction is due. */
  lemma {:induction false} CorrectionRowValue(d: TwosComplementInt, w: nat, incorrect: Node, corrector: Node, env: Assignment)
    requires 1 <= |d.bits| <= w
    ensures ToInt(EvalBits(CorrectionRow(d, w, incorrect, corrector), env)) + Weight(Eval(MkAnd(incorrect, corrector), env), 0)
      == -(EvalInt(d, env) * Adjustment(Eval(incorrect, env), Eval(corrector, env)))
  {
    var inc, corr := Eval(incorrect, env), Eval(corrector, env);
    var adj := Adjustment(inc, corr);
    var ext := EvalBits(Extend(d, w + 1), env);
    var rb := EvalBits(CorrectionRow(d, w, incorrect, corrector), env);
    var xv := ToInt(ext);
    assert xv == EvalInt(d, env) by {
      ExtendValue(d, w + 1, env);
    }
    assert ToInt(rb) + Weight(inc && corr, 0) == -(xv * adj) by {
      CorrectionRowEval(d, w, incorrect, corrector, env, ext, rb);
      RowBits(ext, inc, corr, rb);
    }
    assert Eval(MkAnd(incorrect, corrector), env) == (inc && corr);
  }

  /** Evaluated, bit i of the correction row is incorrect and (corrector
      differs from bit i of d). */
  lemma {:induction false} CorrectionRowEval(d: TwosComplementInt, w: nat, incorrect: Node, corrector: Node, env: Assignment,
                                             ext: seq<bool>, rb: seq<bool>)
    requires 1 <= |d.bits| <= w
    requires ext == EvalBits(Extend(d, w + 1), env) && rb == EvalBits(CorrectionRow(d, w, incorrect, corrector), env)
    ensures |rb| == |ext| == w + 1
    ensures forall i :: 0 <= i < |rb| ==> rb[i] == (Eval(incorrect, env) && (Eval(corrector, env) != ext[i]))
  {
    forall i | 0 <= i < |rb|
      ensures rb[i] == (Eval(incorrect, env) && (Eval(corrector, env) != ext[i]))
    {
    }
  }

  /** The correction row's bits: nothing, the complement (so with the carry
      -v), or v itself. */
  lemma {:induction false} RowBits(ext: seq<bool>, inc: bool, corr: bool, rb: seq<bool>)
    requires |rb| == |ext| >= 1
    requires forall i :: 0 <= i < |rb| ==> rb[i] == (inc && (corr != ext[i]))
    ensures ToInt(rb) + Weight(inc && corr, 0) == -(ToInt(ext) * Adjustment(inc, corr))
  {
    var n := |rb|;
    if !inc {
      assert rb == Fill(n, false);
      ToIntFill(n, false);
    } else if corr {
      assert rb == Complement(ext);
      ToIntComplement(ext);
    } else {
      assert rb == ext;
    }
  }

  /** A value that fits in w bits survives dropping the top bit of its
      (w+1)-bit encoding. */
  lemma {:induction false} FittingPrefix(e: seq<bool>, w: nat, v: int)
    requires |e| == w + 1 && w >= 1 && InRange(v, w) && ToInt(e) == Wrap(v, w + 1)
    ensures ToInt(e[..w]) == v
  {
    InRangeWiden(v, w, w + 1);
    WrapInRange(v, w + 1);
    ToIntPrefix(e, w);
    WrapInRange(v, w);
  }
}
