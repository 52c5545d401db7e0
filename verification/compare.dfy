/** Equality and signed order of bit-vector integers, each built as one
    circuit node that holds exactly when the relation holds between the
    integers the operands denote. */
module Compare {
  import opened Arith
  import opened Circuit
  import opened BitVector

  /** Column i pairs bit i of a with bit i of b through gate g. */
  function IffColumn(a: TwosComplementInt, b: TwosComplementInt, n: nat): (r: seq<Node>)
    requires |a.bits| >= 1 && |b.bits| >= 1
    ensures |r| == n
    ensures forall i :: 0 <= i < n ==> r[i] == MkIff(Bit(a, i), Bit(b, i))
  {
    seq(n, i requires 0 <= i < n => MkIff(Bit(a, i), Bit(b, i)))
  }

  function XorColumn(a: TwosComplementInt, b: TwosComplementInt, n: nat): (r: seq<Node>)
    requires |a.bits| >= 1 && |b.bits| >= 1
    ensures |r| == n
    ensures forall i :: 0 <= i < n ==> r[i] == MkXor(Bit(a, i), Bit(b, i))
  {
    seq(n, i requires 0 <= i < n => MkXor(Bit(a, i), Bit(b, i)))
  }

  function MaxWidth(a: TwosComplementInt, b: TwosComplementInt): nat
  {
    Max(|a.bits|, |b.bits|)
  }

  /** At the common width the operands' bits agree everywhere exactly when
      the operands denote the same integer. */
  lemma {:induction false} ExtendedEqual(a: TwosComplementInt, b: TwosComplementInt, env: Assignment)
    requires Valid(a) && Valid(b)
    ensures var n := MaxWidth(a, b);
      (EvalBits(Extend(a, n), env) == EvalBits(Extend(b, n), env))
      <==> EvalInt(a, env) == EvalInt(b, env)
  {
    var n := MaxWidth(a, b);
    ExtendValue(a, n, env);
    ExtendValue(b, n, env);
    if EvalInt(a, env) == EvalInt(b, env) {
      ToIntInjective(EvalBits(Extend(a, n), env), EvalBits(Extend(b, n), env));
    }
  }

  lemma {:induction false} IffColumnMeaning(a: TwosComplementInt, b: TwosComplementInt, env: Assignment)
    requires Valid(a) && Valid(b)
    ensures Combine(AndOp, IffColumn(a, b, MaxWidth(a, b)), env) <==> EvalInt(a, env) == EvalInt(b, env)
  {
    var n := MaxWidth(a, b);
    var sa, sb := EvalBits(Extend(a, n), env), EvalBits(Extend(b, n), env);
    ExtendedEqual(a, b, env);
    if Combine(AndOp, IffColumn(a, b, n), env) {
      assert forall i :: 0 <= i < n ==> sa[i] == sb[i] by {
        forall i | 0 <= i < n
          ensures sa[i] == sb[i]
        {
          assert Eval(IffColumn(a, b, n)[i], env);
        }
      }
    }
  }

  lemma {:induction false} XorColumnMeaning(a: TwosComplementInt, b: TwosComplementInt, env: Assignment)
    requires Valid(a) && Valid(b)
    ensures Combine(OrOp, XorColumn(a, b, MaxWidth(a, b)), env) <==> EvalInt(a, env) != EvalInt(b, env)
  {
    var n := MaxWidth(a, b);
    var sa, sb := EvalBits(Extend(a, n), env), EvalBits(Extend(b, n), env);
    ExtendedEqual(a, b, env);
    if !Combine(OrOp, XorColumn(a, b, n), env) {
      assert forall i :: 0 <= i < n ==> sa[i] == sb[i] by {
        forall i | 0 <= i < n
          ensures sa[i] == sb[i]
        {
          assert !Eval(XorColumn(a, b, n)[i], env);
        }
      }
    } else {
      var i :| 0 <= i < n && Eval(XorColumn(a, b, n)[i], env);
      assert sa[i] != sb[i];
    }
  }

  /** Equality: the conjunction over all positions of "the bits agree",
      returning FALSE as soon as some position is known to disagree. */
  method Eq(a: TwosComplementInt, b: TwosComplementInt) returns (r: Node)
    requires Valid(a) && Valid(b) && SameFactory(a, b)
    ensures forall env :: Eval(r, env) <==> EvalInt(a, env) == EvalInt(b, env)
    ensures r == Reduce(AndOp, IffColumn(a, b, MaxWidth(a, b)))
  {
    var width := MaxWidth(a, b);
    ghost var column := IffColumn(a, b, width);
    var cmp := TreeGate(AndOp);
    var i := 0;
    while i < width
      invariant 0 <= i <= width
      invariant cmp == AddAll(TreeGate(AndOp), column[..i])
      invariant !cmp.shorted
    {
      assert column[..i + 1][..i] == column[..i];
      cmp := Add(cmp, MkIff(Bit(a, i), Bit(b, i)));
      if cmp.shorted {
        AddAllStaysShorted(AndOp, column, i + 1);
        r := FALSE;
        IffMeaningAll(a, b, r);
        return;
      }
      i := i + 1;
    }
    assert column[..i] == column;
    r := Accumulate(cmp);
    IffMeaningAll(a, b, r);
  }

  lemma {:induction false} IffMeaningAll(a: TwosComplementInt, b: TwosComplementInt, r: Node)
    requires Valid(a) && Valid(b)
    requires r == Reduce(AndOp, IffColumn(a, b, MaxWidth(a, b)))
    ensures forall env :: Eval(r, env) <==> EvalInt(a, env) == EvalInt(b, env)
  {
    forall env
      ensures Eval(r, env) <==> EvalInt(a, env) == EvalInt(b, env)
    {
      IffColumnMeaning(a, b, env);
    }
  }

  // ---------------------------------------------------------------------
  // Signed order

  /** The running "all bits from j up to last agree" node of the order
      comparison, as it stands before position j - 1 is examined. */
  function PrevEquals(a: TwosComplementInt, b: TwosComplementInt, last: nat, j: nat): Node
    requires |a.bits| >= 1 && |b.bits| >= 1 && j <= last
    decreases last - j
  {
    if j == last then MkIff(Bit(a, last), Bit(b, last))
    else MkAnd(PrevEquals(a, b, last, j + 1), MkIff(Bit(a, j), Bit(b, j)))
  }

  /** The term for a bit position i below the top: if all higher bits
      agree, a's bit implies b's bit. */
  function PositionTerm(a: TwosComplementInt, b: TwosComplementInt, last: nat, i: nat): Node
    requires |a.bits| >= 1 && |b.bits| >= 1 && i < last
  {
    MkImplies(PrevEquals(a, b, last, i + 1), MkImplies(Bit(a, i), Bit(b, i)))
  }

  /** The terms the order comparison conjoins, in the order it adds them:
      first "b's sign implies a's sign", then the position terms from
      position last - 1 down to 0. */
  function LteTerms(a: TwosComplementInt, b: TwosComplementInt, last: nat): (r: seq<Node>)
    requires |a.bits| >= 1 && |b.bits| >= 1
    ensures |r| == last + 1
    ensures r[0] == MkImplies(Bit(b, last), Bit(a, last))
    ensures forall k :: 1 <= k <= last ==> r[k] == PositionTerm(a, b, last, last - k)
  {
    seq(last + 1, k requires 0 <= k <= last =>
      if k == 0 then MkImplies(Bit(b, last), Bit(a, last)) else PositionTerm(a, b, last, last - k))
  }

  lemma {:induction false} PrevEqualsUnfold(a: TwosComplementInt, b: TwosComplementInt, last: nat, j: nat, next: nat)
    requires |a.bits| >= 1 && |b.bits| >= 1 && j < last && next == j + 1
    ensures PrevEquals(a, b, last, j) == MkAnd(PrevEquals(a, b, last, next), MkIff(Bit(a, j), Bit(b, j)))
  {
  }

  /** The running node holds exactly when the sign-extended operands agree
      at every position from j up. */
  lemma {:induction false} PrevEqualsMeaning(a: TwosComplementInt, b: TwosComplementInt, n: nat, j: nat,
                                             sa: seq<bool>, sb: seq<bool>, env: Assignment)
    requires Valid(a) && Valid(b) && j < n && |sa| == |sb| == n
    requires forall k :: 0 <= k < n ==> sa[k] == Eval(Bit(a, k), env) && sb[k] == Eval(Bit(b, k), env)
    ensures Eval(PrevEquals(a, b, n - 1, j), env) <==> HighEqual(sa, sb, j)
    decreases n - j
  {
    var col := MkIff(Bit(a, j), Bit(b, j));
    assert Eval(col, env) <==> sa[j] == sb[j];
    HighEqualStep(sa, sb, j);
    if j < n - 1 {
      var next := j + 1;
      var rest := PrevEquals(a, b, n - 1, next);
      PrevEqualsUnfold(a, b, n - 1, j, next);
      PrevEqualsMeaning(a, b, n, next, sa, sb, env);
    } else {
      assert PrevEquals(a, b, n - 1, j) == col;
    }
  }

  lemma {:induction false} PositionTermMeaning(a: TwosComplementInt, b: TwosComplementInt, n: nat, i: nat,
                            sa: seq<bool>, sb: seq<bool>, env: Assignment)
    requires Valid(a) && Valid(b) && i < n - 1 && |sa| == |sb| == n
    requires forall k :: 0 <= k < n ==> sa[k] == Eval(Bit(a, k), env) && sb[k] == Eval(Bit(b, k), env)
    ensures Eval(PositionTerm(a, b, n - 1, i), env) <==> (HighEqual(sa, sb, i + 1) ==> (sa[i] ==> sb[i]))
  {
    PrevEqualsMeaning(a, b, n, i + 1, sa, sb, env);
  }

  lemma {:induction false} TermsGiveOrder(a: TwosComplementInt, b: TwosComplementInt, n: nat, terms: seq<Node>,
                        sa: seq<bool>, sb: seq<bool>, env: Assignment)
    requires Valid(a) && Valid(b) && 1 <= n && |sa| == |sb| == n && terms == LteTerms(a, b, n - 1)
    requires forall k :: 0 <= k < n ==> sa[k] == Eval(Bit(a, k), env) && sb[k] == Eval(Bit(b, k), env)
    requires forall k :: 0 <= k < n ==> Eval(terms[k], env)
    ensures SignedLexLe(sa, sb)
  {
    forall j | 0 <= j < n - 1
      ensures HighEqual(sa, sb, j + 1) ==> (sa[j] ==> sb[j])
    {
      var k := n - 1 - j;
      assert Eval(terms[k], env);
      assert terms[k] == PositionTerm(a, b, n - 1, j);
      PositionTermMeaning(a, b, n, j, sa, sb, env);
    }
    assert Eval(terms[0], env);
  }

  lemma {:induction false} OrderGivesTerms(a: TwosComplementInt, b: TwosComplementInt, n: nat, terms: seq<Node>,
                        sa: seq<bool>, sb: seq<bool>, env: Assignment)
    requires Valid(a) && Valid(b) && 1 <= n && |sa| == |sb| == n && terms == LteTerms(a, b, n - 1)
    requires forall k :: 0 <= k < n ==> sa[k] == Eval(Bit(a, k), env) && sb[k] == Eval(Bit(b, k), env)
    requires SignedLexLe(sa, sb)
    ensures forall k :: 0 <= k < n ==> Eval(terms[k], env)
  {
    forall k | 1 <= k < n
      ensures Eval(terms[k], env)
    {
      var j := n - 1 - k;
      assert terms[k] == PositionTerm(a, b, n - 1, j);
      PositionTermMeaning(a, b, n, j, sa, sb, env);
    }
  }

  /** The order comparison's conjunction holds exactly when the operands,
      sign-extended to the common width, are in signed lexicographic order. */
  lemma {:induction false} LteTermsMeaning(a: TwosComplementInt, b: TwosComplementInt, env: Assignment, n: nat,
                                           terms: seq<Node>, sa: seq<bool>, sb: seq<bool>)
    requires Valid(a) && Valid(b) && n == MaxWidth(a, b) && terms == LteTerms(a, b, n - 1)
    requires sa == EvalBits(Extend(a, n), env) && sb == EvalBits(Extend(b, n), env)
    ensures Combine(AndOp, terms, env) <==> SignedLexLe(sa, sb)
  {
    ExtendEval(a, n, env);
    ExtendEval(b, n, env);
    if Combine(AndOp, terms, env) {
      TermsGiveOrder(a, b, n, terms, sa, sb, env);
    }
    if SignedLexLe(sa, sb) {
      OrderGivesTerms(a, b, n, terms, sa, sb, env);
    }
  }

  lemma {:induction false} LteMeaningAll(a: TwosComplementInt, b: TwosComplementInt, r: Node)
    requires Valid(a) && Valid(b)
    requires r == Reduce(AndOp, LteTerms(a, b, MaxWidth(a, b) - 1))
    ensures forall env :: Eval(r, env) <==> EvalInt(a, env) <= EvalInt(b, env)
  {
    var n := MaxWidth(a, b);
    var terms := LteTerms(a, b, n - 1);
    forall env
      ensures Eval(r, env) <==> EvalInt(a, env) <= EvalInt(b, env)
    {
      var sa, sb := EvalBits(Extend(a, n), env), EvalBits(Extend(b, n), env);
      LteTermsMeaning(a, b, env, n, terms, sa, sb);
      ExtendValue(a, n, env);
      ExtendValue(b, n, env);
      SignedLe(sa, sb);
    }
  }

  /** Signed less-or-equal, decided from the sign bits down. */
  method Lte(a: TwosComplementInt, b: TwosComplementInt) returns (r: Node)
    requires Valid(a) && Valid(b) && SameFactory(a, b)
    ensures forall env :: Eval(r, env) <==> EvalInt(a, env) <= EvalInt(b, env)
  {
    var last := MaxWidth(a, b) - 1;
    var cmp := TreeGate(AndOp);
    cmp := Add(cmp, MkImplies(Bit(b, last), Bit(a, last)));
    var prevEquals := MkIff(Bit(a, last), Bit(b, last));
    var i := last - 1;
    LteLoopStart(a, b, last, cmp, prevEquals);
    while i >= 0
      invariant LteLoop(a, b, last, cmp, prevEquals, i)
    {
      var prev := i - 1;
      cmp, prevEquals := LtePosition(a, b, last, cmp, prevEquals, i, prev);
      i := prev;
    }
    r := Accumulate(cmp);
    LteLoopEnd(a, b, last, cmp, prevEquals, i, r);
  }

  /** The state of Lte's loop with position i next: the terms for the
      positions above i are accumulated, and prevEquals says that the bits
      above i agree. */
  ghost predicate LteLoop(a: TwosComplementInt, b: TwosComplementInt, last: nat, cmp: Accumulator, prevEquals: Node, i: int)
  {
    && Valid(a) && Valid(b) && last == MaxWidth(a, b) - 1 && -1 <= i < last
    && cmp == AddAll(TreeGate(AndOp), LteTerms(a, b, last)[..last - i])
    && prevEquals == PrevEquals(a, b, last, i + 1)
  }

  lemma {:induction false} LteLoopStart(a: TwosComplementInt, b: TwosComplementInt, last: nat, cmp: Accumulator, prevEquals: Node)
    requires Valid(a) && Valid(b) && last == MaxWidth(a, b) - 1
    requires cmp == Add(TreeGate(AndOp), MkImplies(Bit(b, last), Bit(a, last)))
    requires prevEquals == MkIff(Bit(a, last), Bit(b, last))
    ensures LteLoop(a, b, last, cmp, prevEquals, last - 1)
  {
    var terms := LteTerms(a, b, last);
    assert terms[..1] == [terms[0]];
    assert terms[..1][..0] == [];
  }

  /** One position of Lte's loop. */
  method LtePosition(a: TwosComplementInt, b: TwosComplementInt, last: nat, cmp: Accumulator, prevEquals: Node, i: int,
                     prev: int) returns (cmp2: Accumulator, prevEquals2: Node)
    requires LteLoop(a, b, last, cmp, prevEquals, i) && i >= 0 && prev == i - 1
    ensures LteLoop(a, b, last, cmp2, prevEquals2, prev)
  {
    var v0, v1 := Bit(a, i), Bit(b, i);
    ghost var terms := LteTerms(a, b, last);
    ghost var k, next := last - i, last - prev;
    assert terms[k] == MkImplies(prevEquals, MkImplies(v0, v1));
    cmp2 := Add(cmp, MkImplies(prevEquals, MkImplies(v0, v1)));
    prevEquals2 := MkAnd(prevEquals, MkIff(v0, v1));
    assert cmp2 == AddAll(TreeGate(AndOp), terms[..next]) by {
      AddAllNext(TreeGate(AndOp), terms, k, next);
    }
    assert prevEquals2 == PrevEquals(a, b, last, prev + 1) by {
      PrevEqualsShift(a, b, last, i, prev);
    }
    assert cmp2 == AddAll(TreeGate(AndOp), LteTerms(a, b, last)[..last - prev]);
  }

  /** PrevEquals one position further down, with the positions named as
      Lte's loop names them. */
  lemma {:induction false} PrevEqualsShift(a: TwosComplementInt, b: TwosComplementInt, last: nat, i: nat, prev: int)
    requires |a.bits| >= 1 && |b.bits| >= 1 && i < last && prev == i - 1
    ensures PrevEquals(a, b, last, prev + 1) == MkAnd(PrevEquals(a, b, last, i + 1), MkIff(Bit(a, i), Bit(b, i)))
  {
    var j, next := prev + 1, i + 1;
    assert j == i;
    PrevEqualsUnfold(a, b, last, j, next);
  }

  lemma {:induction false} LteLoopEnd(a: TwosComplementInt, b: TwosComplementInt, last: nat, cmp: Accumulator, prevEquals: Node,
                                      i: int, r: Node)
    requires LteLoop(a, b, last, cmp, prevEquals, i) && i < 0 && r == Accumulate(cmp)
    ensures forall env :: Eval(r, env) <==> EvalInt(a, env) <= EvalInt(b, env)
  {
    var terms := LteTerms(a, b, last);
    assert last - i == last + 1;
    assert terms[..last + 1] == terms;
    assert r == Reduce(AndOp, terms);
    LteMeaningAll(a, b, r);
  }

  /** Signed less-than: less-or-equal and not equal, the latter as the
      disjunction over all positions of "the bits differ". */
  method Lt(a: TwosComplementInt, b: TwosComplementInt) returns (r: Node)
    requires Valid(a) && Valid(b) && SameFactory(a, b)
    ensures forall env :: Eval(r, env) <==> EvalInt(a, env) < EvalInt(b, env)
  {
    var leq := Lte(a, b);
    var width := MaxWidth(a, b);
    ghost var column := XorColumn(a, b, width);
    var acc := TreeGate(OrOp);
    var i := 0;
    while i < width
      invariant 0 <= i <= width
      invariant acc == AddAll(TreeGate(OrOp), column[..i])
    {
      assert column[..i + 1][..i] == column[..i];
      acc := Add(acc, MkXor(Bit(a, i), Bit(b, i)));
      i := i + 1;
    }
    assert column[..i] == column;
    var differ := Accumulate(acc);
    assert differ == Reduce(OrOp, column);
    r := MkAnd(leq, differ);
    forall env
      ensures Eval(r, env) <==> EvalInt(a, env) < EvalInt(b, env)
    {
      XorColumnMeaning(a, b, env);
    }
  }
}
