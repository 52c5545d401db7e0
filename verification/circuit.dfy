/** Boolean circuit nodes, their meaning under an assignment of the input
    variables, the gate constructors of the circuit factory and its n-ary
    accumulator. The factory folds a gate whose operands are all constants
    into a constant; structural sharing and every other simplification are
    not modelled, since they do not change what a node means. */
module Circuit {

  /** The set of input variables that are true. */
  type Assignment = set<nat>

  datatype Node =
    | Const(value: bool)
    | Var(id: nat)
    | Not(arg: Node)
    | And(left: Node, right: Node)
    | Or(left: Node, right: Node)
    | Xor(left: Node, right: Node)
    | Iff(left: Node, right: Node)
    | Implies(left: Node, right: Node)
    | Ite(cond: Node, thenBranch: Node, elseBranch: Node)
    | Sum(x: Node, y: Node, cin: Node)
    | Carry(x: Node, y: Node, cin: Node)

  const FALSE: Node := Const(false)
  const TRUE: Node := Const(true)

  /** Three-way exclusive or: the sum output of a full adder. */
  function Xor3(a: bool, b: bool, c: bool): bool
  {
    (a != b) != c
  }

  /** Majority: the carry output of a full adder. */
  function Majority(a: bool, b: bool, c: bool): bool
  {
    (a && b) || (a && c) || (b && c)
  }

  function Eval(n: Node, env: Assignment): bool
  {
    match n
    case Const(b) => b
    case Var(v) => v in env
    case Not(p) => !Eval(p, env)
    case And(p, q) => Eval(p, env) && Eval(q, env)
    case Or(p, q) => Eval(p, env) || Eval(q, env)
    case Xor(p, q) => Eval(p, env) != Eval(q, env)
    case Iff(p, q) => Eval(p, env) == Eval(q, env)
    case Implies(p, q) => Eval(p, env) ==> Eval(q, env)
    case Ite(c, p, q) => if Eval(c, env) then Eval(p, env) else Eval(q, env)
    case Sum(p, q, c) => Xor3(Eval(p, env), Eval(q, env), Eval(c, env))
    case Carry(p, q, c) => Majority(Eval(p, env), Eval(q, env), Eval(c, env))
  }

  function EvalBits(v: seq<Node>, env: Assignment): (r: seq<bool>)
    ensures |r| == |v|
    ensures forall i :: 0 <= i < |v| ==> r[i] == Eval(v[i], env)
  {
    seq(|v|, i requires 0 <= i < |v| => Eval(v[i], env))
  }

  lemma {:induction false} EvalBitsSlice(v: seq<Node>, lo: nat, hi: nat, env: Assignment)
    requires lo <= hi <= |v|
    ensures EvalBits(v[lo..hi], env) == EvalBits(v, env)[lo..hi]
  {
  }

  lemma {:induction false} EvalBitsConcat(v: seq<Node>, w: seq<Node>, env: Assignment)
    ensures EvalBits(v + w, env) == EvalBits(v, env) + EvalBits(w, env)
  {
  }

  // ---------------------------------------------------------------------
  // Gates of the circuit factory

  function MkNot(a: Node): (r: Node)
    ensures forall env :: Eval(r, env) == !Eval(a, env)
    ensures a.Const? ==> r.Const?
  {
    if a.Const? then Const(!a.value) else Not(a)
  }

  function MkAnd(a: Node, b: Node): (r: Node)
    ensures forall env :: Eval(r, env) == (Eval(a, env) && Eval(b, env))
    ensures a.Const? && b.Const? ==> r.Const?
  {
    if a.Const? && b.Const? then Const(a.value && b.value) else And(a, b)
  }

  function MkOr(a: Node, b: Node): (r: Node)
    ensures forall env :: Eval(r, env) == (Eval(a, env) || Eval(b, env))
    ensures a.Const? && b.Const? ==> r.Const?
  {
    if a.Const? && b.Const? then Const(a.value || b.value) else Or(a, b)
  }

  function MkXor(a: Node, b: Node): (r: Node)
    ensures forall env :: Eval(r, env) == (Eval(a, env) != Eval(b, env))
    ensures a.Const? && b.Const? ==> r.Const?
  {
    if a.Const? && b.Const? then Const(a.value != b.value) else Xor(a, b)
  }

  function MkIff(a: Node, b: Node): (r: Node)
    ensures forall env :: Eval(r, env) == (Eval(a, env) == Eval(b, env))
    ensures a.Const? && b.Const? ==> r.Const?
  {
    if a.Const? && b.Const? then Const(a.value == b.value) else Iff(a, b)
  }

  function MkImplies(a: Node, b: Node): (r: Node)
    ensures forall env :: Eval(r, env) == (Eval(a, env) ==> Eval(b, env))
    ensures a.Const? && b.Const? ==> r.Const?
  {
    if a.Const? && b.Const? then Const(a.value ==> b.value) else Implies(a, b)
  }

  function MkIte(c: Node, a: Node, b: Node): (r: Node)
    ensures forall env :: Eval(r, env) == (if Eval(c, env) then Eval(a, env) else Eval(b, env))
    ensures c.Const? && a.Const? && b.Const? ==> r.Const?
  {
    if c.Const? && a.Const? && b.Const? then (if c.value then a else b) else Ite(c, a, b)
  }

  function MkSum(a: Node, b: Node, c: Node): (r: Node)
    ensures forall env :: Eval(r, env) == Xor3(Eval(a, env), Eval(b, env), Eval(c, env))
    ensures a.Const? && b.Const? && c.Const? ==> r.Const?
  {
    if a.Const? && b.Const? && c.Const? then Const(Xor3(a.value, b.value, c.value)) else Sum(a, b, c)
  }

  function MkCarry(a: Node, b: Node, c: Node): (r: Node)
    ensures forall env :: Eval(r, env) == Majority(Eval(a, env), Eval(b, env), Eval(c, env))
    ensures a.Const? && b.Const? && c.Const? ==> r.Const?
  {
    if a.Const? && b.Const? && c.Const? then Const(Majority(a.value, b.value, c.value)) else Carry(a, b, c)
  }

  // ---------------------------------------------------------------------
  // The n-ary accumulator: AND or OR over any number of inputs

  datatype Op = AndOp | OrOp

  /** The absorbing constant: FALSE for AND, TRUE for OR. */
  function ShortCircuit(op: Op): bool
  {
    op == OrOp
  }

  /** Binary application of op to two truth values. */
  function Apply(op: Op, a: bool, b: bool): bool
  {
    if op == AndOp then a && b else a || b
  }

  /** What op over all of nodes means: conjunction or disjunction. */
  predicate Combine(op: Op, nodes: seq<Node>, env: Assignment)
  {
    match op
    case AndOp => forall i :: 0 <= i < |nodes| ==> Eval(nodes[i], env)
    case OrOp => exists i :: 0 <= i < |nodes| && Eval(nodes[i], env)
  }

  /** A gate under construction: the inputs kept so far, and whether an
      absorbing constant has been added (after which inputs are dropped). */
  datatype Accumulator = Accumulator(op: Op, inputs: seq<Node>, shorted: bool)

  function TreeGate(op: Op): (acc: Accumulator)
  {
    Accumulator(op, [], false)
  }

  /** Adds one input: the absorbing constant short-circuits the gate, the
      identity constant is skipped, anything else is kept. */
  function Add(acc: Accumulator, v: Node): (r: Accumulator)
    ensures r.op == acc.op
    ensures r.shorted <==> acc.shorted || v == Const(ShortCircuit(acc.op))
  {
    if acc.shorted then acc
    else if v == Const(ShortCircuit(acc.op)) then Accumulator(acc.op, [], true)
    else if v == Const(!ShortCircuit(acc.op)) then acc
    else acc.(inputs := acc.inputs + [v])
  }

  function AddAll(acc: Accumulator, vs: seq<Node>): (r: Accumulator)
    ensures r.op == acc.op
    decreases |vs|
  {
    if |vs| == 0 then acc else Add(AddAll(acc, vs[..|vs| - 1]), vs[|vs| - 1])
  }

  function Gate(op: Op, a: Node, b: Node): (r: Node)
    ensures forall env :: Eval(r, env) == Apply(op, Eval(a, env), Eval(b, env))
    ensures a.Const? && b.Const? ==> r.Const?
  {
    if op == AndOp then MkAnd(a, b) else MkOr(a, b)
  }

  function Fold(op: Op, inputs: seq<Node>): Node
    decreases |inputs|
  {
    if |inputs| == 0 then Const(!ShortCircuit(op))
    else Gate(op, Fold(op, inputs[..|inputs| - 1]), inputs[|inputs| - 1])
  }

  /** Turns a finished accumulator into one node. */
  function Accumulate(acc: Accumulator): Node
  {
    if acc.shorted then Const(ShortCircuit(acc.op)) else Fold(acc.op, acc.inputs)
  }

  /** The meaning of an accumulator under construction. */
  predicate Denotes(acc: Accumulator, env: Assignment)
  {
    if acc.shorted then ShortCircuit(acc.op) else Combine(acc.op, acc.inputs, env)
  }

  lemma {:induction false} CombineAppend(op: Op, nodes: seq<Node>, v: Node, env: Assignment)
    ensures Combine(op, nodes + [v], env) == Apply(op, Combine(op, nodes, env), Eval(v, env))
  {
    var all := nodes + [v];
    assert all[|nodes|] == v;
    assert forall i :: 0 <= i < |nodes| ==> all[i] == nodes[i];
    if op == OrOp && Combine(op, all, env) {
      var i :| 0 <= i < |all| && Eval(all[i], env);
      if i < |nodes| {
        assert Eval(nodes[i], env);
      }
    }
  }

  lemma {:induction false} FoldMeaning(op: Op, inputs: seq<Node>, env: Assignment)
    ensures Eval(Fold(op, inputs), env) == Combine(op, inputs, env)
    decreases |inputs|
  {
    if |inputs| > 0 {
      var n := |inputs|;
      FoldMeaning(op, inputs[..n - 1], env);
      CombineAppend(op, inputs[..n - 1], inputs[n - 1], env);
      assert inputs[..n - 1] + [inputs[n - 1]] == inputs;
    }
  }

  lemma {:induction false} AddMeaning(acc: Accumulator, v: Node, env: Assignment)
    ensures Denotes(Add(acc, v), env) == Apply(acc.op, Denotes(acc, env), Eval(v, env))
  {
    if !acc.shorted && v != Const(ShortCircuit(acc.op)) && v != Const(!ShortCircuit(acc.op)) {
      CombineAppend(acc.op, acc.inputs, v, env);
    }
  }

  lemma {:induction false} AddAllMeaning(op: Op, vs: seq<Node>, env: Assignment)
    ensures Denotes(AddAll(TreeGate(op), vs), env) == Combine(op, vs, env)
    decreases |vs|
  {
    if |vs| > 0 {
      var n := |vs|;
      AddAllMeaning(op, vs[..n - 1], env);
      AddMeaning(AddAll(TreeGate(op), vs[..n - 1]), vs[n - 1], env);
      CombineAppend(op, vs[..n - 1], vs[n - 1], env);
      assert vs[..n - 1] + [vs[n - 1]] == vs;
    }
  }

  /** Accumulating one more node of vs adds that node. */
  lemma {:induction false} AddAllNext(acc: Accumulator, vs: seq<Node>, k: nat, next: nat)
    requires k < |vs| && next == k + 1
    ensures AddAll(acc, vs[..next]) == Add(AddAll(acc, vs[..k]), vs[k])
  {
    assert vs[..next][..k] == vs[..k];
  }

  /** Once an accumulator has short-circuited, further inputs leave it so. */
  lemma {:induction false} AddAllStaysShorted(op: Op, vs: seq<Node>, k: nat)
    requires k <= |vs| && AddAll(TreeGate(op), vs[..k]).shorted
    ensures AddAll(TreeGate(op), vs).shorted
    decreases |vs| - k
  {
    if k < |vs| {
      assert vs[..k + 1][..k] == vs[..k];
      AddAllStaysShorted(op, vs, k + 1);
    } else {
      assert vs[..k] == vs;
    }
  }

  lemma {:induction false} AccumulateMeaning(acc: Accumulator, env: Assignment)
    ensures Eval(Accumulate(acc), env) == Denotes(acc, env)
  {
    if !acc.shorted {
      FoldMeaning(acc.op, acc.inputs, env);
    }
  }

  /** An accumulator fed all of nodes and finalised: the node means op over
      all of them, whatever was short-circuited or skipped on the way. */
  function Reduce(op: Op, nodes: seq<Node>): (r: Node)
    ensures forall env :: Eval(r, env) == Combine(op, nodes, env)
  {
    var acc := AddAll(TreeGate(op), nodes);
    assert forall env :: Eval(Accumulate(acc), env) == Combine(op, nodes, env) by {
      forall env
        ensures Eval(Accumulate(acc), env) == Combine(op, nodes, env)
      {
        AccumulateMeaning(acc, env);
        AddAllMeaning(op, nodes, env);
      }
    }
    Accumulate(acc)
  }
}
