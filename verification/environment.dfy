/** The variable-binding environment used while translating quantified
    formulas: a persistent chain of frames, each binding one variable to a
    value, innermost first. The empty environment has no variable, a null
    value, and is its own parent. */
module Environments {
  import opened Results

  /** A quantified variable. Variables are compared by identity, which the
      model represents as a unique id. */
  datatype Variable = Variable(id: nat)

  /** A bound value may itself be null, so every value is an Option. */
  datatype Env<T> = Empty | Frame(up: Env<T>, bound: Variable, val: Option<T>)

  function EmptyEnv<T>(): (e: Env<T>)
    ensures IsEmpty(e)
    ensures forall v :: Resolve(e, v) == None
  {
    Empty
  }

  /** The enclosing environment; the empty one is its own parent. */
  function Parent<T>(e: Env<T>): (p: Env<T>)
    ensures IsEmpty(e) ==> p == e
    ensures !IsEmpty(e) ==> p < e
  {
    match e
    case Empty => e
    case Frame(up, _, _) => up
  }

  /** The innermost frame's variable; null for the empty environment. */
  function VariableOf<T>(e: Env<T>): (r: Option<Variable>)
    ensures r.None? <==> IsEmpty(e)
  {
    match e
    case Empty => None
    case Frame(_, v, _) => Some(v)
  }

  /** The innermost frame's value; null for the empty environment. */
  function ValueOf<T>(e: Env<T>): (r: Option<T>)
    ensures IsEmpty(e) ==> r.None?
  {
    match e
    case Empty => None
    case Frame(_, _, x) => x
  }

  /** The empty environment is the only one binding no variable. */
  predicate IsEmpty<T>(e: Env<T>): (b: bool)
    ensures b <==> Bound(e) == {}
  {
    e.Empty?
  }

  /** Every variable bound by some frame. */
  function Bound<T>(e: Env<T>): set<Variable>
  {
    match e
    case Empty => {}
    case Frame(up, v, _) => Bound(up) + {v}
  }

  /** The reference meaning of an environment: the map from variables to
      values in which inner frames overwrite outer ones. */
  function Bindings<T>(e: Env<T>): (m: map<Variable, Option<T>>)
    ensures m.Keys == Bound(e)
  {
    match e
    case Empty => map[]
    case Frame(up, v, x) => Bindings(up)[v := x]
  }

  /** The value a variable resolves to: its binding, or null if unbound. */
  function Resolve<T>(e: Env<T>, v: Variable): Option<T>
  {
    if v in Bindings(e) then Bindings(e)[v] else None
  }

  /** A new innermost frame over e; e itself is untouched. Looking up the
      new variable gives the new value, shadowing any outer binding, and
      every other variable resolves as in e. */
  function Extend<T>(e: Env<T>, v: Variable, x: Option<T>): (r: Env<T>)
    ensures !IsEmpty(r) && Parent(r) == e
    ensures VariableOf(r) == Some(v) && ValueOf(r) == x
    ensures Bound(r) == Bound(e) + {v}
    ensures Resolve(r, v) == x
    ensures forall w :: w != v ==> Resolve(r, w) == Resolve(e, w)
  {
    Frame(e, v, x)
  }

  /** The walk up the chain: stop at the empty environment or at the first
      frame binding v, and return that frame's value. */
  method Lookup<T>(e: Env<T>, v: Variable) returns (r: Option<T>)
    ensures r == Resolve(e, v)
    ensures v !in Bound(e) ==> r.None?
  {
    var p := e;
    while !IsEmpty(p) && VariableOf(p) != Some(v)
      invariant Resolve(p, v) == Resolve(e, v)
      invariant v in Bound(e) <==> v in Bound(p)
      decreases p
    {
      p := Parent(p);
    }
    r := ValueOf(p);
  }

  /** Binding two different variables in either order gives the same
      lookups. */
  lemma {:induction false} ExtendCommutes<T>(e: Env<T>, v: Variable, x: Option<T>, w: Variable, y: Option<T>)
    requires v != w
    ensures forall u :: Resolve(Extend(Extend(e, v, x), w, y), u) == Resolve(Extend(Extend(e, w, y), v, x), u)
  {
    forall u
      ensures Resolve(Extend(Extend(e, v, x), w, y), u) == Resolve(Extend(Extend(e, w, y), v, x), u)
    {
      if u != v && u != w {
        assert Resolve(Extend(Extend(e, v, x), w, y), u) == Resolve(e, u);
      }
    }
  }
}
