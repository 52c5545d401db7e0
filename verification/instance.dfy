/** A relational instance: the tuple sets bound to relations and to
    integers, all drawn from one universe. Relations, universes and tuple
    sets are modelled by the attributes the instance inspects. */
module Instances {
  import opened Results

  /** A universe of atoms, by identity. */
  datatype Universe = Universe(id: nat)

  /** A relation, by identity, with its arity. */
  datatype Relation = Relation(id: nat, arity: nat)

  /** A set of tuples: its universe, its arity and its number of tuples.
      Tuple sets are values, so the private copy the instance keeps is the
      tuple set itself. */
  datatype TupleSet = TupleSet(universe: Universe, arity: nat, size: nat)

  datatype Instance = Instance(universe: Universe, tuples: map<Relation, TupleSet>, ints: map<int, TupleSet>)

  /** The class invariant: every bound relation's tuples have the
      relation's arity and come from the instance's universe, and every
      bound integer's tuples are a single unary tuple, also from the
      instance's universe. */
  predicate Valid(inst: Instance)
  {
    && (forall r :: r in inst.tuples ==> inst.tuples[r].arity == r.arity && inst.tuples[r].universe == inst.universe)
    && (forall i :: i in inst.ints ==>
          inst.ints[i].arity == 1 && inst.ints[i].size == 1 && inst.ints[i].universe == inst.universe)
  }

  /** Why an add was refused: the message of the IllegalArgumentException. */
  datatype Refusal = UniverseDiffers | ArityDiffers | ArityNotOne | SizeNotOne

  datatype Outcome = Added(inst: Instance) | Refused(reason: Refusal)

  /** A new instance over a universe, binding nothing; a null universe is
      a NullPointerException. */
  function NewInstance(u: Option<Universe>): (r: Result<Instance>)
    ensures r.Failure? <==> u.None?
    ensures r.Failure? ==> r.error == NullPointer
    ensures r.Success? ==> r.value.universe == u.value
    ensures r.Success? ==> Relations(r.value) == {} && Ints(r.value) == {}
    ensures r.Success? ==> Valid(r.value)
  {
    match u
    case None => Failure(NullPointer)
    case Some(v) => Success(Instance(v, map[], map[]))
  }

  predicate Contains(inst: Instance, r: Relation)
  {
    r in inst.tuples
  }

  predicate ContainsInt(inst: Instance, i: int)
  {
    i in inst.ints
  }

  /** The relations with a binding. */
  function Relations(inst: Instance): (s: set<Relation>)
    ensures forall r :: r in s <==> Contains(inst, r)
  {
    inst.tuples.Keys
  }

  /** The integers with a binding. */
  function Ints(inst: Instance): (s: set<int>)
    ensures forall i :: i in s <==> ContainsInt(inst, i)
  {
    inst.ints.Keys
  }

  /** The tuples bound to r, or null if r has none. */
  function Tuples(inst: Instance, r: Relation): (t: Option<TupleSet>)
    ensures t.Some? <==> Contains(inst, r)
  {
    if r in inst.tuples then Some(inst.tuples[r]) else None
  }

  /** The tuples bound to i, or null if i has none. */
  function TuplesInt(inst: Instance, i: int): (t: Option<TupleSet>)
    ensures t.Some? <==> ContainsInt(inst, i)
  {
    if i in inst.ints then Some(inst.ints[i]) else None
  }

  /** Binds r to s after checking, in this order, that s is drawn from the
      instance's universe and that its arity is r's. The binding replaces
      any earlier one for r; nothing else changes. */
  function Add(inst: Instance, r: Relation, s: TupleSet): (o: Outcome)
    ensures s.universe != inst.universe <==> o == Refused(UniverseDiffers)
    ensures s.universe == inst.universe && r.arity != s.arity <==> o == Refused(ArityDiffers)
    ensures o.Added? <==> s.universe == inst.universe && r.arity == s.arity
    ensures o.Added? ==> o.inst.universe == inst.universe && o.inst.ints == inst.ints
    ensures o.Added? ==> Tuples(o.inst, r) == Some(s)
    ensures o.Added? ==> forall q :: q != r ==> Tuples(o.inst, q) == Tuples(inst, q)
    ensures o.Added? ==> Relations(o.inst) == Relations(inst) + {r}
    ensures o.Added? && Valid(inst) ==> Valid(o.inst)
  {
    if s.universe != inst.universe then Refused(UniverseDiffers)
    else if r.arity != s.arity then Refused(ArityDiffers)
    else Added(inst.(tuples := inst.tuples[r := s]))
  }

  /** Binds i to s after checking, in this order, the universe, that s is
      unary, and that it holds exactly one tuple. The binding replaces any
      earlier one for i; nothing else changes. */
  function AddInt(inst: Instance, i: int, s: TupleSet): (o: Outcome)
    ensures s.universe != inst.universe <==> o == Refused(UniverseDiffers)
    ensures s.universe == inst.universe && s.arity != 1 <==> o == Refused(ArityNotOne)
    ensures s.universe == inst.universe && s.arity == 1 && s.size != 1 <==> o == Refused(SizeNotOne)
    ensures o.Added? <==> s.universe == inst.universe && s.arity == 1 && s.size == 1
    ensures o.Added? ==> o.inst.universe == inst.universe && o.inst.tuples == inst.tuples
    ensures o.Added? ==> TuplesInt(o.inst, i) == Some(s)
    ensures o.Added? ==> forall j :: j != i ==> TuplesInt(o.inst, j) == TuplesInt(inst, j)
    ensures o.Added? ==> Ints(o.inst) == Ints(inst) + {i}
    ensures o.Added? && Valid(inst) ==> Valid(o.inst)
  {
    if s.universe != inst.universe then Refused(UniverseDiffers)
    else if s.arity != 1 then Refused(ArityNotOne)
    else if s.size != 1 then Refused(SizeNotOne)
    else Added(inst.(ints := inst.ints[i := s]))
  }

  /** A copy with the same universe and bindings. Instances are values, so
      adds on the copy cannot reach the original. */
  function Clone(inst: Instance): (c: Instance)
    ensures c.universe == inst.universe
    ensures forall r :: Tuples(c, r) == Tuples(inst, r)
    ensures forall i :: TuplesInt(c, i) == TuplesInt(inst, i)
    ensures Valid(c) <==> Valid(inst)
  {
    Instance(inst.universe, inst.tuples, inst.ints)
  }

  /** The checks of add are exactly the invariant's demands: on a valid
      instance, add refuses a binding precisely when binding it anyway
      would break the invariant. */
  lemma {:induction false} AddGuardsValid(inst: Instance, r: Relation, s: TupleSet)
    requires Valid(inst)
    ensures Add(inst, r, s).Added? <==> Valid(inst.(tuples := inst.tuples[r := s]))
  {
    if !Add(inst, r, s).Added? {
      var bad := inst.(tuples := inst.tuples[r := s]);
      assert r in bad.tuples && bad.tuples[r] == s;
    }
  }

  /** After a successful add, the instance contains exactly the relations
      it contained before and the added one. */
  lemma {:induction false} ContainsAfterAdd(inst: Instance, r: Relation, s: TupleSet, q: Relation)
    ensures Add(inst, r, s).Added? ==> (Contains(Add(inst, r, s).inst, q) <==> q == r || Contains(inst, q))
  {
  }

  /** The same for integers. */
  lemma {:induction false} ContainsIntAfterAddInt(inst: Instance, i: int, s: TupleSet, j: int)
    ensures AddInt(inst, i, s).Added? ==> (ContainsInt(AddInt(inst, i, s).inst, j) <==> j == i || ContainsInt(inst, j))
  {
  }

  /** The same for integers. */
  lemma {:induction false} AddIntGuardsValid(inst: Instance, i: int, s: TupleSet)
    requires Valid(inst)
    ensures AddInt(inst, i, s).Added? <==> Valid(inst.(ints := inst.ints[i := s]))
  {
    if !AddInt(inst, i, s).Added? {
      var bad := inst.(ints := inst.ints[i := s]);
      assert i in bad.ints && bad.ints[i] == s;
    }
  }

  /** Adding twice under the same relation: the second binding wins, as if
      the first had never happened. */
  lemma {:induction false} LastWriteWins(inst: Instance, r: Relation, s1: TupleSet, s2: TupleSet)
    requires Add(inst, r, s1).Added?
    ensures Add(Add(inst, r, s1).inst, r, s2) == Add(inst, r, s2)
  {
    assert inst.tuples[r := s1][r := s2] == inst.tuples[r := s2];
  }

  /** The same for integers. */
  lemma {:induction false} LastWriteWinsInt(inst: Instance, i: int, s1: TupleSet, s2: TupleSet)
    requires AddInt(inst, i, s1).Added?
    ensures AddInt(AddInt(inst, i, s1).inst, i, s2) == AddInt(inst, i, s2)
  {
    assert inst.ints[i := s1][i := s2] == inst.ints[i := s2];
  }

  /** A clone answers every add exactly as the original would, and the
      result differs from the original only at the added relation. */
  lemma {:induction false} CloneAddsAlike(inst: Instance, r: Relation, s: TupleSet)
    ensures Add(Clone(inst), r, s) == Add(inst, r, s)
    ensures Add(Clone(inst), r, s).Added? ==>
      forall q :: q != r ==> Tuples(Add(Clone(inst), r, s).inst, q) == Tuples(inst, q)
  {
  }
}
