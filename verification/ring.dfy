/** A circular register: n physical slots read as a logical bit string that
    starts at the slot holding the least significant bit. Division keeps its
    partial remainder this way, so a left shift only moves the start index,
    and the additions walk the slots modulo n. */
module RingBuffer {
  import opened Circuit
  import opened Adder

  /** The physical slot of logical position k when the string starts at o. */
  function Slot(o: nat, k: nat, n: nat): (p: nat)
    requires o < n && k < n
    ensures p < n
  {
    if o + k < n then o + k else o + k - n
  }

  lemma {:induction false} SlotMod(o: nat, k: nat, n: nat)
    requires o < n && k < n
    ensures Slot(o, k, n) == (o + k) % n
  {
    if o + k >= n {
      assert o + k == 1 * n + (o + k - n);
    }
  }

  /** The logical string held by s when it starts at slot o: position k is
      the slot o + k taken modulo the number of slots. */
  function Log(s: seq<Node>, o: nat): (r: seq<Node>)
    requires o < |s|
    ensures |r| == |s|
    ensures forall k :: 0 <= k < |s| ==> r[k] == s[(o + k) % |s|]
  {
    var r := seq(|s|, k requires 0 <= k < |s| => s[Slot(o, k, |s|)]);
    forall k | 0 <= k < |s|
      ensures r[k] == s[(o + k) % |s|]
    {
      SlotMod(o, k, |s|);
    }
    r
  }

  lemma {:induction false} LogZero(s: seq<Node>)
    requires |s| >= 1
    ensures Log(s, 0) == s
  {
  }

  /** Different logical positions live in different slots. */
  lemma {:induction false} SlotInjective(o: nat, j: nat, k: nat, n: nat)
    requires o < n && j < n && k < n && j != k
    ensures Slot(o, j, n) != Slot(o, k, n)
  {
  }

  /** Writing the slot of logical position k writes position k. */
  lemma {:induction false} LogUpdate(s: seq<Node>, o: nat, k: nat, v: Node)
    requires o < |s| && k < |s|
    ensures Log(s[Slot(o, k, |s|) := v], o) == Log(s, o)[k := v]
  {
    var n := |s|;
    var t := s[Slot(o, k, n) := v];
    forall j | 0 <= j < n
      ensures Log(t, o)[j] == Log(s, o)[k := v][j]
    {
      if j != k {
        SlotInjective(o, j, k, n);
      }
    }
  }

  /** The logical string shifted left by one position, a zero entering at
      the bottom and the top bit dropped. */
  function Shifted(l: seq<Node>): (r: seq<Node>)
    requires |l| >= 1
    ensures |r| == |l|
  {
    [FALSE] + l[..|l| - 1]
  }

  /** Clearing the top slot and making it the new bottom shifts the logical
      string left by one. */
  lemma {:induction false} LogShift(s: seq<Node>, o: nat)
    requires o < |s|
    ensures var top := Slot(o, |s| - 1, |s|);
      Log(s[top := FALSE], top) == Shifted(Log(s, o))
  {
    var n := |s|;
    var top := Slot(o, n - 1, n);
    var t := s[top := FALSE];
    forall k | 0 <= k < n
      ensures Log(t, top)[k] == Shifted(Log(s, o))[k]
    {
      if k > 0 {
        assert Slot(top, k, n) == Slot(o, k - 1, n);
        SlotInjective(o, k - 1, n - 1, n);
      }
    }
  }

  /** Some bit of the logical string is set exactly when some slot is:
      rotation does not change a disjunction. */
  lemma {:induction false} CombineLog(s: seq<Node>, o: nat, env: Assignment)
    requires o < |s|
    ensures Combine(OrOp, Log(s, o), env) == Combine(OrOp, s, env)
  {
    var n := |s|;
    var l := Log(s, o);
    if Combine(OrOp, s, env) {
      var j :| 0 <= j < n && Eval(s[j], env);
      var k := if j >= o then j - o else j + n - o;
      assert l[k] == s[j];
    }
  }

  /** The state of AddInPlace after di positions: slot si holds logical
      position lo + di (while there is one), the first di sum bits are
      spliced in, and carry is the carry out of them. */
  ghost predicate Adding(t: seq<Node>, o: nat, si: nat, before: seq<Node>, lo: nat, row: seq<Node>, cin: Node,
                         di: nat, carry: Node)
  {
    && o < |t| == |before| && lo + |row| <= |t| && di <= |row|
    && (lo + di < |t| ==> si == Slot(o, lo + di, |t|))
    && Log(t, o) == Spliced(before, lo, row, cin, di)
    && carry == Ripple(before[lo..lo + di], row[..di], cin).carry
  }

  /** Adds row, with carry in cin, into the logical string at offset lo, one
      full adder per position walking the slots modulo n; the carry out of
      the last position is dropped. */
  method AddInPlace(s: seq<Node>, o: nat, lo: nat, row: seq<Node>, cin: Node) returns (t: seq<Node>)
    requires o < |s| && lo + |row| <= |s|
    ensures |t| == |s|
    ensures var l := Log(s, o);
      Log(t, o) == l[..lo] + Ripple(l[lo..lo + |row|], row, cin).sum + l[lo + |row|..]
  {
    ghost var before := Log(s, o);
    var carry := cin;
    var di: nat := 0;
    var si: nat := (o + lo) % |s|;
    t := s;
    AddingStart(s, o, si, before, lo, row, cin);
    while di < |row|
      invariant Adding(t, o, si, before, lo, row, cin, di, carry)
      decreases |row| - di
    {
      var next := di + 1;
      t, carry, si := AddPosition(t, o, si, before, lo, row, cin, di, next, carry);
      di := next;
    }
    AddingEnd(t, o, si, before, lo, row, cin, carry);
  }

  lemma {:induction false} AddingStart(s: seq<Node>, o: nat, si: nat, before: seq<Node>, lo: nat, row: seq<Node>, cin: Node)
    requires o < |s| && lo + |row| <= |s| && before == Log(s, o) && si == (o + lo) % |s|
    ensures Adding(s, o, si, before, lo, row, cin, 0, cin)
  {
    if lo < |s| {
      SlotMod(o, lo, |s|);
    }
    SplicedNone(before, lo, row, cin);
  }

  lemma {:induction false} AddingEnd(t: seq<Node>, o: nat, si: nat, before: seq<Node>, lo: nat, row: seq<Node>, cin: Node,
                                     carry: Node)
    requires Adding(t, o, si, before, lo, row, cin, |row|, carry)
    ensures Log(t, o) == before[..lo] + Ripple(before[lo..lo + |row|], row, cin).sum + before[lo + |row|..]
  {
    SplicedAll(before, lo, row, cin);
  }

  /** One full adder of AddInPlace: position lo + di, in slot si. */
  method AddPosition(t: seq<Node>, o: nat, si: nat, ghost before: seq<Node>, lo: nat, row: seq<Node>, cin: Node,
                     di: nat, next: nat, carry: Node) returns (t2: seq<Node>, carry2: Node, si2: nat)
    requires Adding(t, o, si, before, lo, row, cin, di, carry) && di < |row| && next == di + 1
    ensures |t2| == |t|
    ensures Adding(t2, o, si2, before, lo, row, cin, next, carry2)
  {
    var n := |t|;
    SplicedStep(before, lo, row, cin, di, next, Log(t, o), carry);
    var sbit := t[si];
    LogUpdate(t, o, lo + di, MkSum(sbit, row[di], carry));
    t2 := t[si := MkSum(sbit, row[di], carry)];
    carry2 := MkCarry(sbit, row[di], carry);
    SlotNext(o, lo + di, n, si);
    si2 := (si + 1) % n;
  }

  /** Stepping to the next slot modulo n follows the next logical position. */
  lemma {:induction false} SlotNext(o: nat, k: nat, n: nat, si: nat)
    requires o < n && k < n && si == Slot(o, k, n)
    ensures k + 1 < n ==> (si + 1) % n == Slot(o, k + 1, n)
  {
    if k + 1 < n && si + 1 == n {
      assert (si + 1) % n == 0;
    }
  }
}
