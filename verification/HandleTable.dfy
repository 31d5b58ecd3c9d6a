/**
 The handle table (include/handle_table.h): 1-based integer handles for host
 pointers, kept in a slot array with a stack of free slots and one generation
 counter per slot.

 HandleTableSpec describes one call as a function on table values.
 HandleTableRuns proves what holds over every run of calls, and the class
 HandleTable is the in-place implementation, proved against the functions.
 */
module HandleTableSpec {
  import opened Sequences

  type Ptr = nat
  const NULL: Ptr := 0

  const U32: nat := 0x1_0000_0000

  /** A table value. `free` is the free stack from bottom to top. */
  datatype Table = Table(slots: seq<Ptr>, gens: seq<nat>, free: seq<nat>)

  ghost predicate WellFormed(t: Table) {
    && |t.slots| >= 1
    && |t.gens| == |t.slots|
    && (forall i :: 0 <= i < |t.free| ==> t.free[i] < |t.slots|)
  }

  /** The naturals below n. */
  ghost function Below(n: nat): (s: set<nat>)
    ensures |s| == n
    ensures forall i: nat :: i in s <==> i < n
  {
    if n == 0 then {} else Below(n - 1) + {n - 1}
  }

  /** The free stack lists every empty slot exactly once. */
  ghost predicate Inv(t: Table) {
    && WellFormed(t)
    && Distinct(t.free)
    && (forall i :: 0 <= i < |t.slots| ==> (t.slots[i] == NULL <==> i in t.free))
    && (forall i :: 0 <= i < |t.gens| ==> t.gens[i] < U32)
  }

  // ---- One call, as a function --------------------------------------------

  function Nulls(n: nat): seq<Ptr> { seq(n, _ => NULL) }

  /** The free stack that hands out slots base, base + 1, ..., base + n - 1. */
  function Descending(base: nat, n: nat): seq<nat> {
    seq(n, i requires 0 <= i < n => base + n - 1 - i)
  }

  function Init(cap: nat): Table {
    Table(Nulls(cap), seq(cap, _ => 0), Descending(0, cap))
  }

  function Grow(t: Table): Table {
    var cap := |t.slots|;
    Table(t.slots + Nulls(cap), t.gens + seq(cap, _ => 0), Descending(cap, cap))
  }

  function MakeRoom(t: Table): Table {
    if |t.free| == 0 then Grow(t) else t
  }

  function Insert(t: Table, p: Ptr): (Table, nat)
    requires WellFormed(t)
  {
    if p == NULL then (t, 0) else
      var g := MakeRoom(t);
      var idx := g.free[|g.free| - 1];
      (Table(g.slots[idx := p], g.gens, g.free[..|g.free| - 1]), idx + 1)
  }

  function Get(t: Table, h: nat): Ptr {
    if h == 0 || h > |t.slots| then NULL else t.slots[h - 1]
  }

  function Remove(t: Table, h: nat): Table
    requires WellFormed(t)
  {
    if h == 0 || h > |t.slots| then t else
      Table(t.slots[h - 1 := NULL], t.gens[h - 1 := (t.gens[h - 1] + 1) % U32], t.free + [h - 1])
  }

  // ---- The partial map a table stands for ----------------------------------

  ghost function Abs(t: Table): map<nat, Ptr> {
    map h: nat | 1 <= h <= |t.slots| && Get(t, h) != NULL :: Get(t, h)
  }

  ghost function Lookup(m: map<nat, Ptr>, h: nat): Ptr {
    if h in m then m[h] else NULL
  }

  lemma GetIsLookup(t: Table, h: nat)
    ensures Get(t, h) == Lookup(Abs(t), h)
  {}

  lemma InitInv(cap: nat)
    requires cap >= 1
    ensures Inv(Init(cap)) && Abs(Init(cap)) == map[]
  {
    var t := Init(cap);
    forall i | 0 <= i < cap ensures i in t.free {
      assert t.free[cap - 1 - i] == i;
    }
  }

  lemma GrowInv(t: Table)
    requires Inv(t) && |t.free| == 0
    ensures Inv(Grow(t)) && Abs(Grow(t)) == Abs(t)
  {
    var cap, g := |t.slots|, Grow(t);
    forall i | 0 <= i < |g.slots| ensures g.slots[i] == NULL <==> i in g.free {
      if cap <= i {
        assert g.free[2 * cap - 1 - i] == i;
      } else {
        assert t.slots[i] != NULL;
      }
    }
  }

  lemma PopRefines(g: Table, p: Ptr)
    requires Inv(g) && |g.free| > 0 && p != NULL
    ensures var (t', h) := Insert(g, p);
            && Inv(t')
            && h !in Abs(g)
            && Abs(t') == Abs(g)[h := p]
  {}

  /** Insertion picks a non-zero handle outside the domain and adds just that pair. */
  lemma InsertRefines(t: Table, p: Ptr)
    requires Inv(t) && p != NULL
    ensures var (t', h) := Insert(t, p);
            && Inv(t')
            && h != 0
            && h !in Abs(t)
            && Abs(t') == Abs(t)[h := p]
  {
    if |t.free| == 0 {
      GrowInv(t);
    }
    PopRefines(MakeRoom(t), p);
    assert Insert(t, p) == Insert(MakeRoom(t), p);
  }

  lemma RemoveLiveRefines(t: Table, h: nat)
    requires Inv(t)
    requires h == 0 || h > |t.slots| || t.slots[h - 1] != NULL
    ensures Inv(Remove(t, h))
    ensures Abs(Remove(t, h)) == Abs(t) - {h}
  {}

  /** Removal keeps the free-stack invariant exactly when the handle is not a
      dead handle in range: zero, beyond the table, or live. */
  lemma RemoveKeepsInvIff(t: Table, h: nat)
    requires Inv(t)
    ensures Inv(Remove(t, h)) <==> (h == 0 || h > |t.slots| || h in Abs(t))
  {
    if h == 0 || h > |t.slots| || t.slots[h - 1] != NULL {
      RemoveLiveRefines(t, h);
    } else {
      var t' := Remove(t, h);
      assert h - 1 in t.free;
      var i :| 0 <= i < |t.free| && t.free[i] == h - 1;
      assert t'.free[i] == t'.free[|t.free|];
    }
  }

  /** Lookup does not consult generations: the insertion after a removal gets the
      removed handle back, and a stale copy of it reads the new pointer. */
  lemma StaleHandleReused(t: Table, h: nat, p: Ptr)
    requires Inv(t) && h in Abs(t) && p != NULL
    ensures Inv(Remove(t, h)) && Get(Remove(t, h), h) == NULL
    ensures Insert(Remove(t, h), p).1 == h && Get(Insert(Remove(t, h), p).0, h) == p
  {
    RemoveKeepsInvIff(t, h);
  }

  /** What goes wrong otherwise, for every table and live handle: removing the
      handle twice makes the next two insertions share it. */
  lemma DoubleRemoveAliases(t: Table, h: nat, p: Ptr, q: Ptr)
    requires Inv(t) && h in Abs(t) && p != NULL && q != NULL
    ensures WellFormed(Remove(Remove(t, h), h))
    ensures var (t3, h3) := Insert(Remove(Remove(t, h), h), p);
            WellFormed(t3) && h3 == h
            && Insert(t3, q).1 == h && Get(Insert(t3, q).0, h3) == q
  {}
}

module HandleTableRuns {
  import opened Sequences
  import opened HandleTableSpec

  datatype Op = Ins(p: Ptr) | Rem(h: nat)

  function Step(t: Table, op: Op): (Table, nat)
    requires WellFormed(t)
  {
    match op
    case Ins(p) => Insert(t, p)
    case Rem(h) => (Remove(t, h), 0)
  }

  /** What the header asks of a caller: doubling stays within 32 bits, and a
      removed handle is live (zero and out-of-range handles are no-ops). */
  ghost predicate Legal(t: Table, op: Op) {
    match op
    case Ins(p) => p != NULL && |t.free| == 0 ==> 2 * |t.slots| < U32
    case Rem(h) => h == 0 || h > |t.slots| || h in Abs(t)
  }

  lemma StepInv(t: Table, op: Op)
    requires Inv(t) && Legal(t, op)
    ensures Inv(Step(t, op).0)
  {
    match op
    case Ins(p) => if p != NULL { InsertRefines(t, p); }
    case Rem(h) => RemoveKeepsInvIff(t, h);
  }

  /** Every operation of a run is legal in the state it meets. */
  ghost predicate LegalRun(t: Table, ops: seq<Op>)
    requires Inv(t)
    decreases |ops|
  {
    ops == [] || (Legal(t, ops[0]) && (StepInv(t, ops[0]); LegalRun(Step(t, ops[0]).0, ops[1..])))
  }

  /** The final table and the result of each call. */
  ghost function Run(t: Table, ops: seq<Op>): (r: (Table, seq<nat>))
    requires Inv(t) && LegalRun(t, ops)
    ensures Inv(r.0) && |r.1| == |ops|
    decreases |ops|
  {
    if ops == [] then (t, []) else
      StepInv(t, ops[0]);
      var (t1, h) := Step(t, ops[0]);
      var (t2, hs) := Run(t1, ops[1..]);
      (t2, [h] + hs)
  }

  // ---- Refinement of a partial map -----------------------------------------

  /** The same calls on a plain map, given the handles the table chose: fails
      if an insertion reused a handle still in the domain, or returned zero. */
  ghost predicate MapRun(m: map<nat, Ptr>, ops: seq<Op>, hs: seq<nat>, m': map<nat, Ptr>)
    requires |hs| == |ops|
    decreases |ops|
  {
    if ops == [] then m' == m else
      match ops[0]
      case Ins(p) =>
        if p == NULL then hs[0] == 0 && MapRun(m, ops[1..], hs[1..], m')
        else hs[0] != 0 && hs[0] !in m && MapRun(m[hs[0] := p], ops[1..], hs[1..], m')
      case Rem(h) => MapRun(m - {h}, ops[1..], hs[1..], m')
  }

  lemma {:induction false} RunRefinesMap(t: Table, ops: seq<Op>)
    requires Inv(t) && LegalRun(t, ops)
    ensures MapRun(Abs(t), ops, Run(t, ops).1, Abs(Run(t, ops).0))
    ensures forall h: nat :: Get(Run(t, ops).0, h) == Lookup(Abs(Run(t, ops).0), h)
    decreases |ops|
  {
    forall h: nat ensures Get(Run(t, ops).0, h) == Lookup(Abs(Run(t, ops).0), h) {
      GetIsLookup(Run(t, ops).0, h);
    }
    if ops != [] {
      StepInv(t, ops[0]);
      var (t1, h) := Step(t, ops[0]);
      RunRefinesMap(t1, ops[1..]);
      assert Run(t, ops).1[1..] == Run(t1, ops[1..]).1;
      match ops[0]
      case Ins(p) => if p != NULL { InsertRefines(t, p); }
      case Rem(k) => RemoveLiveRefines(t, k);
    }
  }

  /** On the map: a handle outside the domain stays outside until some
      insertion returns it. */
  lemma {:induction false} AbsentUntilReturned(m: map<nat, Ptr>, ops: seq<Op>, hs: seq<nat>, m': map<nat, Ptr>, h: nat)
    requires |hs| == |ops| && MapRun(m, ops, hs, m')
    requires h !in m && h !in hs
    ensures h !in m'
    decreases |ops|
  {
    if ops != [] {
      assert hs[0] in hs;
      match ops[0]
      case Ins(p) =>
        AbsentUntilReturned(if p == NULL then m else m[hs[0] := p], ops[1..], hs[1..], m', h);
      case Rem(k) =>
        AbsentUntilReturned(m - {k}, ops[1..], hs[1..], m', h);
    }
  }

  /** A handle reads NULL in every state of a run. */
  ghost predicate AlwaysNull(t: Table, ops: seq<Op>, h: nat)
    requires Inv(t) && LegalRun(t, ops)
    decreases |ops|
  {
    Get(t, h) == NULL
    && (ops != [] ==> (StepInv(t, ops[0]); AlwaysNull(Step(t, ops[0]).0, ops[1..], h)))
  }

  /** How a call moves the free slots below the top: a push buries them by one,
      a pop raises them by one. */
  ghost function Delta(t: Table, op: Op): int {
    match op
    case Ins(p) => if p == NULL then 0 else -1
    case Rem(h) => if 1 <= h <= |t.slots| then 1 else 0
  }

  /** No prefix of the run has more than `level` insertions of non-NULL pointers
      in excess of its removals of handles in range. */
  ghost predicate NeverBelow(t: Table, ops: seq<Op>, level: int)
    requires Inv(t) && LegalRun(t, ops)
    decreases |ops|
  {
    level >= 0
    && (ops != [] ==> (StepInv(t, ops[0]); NeverBelow(Step(t, ops[0]).0, ops[1..], level + Delta(t, ops[0]))))
  }

  /** Slot h - 1 is free, with `level` free slots above it on the stack. */
  ghost predicate AtLevel(t: Table, h: nat, level: int) {
    h >= 1 && 0 <= level < |t.free| && t.free[|t.free| - 1 - level] == h - 1
  }

  lemma LevelNull(t: Table, h: nat, level: int)
    requires Inv(t) && AtLevel(t, h, level)
    ensures Get(t, h) == NULL
  {
    assert h - 1 in t.free;
  }

  lemma StepLevel(t: Table, op: Op, h: nat, level: int)
    requires Inv(t) && Legal(t, op) && AtLevel(t, h, level)
    ensures WellFormed(t) && Inv(Step(t, op).0) && Get(t, h) == NULL
    ensures if level + Delta(t, op) >= 0 then AtLevel(Step(t, op).0, h, level + Delta(t, op)) && Step(t, op).1 != h
            else Step(t, op).1 == h && Get(Step(t, op).0, h) != NULL
  {
    StepInv(t, op);
    assert h - 1 in t.free;
    if op.Ins? && op.p != NULL && level > 0 {
      assert t.free[|t.free| - 1] != h - 1;
    }
  }

  /** A free slot's handle reads NULL throughout a run exactly as long as the
      calls never raise the slot past the top of the free stack, and exactly as
      long as no insertion returns the handle. */
  lemma {:induction false} NullIffNotRaised(t: Table, ops: seq<Op>, h: nat, level: int)
    requires Inv(t) && LegalRun(t, ops) && AtLevel(t, h, level)
    ensures AlwaysNull(t, ops, h) <==> NeverBelow(t, ops, level)
    ensures AlwaysNull(t, ops, h) <==> h !in Run(t, ops).1
    decreases |ops|
  {
    hide Inv, Get, Step, Delta;
    LevelNull(t, h, level);
    if ops != [] {
      StepLevel(t, ops[0], h, level);
      var (t1, r) := Step(t, ops[0]);
      var next := level + Delta(t, ops[0]);
      assert Run(t, ops).1 == [r] + Run(t1, ops[1..]).1;
      if next >= 0 {
        NullIffNotRaised(t1, ops[1..], h, next);
      } else {
        assert !AlwaysNull(t1, ops[1..], h) && !NeverBelow(t1, ops[1..], next);
      }
    }
  }

  /** Exactly when a removed handle keeps resolving to NULL: in every state after
      the removal, if and only if no prefix of the later calls has more non-NULL
      insertions than removals in range. */
  lemma RemovedReadsNull(t: Table, h: nat, ops: seq<Op>)
    requires Inv(t) && h in Abs(t) && Inv(Remove(t, h)) && LegalRun(Remove(t, h), ops)
    ensures AlwaysNull(Remove(t, h), ops, h) <==> NeverBelow(Remove(t, h), ops, 0)
    ensures AlwaysNull(Remove(t, h), ops, h) <==> h !in Run(Remove(t, h), ops).1
  {
    NullIffNotRaised(Remove(t, h), ops, h, 0);
  }

  /** Any handle that reads NULL goes on doing so while no insertion returns it. */
  lemma NotReturnedReadsNull(t: Table, h: nat, ops: seq<Op>)
    requires Inv(t) && h != 0 && LegalRun(t, ops) && h !in Abs(t)
    requires h !in Run(t, ops).1
    ensures Get(Run(t, ops).0, h) == NULL
  {
    RunRefinesMap(t, ops);
    AbsentUntilReturned(Abs(t), ops, Run(t, ops).1, Abs(Run(t, ops).0), h);
  }

  // ---- Generations -----------------------------------------------------------

  /** The pair (handle, generation of its slot) of each insertion of a run. */
  ghost function Issues(t: Table, ops: seq<Op>): seq<(nat, nat)>
    requires Inv(t) && LegalRun(t, ops)
    decreases |ops|
  {
    if ops == [] then [] else
      StepInv(t, ops[0]);
      var (t1, h) := Step(t, ops[0]);
      (if h == 0 then [] else [(h, t1.gens[h - 1])]) + Issues(t1, ops[1..])
  }

  /** No removal of the run takes a generation counter past 2^32 - 1. */
  ghost predicate NoWrap(t: Table, ops: seq<Op>)
    requires Inv(t) && LegalRun(t, ops)
    decreases |ops|
  {
    ops != [] ==>
      (StepInv(t, ops[0]);
       && (ops[0].Rem? && 1 <= ops[0].h <= |t.slots| ==> t.gens[ops[0].h - 1] + 1 < U32)
       && NoWrap(Step(t, ops[0]).0, ops[1..]))
  }

  /** Read off a table alone: the pair has been given out. */
  ghost predicate Issued(t: Table, e: (nat, nat))
    requires WellFormed(t)
  {
    && 1 <= e.0 <= |t.slots|
    && (e.1 < t.gens[e.0 - 1] || (e.1 == t.gens[e.0 - 1] && t.slots[e.0 - 1] != NULL))
  }

  lemma IssuedByStep(t: Table, op: Op, e: (nat, nat))
    requires Inv(t) && Legal(t, op) && Inv(Step(t, op).0)
    requires op.Rem? && 1 <= op.h <= |t.slots| ==> t.gens[op.h - 1] + 1 < U32
    ensures var (t', h) := Step(t, op);
            && h <= |t'.slots|
            && (h != 0 ==> !Issued(t, (h, t'.gens[h - 1])))
            && (Issued(t', e) <==> Issued(t, e) || (h != 0 && e == (h, t'.gens[h - 1])))
  {}

  /** The history of a run can be read off its final table, pair by pair. */
  lemma {:induction false} IssuesCharacterised(t: Table, ops: seq<Op>, e: (nat, nat))
    requires Inv(t) && LegalRun(t, ops) && NoWrap(t, ops)
    ensures Issued(Run(t, ops).0, e) <==> Issued(t, e) || e in Issues(t, ops)
    ensures e in Issues(t, ops) ==> !Issued(t, e)
    decreases |ops|
  {
    if ops != [] {
      StepInv(t, ops[0]);
      var (t1, h) := Step(t, ops[0]);
      IssuedByStep(t, ops[0], e);
      IssuesCharacterised(t1, ops[1..], e);
      assert e in Issues(t, ops) <==> (h != 0 && e == (h, t1.gens[h - 1])) || e in Issues(t1, ops[1..]);
    }
  }

  /** No two insertions of a run get the same handle and generation. */
  lemma {:induction false} GenerationsFresh(t: Table, ops: seq<Op>)
    requires Inv(t) && LegalRun(t, ops) && NoWrap(t, ops)
    ensures Distinct(Issues(t, ops))
    decreases |ops|
  {
    if ops != [] {
      StepInv(t, ops[0]);
      var (t1, h) := Step(t, ops[0]);
      GenerationsFresh(t1, ops[1..]);
      var rest := Issues(t1, ops[1..]);
      if h == 0 {
        assert Issues(t, ops) == rest;
      } else {
        var e := (h, t1.gens[h - 1]);
        IssuedByStep(t, ops[0], e);
        IssuesCharacterised(t1, ops[1..], e);
        assert Issues(t, ops) == [e] + rest && e !in rest;
      }
    }
  }

  /** The slot is in use or has been: its counter has moved. */
  ghost predicate Started(t: Table, h: nat)
    requires WellFormed(t)
  {
    1 <= h <= |t.slots| && (t.slots[h - 1] != NULL || t.gens[h - 1] != 0)
  }

  lemma StartedByStep(t: Table, op: Op, h: nat)
    requires Inv(t) && Legal(t, op) && Inv(Step(t, op).0)
    ensures var (t', r) := Step(t, op);
            Started(t', h) && !Started(t, h) ==> r == h && h <= |t'.slots| && t'.gens[h - 1] == 0
  {}

  /** A slot that a run has started was issued with generation 0, wraps or not. */
  lemma {:induction false} StartedAtZero(t: Table, ops: seq<Op>, h: nat)
    requires Inv(t) && LegalRun(t, ops)
    ensures Inv(Run(t, ops).0)
    ensures Started(Run(t, ops).0, h) ==> Started(t, h) || (h, 0) in Issues(t, ops)
    decreases |ops|
  {
    if ops != [] {
      StepInv(t, ops[0]);
      var (t1, r) := Step(t, ops[0]);
      StartedByStep(t, ops[0], h);
      StartedAtZero(t1, ops[1..], h);
      var rest := Issues(t1, ops[1..]);
      assert Issues(t, ops) == (if r == 0 then [] else [(r, t1.gens[r - 1])]) + rest;
    }
  }

  /** The wrap condition is needed: whenever a counter wraps, for the first time
      or again, the next insertion repeats a pair of the same run. */
  lemma WrapRepeatsPair(cap: nat, ops: seq<Op>, h: nat, p: Ptr)
    requires cap >= 1 && Inv(Init(cap)) && LegalRun(Init(cap), ops)
    requires p != NULL
    requires var t := Run(Init(cap), ops).0; h in Abs(t) && t.gens[h - 1] + 1 == U32
    ensures var t' := Remove(Run(Init(cap), ops).0, h);
            && Inv(t')
            && Insert(t', p).1 == h
            && (h, t'.gens[h - 1]) in Issues(Init(cap), ops)
  {
    var t := Run(Init(cap), ops).0;
    StartedAtZero(Init(cap), ops, h);
    RemoveKeepsInvIff(t, h);
  }

  // ---- Growth ------------------------------------------------------------------

  function Pow2(k: nat): nat { if k == 0 then 1 else 2 * Pow2(k - 1) }

  ghost function Live(t: Table): nat { |Abs(t)| }

  function Inserts(ops: seq<Op>): nat {
    if ops == [] then 0 else
      (if ops[0].Ins? && ops[0].p != NULL then 1 else 0) + Inserts(ops[1..])
  }

  /** Slots that reallocation copies during a run. */
  ghost function Copied(t: Table, ops: seq<Op>): nat
    requires Inv(t) && LegalRun(t, ops)
    decreases |ops|
  {
    if ops == [] then 0 else
      StepInv(t, ops[0]);
      (if ops[0].Ins? && ops[0].p != NULL && |t.free| == 0 then |t.slots| else 0)
      + Copied(Step(t, ops[0]).0, ops[1..])
  }

  /** The largest number of live handles in any state of a run. */
  ghost function Peak(t: Table, ops: seq<Op>): nat
    requires Inv(t) && LegalRun(t, ops)
    decreases |ops|
  {
    if ops == [] then Live(t) else
      StepInv(t, ops[0]);
      var rest := Peak(Step(t, ops[0]).0, ops[1..]);
      if Live(t) > rest then Live(t) else rest
  }

  lemma FullTableLive(t: Table)
    requires Inv(t) && |t.free| == 0
    ensures Live(t) == |t.slots|
  {
    var n := |t.slots|;
    forall h: nat ensures h in Abs(t) <==> h in Below(n + 1) - {0} {
      FullTableGet(t, h);
    }
    assert Abs(t).Keys == Below(n + 1) - {0};
  }

  lemma FullTableGet(t: Table, h: nat)
    requires Inv(t) && |t.free| == 0
    ensures h in Abs(t) <==> 1 <= h <= |t.slots|
  {
    if 1 <= h <= |t.slots| {
      assert Get(t, h) != NULL;
    }
  }

  lemma StepLive(t: Table, op: Op)
    requires Inv(t) && Legal(t, op)
    ensures Live(Step(t, op).0) <= Live(t) + (if op.Ins? && op.p != NULL then 1 else 0)
    ensures op.Ins? && op.p != NULL ==> Live(Step(t, op).0) == Live(t) + 1
  {
    match op
    case Ins(p) => if p != NULL { InsertRefines(t, p); }
    case Rem(h) =>
      RemoveLiveRefines(t, h);
      assert Abs(Remove(t, h)).Keys == Abs(t).Keys - {h};
  }

  lemma {:induction false} PeakAtLeast(t: Table, ops: seq<Op>)
    requires Inv(t) && LegalRun(t, ops)
    ensures Live(t) <= Peak(t, ops)
  {}

  lemma GrowthStep(t: Table, op: Op)
    requires Inv(t) && Legal(t, op)
    ensures var t1 := Step(t, op).0;
            if op.Ins? && op.p != NULL && |t.free| == 0
            then |t1.slots| == 2 * |t.slots| && Live(t) == |t.slots|
            else |t1.slots| == |t.slots|
  {
    if |t.free| == 0 {
      FullTableLive(t);
    }
  }

  /** The capacity is the initial one, doubled some number of times. */
  lemma {:induction false} CapacityDoubles(t: Table, ops: seq<Op>) returns (k: nat)
    requires Inv(t) && LegalRun(t, ops)
    ensures |Run(t, ops).0.slots| == |t.slots| * Pow2(k)
    decreases |ops|
  {
    if ops == [] {
      k := 0;
    } else {
      StepInv(t, ops[0]);
      var t1 := Step(t, ops[0]).0;
      GrowthStep(t, ops[0]);
      k := CapacityDoubles(t1, ops[1..]);
      assert Run(t, ops).0 == Run(t1, ops[1..]).0;
      if |t1.slots| != |t.slots| {
        DoubleIsPow2(|t.slots|, k);
        k := k + 1;
      }
    }
  }

  lemma DoubleIsPow2(c: nat, k: nat)
    ensures 2 * c * Pow2(k) == c * Pow2(k + 1)
  {}

  /** Growth is driven by demand: a run ends with the capacity it started with,
      or with at most twice what it had live before its largest insertion. */
  lemma {:induction false} CapacityBoundedByPeak(t: Table, ops: seq<Op>)
    requires Inv(t) && LegalRun(t, ops)
    ensures var cap' := |Run(t, ops).0.slots|; cap' <= |t.slots| || cap' <= 2 * (Peak(t, ops) - 1)
    decreases |ops|
  {
    if ops != [] {
      StepInv(t, ops[0]);
      var t1 := Step(t, ops[0]).0;
      StepLive(t, ops[0]);
      GrowthStep(t, ops[0]);
      CapacityBoundedByPeak(t1, ops[1..]);
      PeakAtLeast(t1, ops[1..]);
    }
  }

  /** Reallocation copies exactly the capacity gained, and a table that grew
      has less than two slots per insertion and initially live handle. */
  lemma {:induction false} GrowthCopies(t: Table, ops: seq<Op>)
    requires Inv(t) && LegalRun(t, ops)
    ensures var cap, cap' := |t.slots|, |Run(t, ops).0.slots|;
            && Copied(t, ops) == cap' - cap
            && (cap' > cap ==> cap' < 2 * (Live(t) + Inserts(ops)))
    decreases |ops|
  {
    if ops != [] {
      StepInv(t, ops[0]);
      var t1 := Step(t, ops[0]).0;
      StepLive(t, ops[0]);
      GrowthStep(t, ops[0]);
      GrowthCopies(t1, ops[1..]);
    }
  }

  /** From a new table: all growth of a run costs under two copies per insertion. */
  lemma AmortisedGrowth(cap: nat, ops: seq<Op>)
    requires cap >= 1 && Inv(Init(cap)) && LegalRun(Init(cap), ops)
    ensures Copied(Init(cap), ops) > 0 ==> Copied(Init(cap), ops) < 2 * Inserts(ops)
  {
    InitInv(cap);
    GrowthCopies(Init(cap), ops);
  }

  // ---- Handles in order when nothing is removed ----------------------------------

  /** Slots 0..n are taken, and the free stack hands out n, n + 1, ... */
  ghost predicate Packed(t: Table, n: nat) {
    && n <= |t.slots|
    && t.free == Descending(n, |t.slots| - n)
  }

  lemma {:induction false} HandlesInOrder(t: Table, n: nat, ops: seq<Op>, i: nat)
    requires Inv(t) && Packed(t, n) && LegalRun(t, ops) && i < |ops|
    requires forall j :: 0 <= j < |ops| ==> ops[j].Ins?
    ensures Run(t, ops).1[i] == if ops[i].p == NULL then 0 else n + Inserts(ops[..i]) + 1
    decreases |ops|
  {
    StepInv(t, ops[0]);
    var (t1, h) := Step(t, ops[0]);
    var n1 := if ops[0].p == NULL then n else n + 1;
    assert Packed(t1, n1) by {
      assert t1.free == Descending(n1, |t1.slots| - n1);
    }
    if i > 0 {
      HandlesInOrder(t1, n1, ops[1..], i - 1);
      assert ops[..i][1..] == ops[1..][..i - 1];
    }
  }

  /** In a run without removals, the n-th insertion of a non-NULL pointer returns
      handle n; NULL insertions return 0 and do not count. */
  lemma NthInsertReturnsN(cap: nat, ops: seq<Op>, i: nat)
    requires cap >= 1 && Inv(Init(cap)) && LegalRun(Init(cap), ops) && i < |ops|
    requires forall j :: 0 <= j < |ops| ==> ops[j].Ins?
    ensures Run(Init(cap), ops).1[i] == if ops[i].p == NULL then 0 else Inserts(ops[..i + 1])
  {
    HandlesInOrder(Init(cap), 0, ops, i);
    InsertsSnoc(ops, i);
  }

  lemma {:induction false} InsertsSnoc(ops: seq<Op>, i: nat)
    requires i < |ops|
    ensures Inserts(ops[..i + 1]) == Inserts(ops[..i]) + (if ops[i].Ins? && ops[i].p != NULL then 1 else 0)
    decreases |ops|
  {
    if i > 0 {
      InsertsSnoc(ops[1..], i - 1);
      assert ops[..i + 1][1..] == ops[1..][..i] && ops[..i][1..] == ops[1..][..i - 1];
    }
  }
}

module HandleTableClass {
  import opened Sequences
  import opened HandleTableSpec

  /** realloc to a larger size followed by zeroing the new part. */
  method Realloc(a: array<nat>, newCap: nat) returns (b: array<nat>)
    requires a.Length <= newCap
    ensures fresh(b) && b[..] == a[..] + seq(newCap - a.Length, _ => 0)
  {
    b := new nat[newCap](_ => 0);
    var i := 0;
    while i < a.Length
      invariant 0 <= i <= a.Length
      invariant b[..i] == a[..i]
      invariant forall j :: i <= j < newCap ==> b[j] == 0
    {
      b[i] := a[i];
      i := i + 1;
    }
    assert b[..] == b[..i] + b[i..];
  }

  /** A free stack buffer of `size` whose first n entries count down to base. */
  method NewFreelist(size: nat, base: nat, n: nat) returns (f: array<nat>)
    requires n <= size
    ensures fresh(f) && f.Length == size && f[..n] == Descending(base, n)
  {
    f := new nat[size](_ => 0);
    var i := 0;
    while i < n
      invariant 0 <= i <= n
      invariant forall j :: 0 <= j < i ==> f[j] == base + n - 1 - j
    {
      f[i] := base + n - 1 - i;
      i := i + 1;
    }
  }

  class HandleTable {
    var slots: array<Ptr>
    var generations: array<nat>
    var freelist: array<nat>
    var freeCount: nat
    var capacity: nat

    ghost predicate Shape()
      reads this
    {
      && slots.Length == capacity && generations.Length == capacity && freelist.Length == capacity
      && freeCount <= capacity
      && slots != generations && slots != freelist && generations != freelist
    }

    ghost function View(): Table
      reads this, slots, generations, freelist
      requires Shape()
    {
      Table(slots[..], generations[..], freelist[..freeCount])
    }

    ghost predicate Valid()
      reads this, slots, generations, freelist
    {
      Shape() && Inv(View())
    }

    constructor (initialCap: nat)
      requires 1 <= initialCap < U32
      ensures Valid() && View() == Init(initialCap)
      ensures fresh(slots) && fresh(generations) && fresh(freelist)
    {
      capacity := initialCap;
      slots := new Ptr[initialCap](_ => NULL);
      generations := new nat[initialCap](_ => 0);
      var f := NewFreelist(initialCap, 0, initialCap);
      freelist := f;
      freeCount := initialCap;
      new;
      assert slots[..] == Nulls(initialCap);
      assert generations[..] == seq(initialCap, _ => 0);
      InitInv(initialCap);
    }

    method Get(handle: nat) returns (p: Ptr)
      requires Valid()
      ensures p == Lookup(Abs(View()), handle)
    {
      GetIsLookup(View(), handle);
      if handle == 0 || handle > capacity {
        return NULL;
      }
      p := slots[handle - 1];
    }

    /** Doubles the three buffers; called only with an empty free stack. */
    method GrowBuffers()
      requires Valid() && freeCount == 0
      requires 2 * capacity < U32
      modifies this
      ensures Valid() && View() == Grow(old(View()))
      ensures fresh(slots) && fresh(generations) && fresh(freelist)
    {
      GrowInv(View());
      var oldCap := capacity;
      var newCap := oldCap * 2;
      var ns := Realloc(slots, newCap);
      var ng := Realloc(generations, newCap);
      var nf := NewFreelist(newCap, oldCap, newCap - oldCap);
      slots, generations, freelist := ns, ng, nf;
      freeCount := newCap - oldCap;
      capacity := newCap;
    }

    method Insert(p: Ptr) returns (handle: nat)
      requires Valid()
      requires p != NULL && freeCount == 0 ==> 2 * capacity < U32
      modifies this, slots, generations, freelist
      ensures Valid()
      ensures (View(), handle) == HandleTableSpec.Insert(old(View()), p)
      ensures p == NULL ==> handle == 0
      ensures p != NULL ==> handle != 0 && handle !in old(Abs(View())) && Abs(View()) == old(Abs(View()))[handle := p]
      ensures slots == old(slots) || fresh(slots)
      ensures generations == old(generations) || fresh(generations)
      ensures freelist == old(freelist) || fresh(freelist)
    {
      hide Abs, Distinct;
      if p == NULL {
        return 0;
      }
      InsertRefines(View(), p);
      if freeCount == 0 {
        GrowBuffers();
      }
      assert View() == MakeRoom(old(View()));
      freeCount := freeCount - 1;
      var idx := freelist[freeCount];
      slots[idx] := p;
      handle := idx + 1;
      assert View().slots == MakeRoom(old(View())).slots[idx := p];
      assert View().free == MakeRoom(old(View())).free[..freeCount];
    }

    method Remove(handle: nat)
      requires Valid()
      requires handle == 0 || handle > capacity || handle in Abs(View())
      modifies this, slots, generations, freelist
      ensures Valid()
      ensures View() == HandleTableSpec.Remove(old(View()), handle)
      ensures Abs(View()) == old(Abs(View())) - {handle}
      ensures slots == old(slots) && generations == old(generations) && freelist == old(freelist)
    {
      RemoveLiveRefines(View(), handle);
      if handle == 0 || handle > capacity {
        return;
      }
      var idx := handle - 1;
      FreeStackHasRoom(View(), idx);
      slots[idx] := NULL;
      generations[idx] := (generations[idx] + 1) % U32;
      freelist[freeCount] := idx;
      freeCount := freeCount + 1;
      assert View().slots == old(View()).slots[idx := NULL];
      assert View().gens == old(View()).gens[idx := (old(View()).gens[idx] + 1) % U32];
      assert View().free == old(View()).free + [idx];
    }
  }

  /** Pigeonhole: while some slot is live the free stack is not full. */
  lemma FreeStackHasRoom(t: Table, idx: nat)
    requires Inv(t) && idx < |t.slots| && t.slots[idx] != NULL
    ensures |t.free| < |t.slots|
  {
    var all := Below(|t.slots|);
    var used := set i | 0 <= i < |t.free| :: t.free[i];
    DistinctCard(t.free);
    assert idx in all && idx !in used;
    assert used <= all - {idx};
    SubsetCard(used, all - {idx});
  }

  lemma {:induction false} DistinctCard(s: seq<nat>)
    requires Distinct(s)
    ensures |set i | 0 <= i < |s| :: s[i]| == |s|
  {
    if s != [] {
      var n := |s| - 1;
      DistinctCard(s[..n]);
      assert (set i | 0 <= i < |s| :: s[i]) == (set i | 0 <= i < n :: s[..n][i]) + {s[n]};
    }
  }

  lemma {:induction false} SubsetCard(a: set<nat>, b: set<nat>)
    requires a <= b
    ensures |a| <= |b|
    decreases a
  {
    if a != {} {
      var x :| x in a;
      SubsetCard(a - {x}, b - {x});
    }
  }
}
