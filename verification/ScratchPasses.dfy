/**
 Render passes left open in the scratch pool (sdk/wasm_surface.c): releasing a
 scratch surface does not end its pass, and neither does lending it out again.
 When a client can be handed a surface in the middle of a pass, exactly.
 */
module ScratchPasses {
  import opened SurfaceSizing
  import opened CompositorSpec
  import opened CompositorRuns

  predicate InPass(pool: seq<Slot>, k: int) { IsLive(pool, k) && pool[k].s.passActive }

  /** Acquiring hands out a surface whose pass is still open exactly when the
      entry it reuses was released in the middle of a pass. */
  lemma AcquireOpenPassIff(w: World, width: nat, height: nat)
    requires WorldInv(w)
    ensures var (w', k) := Acquire(w, width, height);
            InPass(w'.st.pool, k) <==>
            (var fit := FirstFit(w, AtLeastOne(width), AtLeastOne(height));
             fit != NONE && InPass(w.st.pool, w.scratch[fit]))
  {
    hide Inv, NewSurface, DestroySurface;
    var size := Size(AtLeastOne(width), AtLeastOne(height), AtLeastOne(width), AtLeastOne(height));
    var fit, idle := FirstFit(w, size.w, size.h), FirstIdle(w.busy);
    if fit == NONE {
      var st := w.st;
      if idle != NONE && w.scratch[idle] != NONE {
        assert ScratchOk(w, w.scratch[idle], w.busy[idle]);
        DestroySurfaceInv(w.st, w.scratch[idle]);
        st := DestroySurface(w.st, w.scratch[idle]);
      }
      NewSurfaceInv(st, false, size);
    }
  }

  /** Beginning on such a surface is silently ignored, the depth mode included. */
  lemma BeginOnOpenPass(w: World, k: int, depth: bool)
    requires WorldInv(w) && Usable(w, k) && InPass(w.st.pool, k)
    ensures Step(w, OpBegin(k, depth)) == w
  {
    hide Inv;
    OwnedAt(w.st, k);
    assert w.st.pool[k := Live(w.st.pool[k].s)] == w.st.pool;
  }

  /** No idle scratch surface has an open pass. */
  ghost predicate IdleClosed(w: World)
    requires ScratchInv(w)
  {
    forall i :: 0 <= i < SCRATCH_SIZE && !w.busy[i] && w.scratch[i] != NONE ==> !InPass(w.st.pool, w.scratch[i])
  }

  /** The caller releases a pooled surface in the middle of its pass. */
  predicate ReleasesOpen(w: World, op: Op) {
    op.OpRelease? && op.k in w.scratch && InPass(w.st.pool, op.k)
  }

  /** Every idle scratch surface of w' was idle in w and is as it was. */
  ghost predicate IdleSame(w: World, w': World)
    requires ScratchInv(w) && ScratchInv(w')
  {
    forall i :: 0 <= i < SCRATCH_SIZE && !w'.busy[i] && w'.scratch[i] != NONE ==>
      !w.busy[i] && w.scratch[i] == w'.scratch[i] && SameSlot(w, w', w.scratch[i])
  }

  predicate SameSlot(w: World, w': World, k: int) {
    IsLive(w'.st.pool, k) ==> IsLive(w.st.pool, k) && w'.st.pool[k] == w.st.pool[k]
  }

  lemma IdleKept(w: World, w': World)
    requires ScratchInv(w) && ScratchInv(w') && IdleClosed(w) && IdleSame(w, w')
    ensures IdleClosed(w')
  {
    forall i | 0 <= i < SCRATCH_SIZE && !w'.busy[i] && w'.scratch[i] != NONE
      ensures !InPass(w'.st.pool, w'.scratch[i])
    {
      assert !InPass(w.st.pool, w.scratch[i]);
    }
  }

  /** No call but a release changes an idle surface or makes one idle. */
  lemma OtherCallsKeepIdle(w: World, op: Op)
    requires WorldInv(w) && Legal(w, op) && !op.OpRelease? && !op.OpAcquire? && WorldInv(Step(w, op))
    ensures IdleSame(w, Step(w, op))
  {
    hide Inv, NewSurface, DestroySurface, OnSurface, IdleSame;
    var w' := Step(w, op);
    match op {
      case OpCreate(width, height) =>
        var size := Size(width, height, width, height);
        NewSurfaceInv(w.st, false, size);
        OneSlotKeepsIdle(w, w', NewSurface(w.st, false, size).1);
      case OpBind(width, height) =>
        var size := Size(width, height, OverallocDim(width), OverallocDim(height));
        NewSurfaceInv(w.st, true, size);
        OneSlotKeepsIdle(w, w', NewSurface(w.st, true, size).1);
      case OpDestroy(k) =>
        if k != NONE {
          DestroySurfaceInv(w.st, k);
        }
        OneSlotKeepsIdle(w, w', k);
      case OpBlit(_, _, _, _) => OneSlotKeepsIdle(w, w', NONE);
      case OpResize(k, _, _) => OneSlotKeepsIdle(w, w', k);
      case OpBegin(k, _) => OneSlotKeepsIdle(w, w', k);
      case OpEnd(k) => OneSlotKeepsIdle(w, w', k);
      case OpClear(k) => OneSlotKeepsIdle(w, w', k);
      case OpPresent(k, _) => OneSlotKeepsIdle(w, w', k);
      case _ =>
    }
  }

  /** A change of one slot, not that of an idle surface, changes no idle one. */
  lemma OneSlotKeepsIdle(w: World, w': World, k: int)
    requires ScratchInv(w) && ScratchInv(w') && w'.scratch == w.scratch && w'.busy == w.busy
    requires if k == NONE then w'.st.pool == w.st.pool else
               0 <= k < |w.st.pool| == |w'.st.pool| && w'.st.pool == w.st.pool[k := w'.st.pool[k]]
    requires k == NONE || w.st.pool[k].Free? || k in w.owned || k in w.held
    ensures IdleSame(w, w')
  {
    forall i | 0 <= i < SCRATCH_SIZE && !w'.busy[i] && w'.scratch[i] != NONE ensures SameSlot(w, w', w.scratch[i]) {
      assert ScratchOk(w, w.scratch[i], w.busy[i]);
    }
  }

  lemma AcquireKeepsIdle(w: World, width: nat, height: nat)
    requires WorldInv(w) && WorldInv(Acquire(w, width, height).0)
    ensures IdleSame(w, Acquire(w, width, height).0)
  {
    hide Inv, NewSurface, DestroySurface;
    var size := Size(AtLeastOne(width), AtLeastOne(height), AtLeastOne(width), AtLeastOne(height));
    var fit, idle := FirstFit(w, size.w, size.h), FirstIdle(w.busy);
    var w' := Acquire(w, width, height).0;
    var st := w.st;
    if fit == NONE {
      if idle != NONE && w.scratch[idle] != NONE {
        assert ScratchOk(w, w.scratch[idle], w.busy[idle]);
        DestroySurfaceInv(w.st, w.scratch[idle]);
        st := DestroySurface(w.st, w.scratch[idle]);
      }
      NewSurfaceInv(st, false, size);
    }
    forall i | 0 <= i < SCRATCH_SIZE && !w'.busy[i] && w'.scratch[i] != NONE ensures SameSlot(w, w', w.scratch[i]) {
      assert ScratchOk(w, w.scratch[i], w.busy[i]);
    }
  }

  /** A release makes its own surface idle and changes no other. */
  lemma ReleaseIdleIff(w: World, k: int)
    requires WorldInv(w) && IdleClosed(w) && (k == NONE || k in w.held) && WorldInv(Release(w, k))
    ensures IdleClosed(Release(w, k)) <==> !ReleasesOpen(w, OpRelease(k))
  {
    hide Inv, DestroySurface;
    var w', r := Release(w, k), FindScratch(w.scratch, k);
    if k == NONE { return; }
    if r == NONE {
      DestroySurfaceInv(w.st, k);
      IdleKept(w, w');
    } else {
      assert InPass(w'.st.pool, w'.scratch[r]) <==> ReleasesOpen(w, OpRelease(k));
      forall i | 0 <= i < SCRATCH_SIZE && i != r && !w'.busy[i] && w'.scratch[i] != NONE
        ensures !InPass(w'.st.pool, w'.scratch[i])
      {
        assert !InPass(w.st.pool, w.scratch[i]);
      }
    }
  }

  /** One call leaves the idle surfaces closed exactly when it does not release
      a pooled surface mid-pass. */
  lemma StepClosedIff(w: World, op: Op)
    requires WorldInv(w) && Legal(w, op) && IdleClosed(w) && WorldInv(Step(w, op))
    ensures IdleClosed(Step(w, op)) <==> !ReleasesOpen(w, op)
  {
    hide Inv, Acquire, Release, IdleClosed, IdleSame;
    match op
    case OpRelease(k) => ReleaseIdleIff(w, k);
    case OpAcquire(width, height) =>
      AcquireKeepsIdle(w, width, height);
      IdleKept(w, Step(w, op));
    case _ =>
      OtherCallsKeepIdle(w, op);
      IdleKept(w, Step(w, op));
  }

  /** One of the next n acquisitions of the smallest size gets an open pass. */
  ghost predicate LendsOpen(w: World, n: nat)
    requires WorldInv(w)
    decreases n
  {
    n > 0 &&
    var (w', k) := Acquire(w, 1, 1);
    InPass(w'.st.pool, k) || (AcquireInv(w, 1, 1); LendsOpen(w', n - 1))
  }

  lemma {:induction false} LendsOpenLonger(w: World, n: nat, m: nat)
    requires WorldInv(w) && n <= m && LendsOpen(w, n)
    ensures LendsOpen(w, m)
    decreases n
  {
    hide WorldInv, Acquire, InPass;
    var (w', k) := Acquire(w, 1, 1);
    if !InPass(w'.st.pool, k) {
      AcquireInv(w, 1, 1);
      LendsOpenLonger(w', n - 1, m - 1);
    }
  }

  lemma {:induction false} ClosedNotLent(w: World, n: nat)
    requires WorldInv(w) && IdleClosed(w)
    ensures !LendsOpen(w, n)
    decreases n
  {
    hide Inv, Acquire, Granted;
    if n > 0 {
      AcquireInv(w, 1, 1);
      AcquireKeepsIdle(w, 1, 1);
      AcquireOpenPassIff(w, 1, 1);
      var w', fit := Acquire(w, 1, 1).0, FirstFit(w, 1, 1);
      IdleKept(w, w');
      if fit != NONE {
        assert !InPass(w.st.pool, w.scratch[fit]);
      }
      ClosedNotLent(w', n - 1);
    }
  }

  /** Idle entry i waits with an open pass and nothing below entry m is left to lend. */
  ghost predicate OpenWaits(w: World, i: nat, m: nat)
    requires ScratchInv(w)
  {
    && m <= i < SCRATCH_SIZE && !w.busy[i] && w.scratch[i] != NONE && InPass(w.st.pool, w.scratch[i])
    && forall j :: 0 <= j < m ==> w.busy[j] || w.scratch[j] == NONE
  }

  /** Every idle surface fits the smallest size, so the first one is lent. */
  lemma AcquireSmallest(w: World, i: nat, m: nat)
    requires WorldInv(w) && OpenWaits(w, i, m) && WorldInv(Acquire(w, 1, 1).0)
    ensures var fit := FirstFit(w, 1, 1);
            m <= fit <= i && (fit < i ==> OpenWaits(Acquire(w, 1, 1).0, i, fit + 1))
  {
    hide Inv;
    OwnedAt(w.st, w.scratch[i]);
    assert Fits(w.st.pool, w.scratch[i], 1, 1);
    var fit := FirstFit(w, 1, 1);
    forall j | 0 <= j < fit ensures w.busy[j] || w.scratch[j] == NONE {
      assert ScratchOk(w, w.scratch[j], w.busy[j]);
      if w.scratch[j] != NONE {
        OwnedAt(w.st, w.scratch[j]);
      }
    }
    assert w.scratch[fit] != NONE;
  }

  lemma {:induction false} OpenIsLent(w: World, i: nat, m: nat)
    requires WorldInv(w) && OpenWaits(w, i, m)
    ensures LendsOpen(w, i + 1 - m)
    decreases i - m
  {
    hide Inv, Acquire, Granted;
    AcquireInv(w, 1, 1);
    AcquireSmallest(w, i, m);
    AcquireOpenPassIff(w, 1, 1);
    var w', fit := Acquire(w, 1, 1).0, FirstFit(w, 1, 1);
    if fit < i {
      OpenIsLent(w', i, fit + 1);
      LendsOpenLonger(w', i - fit, i - m);
    }
  }

  /** Open passes waiting in the pool are exactly those that acquiring can get. */
  lemma IdleClosedMeans(w: World)
    requires WorldInv(w)
    ensures IdleClosed(w) <==> !LendsOpen(w, SCRATCH_SIZE)
  {
    hide Inv, LendsOpen;
    if IdleClosed(w) {
      ClosedNotLent(w, SCRATCH_SIZE);
    } else {
      var i :| 0 <= i < SCRATCH_SIZE && !w.busy[i] && w.scratch[i] != NONE && InPass(w.st.pool, w.scratch[i]);
      OpenIsLent(w, i, 0);
      LendsOpenLonger(w, i + 1, SCRATCH_SIZE);
    }
  }

  /** No call of the run releases a pooled surface mid-pass. */
  ghost predicate ReleasesClosed(w: World, ops: seq<Op>)
    requires WorldInv(w) && LegalRun(w, ops)
    decreases |ops|
  {
    ops == [] || (!ReleasesOpen(w, ops[0]) && (StepInv(w, ops[0]); ReleasesClosed(Step(w, ops[0]), ops[1..])))
  }

  ghost predicate NeverLendsOpen(w: World, ops: seq<Op>)
    requires WorldInv(w) && LegalRun(w, ops)
    decreases |ops|
  {
    !LendsOpen(w, SCRATCH_SIZE) && (ops == [] || (StepInv(w, ops[0]); NeverLendsOpen(Step(w, ops[0]), ops[1..])))
  }

  /** Over every run: acquiring can nowhere get a surface with an open pass exactly
      when the caller never releases a pooled one mid-pass. */
  lemma {:induction false} NeverLendsOpenIff(w: World, ops: seq<Op>)
    requires WorldInv(w) && LegalRun(w, ops) && IdleClosed(w)
    ensures NeverLendsOpen(w, ops) <==> ReleasesClosed(w, ops)
    decreases |ops|
  {
    hide WorldInv, Step, Legal, IdleClosed, ReleasesOpen, LendsOpen;
    IdleClosedMeans(w);
    if ops != [] {
      StepInv(w, ops[0]);
      StepClosedIff(w, ops[0]);
      IdleClosedMeans(Step(w, ops[0]));
      if !ReleasesOpen(w, ops[0]) {
        NeverLendsOpenIff(Step(w, ops[0]), ops[1..]);
      }
    }
  }

  lemma {:induction false} ClosedAtEnd(w: World, ops: seq<Op>)
    requires WorldInv(w) && LegalRun(w, ops) && NeverLendsOpen(w, ops)
    ensures WorldInv(Run(w, ops)) && IdleClosed(Run(w, ops))
    decreases |ops|
  {
    hide WorldInv, Step, Legal, IdleClosed, LendsOpen;
    IdleClosedMeans(w);
    if ops != [] {
      StepInv(w, ops[0]);
      ClosedAtEnd(Step(w, ops[0]), ops[1..]);
    }
  }

  /** A client that never releases mid-pass is never lent a surface with an open pass. */
  lemma NoOpenPassLent(ops: seq<Op>, width: nat, height: nat)
    requires WorldInv(Start()) && LegalRun(Start(), ops) && ReleasesClosed(Start(), ops)
    ensures var w := Run(Start(), ops);
            && WorldInv(w)
            && var (w', k) := Acquire(w, width, height);
               k != NONE ==> IsLive(w'.st.pool, k) && !InPass(w'.st.pool, k)
  {
    hide Run, LegalRun, Inv, Acquire, ReleasesClosed;
    NeverLendsOpenIff(Start(), ops);
    ClosedAtEnd(Start(), ops);
    var w := Run(Start(), ops);
    AcquireInv(w, width, height);
    AcquireOpenPassIff(w, width, height);
    var fit := FirstFit(w, AtLeastOne(width), AtLeastOne(height));
    if fit != NONE {
      assert !InPass(w.st.pool, w.scratch[fit]);
    }
  }

  /** Open passes are lent: beginning a pass on any pooled surface one holds and
      releasing it leaves the pass for a later acquisition. */
  lemma ReleaseMidPassLends(w: World, k: int, depth: bool)
    requires WorldInv(w) && k in w.held && k in w.scratch
    ensures LegalRun(w, [OpBegin(k, depth), OpRelease(k)])
    ensures var later := Run(w, [OpBegin(k, depth), OpRelease(k)]); WorldInv(later) && LendsOpen(later, SCRATCH_SIZE)
  {
    hide Inv, Release, LendsOpen, IdleClosed;
    StepInv(w, OpBegin(k, depth));
    BeginOpens(w, k, depth);
    var mid := Step(w, OpBegin(k, depth));
    StepInv(mid, OpRelease(k));
    RunTwo(w, OpBegin(k, depth), OpRelease(k));
    ReleasedOpen(mid, k);
    IdleClosedMeans(Release(mid, k));
  }

  lemma RunTwo(w: World, a: Op, b: Op)
    requires WorldInv(w) && Legal(w, a) && WorldInv(Step(w, a)) && Legal(Step(w, a), b) && WorldInv(Step(Step(w, a), b))
    ensures LegalRun(w, [a, b]) && Run(w, [a, b]) == Step(Step(w, a), b)
  {
    hide WorldInv, Legal, Step;
    RunOne(Step(w, a), b);
    assert [a, b][1..] == [b];
  }

  lemma RunOne(w: World, a: Op)
    requires WorldInv(w) && Legal(w, a) && WorldInv(Step(w, a))
    ensures LegalRun(w, [a]) && Run(w, [a]) == Step(w, a)
  {
    hide WorldInv, Legal, Step;
    assert [a][1..] == [];
  }

  lemma BeginOpens(w: World, k: int, depth: bool)
    requires WorldInv(w) && k in w.held && k in w.scratch
    ensures var mid := Step(w, OpBegin(k, depth));
            k in mid.held && k in mid.scratch && InPass(mid.st.pool, k)
  {
    hide Inv;
    OwnedAt(w.st, k);
  }

  lemma ReleasedOpen(w: World, k: int)
    requires WorldInv(w) && k in w.held && k in w.scratch && InPass(w.st.pool, k) && WorldInv(Release(w, k))
    ensures !IdleClosed(Release(w, k))
  {
    hide Inv;
    var r := FindScratch(w.scratch, k);
    assert r != NONE;
    assert InPass(Release(w, k).st.pool, Release(w, k).scratch[r]);
  }

  /** And from start-up three calls are enough, for a scratch surface of any size. */
  lemma OpenPassFromStart(width: nat, height: nat, depth: bool)
    ensures WorldInv(Start())
    ensures var ops := [OpAcquire(width, height), OpBegin(0, depth), OpRelease(0)];
            && LegalRun(Start(), ops)
            && WorldInv(Run(Start(), ops)) && LendsOpen(Run(Start(), ops), SCRATCH_SIZE)
  {
    hide Inv, Acquire, LendsOpen;
    StartInv();
    AcquireInv(Start(), width, height);
    FirstAcquired(width, height);
    var w := Acquire(Start(), width, height).0;
    ReleaseMidPassLends(w, 0, depth);
    var ops := [OpAcquire(width, height), OpBegin(0, depth), OpRelease(0)];
    assert ops[1..] == [OpBegin(0, depth), OpRelease(0)];
  }

  lemma FirstAcquired(width: nat, height: nat)
    requires WorldInv(Start())
    ensures var w := Acquire(Start(), width, height).0; 0 in w.held && 0 in w.scratch
  {
    hide Inv;
    var w := Start();
    assert FirstFit(w, AtLeastOne(width), AtLeastOne(height)) == NONE;
    assert FirstIdle(w.busy) == 0 by { assert !w.busy[0]; }
    assert FirstFree(w.st.pool) == 0 by { assert w.st.pool[0].Free?; }
    assert Acquire(w, width, height).0.scratch[0] == 0;
  }
}
