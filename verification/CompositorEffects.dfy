/**
 What each compositor call (sdk/wasm_surface.c) does, in terms of its arguments and
 the state before: the sizes, passes, objects and encoders a caller can observe.
 CompositorRuns says what all calls keep; this says what each one is for.
 */
module CompositorEffects {
  import opened SurfaceSizing
  import opened CompositorSpec
  import opened CompositorRuns
  import opened BlitGeometry

  /** No surface but k differs. */
  ghost predicate OnlyAt(a: World, b: World, k: int) {
    && |a.st.pool| == |b.st.pool|
    && (forall j :: 0 <= j < |a.st.pool| && j != k ==> b.st.pool[j] == a.st.pool[j])
  }

  /** So many encoders were opened and submitted, and no texture was made or destroyed. */
  ghost predicate Encoded(a: World, b: World, begun: nat, sent: nat) {
    && b.st.gpu.created == a.st.gpu.created + begun && b.st.gpu.submitted == a.st.gpu.submitted + sent
    && b.st.gpu.textures == a.st.gpu.textures && b.st.gpu.views == a.st.gpu.views
  }

  ghost predicate SameOwners(a: World, b: World) {
    a.owned == b.owned && a.held == b.held && a.scratch == b.scratch && a.busy == b.busy
  }

  // ---- New surfaces ------------------------------------------------------------------

  /** One new surface of the given kind and size, owned by the client, in a slot that
      was free; or nothing at all, exactly when no slot is free. */
  ghost predicate Created(w: World, w': World, k: int, swapchain: bool, size: Size) {
    if k == NONE then w' == w && forall j :: 0 <= j < |w.st.pool| ==> w.st.pool[j].Live? else
      && 0 <= k < |w.st.pool| && w.st.pool[k].Free? && OnlyAt(w, w', k)
      && w'.st.pool[k].Live?
      && w'.st.pool[k].s.size == size && w'.st.pool[k].s.swapchain == swapchain
      && !w'.st.pool[k].s.passActive && !w'.st.pool[k].s.depth
      && w'.owned == w.owned + {k} && k !in w.owned && w'.held == w.held
      && w'.scratch == w.scratch && w'.busy == w.busy
  }

  lemma CreateOwnedEffect(w: World, swapchain: bool, size: Size)
    requires WorldInv(w)
    ensures Created(w, CreateOwned(w, swapchain, size), NewSurface(w.st, swapchain, size).1, swapchain, size)
  {
    hide Inv, NewTargets;
    var k := FirstFree(w.st.pool);
    if k != NONE {
      assert !IsLive(w.st.pool, k);
    }
  }

  /** Creating: exactly the width and height asked for, logical and allocated. */
  lemma CreateEffect(w: World, width: nat, height: nat)
    requires WorldInv(w) && width >= 1 && height >= 1
    ensures var k := NewSurface(w.st, false, Size(width, height, width, height)).1;
            Created(w, Step(w, OpCreate(width, height)), k, false, Size(width, height, width, height))
  {
    hide Inv, Created, CreateOwned;
    CreateOwnedEffect(w, false, Size(width, height, width, height));
  }

  /** Binding the swapchain: the reported size, over-allocated. */
  lemma BindEffect(w: World, width: nat, height: nat)
    requires WorldInv(w)
    ensures var size := Size(width, height, OverallocDim(width), OverallocDim(height));
            Created(w, Step(w, OpBind(width, height)), NewSurface(w.st, true, size).1, true, size)
  {
    hide Inv, Created, CreateOwned;
    CreateOwnedEffect(w, true, Size(width, height, OverallocDim(width), OverallocDim(height)));
  }

  /** Releasing: a pooled surface stays as it is and becomes idle, an overflow surface
      is destroyed, and no other is touched. */
  lemma ReleaseEffect(w: World, k: int)
    requires WorldInv(w) && k in w.held && k != NONE
    ensures var w' := Step(w, OpRelease(k));
            && w'.owned == w.owned && w'.held == w.held - {k} && w'.scratch == w.scratch && |w'.busy| == |w.busy|
            && (forall i :: 0 <= i < |w.busy| && i < |w.scratch| ==> (w'.busy[i] <==> w.busy[i] && w.scratch[i] != k))
            && (if k in w.scratch then w'.st == w.st else w'.st.pool == w.st.pool[k := Free])
  {
    hide Inv;
    if k !in w.scratch {
      DestroySurfaceInv(w.st, k);
    }
  }

  // ---- Calls on one surface -------------------------------------------------------------

  lemma DestroyEffect(w: World, k: int)
    requires WorldInv(w) && k in w.owned && k != NONE
    ensures var w' := Step(w, OpDestroy(k));
            && w'.st.pool == w.st.pool[k := Free] && w'.owned == w.owned - {k} && w'.held == w.held
            && w'.scratch == w.scratch && w'.busy == w.busy
  {
    hide Inv;
    DestroySurfaceInv(w.st, k);
  }

  /** The surface a call may work on: one the client owns or holds. */
  ghost predicate Callable(w: World, k: int) { WorldInv(w) && k != NONE && Usable(w, k) && IsLive(w.st.pool, k) }

  lemma CallableOk(w: World, k: int)
    requires WorldInv(w) && k != NONE && Usable(w, k)
    ensures Callable(w, k)
    ensures GpuOk(w.st.gpu) && SlotOk(w.st.pool[k]) && CompositorSpec.Owned(w.st.gpu, w.st.pool[k])
  {
    OwnedAt(w.st, k);
  }

  function Count(b: bool): nat { if b then 1 else 0 }

  /** A resized surface: nothing for the present size; otherwise the pass ends, the
      logical size is as asked, and the six objects are kept exactly if the size fits
      without being below 30% of the allocation both ways; new ones are over-allocated. */
  ghost predicate ResizedTo(g: Gpu, s: Surf, g': Gpu, s': Surf, width: nat, height: nat) {
    if width == s.size.w && height == s.size.h then g' == g && s' == s else
      && !s'.passActive && !s'.depth && s'.swapchain == s.swapchain
      && g'.created == g.created && g'.submitted == g.submitted + Count(s.passActive)
      && s'.size.w == width && s'.size.h == height
      && (if width <= s.size.aw && height <= s.size.ah
             && (10 * width >= 3 * s.size.aw || 10 * height >= 3 * s.size.ah)
          then s'.size.aw == s.size.aw && s'.size.ah == s.size.ah && s'.t == s.t && g'.textures == g.textures
          else s'.size.aw == OverallocDim(width) && s'.size.ah == OverallocDim(height)
               && Textures(Live(s')) !! g.textures && Views(Live(s')) !! g.views)
  }

  lemma ResizeSlotEffect(g: Gpu, s: Surf, width: nat, height: nat)
    requires GpuOk(g) && SlotOk(Live(s)) && CompositorSpec.Owned(g, Live(s))
    ensures var (g', s') := ResizeSlot(g, s, width, height); ResizedTo(g, s, g', s', width, height)
  {
    hide OverallocDim;
  }

  lemma ResizeEffect(w: World, k: int, width: nat, height: nat)
    requires WorldInv(w) && k != NONE && Usable(w, k)
    ensures var w' := Step(w, OpResize(k, width, height));
            && SameOwners(w, w') && OnlyAt(w, w', k) && IsLive(w.st.pool, k) && IsLive(w'.st.pool, k)
            && ResizedTo(w.st.gpu, w.st.pool[k].s, w'.st.gpu, w'.st.pool[k].s, width, height)
  {
    hide Inv, GpuOk, CompositorSpec.Owned, SlotOk, ResizedTo, ResizeSlot;
    OwnedAt(w.st, k);
    ResizeSlotEffect(w.st.gpu, w.st.pool[k].s, width, height);
  }

  /** Beginning: with a pass open, nothing; otherwise the pass is open in the mode
      asked for, with one encoder, new. */
  lemma BeginEffect(w: World, k: int, depth: bool)
    requires WorldInv(w) && k != NONE && Usable(w, k)
    ensures var w' := Step(w, OpBegin(k, depth));
            && IsLive(w.st.pool, k) && IsLive(w'.st.pool, k) && SameOwners(w, w') && OnlyAt(w, w', k)
            && var s, s' := w.st.pool[k].s, w'.st.pool[k].s;
               if s.passActive then w' == w else
                 && s' == s.(passActive := true, depth := depth, encoder := s'.encoder)
                 && s'.encoder !in w.st.gpu.encoders && w'.st.gpu.encoders == w.st.gpu.encoders + {s'.encoder}
                 && Encoded(w, w', 1, 0)
  {
    hide Inv;
    OwnedAt(w.st, k);
    assert w.st.pool[k := Live(w.st.pool[k].s)] == w.st.pool;
  }

  /** Ending: the surface's own encoder is submitted; without a pass, nothing. */
  lemma EndEffect(w: World, k: int)
    requires WorldInv(w) && k != NONE && Usable(w, k)
    ensures var w' := Step(w, OpEnd(k));
            && IsLive(w.st.pool, k) && IsLive(w'.st.pool, k) && SameOwners(w, w') && OnlyAt(w, w', k)
            && var s, s' := w.st.pool[k].s, w'.st.pool[k].s;
               if !s.passActive then w' == w else
                 && !s'.passActive && !s'.depth && s'.size == s.size && s'.t == s.t && s'.swapchain == s.swapchain
                 && w'.st.gpu.encoders == w.st.gpu.encoders - {s.encoder} && Encoded(w, w', 0, 1)
  {
    hide Inv;
    OwnedAt(w.st, k);
    assert w.st.pool[k := Live(w.st.pool[k].s)] == w.st.pool;
  }

  /** Clearing: one encoder of its own outside a pass, nothing inside one. */
  lemma ClearEffect(w: World, k: int)
    requires WorldInv(w) && k != NONE && Usable(w, k)
    ensures var w' := Step(w, OpClear(k));
            && IsLive(w.st.pool, k) && SameOwners(w, w') && w'.st.pool == w.st.pool
            && var n := Count(!w.st.pool[k].s.passActive);
               Encoded(w, w', n, n) && w'.st.gpu.encoders == w.st.gpu.encoders
  {
    hide Inv;
    OwnedAt(w.st, k);
    assert w.st.pool[k := Live(w.st.pool[k].s)] == w.st.pool;
    assert w.st.gpu.next !in w.st.gpu.encoders;
  }

  /** Presenting: nothing but for the swapchain; there an open pass is submitted, and
      the frame is drawn with one more encoder if the host has a view. */
  lemma PresentEffect(w: World, k: int, hasView: bool)
    requires WorldInv(w) && k != NONE && Usable(w, k)
    ensures var w' := Step(w, OpPresent(k, hasView));
            && IsLive(w.st.pool, k) && IsLive(w'.st.pool, k) && SameOwners(w, w') && OnlyAt(w, w', k)
            && var s, s' := w.st.pool[k].s, w'.st.pool[k].s;
               if !s.swapchain then w' == w else
                 && !s'.passActive && !s'.depth && s'.size == s.size && s'.t == s.t && s'.swapchain
                 && Encoded(w, w', Count(hasView), Count(hasView) + Count(s.passActive))
                 && w'.st.gpu.encoders == w.st.gpu.encoders - (if s.passActive then {s.encoder} else {})
  {
    hide Inv;
    OwnedAt(w.st, k);
    assert w.st.pool[k := Live(w.st.pool[k].s)] == w.st.pool;
    assert w.st.gpu.next !in w.st.gpu.encoders;
  }

  // ---- Blits ------------------------------------------------------------------------------

  /** Some pixel is in the rectangle asked for and in the destination. */
  ghost predicate SomePixel(rect: Option<Rect>, width: nat, height: nat) {
    exists x: int, y: int :: InRect(Target(rect, width, height), x, y) && 0 <= x < width && 0 <= y < height
  }

  lemma SomePixelIff(rect: Option<Rect>, width: nat, height: nat)
    ensures SomePixel(rect, width, height) <==> var d := Clipped(rect, width, height); d.w > 0 && d.h > 0
  {
    var t, d := Target(rect, width, height), Clipped(rect, width, height);
    if SomePixel(rect, width, height) {
      var x: int, y: int :| InRect(t, x, y) && 0 <= x < width && 0 <= y < height;
      ClipAxisIntersects(t.x, t.w, width, x);
      ClipAxisIntersects(t.y, t.h, height, y);
    }
    if d.w > 0 && d.h > 0 {
      ClipAxisIntersects(t.x, t.w, width, d.x);
      ClipAxisIntersects(t.y, t.h, height, d.y);
      assert InRect(t, d.x, d.y);
    }
  }

  /** A blit draws, with one encoder of its own, exactly when both surfaces are there,
      distinct and outside a pass, the mode is one of the 32, and some pixel of the
      rectangle lies in the destination. Otherwise it changes nothing. */
  lemma BlitEffect(w: World, src: int, dst: int, rect: Option<Rect>, mode: int)
    requires WorldInv(w) && Usable(w, src) && Usable(w, dst)
    ensures var w' := Step(w, OpBlit(src, dst, rect, mode));
            && SameOwners(w, w') && w'.st.pool == w.st.pool
            && (src != NONE ==> IsLive(w.st.pool, src)) && (dst != NONE ==> IsLive(w.st.pool, dst))
            && (Encoded(w, w', 1, 1) <==>
                  && src != NONE && dst != NONE && src != dst && 0 <= mode < 32
                  && !w.st.pool[src].s.passActive && !w.st.pool[dst].s.passActive
                  && SomePixel(rect, w.st.pool[dst].s.size.w, w.st.pool[dst].s.size.h))
            && (Encoded(w, w', 1, 1) || w' == w)
  {
    hide Inv, SomePixel, Clipped;
    if dst != NONE {
      SomePixelIff(rect, w.st.pool[dst].s.size.w, w.st.pool[dst].s.size.h);
    }
  }

  // ---- The scratch pool ---------------------------------------------------------------------

  /** Some idle scratch surface is large enough. */
  ghost predicate SomeFit(w: World, width: nat, height: nat) {
    exists i :: 0 <= i < |w.scratch| && 0 <= i < |w.busy| && !w.busy[i] && Large(w.st.pool, w.scratch[i], width, height)
  }

  predicate Large(pool: seq<Slot>, k: int, width: nat, height: nat) {
    IsLive(pool, k) && width <= pool[k].s.size.aw && height <= pool[k].s.size.ah
  }

  /** Acquiring reuses an idle surface that is large enough, without making or
      destroying anything on the GPU, whenever there is one. */
  lemma AcquireReuses(w: World, width: nat, height: nat)
    requires WorldInv(w) && width >= 1 && height >= 1
    ensures var (w', k) := Acquire(w, width, height);
            SomeFit(w, width, height) ==>
              && w'.st.gpu == w.st.gpu && OnlyAt(w, w', k) && k in w.scratch && w'.scratch == w.scratch
              && IsLive(w.st.pool, k) && IsLive(w'.st.pool, k)
              && w'.st.pool[k].s == w.st.pool[k].s.(size := w'.st.pool[k].s.size)
              && w'.st.pool[k].s.size == Size(width, height, w.st.pool[k].s.size.aw, w.st.pool[k].s.size.ah)
  {
    hide Inv;
    var fit := FirstFit(w, width, height);
    if SomeFit(w, width, height) {
      var i :| 0 <= i < |w.scratch| && !w.busy[i] && Large(w.st.pool, w.scratch[i], width, height);
      assert Fits(w.st.pool, w.scratch[i], width, height);
    }
  }

  /** It comes back empty-handed exactly if nothing fits, the pool of 512 is used up,
      and no idle scratch surface can make way. */
  lemma AcquireFailsIff(w: World, width: nat, height: nat)
    requires WorldInv(w) && width >= 1 && height >= 1
    ensures Acquire(w, width, height).1 == NONE <==>
            && !SomeFit(w, width, height)
            && (forall j :: 0 <= j < |w.st.pool| ==> w.st.pool[j].Live?)
            && (FirstIdle(w.busy) == NONE || w.scratch[FirstIdle(w.busy)] == NONE)
  {
    hide Inv, ReplaceScratch;
    var size := Size(width, height, width, height);
    var fit, idle := FirstFit(w, width, height), FirstIdle(w.busy);
    if fit != NONE {
      FitIsPooled(w, fit, width, height);
      assert Large(w.st.pool, w.scratch[fit], width, height);
    } else if idle != NONE {
      assert ScratchOk(w, w.scratch[idle], w.busy[idle]);
      ReplaceFails(w, idle, size);
    }
  }

  /** A size of 0 counts as 1; otherwise a new surface has exactly the size asked
      for, allocated without slack. */
  lemma AcquireNewSize(w: World, width: nat, height: nat)
    requires WorldInv(w)
    ensures var (w', k) := Acquire(w, width, height);
            var (cw, ch) := (if width == 0 then 1 else width, if height == 0 then 1 else height);
            k != NONE ==>
              && IsLive(w'.st.pool, k) && w'.st.pool[k].s.size.w == cw && w'.st.pool[k].s.size.h == ch
              && (!SomeFit(w, cw, ch) ==>
                    && w'.st.pool[k].s.size == Size(cw, ch, cw, ch)
                    && !w'.st.pool[k].s.swapchain && !w'.st.pool[k].s.passActive)
  {
    hide Inv, NewSurface, DestroySurface;
    AcquireInv(w, width, height);
    var size := Size(AtLeastOne(width), AtLeastOne(height), AtLeastOne(width), AtLeastOne(height));
    var fit, idle := FirstFit(w, size.w, size.h), FirstIdle(w.busy);
    if fit != NONE {
      assert Large(w.st.pool, w.scratch[fit], size.w, size.h);
    } else {
      var st := w.st;
      if idle != NONE && w.scratch[idle] != NONE {
        assert ScratchOk(w, w.scratch[idle], w.busy[idle]);
        DestroySurfaceInv(w.st, w.scratch[idle]);
        st := DestroySurface(w.st, w.scratch[idle]);
      }
      NewSurfaceInv(st, false, size);
    }
  }
}

/** The textures behind a surface: made with its allocated size, in every state. */
module SurfaceExtents {
  import opened SurfaceSizing
  import opened CompositorSpec
  import opened CompositorRuns
  import opened BlitGeometry

  /** Sizes are recorded for ids below the next one only. */
  ghost predicate Recorded(g: Gpu) { forall t :: t in g.extent ==> t < g.next }

  /** Later GPU: no record was lost or changed. */
  ghost predicate Later(g: Gpu, g': Gpu) {
    Recorded(g') && forall t :: t in g.extent ==> t in g'.extent && g'.extent[t] == g.extent[t]
  }

  predicate Made(g: Gpu, t: nat, w: nat, h: nat) { t in g.extent && g.extent[t] == (w, h) }

  /** Both colour textures and the depth texture have the allocated size. */
  predicate Sized(g: Gpu, x: Slot) {
    x.Live? ==>
      && Made(g, x.s.t.texA, x.s.size.aw, x.s.size.ah)
      && Made(g, x.s.t.texB, x.s.size.aw, x.s.size.ah)
      && Made(g, x.s.t.depthTex, x.s.size.aw, x.s.size.ah)
  }

  ghost predicate AllSized(st: State) {
    Recorded(st.gpu) && forall k :: 0 <= k < |st.pool| ==> Sized(st.gpu, st.pool[k])
  }

  lemma CreateSized(g: Gpu, swapchain: bool, size: Size)
    requires Recorded(g)
    ensures var (g', x) := CreateSlot(g, swapchain, size); Later(g, g') && Sized(g', x)
  {}

  lemma DestroySized(g: Gpu, s: Surf)
    requires Recorded(g) && GpuOk(g) && SlotOk(Live(s)) && Owned(g, Live(s))
    ensures Later(g, DestroySlot(g, s))
  {}

  lemma OnSurfaceSized(g: Gpu, s: Surf, op: Op)
    requires Recorded(g) && Sized(g, Live(s)) && GpuOk(g) && SlotOk(Live(s)) && Owned(g, Live(s))
    ensures var (g', s') := OnSurface(g, s, op); Later(g, g') && Sized(g', Live(s'))
  {
    hide OverallocDim, GpuOk, SlotOk, ResizeSlot, Sized;
    SizedStays(g, s);
    match op
    case OpResize(_, width, height) => ResizeSized(g, s, width, height);
    case OpPresent(_, _) => SizedStays(EndPass(g, s).0, EndPass(g, s).1);
    case _ =>
  }

  /** Passes and encoders leave textures alone. */
  lemma SizedStays(g: Gpu, s: Surf)
    requires Recorded(g) && Sized(g, Live(s)) && Owned(g, Live(s))
    ensures Later(g, g) && Later(g, OneShot(g)) && Sized(OneShot(g), Live(s))
    ensures var (g', s') := EndPass(g, s); Later(g, g') && Sized(g', Live(s')) && Owned(g', Live(s'))
    ensures forall depth :: var (g', s') := BeginPass(g, s, depth); Later(g, g') && Sized(g', Live(s'))
  {}

  lemma ResizeSized(g: Gpu, s: Surf, width: nat, height: nat)
    requires Recorded(g) && Sized(g, Live(s)) && GpuOk(g) && SlotOk(Live(s)) && Owned(g, Live(s))
    ensures var (g', s') := ResizeSlot(g, s, width, height); Later(g, g') && Sized(g', Live(s'))
  {
    hide OverallocDim, GpuOk, NewTargets;
    EndPassChange(g, s);
    var (g1, s1) := EndPass(g, s);
    if Reallocates(s.size, width, height) {
      var size := Resized(s.size, width, height);
      CreateSized(ReleaseTargets(g1, s1.t), s.swapchain, size);
    }
  }

  /** A change of one slot by a later GPU keeps all sizes right. */
  lemma SlotSized(st: State, k: nat, g: Gpu, x: Slot)
    requires AllSized(st) && k < |st.pool| && Later(st.gpu, g) && Sized(g, x)
    ensures AllSized(State(st.pool[k := x], g))
  {
    forall j | 0 <= j < |st.pool| && j != k ensures Sized(g, st.pool[j]) {
      assert Sized(st.gpu, st.pool[j]);
    }
  }

  lemma NewSurfaceSized(st: State, swapchain: bool, size: Size)
    requires AllSized(st)
    ensures AllSized(NewSurface(st, swapchain, size).0)
  {
    hide AllSized, Later, Sized, CreateSlot;
    var i := FirstFree(st.pool);
    if i != NONE {
      SizedGpu(st);
      CreateSized(st.gpu, swapchain, size);
      var (g, x) := CreateSlot(st.gpu, swapchain, size);
      SlotSized(st, i, g, x);
    }
  }

  lemma SizedGpu(st: State)
    requires AllSized(st)
    ensures Recorded(st.gpu) && forall k :: 0 <= k < |st.pool| ==> Sized(st.gpu, st.pool[k])
  {}

  lemma DestroySurfaceSized(st: State, k: int)
    requires AllSized(st) && Inv(st) && IsLive(st.pool, k)
    ensures AllSized(DestroySurface(st, k))
  {
    hide Inv, AllSized, Later, DestroySlot;
    OwnedAt(st, k);
    SizedGpu(st);
    DestroySized(st.gpu, st.pool[k].s);
    SlotSized(st, k, DestroySlot(st.gpu, st.pool[k].s), Free);
  }

  lemma UpdateSized(w: World, k: int, op: Op)
    requires AllSized(w.st) && Inv(w.st) && (k == NONE || IsLive(w.st.pool, k))
    ensures AllSized(UpdateSurface(w, k, op).st)
  {
    hide Inv, AllSized, Later, Sized, OnSurface;
    if k != NONE {
      OwnedAt(w.st, k);
      SizedGpu(w.st);
      OnSurfaceSized(w.st.gpu, w.st.pool[k].s, op);
      var (g, s) := OnSurface(w.st.gpu, w.st.pool[k].s, op);
      SlotSized(w.st, k, g, Live(s));
    }
  }

  lemma AcquireSized(w: World, width: nat, height: nat)
    requires AllSized(w.st) && WorldInv(w)
    ensures AllSized(Acquire(w, width, height).0.st)
  {
    hide Inv, AllSized, Later, Sized, NewSurface, DestroySurface;
    var size := Size(AtLeastOne(width), AtLeastOne(height), AtLeastOne(width), AtLeastOne(height));
    var fit, idle := FirstFit(w, size.w, size.h), FirstIdle(w.busy);
    if fit != NONE {
      ReuseSized(w, fit, size.w, size.h);
    } else {
      var st := w.st;
      if idle != NONE && w.scratch[idle] != NONE {
        assert ScratchOk(w, w.scratch[idle], w.busy[idle]);
        DestroySurfaceInv(w.st, w.scratch[idle]);
        DestroySurfaceSized(w.st, w.scratch[idle]);
        st := DestroySurface(w.st, w.scratch[idle]);
      }
      NewSurfaceSized(st, false, size);
    }
  }

  lemma ReuseSized(w: World, i: nat, width: nat, height: nat)
    requires AllSized(w.st) && i < |w.scratch| == |w.busy| && IsLive(w.st.pool, w.scratch[i])
    ensures AllSized(ReuseScratch(w, i, width, height).st)
  {
    var k := w.scratch[i];
    assert Sized(w.st.gpu, w.st.pool[k]);
  }

  lemma StepSized(w: World, op: Op)
    requires WorldInv(w) && Legal(w, op) && AllSized(w.st)
    ensures AllSized(Step(w, op).st)
  {
    hide Inv, AllSized, NewSurface, DestroySurface, Acquire, UpdateSurface;
    match op
    case OpCreate(width, height) => NewSurfaceSized(w.st, false, Size(width, height, width, height));
    case OpBind(width, height) =>
      NewSurfaceSized(w.st, true, Size(width, height, OverallocDim(width), OverallocDim(height)));
    case OpDestroy(k) => if k != NONE { DestroySurfaceSized(w.st, k); }
    case OpBlit(_, _, _, _) => OneShotSized(w.st);
    case OpAcquire(width, height) => AcquireSized(w, width, height);
    case OpRelease(k) => if k != NONE && k !in w.scratch { DestroySurfaceSized(w.st, k); }
    case _ => UpdateSized(w, op.k, op);
  }

  lemma OneShotSized(st: State)
    requires AllSized(st)
    ensures AllSized(st.(gpu := OneShot(st.gpu)))
  {
    forall k | 0 <= k < |st.pool| ensures Sized(OneShot(st.gpu), st.pool[k]) {
      assert Sized(st.gpu, st.pool[k]);
    }
  }

  lemma {:induction false} RunSized(w: World, ops: seq<Op>)
    requires WorldInv(w) && LegalRun(w, ops) && AllSized(w.st)
    ensures AllSized(Run(w, ops).st)
    decreases |ops|
  {
    hide WorldInv, Step, Legal, AllSized;
    if ops != [] {
      StepInv(w, ops[0]);
      StepSized(w, ops[0]);
      RunSized(Step(w, ops[0]), ops[1..]);
    }
  }

  /** In every reachable state the three textures of every live surface were made
      with exactly its allocated size. */
  lemma ReachableExtents(ops: seq<Op>, k: int)
    requires WorldInv(Start()) && LegalRun(Start(), ops)
    ensures var w := Run(Start(), ops);
            IsLive(w.st.pool, k) ==>
              var s := w.st.pool[k].s;
              forall t :: t in {s.t.texA, s.t.texB, s.t.depthTex} ==>
                t in w.st.gpu.textures && t in w.st.gpu.extent && w.st.gpu.extent[t] == (s.size.aw, s.size.ah)
  {
    hide WorldInv, LegalRun, Run, Inv;
    RunSized(Start(), ops);
    RunInv(Start(), ops);
    var w := Run(Start(), ops);
    if IsLive(w.st.pool, k) {
      WorldPool(w);
      OwnedAt(w.st, k);
      assert Sized(w.st.gpu, w.st.pool[k]);
    }
  }

  lemma WorldPool(w: World)
    requires WorldInv(w)
    ensures Inv(w.st)
  {}
}
