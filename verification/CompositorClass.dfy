/**
 The compositor's global state (sdk/wasm_surface.c): the surface pool and the
 scratch pool as arrays updated in place, over the host's GPU calls, proved
 against CompositorSpec and CompositorRuns.
 */
module CompositorClass {
  import opened SurfaceSizing
  import opened CompositorSpec
  import opened CompositorRuns
  import opened CompositorEffects
  import opened BlitGeometry
  import BlitPixels

  /** The host's calls on textures, views and command encoders. */
  class GpuHost {
    var gpu: Gpu

    constructor ()
      ensures gpu == Start().st.gpu
    {
      gpu := Gpu(1, {}, {}, {}, 0, 0, map[]);
    }

    method NewTexture(w: nat, h: nat) returns (t: nat)
      modifies this
      ensures gpu == CreateTexture(old(gpu), w, h) && t == old(gpu.next)
    {
      t := gpu.next;
      gpu := CreateTexture(gpu, w, h);
    }

    method NewView() returns (v: nat)
      modifies this
      ensures gpu == CreateView(old(gpu)) && v == old(gpu.next)
    {
      v := gpu.next;
      gpu := CreateView(gpu);
    }

    method DropTexture(t: nat)
      requires t in gpu.textures
      modifies this
      ensures gpu == DestroyTexture(old(gpu), t)
    {
      gpu := DestroyTexture(gpu, t);
    }

    method DropView(v: nat)
      requires v in gpu.views
      modifies this
      ensures gpu == ReleaseView(old(gpu), v)
    {
      gpu := ReleaseView(gpu, v);
    }

    method NewEncoder() returns (e: nat)
      modifies this
      ensures gpu == CreateEncoder(old(gpu)) && e == old(gpu.next)
    {
      e := gpu.next;
      gpu := CreateEncoder(gpu);
    }

    method FinishAndSubmit(e: nat)
      requires e in gpu.encoders
      modifies this
      ensures gpu == Submit(old(gpu), e)
    {
      gpu := Submit(gpu, e);
    }

    /** Three texture and view pairs: color, second color, depth. */
    method MakeTargets(w: nat, h: nat) returns (t: Targets)
      modifies this
      ensures (gpu, t) == NewTargets(old(gpu), w, h)
    {
      var texA := NewTexture(w, h);
      var viewA := NewView();
      var texB := NewTexture(w, h);
      var viewB := NewView();
      var depthTex := NewTexture(w, h);
      var depthView := NewView();
      t := Targets(texA, viewA, texB, viewB, depthTex, depthView);
    }

    /** Releases the six objects of a surface, each of them live. */
    method DropTargets(t: Targets)
      requires {t.texA, t.texB, t.depthTex} <= gpu.textures && {t.viewA, t.viewB, t.depthView} <= gpu.views
      requires t.texA != t.texB && t.texA != t.depthTex && t.texB != t.depthTex
      requires t.viewA != t.viewB && t.viewA != t.depthView && t.viewB != t.depthView
      modifies this
      ensures gpu == ReleaseTargets(old(gpu), t)
    {
      DropView(t.depthView);
      DropTexture(t.depthTex);
      DropView(t.viewA);
      DropTexture(t.texA);
      DropView(t.viewB);
      DropTexture(t.texB);
    }

    method Flash()
      modifies this
      ensures gpu == OneShot(old(gpu))
    {
      var e := NewEncoder();
      FinishAndSubmit(e);
    }

    /** A pass into a texture of size w x h, restricted to d: the GPU rejects a
        viewport, scissor or copy region that is not inside the texture. */
    method Render(w: nat, h: nat, d: Rect)
      requires RectInside(d, w, h)
      modifies this
      ensures gpu == OneShot(old(gpu))
    {
      Flash();
    }
  }

  /** The pool as slots: a slot counts only while its used flag is set. */
  ghost function Slots(ss: seq<Surf>, used: seq<bool>): seq<Slot>
    requires |ss| == |used|
  {
    seq(|ss|, i requires 0 <= i < |ss| => if used[i] then Live(ss[i]) else Free)
  }

  lemma SlotsTake(ss: seq<Surf>, used: seq<bool>, i: nat, s: Surf)
    requires |ss| == |used| && i < |ss|
    ensures Slots(ss[i := s], used[i := true]) == Slots(ss, used)[i := Live(s)]
  {}

  lemma SlotsFree(ss: seq<Surf>, used: seq<bool>, i: nat)
    requires |ss| == |used| && i < |ss|
    ensures Slots(ss, used[i := false]) == Slots(ss, used)[i := Free]
  {}

  class Compositor {
    const host: GpuHost
    const pool: array<Surf>
    const used: array<bool>
    const scratchPool: array<int>
    const scratchInUse: array<bool>
    /** Which surfaces the client made, and which it has acquired. */
    ghost var owned: set<int>
    ghost var held: set<int>

    ghost predicate Shape() {
      && pool.Length == used.Length == POOL_SIZE
      && scratchPool.Length == scratchInUse.Length == SCRATCH_SIZE
      && used != scratchInUse
    }

    ghost function St(): State
      requires Shape()
      reads host, pool, used
    {
      State(Slots(pool[..], used[..]), host.gpu)
    }

    ghost function W(): World
      requires Shape()
      reads this, host, pool, used, scratchPool, scratchInUse
    {
      World(St(), scratchPool[..], scratchInUse[..], owned, held)
    }

    ghost predicate Valid()
      reads this, host, pool, used, scratchPool, scratchInUse
    {
      Shape() && WorldInv(W())
    }

    constructor ()
      ensures Valid() && W() == Start()
      ensures fresh(host) && fresh(pool) && fresh(used) && fresh(scratchPool) && fresh(scratchInUse)
    {
      host := new GpuHost();
      pool := new Surf[POOL_SIZE](_ => Surf(false, Size(0, 0, 0, 0), false, false, 0, Targets(0, 0, 0, 0, 0, 0)));
      used := new bool[POOL_SIZE](_ => false);
      scratchPool := new int[SCRATCH_SIZE](_ => NONE);
      scratchInUse := new bool[SCRATCH_SIZE](_ => false);
      owned, held := {}, {};
      new;
      StartInv();
      assert St().pool == Start().st.pool;
      assert scratchPool[..] == Start().scratch;
      assert scratchInUse[..] == Start().busy;
    }

    /** The lowest unused slot, or NONE. */
    method FindFree() returns (r: int)
      requires Shape()
      ensures r == FirstFree(St().pool)
    {
      var i := 0;
      while i < used.Length
        invariant 0 <= i <= used.Length
        invariant forall j :: 0 <= j < i ==> used[j]
      {
        if !used[i] {
          assert St().pool[i].Free?;
          assert forall j :: 0 <= j < i ==> St().pool[j].Live?;
          return i;
        }
        i := i + 1;
      }
      assert forall j :: 0 <= j < |St().pool| ==> St().pool[j].Live?;
      return NONE;
    }

    /** Allocates a slot and its GPU objects; NONE when the pool is exhausted. */
    method Make(swapchain: bool, size: Size) returns (k: int)
      requires Shape()
      modifies host, pool, used
      ensures (St(), k) == NewSurface(old(St()), swapchain, size)
    {
      k := FindFree();
      if k == NONE { return; }
      var t := host.MakeTargets(size.aw, size.ah);
      var s := Surf(swapchain, size, false, false, 0, t);
      SlotsTake(pool[..], used[..], k, s);
      used[k] := true;
      pool[k] := s;
      assert used[..] == old(used[..])[k := true] && pool[..] == old(pool[..])[k := s];
    }

    /** Writes one live surface back. */
    method Store(k: nat, s: Surf)
      requires Shape() && IsLive(St().pool, k)
      modifies pool
      ensures St() == old(St()).(pool := old(St()).pool[k := Live(s)])
    {
      SlotsTake(pool[..], used[..], k, s);
      pool[k] := s;
      assert pool[..] == old(pool[..])[k := s] && used[..] == used[..][k := true];
    }

    /** Ends the pass of surface k, if one is open. */
    method FinishPass(k: nat) returns (s: Surf)
      requires Shape() && IsLive(St().pool, k) && Owned(host.gpu, St().pool[k])
      modifies host, pool
      ensures (host.gpu, s) == EndPass(old(host.gpu), old(St().pool[k].s))
      ensures St() == State(old(St()).pool[k := Live(s)], host.gpu)
    {
      s := pool[k];
      assert old(St()).pool == old(St()).pool[k := Live(s)];
      if s.passActive {
        host.FinishAndSubmit(s.encoder);
        s := s.(passActive := false, depth := false, encoder := 0);
        Store(k, s);
      }
    }

    method DestroyAt(k: nat)
      requires Shape() && Inv(St()) && IsLive(St().pool, k)
      modifies host, pool, used
      ensures Inv(St()) && St() == DestroySurface(old(St()), k)
    {
      hide Inv;
      DestroySurfaceInv(St(), k);
      OwnedAt(St(), k);
      EndPassChange(host.gpu, pool[k]);
      var s := FinishPass(k);
      host.DropTargets(s.t);
      SlotsFree(pool[..], used[..], k);
      used[k] := false;
      assert used[..] == old(used[..])[k := false];
      assert St().pool == old(St()).pool[k := Free];
      assert St() == DestroySurface(old(St()), k);
    }

    // ---- Client calls; NONE is the null surface -----------------------------------

    method Create(width: nat, height: nat) returns (k: int)
      requires Valid() && width >= 1 && height >= 1
      modifies this, host, pool, used
      ensures Valid() && W() == Step(old(W()), OpCreate(width, height))
      ensures Created(old(W()), W(), k, false, Size(width, height, width, height))
    {
      hide WorldInv, NewSurface, Created;
      CreateEffect(W(), width, height);
      StepInv(W(), OpCreate(width, height));
      k := Make(false, Size(width, height, width, height));
      owned := owned + Bag(k);
    }

    /** @param width, height what the host reports for the window surface. */
    method BindSwapchain(width: nat, height: nat) returns (k: int)
      requires Valid()
      modifies this, host, pool, used
      ensures Valid() && W() == Step(old(W()), OpBind(width, height))
      ensures Created(old(W()), W(), k, true, Size(width, height, OverallocDim(width), OverallocDim(height)))
    {
      hide WorldInv, NewSurface, Created;
      BindEffect(W(), width, height);
      StepInv(W(), OpBind(width, height));
      k := Make(true, Size(width, height, OverallocDim(width), OverallocDim(height)));
      owned := owned + Bag(k);
    }

    method Destroy(k: int)
      requires Valid() && (k == NONE || k in owned)
      modifies this, host, pool, used
      ensures Valid() && W() == Step(old(W()), OpDestroy(k))
    {
      hide Inv;
      StepInv(W(), OpDestroy(k));
      if k == NONE { return; }
      DestroyAt(k);
      owned := owned - {k};
    }

    method Resize(k: int, width: nat, height: nat)
      requires Valid() && Usable(W(), k)
      modifies host, pool
      ensures Valid() && W() == Step(old(W()), OpResize(k, width, height))
    {
      hide Inv, ResizeSlot;
      StepInv(W(), OpResize(k, width, height));
      if k == NONE { return; }
      OwnedAt(St(), k);
      ResizeAt(k, width, height);
    }

    /** Ends the pass, stores the new size, and reallocates if the policy says so. */
    method ResizeAt(k: nat, width: nat, height: nat)
      requires Shape() && IsLive(St().pool, k)
      requires GpuOk(host.gpu) && SlotOk(St().pool[k]) && Owned(host.gpu, St().pool[k])
      modifies host, pool
      ensures var (g, s) := ResizeSlot(old(host.gpu), old(St().pool[k].s), width, height);
              && St() == State(old(St()).pool[k := Live(s)], g)
              && ResizedTo(old(host.gpu), old(St().pool[k].s), g, s, width, height)
    {
      hide OverallocDim, NewTargets, ReleaseTargets, EndPass, GpuOk, ResizedTo;
      ResizeSlotEffect(host.gpu, pool[k], width, height);
      ghost var pool0 := St().pool;
      var size := pool[k].size;
      if width == size.w && height == size.h {
        assert pool0 == pool0[k := Live(pool[k])];
        return;
      }
      EndPassChange(host.gpu, pool[k]);
      var s := FinishPass(k);
      var needRealloc := false;
      if width > size.aw || height > size.ah {
        needRealloc := true;
      }
      if !needRealloc && 10 * width < 3 * size.aw && 10 * height < 3 * size.ah {
        needRealloc := true;
      }
      assert needRealloc == Reallocates(size, width, height);
      if needRealloc {
        s := Reallocate(s, width, height);
      } else {
        s := s.(size := Size(width, height, size.aw, size.ah));
      }
      Store(k, s);
      assert St().pool == pool0[k := Live(s)];
    }

    /** Replaces the textures of a surface by over-allocated ones for a new size. */
    method Reallocate(s: Surf, width: nat, height: nat) returns (s': Surf)
      requires SlotOk(Live(s)) && Owned(host.gpu, Live(s))
      modifies host
      ensures (host.gpu, s'.t)
              == NewTargets(ReleaseTargets(old(host.gpu), s.t), OverallocDim(width), OverallocDim(height))
      ensures s' == s.(size := Size(width, height, OverallocDim(width), OverallocDim(height)), t := s'.t)
    {
      host.DropTargets(s.t);
      var aw, ah := OverallocDim(width), OverallocDim(height);
      var t := host.MakeTargets(aw, ah);
      s' := s.(size := Size(width, height, aw, ah), t := t);
    }

    method Begin(k: int, depth: bool)
      requires Valid() && Usable(W(), k)
      modifies host, pool
      ensures Valid() && W() == Step(old(W()), OpBegin(k, depth))
    {
      hide Inv;
      StepInv(W(), OpBegin(k, depth));
      if k == NONE { return; }
      assert St().pool == St().pool[k := Live(pool[k])];
      if pool[k].passActive { return; }
      var s := pool[k];
      var e := host.NewEncoder();
      Store(k, s.(passActive := true, depth := depth, encoder := e));
    }

    method End(k: int)
      requires Valid() && Usable(W(), k)
      modifies host, pool
      ensures Valid() && W() == Step(old(W()), OpEnd(k))
    {
      hide Inv;
      StepInv(W(), OpEnd(k));
      if k == NONE { return; }
      OwnedAt(St(), k);
      var _ := FinishPass(k);
    }

    method ClearSurface(k: int)
      requires Valid() && Usable(W(), k)
      modifies host, pool
      ensures Valid() && W() == Step(old(W()), OpClear(k))
    {
      hide Inv;
      StepInv(W(), OpClear(k));
      if k == NONE { return; }
      assert St().pool == St().pool[k := Live(pool[k])];
      if pool[k].passActive { return; }
      host.Flash();
    }

    /** @param hasView whether the host yields a swapchain view this frame. */
    method Present(k: int, hasView: bool)
      requires Valid() && Usable(W(), k)
      modifies host, pool
      ensures Valid() && W() == Step(old(W()), OpPresent(k, hasView))
    {
      hide Inv;
      StepInv(W(), OpPresent(k, hasView));
      if k == NONE { return; }
      OwnedAt(St(), k);
      assert St().pool == St().pool[k := Live(pool[k])];
      if !pool[k].swapchain { return; }
      var _ := FinishPass(k);
      if !hasView { return; }
      host.Flash();
    }

    /** A blit draws once, with an encoder of its own, or is refused: the region
        lies inside the destination's allocation, and the window inside the source
        texture when the source rectangle is absent or inside the source. */
    method Blit(src: int, srcRect: Option<Rect>, dst: int, dstRect: Option<Rect>, mode: int)
        returns (r: Option<DrawCall>)
      requires Valid() && Usable(W(), src) && Usable(W(), dst)
      requires dstRect.Some? ==> InI32(dstRect.value.x + dstRect.value.w) && InI32(dstRect.value.y + dstRect.value.h)
      requires SizeInI32(W(), dst)
      modifies host
      ensures Valid() && W() == Step(old(W()), OpBlit(src, dst, dstRect, mode))
      ensures Drawn(old(W()), src, srcRect, dst, dstRect, mode, r)
    {
      hide Inv, Clipped, RectInside, Corrected, SourceWindow;
      StepInv(W(), OpBlit(src, dst, dstRect, mode));
      if src == NONE || dst == NONE { return None; }
      if pool[src].passActive || pool[dst].passActive || src == dst { return None; }
      if mode < 0 || mode >= BlitPixels.BLEND_COUNT { return None; }
      var s, t := pool[src].size, pool[dst].size;
      var d := GetDstRect(t.w, t.h, dstRect);
      if d.w <= 0 || d.h <= 0 { return None; }
      OwnedAt(St(), src);
      OwnedAt(St(), dst);
      BlitInside(s, srcRect, t, dstRect);
      var win := Corrected(SourceWindow(srcRect, s.w, s.h, s.aw, s.ah), Target(dstRect, t.w, t.h), d);
      host.Render(t.aw, t.ah, d);
      return Some(DrawCall(d, win));
    }

    // ---- Scratch pool ------------------------------------------------------------------

    method FindFit(width: nat, height: nat) returns (r: int)
      requires Shape()
      ensures r == FirstFit(W(), width, height)
    {
      var i := 0;
      while i < SCRATCH_SIZE
        invariant 0 <= i <= SCRATCH_SIZE
        invariant forall j :: 0 <= j < i ==> scratchInUse[j] || !Fits(St().pool, scratchPool[j], width, height)
      {
        if !scratchInUse[i] {
          var k := scratchPool[i];
          if 0 <= k < POOL_SIZE && used[k] && pool[k].size.aw >= width && pool[k].size.ah >= height {
            assert Fits(St().pool, scratchPool[i], width, height);
            return i;
          }
        }
        i := i + 1;
      }
      return NONE;
    }

    method FindIdle() returns (r: int)
      requires Shape()
      ensures r == FirstIdle(scratchInUse[..])
    {
      var i := 0;
      while i < SCRATCH_SIZE
        invariant 0 <= i <= SCRATCH_SIZE
        invariant forall j :: 0 <= j < i ==> scratchInUse[j]
      {
        if !scratchInUse[i] {
          return i;
        }
        i := i + 1;
      }
      return NONE;
    }

    /** Lends out a scratch surface of at least the given size. */
    method AcquireScratch(width: nat, height: nat) returns (k: int)
      requires Valid()
      modifies this, host, pool, used, scratchPool, scratchInUse
      ensures Valid() && (W(), k) == Acquire(old(W()), width, height)
      ensures Granted(old(W()), W(), k, AtLeastOne(width), AtLeastOne(height))
    {
      hide Inv, NewSurface, Granted, DestroySurface, FirstFit, FirstIdle;
      AcquireInv(W(), width, height);
      ghost var w0 := W();
      var w, h := AtLeastOne(width), AtLeastOne(height);
      var i := FindFit(w, h);
      if i != NONE {
        k := scratchPool[i];
        scratchInUse[i] := true;
        var s := pool[k];
        Store(k, s.(size := Size(w, h, s.size.aw, s.size.ah)));
        held := held + {k};
        assert scratchInUse[..] == w0.busy[i := true];
        return;
      }
      i := FindIdle();
      if i != NONE {
        assert ScratchOk(w0, w0.scratch[i], w0.busy[i]);
        if scratchPool[i] != NONE {
          DestroyAt(scratchPool[i]);
        }
        k := Make(false, Size(w, h, w, h));
        scratchPool[i] := k;
        scratchInUse[i] := true;
        held := held + Bag(k);
        assert scratchPool[..] == w0.scratch[i := k] && scratchInUse[..] == w0.busy[i := true];
        return;
      }
      k := Make(false, Size(w, h, w, h));
      held := held + Bag(k);
    }

    method ReleaseScratch(k: int)
      requires Valid() && (k == NONE || k in held)
      modifies this, host, pool, used, scratchInUse
      ensures Valid() && W() == Step(old(W()), OpRelease(k))
    {
      hide Inv, DestroySurface;
      StepInv(W(), OpRelease(k));
      ghost var w0 := W();
      if k == NONE { return; }
      var i := 0;
      while i < SCRATCH_SIZE
        invariant 0 <= i <= SCRATCH_SIZE
        invariant W() == w0
        invariant forall j :: 0 <= j < i ==> scratchPool[j] != k
      {
        if scratchPool[i] == k {
          assert FindScratch(w0.scratch, k) == i;
          scratchInUse[i] := false;
          held := held - {k};
          assert scratchInUse[..] == w0.busy[i := false];
          return;
        }
        i := i + 1;
      }
      assert FindScratch(w0.scratch, k) == NONE;
      DestroyAt(k);
      held := held - {k};
    }
  }
}
