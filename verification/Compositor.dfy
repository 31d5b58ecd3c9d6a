/**
 Surfaces and the GPU objects they own (sdk/wasm_surface.c): a fixed pool of
 surfaces, each with three textures, three views and, during a pass, a command
 encoder; and a small pool of scratch surfaces that are lent out and reused.
 */
module SetFamily {

  ghost function Union(ss: seq<set<nat>>): set<nat> {
    if ss == [] then {} else Union(ss[..|ss| - 1]) + ss[|ss| - 1]
  }

  ghost predicate Disjoint(ss: seq<set<nat>>) {
    forall i, j :: 0 <= i < j < |ss| ==> ss[i] !! ss[j]
  }

  ghost function Total(ss: seq<set<nat>>): nat {
    if ss == [] then 0 else Total(ss[..|ss| - 1]) + |ss[|ss| - 1]|
  }

  lemma {:induction false} MemberOfUnion(ss: seq<set<nat>>, i: nat)
    requires i < |ss|
    ensures ss[i] <= Union(ss)
    decreases |ss|
  {
    if i < |ss| - 1 {
      MemberOfUnion(ss[..|ss| - 1], i);
    }
  }

  lemma {:induction false} ApartFromUnion(ss: seq<set<nat>>, x: set<nat>)
    requires forall i :: 0 <= i < |ss| ==> ss[i] !! x
    ensures Union(ss) !! x
  {
    if ss != [] {
      ApartFromUnion(ss[..|ss| - 1], x);
    }
  }

  lemma {:induction false} UnionUpdate(ss: seq<set<nat>>, i: nat, x: set<nat>)
    requires i < |ss| && Disjoint(ss)
    ensures Union(ss[i := x]) == (Union(ss) - ss[i]) + x
    decreases |ss|
  {
    var n := |ss| - 1;
    if i < n {
      UnionUpdate(ss[..n], i, x);
      assert ss[i := x][..n] == ss[..n][i := x];
      assert ss[i] !! ss[n];
    } else {
      assert ss[i := x][..n] == ss[..n];
      ApartFromUnion(ss[..n], ss[n]);
    }
  }

  /** Replacing one member by a set apart from the others. */
  lemma Replace(ss: seq<set<nat>>, i: nat, x: set<nat>)
    requires i < |ss| && Disjoint(ss) && x !! (Union(ss) - ss[i])
    ensures Disjoint(ss[i := x]) && Union(ss[i := x]) == (Union(ss) - ss[i]) + x
  {
    UnionUpdate(ss, i, x);
    forall j | 0 <= j < |ss| && j != i ensures ss[j] !! x {
      MemberOfUnion(ss, j);
      assert ss[if i < j then i else j] !! ss[if i < j then j else i];
    }
  }

  lemma {:induction false} UnionCard(ss: seq<set<nat>>)
    requires Disjoint(ss)
    ensures |Union(ss)| == Total(ss)
  {
    if ss != [] {
      var n := |ss| - 1;
      UnionCard(ss[..n]);
      ApartFromUnion(ss[..n], ss[n]);
    }
  }
}

module CompositorSpec {
  import opened SetFamily
  import opened SurfaceSizing

  const POOL_SIZE: nat := 512

  // ---- GPU objects --------------------------------------------------------------

  /** Live textures and views, open encoders, how many encoders were created and
      command buffers submitted, and the size every texture was made with. Object
      ids are never reissued. */
  datatype Gpu = Gpu(next: nat, textures: set<nat>, views: set<nat>, encoders: set<nat>,
                     created: nat, submitted: nat, extent: map<nat, (nat, nat)>)

  ghost predicate Bounded(ids: set<nat>, n: nat) { forall t :: t in ids ==> t < n }

  ghost predicate GpuOk(g: Gpu) {
    && Bounded(g.textures, g.next) && Bounded(g.views, g.next) && Bounded(g.encoders, g.next)
    && g.created == g.submitted + |g.encoders|
  }

  function CreateTexture(g: Gpu, w: nat, h: nat): Gpu {
    g.(next := g.next + 1, textures := g.textures + {g.next}, extent := g.extent[g.next := (w, h)])
  }

  function CreateView(g: Gpu): Gpu { g.(next := g.next + 1, views := g.views + {g.next}) }

  /** Only live objects can be released, so none is released twice. */
  function DestroyTexture(g: Gpu, t: nat): Gpu
    requires t in g.textures
  {
    g.(textures := g.textures - {t})
  }

  function ReleaseView(g: Gpu, v: nat): Gpu
    requires v in g.views
  {
    g.(views := g.views - {v})
  }

  function CreateEncoder(g: Gpu): Gpu {
    g.(next := g.next + 1, encoders := g.encoders + {g.next}, created := g.created + 1)
  }

  function Submit(g: Gpu, e: nat): Gpu
    requires e in g.encoders
  {
    g.(encoders := g.encoders - {e}, submitted := g.submitted + 1)
  }

  // ---- Surfaces -------------------------------------------------------------------

  datatype Targets = Targets(texA: nat, viewA: nat, texB: nat, viewB: nat, depthTex: nat, depthView: nat)

  datatype Surf = Surf(swapchain: bool, size: Size, passActive: bool, depth: bool, encoder: nat, t: Targets)

  datatype Slot = Free | Live(s: Surf)

  function Textures(x: Slot): set<nat> {
    match x case Free => {} case Live(s) => {s.t.texA, s.t.texB, s.t.depthTex}
  }

  function Views(x: Slot): set<nat> {
    match x case Free => {} case Live(s) => {s.t.viewA, s.t.viewB, s.t.depthView}
  }

  function Encoders(x: Slot): set<nat> {
    match x case Free => {} case Live(s) => if s.passActive then {s.encoder} else {}
  }

  ghost predicate SlotOk(x: Slot) {
    x.Live? ==>
      && SizeOk(x.s.size)
      && (x.s.depth ==> x.s.passActive)
      && x.s.t.texA != x.s.t.texB && x.s.t.texA != x.s.t.depthTex && x.s.t.texB != x.s.t.depthTex
      && x.s.t.viewA != x.s.t.viewB && x.s.t.viewA != x.s.t.depthView && x.s.t.viewB != x.s.t.depthView
  }

  ghost function TextureSets(pool: seq<Slot>): seq<set<nat>> {
    seq(|pool|, i requires 0 <= i < |pool| => Textures(pool[i]))
  }

  ghost function ViewSets(pool: seq<Slot>): seq<set<nat>> {
    seq(|pool|, i requires 0 <= i < |pool| => Views(pool[i]))
  }

  ghost function EncoderSets(pool: seq<Slot>): seq<set<nat>> {
    seq(|pool|, i requires 0 <= i < |pool| => Encoders(pool[i]))
  }

  datatype State = State(pool: seq<Slot>, gpu: Gpu)

  /** Every live GPU object belongs to exactly one surface, and conversely. */
  ghost predicate Inv(st: State) {
    && |st.pool| == POOL_SIZE
    && GpuOk(st.gpu)
    && (forall i :: 0 <= i < |st.pool| ==> SlotOk(st.pool[i]))
    && Disjoint(TextureSets(st.pool)) && st.gpu.textures == Union(TextureSets(st.pool))
    && Disjoint(ViewSets(st.pool)) && st.gpu.views == Union(ViewSets(st.pool))
    && Disjoint(EncoderSets(st.pool)) && st.gpu.encoders == Union(EncoderSets(st.pool))
  }

  // ---- Conservation ------------------------------------------------------------------

  function LiveCount(pool: seq<Slot>): nat {
    if pool == [] then 0 else LiveCount(pool[..|pool| - 1]) + (if pool[|pool| - 1].Live? then 1 else 0)
  }

  function OpenPasses(pool: seq<Slot>): nat {
    if pool == [] then 0 else
      OpenPasses(pool[..|pool| - 1]) + (if pool[|pool| - 1].Live? && pool[|pool| - 1].s.passActive then 1 else 0)
  }

  lemma SetSizes(x: Slot)
    requires SlotOk(x)
    ensures |Textures(x)| == |Views(x)| == (if x.Live? then 3 else 0)
    ensures |Encoders(x)| == (if x.Live? && x.s.passActive then 1 else 0)
  {}

  lemma {:induction false} CountSets(pool: seq<Slot>)
    requires forall i :: 0 <= i < |pool| ==> SlotOk(pool[i])
    ensures Total(TextureSets(pool)) == 3 * LiveCount(pool)
    ensures Total(ViewSets(pool)) == 3 * LiveCount(pool)
    ensures Total(EncoderSets(pool)) == OpenPasses(pool)
  {
    if pool != [] {
      var n := |pool| - 1;
      CountSets(pool[..n]);
      SetSizes(pool[n]);
      assert TextureSets(pool)[..n] == TextureSets(pool[..n]);
      assert ViewSets(pool)[..n] == ViewSets(pool[..n]);
      assert EncoderSets(pool)[..n] == EncoderSets(pool[..n]);
    }
  }

  /** Three textures and three views per live surface; encoders created minus
      command buffers submitted is the number of open passes. */
  lemma Conservation(st: State)
    requires Inv(st)
    ensures |st.gpu.textures| == 3 * LiveCount(st.pool)
    ensures |st.gpu.views| == 3 * LiveCount(st.pool)
    ensures st.gpu.created - st.gpu.submitted == OpenPasses(st.pool)
  {
    CountSets(st.pool);
    UnionCard(TextureSets(st.pool));
    UnionCard(ViewSets(st.pool));
    UnionCard(EncoderSets(st.pool));
  }

  // ---- Changing one slot ----------------------------------------------------------------

  /** One kind of object goes from set a to set b, the rest of `all` untouched. */
  ghost predicate Swap(all: set<nat>, a: set<nat>, all': set<nat>, b: set<nat>) {
    all' == (all - a) + b && b !! (all - a)
  }

  ghost predicate Owned(g: Gpu, x: Slot) {
    Textures(x) <= g.textures && Views(x) <= g.views && Encoders(x) <= g.encoders
  }

  /** A GPU and one slot change together, leaving all other objects alone. */
  ghost predicate Change(g: Gpu, x: Slot, g': Gpu, x': Slot) {
    && GpuOk(g') && SlotOk(x') && g.next <= g'.next
    && Swap(g.textures, Textures(x), g'.textures, Textures(x'))
    && Swap(g.views, Views(x), g'.views, Views(x'))
    && Swap(g.encoders, Encoders(x), g'.encoders, Encoders(x'))
  }

  lemma ChangeThen(g: Gpu, x: Slot, g1: Gpu, y: Slot, g2: Gpu, z: Slot)
    requires Change(g, x, g1, y) && Change(g1, y, g2, z)
    ensures Change(g, x, g2, z)
  {}

  lemma ChangeOk(g: Gpu, x: Slot, g': Gpu, x': Slot)
    requires Change(g, x, g', x')
    ensures GpuOk(g') && SlotOk(x')
  {}

  lemma SwapSame(all: set<nat>, a: set<nat>)
    requires a <= all
    ensures Swap(all, a, all, a)
  {}

  lemma NoChange(g: Gpu, x: Slot)
    requires GpuOk(g) && SlotOk(x) && Owned(g, x)
    ensures Change(g, x, g, x)
  {
    SwapSame(g.textures, Textures(x));
    SwapSame(g.views, Views(x));
    SwapSame(g.encoders, Encoders(x));
  }

  lemma OwnedAt(st: State, i: nat)
    requires Inv(st) && i < |st.pool|
    ensures Owned(st.gpu, st.pool[i]) && SlotOk(st.pool[i]) && GpuOk(st.gpu)
  {
    MemberOfUnion(TextureSets(st.pool), i);
    MemberOfUnion(ViewSets(st.pool), i);
    MemberOfUnion(EncoderSets(st.pool), i);
  }

  /** Any such change of any slot keeps the invariant. */
  lemma ChangeKeepsInv(st: State, i: nat, g: Gpu, x: Slot)
    requires Inv(st) && i < |st.pool| && Change(st.gpu, st.pool[i], g, x)
    ensures Inv(State(st.pool[i := x], g))
  {
    hide Union, GpuOk, SlotOk;
    var pool := st.pool[i := x];
    assert TextureSets(pool) == TextureSets(st.pool)[i := Textures(x)];
    assert ViewSets(pool) == ViewSets(st.pool)[i := Views(x)];
    assert EncoderSets(pool) == EncoderSets(st.pool)[i := Encoders(x)];
    Replace(TextureSets(st.pool), i, Textures(x));
    Replace(ViewSets(st.pool), i, Views(x));
    Replace(EncoderSets(st.pool), i, Encoders(x));
  }

  // ---- The calls, on one slot --------------------------------------------------------------

  /** Three texture and view pairs, created in turn. */
  /** Two colour textures and a depth texture of one size, each with its view. */
  function NewTargets(g: Gpu, w: nat, h: nat): (Gpu, Targets) {
    var n := g.next;
    (CreateView(CreateTexture(CreateView(CreateTexture(CreateView(CreateTexture(g, w, h)), w, h)), w, h)),
     Targets(n, n + 1, n + 2, n + 3, n + 4, n + 5))
  }

  function CreateSlot(g: Gpu, swapchain: bool, size: Size): (Gpu, Slot) {
    var (g1, t) := NewTargets(g, size.aw, size.ah);
    (g1, Live(Surf(swapchain, size, false, false, 0, t)))
  }

  lemma CreateSlotChange(g: Gpu, swapchain: bool, size: Size)
    requires GpuOk(g) && SizeOk(size)
    ensures var (g', x) := CreateSlot(g, swapchain, size); Change(g, Free, g', x)
  {
    var (g', x) := CreateSlot(g, swapchain, size);
    var n := g.next;
    assert g'.textures == g.textures + {n, n + 2, n + 4};
    assert g'.views == g.views + {n + 1, n + 3, n + 5};
  }

  /** Ends an open pass: the encoder is finished and submitted. */
  function EndPass(g: Gpu, s: Surf): (Gpu, Surf)
    requires Owned(g, Live(s))
  {
    if !s.passActive then (g, s) else
      (Submit(g, s.encoder), s.(passActive := false, depth := false, encoder := 0))
  }

  lemma EndPassChange(g: Gpu, s: Surf)
    requires GpuOk(g) && SlotOk(Live(s)) && Owned(g, Live(s))
    ensures var (g', s') := EndPass(g, s);
            && Change(g, Live(s), g', Live(s')) && Owned(g', Live(s'))
            && s'.size == s.size && !s'.passActive && !s'.depth && s'.t == s.t
  {}

  /** Releases the six objects of a surface without an open pass. */
  function ReleaseTargets(g: Gpu, t: Targets): Gpu
    requires {t.texA, t.texB, t.depthTex} <= g.textures && {t.viewA, t.viewB, t.depthView} <= g.views
    requires t.texA != t.texB && t.texA != t.depthTex && t.texB != t.depthTex
    requires t.viewA != t.viewB && t.viewA != t.depthView && t.viewB != t.depthView
  {
    var g1 := DestroyTexture(ReleaseView(g, t.depthView), t.depthTex);
    var g2 := DestroyTexture(ReleaseView(g1, t.viewA), t.texA);
    DestroyTexture(ReleaseView(g2, t.viewB), t.texB)
  }

  lemma ReleaseTargetsChange(g: Gpu, s: Surf)
    requires GpuOk(g) && SlotOk(Live(s)) && Owned(g, Live(s)) && !s.passActive
    ensures Change(g, Live(s), ReleaseTargets(g, s.t), Free)
  {
    var g' := ReleaseTargets(g, s.t);
    assert g'.textures == g.textures - Textures(Live(s));
    assert g'.views == g.views - Views(Live(s));
  }

  function DestroySlot(g: Gpu, s: Surf): Gpu
    requires GpuOk(g) && SlotOk(Live(s)) && Owned(g, Live(s))
  {
    EndPassChange(g, s);
    var (g1, s1) := EndPass(g, s);
    ReleaseTargets(g1, s1.t)
  }

  lemma DestroySlotChange(g: Gpu, s: Surf)
    requires GpuOk(g) && SlotOk(Live(s)) && Owned(g, Live(s))
    ensures Change(g, Live(s), DestroySlot(g, s), Free)
  {
    EndPassChange(g, s);
    var (g1, s1) := EndPass(g, s);
    ReleaseTargetsChange(g1, s1);
    ChangeThen(g, Live(s), g1, Live(s1), DestroySlot(g, s), Free);
  }

  /** Resize: a no-op for the same size; otherwise the pass is ended, and the
      textures are replaced when the size policy says so. */
  function ResizeSlot(g: Gpu, s: Surf, w: nat, h: nat): (Gpu, Surf)
    requires GpuOk(g) && SlotOk(Live(s)) && Owned(g, Live(s))
  {
    if Unchanged(s.size, w, h) then (g, s) else
      EndPassChange(g, s);
      var (g1, s1) := EndPass(g, s);
      if !Reallocates(s.size, w, h) then (g1, s1.(size := Resized(s.size, w, h))) else
        var size := Resized(s.size, w, h);
        var (g2, t) := NewTargets(ReleaseTargets(g1, s1.t), size.aw, size.ah);
        (g2, s1.(size := size, t := t))
  }

  lemma ResizeSlotChange(g: Gpu, s: Surf, w: nat, h: nat)
    requires GpuOk(g) && SlotOk(Live(s)) && Owned(g, Live(s))
    ensures var (g', s') := ResizeSlot(g, s, w, h);
            && Change(g, Live(s), g', Live(s'))
            && s'.size == (if Unchanged(s.size, w, h) then s.size else Resized(s.size, w, h))
  {
    hide Change, GpuOk, Owned, Resized, ReleaseTargets, NewTargets;
    NoChange(g, Live(s));
    if !Unchanged(s.size, w, h) {
      EndPassChange(g, s);
      var (g1, s1) := EndPass(g, s);
      ChangeOk(g, Live(s), g1, Live(s1));
      var (g', s') := ResizeSlot(g, s, w, h);
      if Reallocates(s.size, w, h) {
        ReplaceTargets(g1, s1, s'.size);
      } else {
        SizeOnly(g1, s1, s'.size);
      }
      ChangeThen(g, Live(s), g1, Live(s1), g', Live(s'));
    }
  }

  lemma SizeOnly(g: Gpu, s: Surf, size: Size)
    requires GpuOk(g) && SlotOk(Live(s)) && Owned(g, Live(s)) && SizeOk(size)
    ensures Change(g, Live(s), g, Live(s.(size := size)))
  {
    NoChange(g, Live(s));
  }

  /** The textures and views of a surface outside a pass are replaced by new ones. */
  lemma ReplaceTargets(g: Gpu, s: Surf, size: Size)
    requires GpuOk(g) && SlotOk(Live(s)) && Owned(g, Live(s)) && !s.passActive && SizeOk(size)
    ensures var (g', t) := NewTargets(ReleaseTargets(g, s.t), size.aw, size.ah);
            Change(g, Live(s), g', Live(s.(size := size, t := t)))
  {
    hide Change, ReleaseTargets, NewTargets;
    var gf := ReleaseTargets(g, s.t);
    ReleaseTargetsChange(g, s);
    ChangeOk(g, Live(s), gf, Free);
    CreateSlotChange(gf, s.swapchain, size);
    var (g', t) := NewTargets(gf, size.aw, size.ah);
    var s' := s.(size := size, t := t);
    RenameSurf(gf, g', s', s.swapchain);
    ChangeThen(g, Live(s), gf, Free, g', Live(s'));
  }

  lemma RenameSurf(g: Gpu, g': Gpu, s: Surf, swapchain: bool)
    requires !s.passActive && !s.depth && Change(g, Free, g', Live(Surf(swapchain, s.size, false, false, 0, s.t)))
    ensures Change(g, Free, g', Live(s))
  {}

  /** Opens a pass unless one is open. */
  function BeginPass(g: Gpu, s: Surf, depth: bool): (Gpu, Surf) {
    if s.passActive then (g, s) else
      (CreateEncoder(g), s.(passActive := true, depth := depth, encoder := g.next))
  }

  lemma BeginPassChange(g: Gpu, s: Surf, depth: bool)
    requires GpuOk(g) && SlotOk(Live(s)) && Owned(g, Live(s))
    ensures var (g', s') := BeginPass(g, s, depth); Change(g, Live(s), g', Live(s')) && s'.size == s.size
  {
    NoChange(g, Live(s));
    if !s.passActive {
      assert g.next !in g.encoders;
      assert g.encoders - Encoders(Live(s)) == g.encoders;
    }
  }

  /** Work that opens and submits its own encoder: clear, blit, present. */
  function OneShot(g: Gpu): Gpu {
    Submit(CreateEncoder(g), g.next)
  }

  lemma OneShotChange(g: Gpu, x: Slot)
    requires GpuOk(g) && SlotOk(x) && Owned(g, x)
    ensures Change(g, x, OneShot(g), x)
  {
    NoChange(g, x);
    assert (g.encoders + {g.next}) - {g.next} == g.encoders;
  }
}

/** Client-visible calls, with the scratch pool and who holds which surface. */
module CompositorRuns {
  import opened SetFamily
  import opened SurfaceSizing
  import opened CompositorSpec
  import opened BlitGeometry
  import BlitPixels

  const SCRATCH_SIZE: nat := 8
  const NONE: int := -1

  /** The state plus the scratch pool; `owned` are the surfaces the client made
      itself, `held` those it has acquired and not yet released. */
  datatype World = World(st: State, scratch: seq<int>, busy: seq<bool>, owned: set<int>, held: set<int>)

  predicate IsLive(pool: seq<Slot>, k: int) { 0 <= k < |pool| && pool[k].Live? }

  /** Pooled scratch surfaces are live and distinct, and lent out exactly while
      held; everything the client owns or holds is live, and no live surface is
      lost: it is owned, held, or pooled. */
  ghost predicate ScratchInv(w: World) {
    && |w.scratch| == |w.busy| == SCRATCH_SIZE
    && (forall k :: k in w.owned ==> IsLive(w.st.pool, k))
    && (forall k :: k in w.held ==> IsLive(w.st.pool, k) && k !in w.owned)
    && (forall i :: 0 <= i < SCRATCH_SIZE ==> ScratchOk(w, w.scratch[i], w.busy[i]))
    && (forall i, j :: 0 <= i < j < SCRATCH_SIZE ==> w.scratch[i] == NONE || w.scratch[i] != w.scratch[j])
    && (forall k :: IsLive(w.st.pool, k) ==> k in w.owned || k in w.held || k in w.scratch)
  }

  ghost predicate ScratchOk(w: World, k: int, busy: bool) {
    k == NONE || (IsLive(w.st.pool, k) && k !in w.owned && (busy <==> k in w.held))
  }

  ghost predicate WorldInv(w: World) { Inv(w.st) && ScratchInv(w) }

  // ---- Pool calls -----------------------------------------------------------------

  /** The first index that is set, or NONE: the pool and scratch searches. */
  function FirstTrue(bs: seq<bool>): (r: int)
    ensures r == NONE || (0 <= r < |bs| && bs[r])
    ensures forall i :: 0 <= i < (if r == NONE then |bs| else r) ==> !bs[i]
  {
    if bs == [] then NONE else
      var n := |bs| - 1;
      var r := FirstTrue(bs[..n]);
      if r != NONE then r else if bs[n] then n else NONE
  }

  /** The lowest free slot, or NONE. */
  function FirstFree(pool: seq<Slot>): (r: int)
    ensures r == NONE || (0 <= r < |pool| && pool[r].Free?)
    ensures forall i :: 0 <= i < (if r == NONE then |pool| else r) ==> pool[i].Live?
  {
    var free := seq(|pool|, i requires 0 <= i < |pool| => pool[i].Free?);
    var r := FirstTrue(free);
    assert forall i :: 0 <= i < |pool| ==> free[i] == pool[i].Free?;
    r
  }

  /** A new surface in the lowest free slot; NONE, with nothing changed, if there
      is none. */
  function NewSurface(st: State, swapchain: bool, size: Size): (State, int) {
    var i := FirstFree(st.pool);
    if i == NONE then (st, NONE) else
      var (g, x) := CreateSlot(st.gpu, swapchain, size);
      (State(st.pool[i := x], g), i)
  }

  lemma NewSurfaceInv(st: State, swapchain: bool, size: Size)
    requires Inv(st) && SizeOk(size)
    ensures var (st', i) := NewSurface(st, swapchain, size);
            && Inv(st')
            && (i == NONE ==> st' == st)
            && (i != NONE ==> 0 <= i < |st.pool| && st.pool[i].Free? && st'.pool == st.pool[i := st'.pool[i]]
                              && st'.pool[i].Live? && st'.pool[i].s.size == size && !st'.pool[i].s.passActive
                              && st'.pool[i].s.swapchain == swapchain)
  {
    hide Inv, Change, GpuOk, SizeOk;
    var i := FirstFree(st.pool);
    if i != NONE {
      OwnedAt(st, i);
      CreateSlotChange(st.gpu, swapchain, size);
      var (g, x) := CreateSlot(st.gpu, swapchain, size);
      ChangeKeepsInv(st, i, g, x);
    }
  }

  ghost function DestroySurface(st: State, i: int): State
    requires Inv(st) && IsLive(st.pool, i)
  {
    OwnedAt(st, i);
    State(st.pool[i := Free], DestroySlot(st.gpu, st.pool[i].s))
  }

  lemma DestroySurfaceInv(st: State, i: int)
    requires Inv(st) && IsLive(st.pool, i)
    ensures Inv(DestroySurface(st, i)) && DestroySurface(st, i).pool == st.pool[i := Free]
  {
    OwnedAt(st, i);
    DestroySlotChange(st.gpu, st.pool[i].s);
    ChangeKeepsInv(st, i, DestroySlot(st.gpu, st.pool[i].s), Free);
  }

  // ---- Scratch calls -----------------------------------------------------------------

  predicate Fits(pool: seq<Slot>, k: int, width: nat, height: nat) {
    IsLive(pool, k) && pool[k].s.size.aw >= width && pool[k].s.size.ah >= height
  }

  /** The first idle scratch entry whose surface is large enough, or NONE. */
  function FirstFit(w: World, width: nat, height: nat): (r: int)
    requires |w.busy| == |w.scratch|
    ensures r == NONE || (0 <= r < |w.scratch| && !w.busy[r] && Fits(w.st.pool, w.scratch[r], width, height))
    ensures forall i :: 0 <= i < (if r == NONE then |w.scratch| else r) ==>
              w.busy[i] || !Fits(w.st.pool, w.scratch[i], width, height)
  {
    var ok := seq(|w.scratch|, i requires 0 <= i < |w.scratch| =>
                    !w.busy[i] && Fits(w.st.pool, w.scratch[i], width, height));
    var r := FirstTrue(ok);
    assert forall i :: 0 <= i < |w.scratch| ==> ok[i] == (!w.busy[i] && Fits(w.st.pool, w.scratch[i], width, height));
    r
  }

  function FirstIdle(busy: seq<bool>): (r: int)
    ensures r == NONE || (0 <= r < |busy| && !busy[r])
    ensures forall i :: 0 <= i < (if r == NONE then |busy| else r) ==> busy[i]
  {
    var idle := seq(|busy|, i requires 0 <= i < |busy| => !busy[i]);
    var r := FirstTrue(idle);
    assert forall i :: 0 <= i < |busy| ==> idle[i] == !busy[i];
    r
  }

  function FindScratch(scratch: seq<int>, k: int): (r: int)
    ensures r == NONE || (0 <= r < |scratch| && scratch[r] == k)
    ensures forall i :: 0 <= i < (if r == NONE then |scratch| else r) ==> scratch[i] != k
  {
    var hit := seq(|scratch|, i requires 0 <= i < |scratch| => scratch[i] == k);
    var r := FirstTrue(hit);
    assert forall i :: 0 <= i < |scratch| ==> hit[i] == (scratch[i] == k);
    r
  }

  function Bag(k: int): set<int> { if k == NONE then {} else {k} }

  /** Reuses idle entry i: only its logical size changes. */
  function ReuseScratch(w: World, i: nat, width: nat, height: nat): World
    requires i < |w.scratch| == |w.busy| && IsLive(w.st.pool, w.scratch[i])
  {
    var k := w.scratch[i];
    var s := w.st.pool[k].s;
    var s' := s.(size := Size(width, height, s.size.aw, s.size.ah));
    w.(st := w.st.(pool := w.st.pool[k := Live(s')]), busy := w.busy[i := true], held := w.held + {k})
  }

  /** Replaces idle entry i by a new surface; the old one, if any, is destroyed
      first. A failed creation still marks the entry busy. */
  ghost function ReplaceScratch(w: World, i: nat, size: Size): (World, int)
    requires Inv(w.st) && i < |w.scratch| == |w.busy|
    requires w.scratch[i] != NONE ==> IsLive(w.st.pool, w.scratch[i])
  {
    var st1 := if w.scratch[i] != NONE then DestroySurface(w.st, w.scratch[i]) else w.st;
    var (st2, k) := NewSurface(st1, false, size);
    (w.(st := st2, scratch := w.scratch[i := k], busy := w.busy[i := true], held := w.held + Bag(k)), k)
  }

  function AtLeastOne(n: nat): nat { if n < 1 then 1 else n }

  ghost function Acquire(w: World, width: nat, height: nat): (World, int)
    requires WorldInv(w)
  {
    var size := Size(AtLeastOne(width), AtLeastOne(height), AtLeastOne(width), AtLeastOne(height));
    var fit := FirstFit(w, size.w, size.h);
    if fit != NONE then (ReuseScratch(w, fit, size.w, size.h), w.scratch[fit]) else
      var idle := FirstIdle(w.busy);
      if idle != NONE then ReplaceScratch(w, idle, size) else
        var (st, k) := NewSurface(w.st, false, size);
        (w.(st := st, held := w.held + Bag(k)), k)
  }

  ghost function Release(w: World, k: int): World
    requires WorldInv(w) && (k == NONE || k in w.held)
  {
    if k == NONE then w else
      var i := FindScratch(w.scratch, k);
      if i != NONE then w.(busy := w.busy[i := false], held := w.held - {k})
      else w.(st := DestroySurface(w.st, k), held := w.held - {k})
  }

  /** What a caller gets: nothing, or a live surface that nobody else has, of the
      size asked for and with an allocation at least that large. */
  ghost predicate Granted(w: World, w': World, k: int, width: nat, height: nat) {
    k != NONE ==>
      && k !in w.held && k !in w.owned && k in w'.held
      && IsLive(w'.st.pool, k)
      && w'.st.pool[k].s.size.w == width && w'.st.pool[k].s.size.h == height
      && w'.st.pool[k].s.size.aw >= width && w'.st.pool[k].s.size.ah >= height
  }

  lemma ReuseInv(w: World, i: nat, width: nat, height: nat)
    requires WorldInv(w) && i < SCRATCH_SIZE && !w.busy[i] && Fits(w.st.pool, w.scratch[i], width, height)
    ensures WorldInv(ReuseScratch(w, i, width, height))
    ensures Granted(w, ReuseScratch(w, i, width, height), w.scratch[i], width, height)
  {
    hide Inv;
    var k := w.scratch[i];
    var w' := ReuseScratch(w, i, width, height);
    OwnedAt(w.st, k);
    SameObjects(w.st.gpu, w.st.pool[k].s, w'.st.pool[k].s);
    ChangeKeepsInv(w.st, k, w.st.gpu, w'.st.pool[k]);
    forall j | 0 <= j < SCRATCH_SIZE ensures ScratchOk(w', w'.scratch[j], w'.busy[j]) {
      assert ScratchOk(w, w.scratch[j], w.busy[j]);
    }
  }

  /** Changing only the logical size changes no object. */
  lemma SameObjects(g: Gpu, s: Surf, s': Surf)
    requires GpuOk(g) && SlotOk(Live(s)) && Owned(g, Live(s))
    requires s' == s.(size := s'.size) && SizeOk(s'.size)
    ensures Change(g, Live(s), g, Live(s'))
  {}

  /** Destroying an idle scratch surface and forgetting it. */
  ghost function Evicted(w: World, i: nat): World
    requires WorldInv(w) && i < SCRATCH_SIZE
  {
    if w.scratch[i] == NONE then w else
      assert ScratchOk(w, w.scratch[i], w.busy[i]);
      w.(st := DestroySurface(w.st, w.scratch[i]), scratch := w.scratch[i := NONE])
  }

  lemma EvictedInv(w: World, i: nat)
    requires WorldInv(w) && i < SCRATCH_SIZE && !w.busy[i]
    ensures WorldInv(Evicted(w, i))
  {
    hide Inv;
    if w.scratch[i] != NONE {
      assert ScratchOk(w, w.scratch[i], w.busy[i]);
      DestroySurfaceInv(w.st, w.scratch[i]);
      var w' := Evicted(w, i);
      forall j | 0 <= j < SCRATCH_SIZE ensures ScratchOk(w', w'.scratch[j], w'.busy[j]) {
        assert ScratchOk(w, w.scratch[j], w.busy[j]);
        assert j != i ==> w.scratch[if i < j then i else j] == NONE
                          || w.scratch[if i < j then i else j] != w.scratch[if i < j then j else i];
      }
    }
  }

  /** A new surface handed to the client as held. */
  lemma HandOut(w: World, size: Size)
    requires WorldInv(w) && SizeOk(size)
    ensures var (st, k) := NewSurface(w.st, false, size);
            var w' := w.(st := st, held := w.held + Bag(k));
            && WorldInv(w') && Granted(w, w', k, size.w, size.h)
            && (k != NONE ==> forall j :: 0 <= j < SCRATCH_SIZE ==> w.scratch[j] != k)
  {
    hide Inv;
    NewSurfaceInv(w.st, false, size);
    var (st, k) := NewSurface(w.st, false, size);
    var w' := w.(st := st, held := w.held + Bag(k));
    forall j | 0 <= j < SCRATCH_SIZE
      ensures ScratchOk(w', w'.scratch[j], w'.busy[j]) && (k != NONE ==> w.scratch[j] != k)
    {
      assert ScratchOk(w, w.scratch[j], w.busy[j]);
    }
  }

  lemma ReplaceInv(w: World, i: nat, size: Size)
    requires WorldInv(w) && i < SCRATCH_SIZE && !w.busy[i] && SizeOk(size)
    requires w.scratch[i] != NONE ==> IsLive(w.st.pool, w.scratch[i])
    ensures var (w', k) := ReplaceScratch(w, i, size);
            && WorldInv(w') && Granted(w, w', k, size.w, size.h)
            && (w'.busy[i] && w'.scratch[i] == k)
            && (k == NONE <==> w.scratch[i] == NONE && FirstFree(w.st.pool) == NONE)
  {
    hide Inv, NewSurface, Granted;
    EvictedInv(w, i);
    var w1 := Evicted(w, i);
    HandOut(w1, size);
    var (st2, k) := NewSurface(w1.st, false, size);
    var w2 := w1.(st := st2, held := w1.held + Bag(k));
    var (w', k') := ReplaceScratch(w, i, size);
    assert k' == k && w' == w2.(scratch := w1.scratch[i := k], busy := w1.busy[i := true]) by {
      assert w1.scratch[i := k] == w.scratch[i := k];
    }
    SlotTaken(w, w1, w2, w', i, k);
    ReplaceFails(w, i, size);
    GrantedFrom(w, w1, w2, w', k, size.w, size.h);
  }

  lemma GrantedFrom(w: World, w1: World, w2: World, w': World, k: int, width: nat, height: nat)
    requires Granted(w1, w2, k, width, height) && w1.held == w.held && w1.owned == w.owned
    requires w'.held == w2.held && w'.st == w2.st
    ensures Granted(w, w', k, width, height)
  {}

  lemma SlotTaken(w: World, w1: World, w2: World, w': World, i: nat, k: int)
    requires WorldInv(w1) && WorldInv(w2) && i < SCRATCH_SIZE && !w1.busy[i] && w1.scratch[i] == NONE
    requires w2 == w1.(st := w2.st, held := w1.held + Bag(k))
    requires w' == w2.(scratch := w1.scratch[i := k], busy := w1.busy[i := true])
    requires k != NONE ==> k !in w1.owned && IsLive(w2.st.pool, k)
    requires k != NONE ==> forall j :: 0 <= j < SCRATCH_SIZE ==> w1.scratch[j] != k
    ensures WorldInv(w')
  {
    hide Inv;
    forall j | 0 <= j < SCRATCH_SIZE ensures ScratchOk(w', w'.scratch[j], w'.busy[j]) {
      assert ScratchOk(w2, w2.scratch[j], w2.busy[j]);
    }
    forall m | IsLive(w'.st.pool, m) ensures m in w'.owned || m in w'.held || m in w'.scratch {
      if m in w2.scratch {
        var j :| 0 <= j < SCRATCH_SIZE && w2.scratch[j] == m;
        assert w'.scratch[j] == m;
      }
    }
  }

  /** Replacement fails exactly when there is no old surface to make room and
      the surface pool is exhausted. */
  lemma ReplaceFails(w: World, i: nat, size: Size)
    requires WorldInv(w) && i < SCRATCH_SIZE && SizeOk(size)
    requires w.scratch[i] != NONE ==> IsLive(w.st.pool, w.scratch[i])
    ensures ReplaceScratch(w, i, size).1 == NONE <==> w.scratch[i] == NONE && FirstFree(w.st.pool) == NONE
  {
    hide Inv;
    if w.scratch[i] != NONE {
      DestroySurfaceInv(w.st, w.scratch[i]);
      assert DestroySurface(w.st, w.scratch[i]).pool[w.scratch[i]].Free?;
    }
  }

  /** Acquire keeps every invariant and grants a surface nobody else has. */
  lemma AcquireInv(w: World, width: nat, height: nat)
    requires WorldInv(w)
    ensures WorldInv(Acquire(w, width, height).0)
    ensures Granted(w, Acquire(w, width, height).0, Acquire(w, width, height).1, AtLeastOne(width), AtLeastOne(height))
  {
    hide Inv, Granted, ReplaceScratch, ReuseScratch, NewSurface, IsLive;
    var size := Size(AtLeastOne(width), AtLeastOne(height), AtLeastOne(width), AtLeastOne(height));
    var fit, idle := FirstFit(w, size.w, size.h), FirstIdle(w.busy);
    if fit != NONE {
      ReuseInv(w, fit, size.w, size.h);
    } else if idle != NONE {
      assert ScratchOk(w, w.scratch[idle], w.busy[idle]);
      ReplaceInv(w, idle, size);
    } else {
      HandOut(w, size);
    }
  }

  /** Release: a pooled surface stays live and becomes idle; an overflow surface
      is destroyed. */
  lemma ReleaseInv(w: World, k: int)
    requires WorldInv(w) && (k == NONE || k in w.held)
    ensures WorldInv(Release(w, k))
    ensures k != NONE ==> k !in Release(w, k).held && IsLive(Release(w, k).st.pool, k) == (k in w.scratch)
  {
    hide Inv;
    if k != NONE {
      var i := FindScratch(w.scratch, k);
      var w' := Release(w, k);
      if i == NONE {
        DestroySurfaceInv(w.st, k);
      }
      forall j | 0 <= j < SCRATCH_SIZE ensures ScratchOk(w', w'.scratch[j], w'.busy[j]) {
        assert ScratchOk(w, w.scratch[j], w.busy[j]);
      }
    }
  }

  /** Destroying a held surface directly, instead of releasing it, is sound
      exactly for overflow surfaces: a pooled one would be left dangling. */
  lemma DestroyHeldIff(w: World, k: int)
    requires WorldInv(w) && k in w.held
    ensures var w' := w.(st := DestroySurface(w.st, k), held := w.held - {k});
            WorldInv(w') <==> k !in w.scratch
  {
    hide Inv;
    DestroySurfaceInv(w.st, k);
    var w' := w.(st := DestroySurface(w.st, k), held := w.held - {k});
    if k in w.scratch {
      var i :| 0 <= i < SCRATCH_SIZE && w.scratch[i] == k;
      assert !ScratchOk(w', w'.scratch[i], w'.busy[i]);
    } else {
      forall j | 0 <= j < SCRATCH_SIZE ensures ScratchOk(w', w'.scratch[j], w'.busy[j]) {
        assert ScratchOk(w, w.scratch[j], w.busy[j]);
      }
    }
  }

  // ---- Leaked scratch entries -----------------------------------------------------------

  /** An entry marked in use with no surface: no release can ever name it. */
  predicate Leaked(w: World, i: nat) {
    i < |w.scratch| && i < |w.busy| && w.busy[i] && w.scratch[i] == NONE
  }

  /** Acquiring leaks an entry exactly when no idle surface fits, the first idle
      entry is empty, and the surface pool is exhausted. */
  lemma AcquireLeaksIff(w: World, width: nat, height: nat)
    requires WorldInv(w)
    ensures var w' := Acquire(w, width, height).0;
            (exists i: nat :: Leaked(w', i) && !Leaked(w, i))
            <==> (FirstFit(w, AtLeastOne(width), AtLeastOne(height)) == NONE
                  && FirstIdle(w.busy) != NONE && w.scratch[FirstIdle(w.busy)] == NONE
                  && FirstFree(w.st.pool) == NONE)
  {
    hide Inv, IsLive, Granted;
    var size := Size(AtLeastOne(width), AtLeastOne(height), AtLeastOne(width), AtLeastOne(height));
    var fit, idle := FirstFit(w, size.w, size.h), FirstIdle(w.busy);
    var w' := Acquire(w, width, height).0;
    if fit != NONE {
      assert w'.scratch == w.scratch && w'.busy == w.busy[fit := true] && w.scratch[fit] != NONE by {
        FitIsPooled(w, fit, size.w, size.h);
      }
    } else if idle != NONE {
      assert ScratchOk(w, w.scratch[idle], w.busy[idle]);
      ReplaceFails(w, idle, size);
      var k := ReplaceScratch(w, idle, size).1;
      assert w'.scratch == w.scratch[idle := k] && w'.busy == w.busy[idle := true];
      assert !Leaked(w, idle) && (Leaked(w', idle) <==> k == NONE);
    } else {
      assert w'.scratch == w.scratch && w'.busy == w.busy;
    }
  }

  lemma FitIsPooled(w: World, i: nat, width: nat, height: nat)
    requires i < |w.scratch| && Fits(w.st.pool, w.scratch[i], width, height)
    ensures w.scratch[i] != NONE
  {}

  // ---- All calls ----------------------------------------------------------------------------

  datatype Op =
    | OpCreate(width: nat, height: nat)
    | OpBind(width: nat, height: nat)
    | OpDestroy(k: int)
    | OpResize(k: int, width: nat, height: nat)
    | OpBegin(k: int, depth: bool)
    | OpEnd(k: int)
    | OpClear(k: int)
    | OpBlit(src: int, dst: int, dstRect: Option<Rect>, mode: int)
    | OpPresent(k: int, hasView: bool)
    | OpAcquire(width: nat, height: nat)
    | OpRelease(k: int)

  ghost predicate Usable(w: World, k: int) { k == NONE || k in w.owned || k in w.held }

  /** What the interface asks of its caller: sizes of new surfaces are at least
      1, and surfaces passed in are NULL or the caller's own. */
  ghost predicate Legal(w: World, op: Op) {
    match op
    case OpCreate(width, height) => width >= 1 && height >= 1
    case OpBind(_, _) => true
    case OpDestroy(k) => k == NONE || k in w.owned
    case OpResize(k, _, _) => Usable(w, k)
    case OpBegin(k, _) => Usable(w, k)
    case OpEnd(k) => Usable(w, k)
    case OpClear(k) => Usable(w, k)
    case OpBlit(src, dst, _, _) => Usable(w, src) && Usable(w, dst)
    case OpPresent(k, _) => Usable(w, k)
    case OpAcquire(_, _) => true
    case OpRelease(k) => k == NONE || k in w.held
  }

  /** Calls that work on one surface: the GPU and the surface after the call. */
  ghost function OnSurface(g: Gpu, s: Surf, op: Op): (Gpu, Surf)
    requires GpuOk(g) && SlotOk(Live(s)) && Owned(g, Live(s))
  {
    match op
    case OpResize(_, width, height) => ResizeSlot(g, s, width, height)
    case OpBegin(_, depth) => BeginPass(g, s, depth)
    case OpEnd(_) => EndPass(g, s)
    case OpClear(_) => if s.passActive then (g, s) else (OneShot(g), s)
    case OpPresent(_, hasView) =>
      if !s.swapchain then (g, s) else
        var (g1, s1) := EndPass(g, s);
        (if hasView then OneShot(g1) else g1, s1)
    case _ => (g, s)
  }

  lemma OnSurfaceChange(g: Gpu, s: Surf, op: Op)
    requires GpuOk(g) && SlotOk(Live(s)) && Owned(g, Live(s))
    ensures var (g', s') := OnSurface(g, s, op); Change(g, Live(s), g', Live(s'))
  {
    hide Change, EndPass, BeginPass, ResizeSlot, OneShot;
    NoChange(g, Live(s));
    match op
    case OpResize(_, width, height) => ResizeSlotChange(g, s, width, height);
    case OpBegin(_, depth) => BeginPassChange(g, s, depth);
    case OpEnd(_) => EndPassChange(g, s);
    case OpClear(_) => OneShotChange(g, Live(s));
    case OpPresent(_, hasView) =>
      EndPassChange(g, s);
      var (g1, s1) := EndPass(g, s);
      if s.swapchain && hasView {
        ChangeOk(g, Live(s), g1, Live(s1));
        OneShotChange(g1, Live(s1));
        ChangeThen(g, Live(s), g1, Live(s1), OneShot(g1), Live(s1));
      }
    case _ =>
  }

  ghost function UpdateSurface(w: World, k: int, op: Op): World
    requires Inv(w.st) && (k == NONE || IsLive(w.st.pool, k))
  {
    if k == NONE then w else
      OwnedAt(w.st, k);
      var (g, s) := OnSurface(w.st.gpu, w.st.pool[k].s, op);
      w.(st := State(w.st.pool[k := Live(s)], g))
  }

  lemma UpdateSurfaceInv(w: World, k: int, op: Op)
    requires WorldInv(w) && (k == NONE || IsLive(w.st.pool, k))
    ensures WorldInv(UpdateSurface(w, k, op))
  {
    hide Inv, OnSurface;
    if k != NONE {
      OwnedAt(w.st, k);
      OnSurfaceChange(w.st.gpu, w.st.pool[k].s, op);
      var (g, s) := OnSurface(w.st.gpu, w.st.pool[k].s, op);
      ChangeKeepsInv(w.st, k, g, Live(s));
      var w' := UpdateSurface(w, k, op);
      forall j | 0 <= j < SCRATCH_SIZE ensures ScratchOk(w', w'.scratch[j], w'.busy[j]) {
        assert ScratchOk(w, w.scratch[j], w.busy[j]);
      }
    }
  }

  /** The blit goes ahead: two different surfaces outside a pass, a valid mode,
      and something left of the rectangle after clipping. */
  predicate Draws(pool: seq<Slot>, src: int, dst: int, rect: Option<Rect>, mode: int)
    requires src == NONE || IsLive(pool, src)
    requires dst == NONE || IsLive(pool, dst)
  {
    && src != NONE && dst != NONE && !pool[src].s.passActive && !pool[dst].s.passActive
    && src != dst && 0 <= mode < BlitPixels.BLEND_COUNT
    && var d := Clipped(rect, pool[dst].s.size.w, pool[dst].s.size.h);
       d.w > 0 && d.h > 0
  }

  /** A blit submits one encoder of its own, or does nothing. */
  function BlitObjects(w: World, src: int, dst: int, rect: Option<Rect>, mode: int): World
    requires src == NONE || IsLive(w.st.pool, src)
    requires dst == NONE || IsLive(w.st.pool, dst)
  {
    if Draws(w.st.pool, src, dst, rect, mode) then w.(st := w.st.(gpu := OneShot(w.st.gpu))) else w
  }

  lemma BlitObjectsInv(w: World, src: int, dst: int, rect: Option<Rect>, mode: int)
    requires WorldInv(w)
    requires src == NONE || IsLive(w.st.pool, src)
    requires dst == NONE || IsLive(w.st.pool, dst)
    ensures WorldInv(BlitObjects(w, src, dst, rect, mode))
  {}

  /** A new surface of the client's own. */
  function CreateOwned(w: World, swapchain: bool, size: Size): World {
    var (st, k) := NewSurface(w.st, swapchain, size);
    w.(st := st, owned := w.owned + Bag(k))
  }

  lemma CreateOwnedInv(w: World, swapchain: bool, size: Size)
    requires WorldInv(w) && SizeOk(size)
    ensures WorldInv(CreateOwned(w, swapchain, size))
  {
    hide Inv, NewSurface;
    NewSurfaceInv(w.st, swapchain, size);
    var w' := CreateOwned(w, swapchain, size);
    forall j | 0 <= j < SCRATCH_SIZE ensures ScratchOk(w', w'.scratch[j], w'.busy[j]) {
      assert ScratchOk(w, w.scratch[j], w.busy[j]);
    }
  }

  ghost function DestroyOwned(w: World, k: int): World
    requires Inv(w.st) && (k == NONE || IsLive(w.st.pool, k))
  {
    if k == NONE then w else w.(st := DestroySurface(w.st, k), owned := w.owned - {k})
  }

  lemma DestroyOwnedInv(w: World, k: int)
    requires WorldInv(w) && (k == NONE || k in w.owned)
    ensures WorldInv(DestroyOwned(w, k))
  {
    hide Inv;
    if k != NONE {
      DestroySurfaceInv(w.st, k);
      var w' := DestroyOwned(w, k);
      forall j | 0 <= j < SCRATCH_SIZE ensures ScratchOk(w', w'.scratch[j], w'.busy[j]) {
        assert ScratchOk(w, w.scratch[j], w.busy[j]);
      }
    }
  }

  ghost function Step(w: World, op: Op): World
    requires WorldInv(w) && Legal(w, op)
  {
    match op
    case OpCreate(width, height) => CreateOwned(w, false, Size(width, height, width, height))
    case OpBind(width, height) => CreateOwned(w, true, Size(width, height, OverallocDim(width), OverallocDim(height)))
    case OpDestroy(k) => DestroyOwned(w, k)
    case OpBlit(src, dst, rect, mode) => BlitObjects(w, src, dst, rect, mode)
    case OpAcquire(width, height) => Acquire(w, width, height).0
    case OpRelease(k) => Release(w, k)
    case _ => UpdateSurface(w, op.k, op)
  }

  lemma StepInv(w: World, op: Op)
    requires WorldInv(w) && Legal(w, op)
    ensures WorldInv(Step(w, op))
  {
    hide Inv, UpdateSurface, CreateOwned, DestroyOwned, BlitObjects, Acquire, Release;
    match op
    case OpCreate(width, height) => CreateOwnedInv(w, false, Size(width, height, width, height));
    case OpBind(width, height) =>
      CreateOwnedInv(w, true, Size(width, height, OverallocDim(width), OverallocDim(height)));
    case OpDestroy(k) => DestroyOwnedInv(w, k);
    case OpBlit(src, dst, rect, mode) => BlitObjectsInv(w, src, dst, rect, mode);
    case OpAcquire(width, height) => AcquireInv(w, width, height);
    case OpRelease(k) => ReleaseInv(w, k);
    case _ => UpdateSurfaceInv(w, op.k, op);
  }

  ghost predicate LegalRun(w: World, ops: seq<Op>)
    requires WorldInv(w)
    decreases |ops|
  {
    ops == [] || (Legal(w, ops[0]) && (StepInv(w, ops[0]); LegalRun(Step(w, ops[0]), ops[1..])))
  }

  ghost function Run(w: World, ops: seq<Op>): World
    requires WorldInv(w) && LegalRun(w, ops)
    decreases |ops|
  {
    if ops == [] then w else
      StepInv(w, ops[0]);
      Run(Step(w, ops[0]), ops[1..])
  }

  lemma {:induction false} RunInv(w: World, ops: seq<Op>)
    requires WorldInv(w) && LegalRun(w, ops)
    ensures WorldInv(Run(w, ops))
    decreases |ops|
  {
    hide WorldInv, Step, Legal;
    if ops != [] {
      StepInv(w, ops[0]);
      RunInv(Step(w, ops[0]), ops[1..]);
    }
  }

  ghost function Start(): World {
    World(State(seq(POOL_SIZE, _ => Free), Gpu(1, {}, {}, {}, 0, 0, map[])),
          seq(SCRATCH_SIZE, _ => NONE), seq(SCRATCH_SIZE, _ => false), {}, {})
  }

  lemma StartInv()
    ensures WorldInv(Start())
  {
    hide Union;
    var pool := Start().st.pool;
    AllFree(TextureSets(pool));
    AllFree(ViewSets(pool));
    AllFree(EncoderSets(pool));
  }

  lemma {:induction false} AllFree(ss: seq<set<nat>>)
    requires forall i :: 0 <= i < |ss| ==> ss[i] == {}
    ensures Union(ss) == {}
  {
    if ss != [] {
      AllFree(ss[..|ss| - 1]);
    }
  }

  /** Over every run of legal calls from start-up: GPU objects are conserved,
      every live surface fits its allocation, and every acquired surface is live. */
  lemma RunConserves(ops: seq<Op>, k: int)
    requires WorldInv(Start()) && LegalRun(Start(), ops)
    ensures var w := Run(Start(), ops);
            && |w.st.gpu.textures| == 3 * LiveCount(w.st.pool)
            && |w.st.gpu.views| == 3 * LiveCount(w.st.pool)
            && w.st.gpu.created - w.st.gpu.submitted == OpenPasses(w.st.pool)
            && (IsLive(w.st.pool, k) ==>
                  SizeOk(w.st.pool[k].s.size) && (w.st.pool[k].s.depth ==> w.st.pool[k].s.passActive))
            && (k in w.held || k in w.owned ==> IsLive(w.st.pool, k))
  {
    RunInv(Start(), ops);
    var w := Run(Start(), ops);
    Conservation(w.st);
    if IsLive(w.st.pool, k) {
      OwnedAt(w.st, k);
    }
  }

  // ---- What a blit touches ---------------------------------------------------------------

  /** What a blit hands to the GPU: the viewport, scissor and copy region, and the
      texture window. */
  datatype DrawCall = DrawCall(region: Rect, window: Window)

  /** The texture window of a blit between surfaces of the given sizes. */
  function BlitWindow(s: Size, srcRect: Option<Rect>, d: Size, dstRect: Option<Rect>): Window
    requires s.aw >= 1 && s.ah >= 1
    requires var o := Target(dstRect, d.w, d.h); o.w > 0 && o.h > 0
  {
    Corrected(SourceWindow(srcRect, s.w, s.h, s.aw, s.ah), Target(dstRect, d.w, d.h), Clipped(dstRect, d.w, d.h))
  }

  /** A draw call of exactly the blit asked for that stays inside both textures,
      provided the source rectangle is absent or inside the source. */
  ghost predicate Inside(s: Size, srcRect: Option<Rect>, d: Size, dstRect: Option<Rect>, c: DrawCall)
    requires SizeOk(s)
  {
    && c.region == Clipped(dstRect, d.w, d.h) && RectInside(c.region, d.aw, d.ah)
    && Target(dstRect, d.w, d.h).w > 0 && Target(dstRect, d.w, d.h).h > 0
    && c.window == BlitWindow(s, srcRect, d, dstRect)
    && (Contained(srcRect, s.w, s.h) ==> InUnit(c.window.u, c.window.du) && InUnit(c.window.v, c.window.dv))
  }

  lemma BlitInside(s: Size, srcRect: Option<Rect>, d: Size, dstRect: Option<Rect>)
    requires SizeOk(s) && SizeOk(d)
    requires var c := Clipped(dstRect, d.w, d.h); c.w > 0 && c.h > 0
    ensures Target(dstRect, d.w, d.h).w > 0 && Target(dstRect, d.w, d.h).h > 0
    ensures Inside(s, srcRect, d, dstRect, DrawCall(Clipped(dstRect, d.w, d.h), BlitWindow(s, srcRect, d, dstRect)))
  {
    hide Corrected, SourceWindow;
    ClippedInside(dstRect, d.w, d.h, d.aw, d.ah);
    if Contained(srcRect, s.w, s.h) {
      BlitWindowInUnit(srcRect, s.w, s.h, s.aw, s.ah, dstRect, d.w, d.h);
    }
  }

  /** The surface, if there is one, has a size that a 32-bit int can hold. */
  predicate SizeInI32(w: World, k: int) {
    IsLive(w.st.pool, k) ==> w.st.pool[k].s.size.w <= I32_MAX && w.st.pool[k].s.size.h <= I32_MAX
  }

  /** The outcome of a blit: a draw call inside both textures exactly if it goes ahead. */
  ghost predicate Drawn(w: World, src: int, srcRect: Option<Rect>, dst: int, dstRect: Option<Rect>, mode: int,
                        r: Option<DrawCall>)
    requires ScratchInv(w) && Usable(w, src) && Usable(w, dst)
  {
    && (r.Some? <==> Draws(w.st.pool, src, dst, dstRect, mode))
    && (r.Some? ==>
          && SizeOk(w.st.pool[src].s.size)
          && Inside(w.st.pool[src].s.size, srcRect, w.st.pool[dst].s.size, dstRect, r.value))
  }

  /** Such a draw call stretches the source rectangle, or the whole source, over the
      rectangle asked for: every position of its region samples the texel position as
      far into the one as it lies in the other, clipped or not. */
  lemma DrawCallMaps(s: Size, srcRect: Option<Rect>, d: Size, dstRect: Option<Rect>, c: DrawCall, px: real, py: real)
    requires SizeOk(s) && Inside(s, srcRect, d, dstRect, c)
    ensures var r := if srcRect.Some? then srcRect.value else Rect(0, 0, s.w, s.h);
            var o := if dstRect.Some? then dstRect.value else Rect(0, 0, d.w, d.h);
            && o.w > 0 && o.h > 0
            && Sampled(c.window.u, c.window.du, c.region.x, c.region.w, px) * s.aw as real
               == r.x as real + (px - o.x as real) / o.w as real * r.w as real
            && Sampled(c.window.v, c.window.dv, c.region.y, c.region.h, py) * s.ah as real
               == r.y as real + (py - o.y as real) / o.h as real * r.h as real
  {
    hide SourceWindow, Sampled, Clipped;
    var o, win := Target(dstRect, d.w, d.h), SourceWindow(srcRect, s.w, s.h, s.aw, s.ah);
    CorrectionPreservesSampling(win.u, win.du, o.x, o.w, c.region.x, c.region.w, px);
    CorrectionPreservesSampling(win.v, win.dv, o.y, o.h, c.region.y, c.region.h, py);
    WindowMapsOnto(srcRect, s.w, s.h, s.aw, s.ah, o, px, py);
  }

  /** In every reachable state, every blit that goes ahead draws inside its
      destination and samples inside its source. */
  lemma ReachableBlitInside(ops: seq<Op>, src: int, srcRect: Option<Rect>, dst: int, dstRect: Option<Rect>, mode: int)
    requires WorldInv(Start()) && LegalRun(Start(), ops)
    requires var w := Run(Start(), ops);
             && (src == NONE || IsLive(w.st.pool, src)) && (dst == NONE || IsLive(w.st.pool, dst))
             && Draws(w.st.pool, src, dst, dstRect, mode)
    ensures var pool := Run(Start(), ops).st.pool;
            var s, d := pool[src].s.size, pool[dst].s.size;
            && SizeOk(s) && Target(dstRect, d.w, d.h).w > 0 && Target(dstRect, d.w, d.h).h > 0
            && Inside(s, srcRect, d, dstRect, DrawCall(Clipped(dstRect, d.w, d.h), BlitWindow(s, srcRect, d, dstRect)))
  {
    hide Run, LegalRun, Start, WorldInv, Clipped, BlitWindow, Inside;
    RunConserves(ops, src);
    RunConserves(ops, dst);
    var pool := Run(Start(), ops).st.pool;
    BlitInside(pool[src].s.size, srcRect, pool[dst].s.size, dstRect);
  }

  // ---- Leaks over runs --------------------------------------------------------------------

  lemma StepKeepsLeak(w: World, op: Op, i: nat)
    requires WorldInv(w) && Legal(w, op) && Leaked(w, i)
    ensures Leaked(Step(w, op), i)
  {
    hide Inv;
    match op
    case OpAcquire(width, height) =>
      var size := Size(AtLeastOne(width), AtLeastOne(height), AtLeastOne(width), AtLeastOne(height));
      var fit, idle := FirstFit(w, size.w, size.h), FirstIdle(w.busy);
      assert fit != i && idle != i;
    case OpRelease(k) =>
      if k != NONE {
        assert FindScratch(w.scratch, k) != i;
      }
    case _ =>
  }

  /** A leaked scratch entry stays leaked through every later run. */
  lemma {:induction false} LeakIsForever(w: World, ops: seq<Op>, i: nat)
    requires WorldInv(w) && LegalRun(w, ops) && Leaked(w, i)
    ensures Leaked(Run(w, ops), i)
    decreases |ops|
  {
    hide WorldInv, Step, Legal;
    if ops != [] {
      StepInv(w, ops[0]);
      StepKeepsLeak(w, ops[0], i);
      LeakIsForever(Step(w, ops[0]), ops[1..], i);
    }
  }

  /** Slots below n are live, the others free, and the scratch pool is untouched. */
  ghost predicate Filled(w: World, n: nat) {
    && |w.st.pool| == POOL_SIZE
    && (forall i :: 0 <= i < POOL_SIZE ==> (w.st.pool[i].Live? <==> i < n))
    && |w.scratch| == |w.busy| == SCRATCH_SIZE
    && (forall i :: 0 <= i < SCRATCH_SIZE ==> w.scratch[i] == NONE && !w.busy[i])
  }

  ghost predicate Creates(ops: seq<Op>) {
    forall i :: 0 <= i < |ops| ==> ops[i].OpCreate? && ops[i].width >= 1 && ops[i].height >= 1
  }

  lemma CreateFills(w: World, op: Op, n: nat)
    requires WorldInv(w) && Filled(w, n) && n < POOL_SIZE && op.OpCreate? && Legal(w, op)
    ensures Filled(Step(w, op), n + 1)
  {
    hide Inv, NewSurface;
    NewSurfaceInv(w.st, false, Size(op.width, op.height, op.width, op.height));
    CreateAt(w.st, false, Size(op.width, op.height, op.width, op.height), n);
  }

  lemma CreateAt(st: State, swapchain: bool, size: Size, n: nat)
    requires n < |st.pool| && st.pool[n].Free? && forall i :: 0 <= i < n ==> st.pool[i].Live?
    ensures NewSurface(st, swapchain, size).1 == n
  {
    assert FirstFree(st.pool) == n;
  }

  lemma {:induction false} CreatesFill(w: World, ops: seq<Op>, n: nat)
    requires WorldInv(w) && Filled(w, n) && Creates(ops) && n + |ops| <= POOL_SIZE
    ensures LegalRun(w, ops) && Filled(Run(w, ops), n + |ops|)
    decreases |ops|
  {
    hide WorldInv, Step, Filled;
    if ops != [] {
      StepInv(w, ops[0]);
      CreateFills(w, ops[0], n);
      CreatesFill(Step(w, ops[0]), ops[1..], n + 1);
    }
  }

  /** Leaks do happen: after as many creations as the pool has slots, the first
      acquisition of any size loses scratch entry 0. */
  lemma LeakFromStart(ops: seq<Op>, width: nat, height: nat)
    requires Creates(ops) && |ops| == POOL_SIZE
    ensures WorldInv(Start()) && LegalRun(Start(), ops)
    ensures var w := Run(Start(), ops);
            && WorldInv(w) && !Leaked(w, 0)
            && Acquire(w, width, height).1 == NONE && Leaked(Acquire(w, width, height).0, 0)
  {
    hide Inv, Run, LegalRun;
    StartInv();
    CreatesFill(Start(), ops, 0);
    RunInv(Start(), ops);
    var w := Run(Start(), ops);
    assert FirstFree(w.st.pool) == NONE;
    assert FirstIdle(w.busy) == 0 by { assert !w.busy[0]; }
    assert FirstFit(w, AtLeastOne(width), AtLeastOne(height)) == NONE;
  }
}
