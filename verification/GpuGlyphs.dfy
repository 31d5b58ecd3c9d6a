/**
 What the registry (sdk/font_fallback.h) leaves on the GPU, end to end: from the
 glyphs that were asked for, through the atlases and the upload, to the records
 and segments that a shaped line refers to.
 */
module GpuGlyphs {
  import opened GlyphCache
  import opened Sequences
  import opened RegistrySpec
  import opened RegistryRuns
  import opened LineSpec

  /** Record k of the glyph buffer is the font's reply: its metrics, and a range of
      the segment buffer with exactly its segments. */
  ghost predicate OnGpu(g: Gpu, glyphBuf: nat, segBuf: nat, k: int, reply: GlyphReply) {
    && glyphBuf in g.bufs && segBuf in g.bufs
    && 0 <= k < |g.bufs[glyphBuf].data| && g.bufs[glyphBuf].data[k].GlyphCell?
    && var info := g.bufs[glyphBuf].data[k].info;
       && info.metrics == reply.info.metrics
       && info.segmentCount == (if reply.count > 0 then reply.count else 0)
       && |reply.segments| >= info.segmentCount
       && info.segmentOffset + info.segmentCount <= |g.bufs[segBuf].data|
       && forall m :: 0 <= m < info.segmentCount ==>
            g.bufs[segBuf].data[info.segmentOffset + m] == SegmentCell(reply.segments[m])
  }

  /** In a clean entry every cached glyph is on the GPU, at its atlas index. */
  lemma CleanGlyphOnGpu(fonts: Fonts, st: State, foreign: set<nat>, i: nat, g: nat)
    requires Inv(fonts, st, foreign) && i < |st.entries| && !st.entries[i].dirty && g in st.entries[i].order
    ensures var e := st.entries[i];
            OnGpu(st.gpu, e.glyphBuf, e.segBuf, IndexOf(e.order, g), fonts(e.handle)(g))
  {
    var e := st.entries[i];
    EntryAt(fonts, st, foreign, i);
    MirroredGlyph(fonts, st.gpu, e, g);
  }

  lemma MirroredGlyph(fonts: Fonts, gpu: Gpu, e: Entry, g: nat)
    requires FontsOk(fonts) && BuffersOk(gpu, e) && Mirrored(fonts, gpu, e) && g in e.order
    ensures OnGpu(gpu, e.glyphBuf, e.segBuf, IndexOf(e.order, g), fonts(e.handle)(g))
  {
    hide Segments, Record, Outline;
    var f, k := fonts(e.handle), IndexOf(e.order, g);
    StoredReply(f, e.order, g);
    var glyphs, segs := GlyphCells(f, e.order), SegmentCells(f, e.order);
    var r := Record(f, e.order, k);
    var data := gpu.bufs[e.segBuf].data;
    assert glyphs[k] == gpu.bufs[e.glyphBuf].data[k] == GlyphCell(r);
    forall m | 0 <= m < r.segmentCount ensures data[r.segmentOffset + m] == SegmentCell(f(g).segments[m]) {
      assert data[r.segmentOffset + m] == segs[r.segmentOffset + m];
    }
  }

  /** In every state that a run of calls can reach, a clean entry has every glyph
      it caches on the GPU. */
  lemma ReachableGlyphOnGpu(fonts: Fonts, gpu: Gpu, ops: seq<Op>, i: nat, g: nat)
    requires FontsOk(fonts) && GpuOk(gpu) && Inv(fonts, Empty(gpu), gpu.bufs.Keys)
    ensures var st := Run(fonts, Empty(gpu), gpu.bufs.Keys, ops);
            i < |st.entries| && !st.entries[i].dirty && g in st.entries[i].order ==>
              OnGpu(st.gpu, st.entries[i].glyphBuf, st.entries[i].segBuf, IndexOf(st.entries[i].order, g),
                    fonts(st.entries[i].handle)(g))
  {
    hide Run, Inv, OnGpu;
    RunKeeps(fonts, Empty(gpu), gpu.bufs.Keys, ops);
    var st := Run(fonts, Empty(gpu), gpu.bufs.Keys, ops);
    if i < |st.entries| && !st.entries[i].dirty && g in st.entries[i].order {
      CleanGlyphOnGpu(fonts, st, gpu.bufs.Keys, i, g);
    }
  }

  // ---- A shaped line on the GPU ------------------------------------------------

  /** What the renderer finds for an output glyph: its font's reply for its glyph
      id, at its atlas index; or no index, because the id is .notdef or missing, or
      4096 other glyphs of the font came first. */
  ghost predicate GlyphReady(fonts: Fonts, st: State, t: Tagged, o: OutGlyph) {
    && 0 <= o.fontIdx < |st.entries|
    && var e := st.entries[o.fontIdx];
       var reply := fonts(t.g.font)(t.g.glyph);
       && e.handle == t.g.font && o.glyphId == t.g.glyph
       && (if o.atlasIndex != 0xFFFF_FFFF then
             && t.g.glyph != 0 && t.g.glyph != 0xFFFF_FFFF
             && OnGpu(st.gpu, e.glyphBuf, e.segBuf, o.atlasIndex, reply)
             && (o.isBitmap <==> reply.count == 0 && reply.info.metrics.advanceX > 0.0)
           else if t.g.glyph != 0 && t.g.glyph != 0xFFFF_FFFF then
             t.g.glyph !in e.order && |e.order| == 4096 && o.isBitmap
           else !o.isBitmap)
  }

  lemma HeldGlyphReady(fonts: Fonts, st: State, foreign: set<nat>, t: Tagged, cursor: real, o: OutGlyph)
    requires Inv(fonts, st, foreign) && GlyphHolds(fonts, st.entries, t, cursor, o)
    requires !st.entries[o.fontIdx].dirty
    ensures GlyphReady(fonts, st, t, o)
  {
    hide Inv, OnGpu;
    EntryAt(fonts, st, foreign, o.fontIdx);
    if o.atlasIndex != NO_ATLAS {
      CleanGlyphOnGpu(fonts, st, foreign, o.fontIdx, o.glyphId);
    }
  }

  /** A shaped line can be drawn: after any later calls and an upload, everything
      its glyphs refer to is on the GPU. */
  lemma LineReady(fonts: Fonts, st: State, foreign: set<nat>, ops: seq<Op>, gs: seq<Tagged>, os: seq<OutGlyph>, k: nat)
    requires Inv(fonts, st, foreign) && LineHolds(fonts, st.entries, gs, os) && k < |os|
    ensures var later := Run(fonts, st, foreign, ops);
            && Inv(fonts, later, foreign)
            && GlyphReady(fonts, Run(fonts, later, foreign, UploadPass(0, |later.entries|)), gs[k], os[k])
  {
    hide Inv, Run, GlyphReady, GlyphHolds;
    RunKeeps(fonts, st, foreign, ops);
    LineHoldsForever(fonts, st, foreign, ops, gs, os);
    var later := Run(fonts, st, foreign, ops);
    var pass := UploadPass(0, |later.entries|);
    RunKeeps(fonts, later, foreign, pass);
    LineHoldsForever(fonts, later, foreign, pass, gs, os);
    UploadPassCleans(fonts, later, foreign, 0);
    var done := Run(fonts, later, foreign, pass);
    assert GlyphHolds(fonts, done.entries, gs[k], Advance(gs[..k]), os[k]);
    HeldInEntries(fonts, done.entries, gs[k], Advance(gs[..k]), os[k]);
    HeldGlyphReady(fonts, done, foreign, gs[k], Advance(gs[..k]), os[k]);
  }

  lemma HeldInEntries(fonts: Fonts, entries: seq<Entry>, t: Tagged, cursor: real, o: OutGlyph)
    requires GlyphHolds(fonts, entries, t, cursor, o)
    ensures 0 <= o.fontIdx < |entries|
  {}

  // ---- Which glyphs the registry holds ----------------------------------------------

  /** The ids that requests ask of a font: .notdef and the missing marker are not looked up. */
  function Asked(ops: seq<Op>, h: int): seq<nat> {
    if ops == [] then [] else
      var n := |ops| - 1;
      var op := ops[n];
      Asked(ops[..n], h)
      + if op.Request? && op.handle == h && op.g != 0 && op.g != 0xFFFF_FFFF then [op.g] else []
  }

  predicate Names(op: Op, h: int) { (op.Find? || op.Request?) && op.handle == h }

  ghost predicate Named(ops: seq<Op>, h: int) { exists i :: 0 <= i < |ops| && Names(ops[i], h) }

  lemma NamedNext(ops: seq<Op>, h: int)
    requires ops != []
    ensures Named(ops, h) <==> Named(ops[..|ops| - 1], h) || Names(ops[|ops| - 1], h)
  {
    var n := |ops| - 1;
    if i :| 0 <= i < n && Names(ops[i], h) {
      assert Names(ops[..n][i], h);
    }
  }

  /** The calls of line shaping and rendering: requests, lookups and uploads. */
  predicate Client(ops: seq<Op>) {
    forall i :: 0 <= i < |ops| ==> ops[i].Find? || ops[i].Request? || ops[i].Upload?
  }

  /** The entry of font h holds these ids; without an entry there are none. */
  ghost predicate Holds(entries: seq<Entry>, h: int, named: bool, order: seq<nat>) {
    var r := FindHandle(entries, h);
    if r >= 0 then named && entries[r].order == order else !named && order == []
  }

  lemma {:induction false} FindHandleAt(entries: seq<Entry>, h: int, r: nat)
    requires r < |entries| && entries[r].handle == h && forall i :: 0 <= i < r ==> entries[i].handle != h
    ensures FindHandle(entries, h) == r
  {}

  lemma {:induction false} FindHandleSame(a: seq<Entry>, b: seq<Entry>, h: int)
    requires |a| == |b| && forall i :: 0 <= i < |a| ==> a[i].handle == b[i].handle
    ensures FindHandle(a, h) == FindHandle(b, h)
  {
    var r := FindHandle(a, h);
    if r >= 0 {
      FindHandleAt(b, h, r);
    }
  }

  lemma FindHandleAppend(entries: seq<Entry>, e: Entry, h: int)
    ensures FindHandle(entries + [e], h)
            == if FindHandle(entries, h) >= 0 then FindHandle(entries, h) else if e.handle == h then |entries| else -1
  {
    var r := FindHandle(entries, h);
    if r >= 0 {
      FindHandleAt(entries + [e], h, r);
    } else if e.handle == h {
      FindHandleAt(entries + [e], h, |entries|);
    }
  }

  lemma FindHolds(st: State, x: int, h: int, named: bool, order: seq<nat>)
    requires Holds(st.entries, h, named, order)
    ensures Holds(FindOrCreate(st, x).0.entries, h, named || x == h, order)
  {
    FindHandleAppend(st.entries, NewEntry(x, st.gpu.next), h);
  }

  lemma AtlasGetHolds(st: State, i: nat, g: nat, h: int, named: bool, order: seq<nat>)
    requires Holds(st.entries, h, named, order)
    requires i < |st.entries| && FindHandle(st.entries, st.entries[i].handle) == i
    ensures Holds(AtlasGet(st, i, g).0.entries, h, named, if st.entries[i].handle == h then Touch(order, g) else order)
  {
    FindHandleSame(st.entries, AtlasGet(st, i, g).0.entries, h);
  }

  lemma RequestHolds(st: State, x: int, g: nat, h: int, named: bool, order: seq<nat>)
    requires Holds(st.entries, h, named, order)
    ensures Holds(RequestGlyph(st, x, g).0.entries, h, named || x == h,
                  if x == h && g != 0 && g != 0xFFFF_FFFF then Touch(order, g) else order)
  {
    hide AtlasGet, Touch;
    FindHolds(st, x, h, named, order);
    var (st1, i) := FindOrCreate(st, x);
    FindHandleAppend(st.entries, NewEntry(x, st.gpu.next), x);
    if g != 0 && g != 0xFFFF_FFFF {
      AtlasGetHolds(st1, i, g, h, named || x == h, order);
    }
  }

  lemma UploadHolds(fonts: Fonts, st: State, foreign: set<nat>, i: nat, h: int, named: bool, order: seq<nat>)
    requires Inv(fonts, st, foreign) && Holds(st.entries, h, named, order)
    ensures Holds(Step(fonts, st, foreign, Upload(i)).entries, h, named, order)
  {
    hide Inv, Step;
    if i < |st.entries| {
      UploadStep(fonts, st, foreign, i);
      FindHandleSame(st.entries, Step(fonts, st, foreign, Upload(i)).entries, h);
    } else {
      NoUpload(fonts, st, foreign, i);
    }
  }

  lemma NoUpload(fonts: Fonts, st: State, foreign: set<nat>, i: nat)
    requires Inv(fonts, st, foreign) && i >= |st.entries|
    ensures Step(fonts, st, foreign, Upload(i)) == st
  {}

  /** What the registry holds after any run of its clients' calls: a font has an
      entry exactly if some call named it, and the entry caches exactly the first
      4096 different ids asked of that font, in order of first use. */
  lemma {:induction false} HoldsWhatWasAsked(fonts: Fonts, gpu: Gpu, ops: seq<Op>, h: int)
    requires Inv(fonts, Empty(gpu), gpu.bufs.Keys) && Client(ops)
    ensures Holds(Run(fonts, Empty(gpu), gpu.bufs.Keys, ops).entries, h,
                  Named(ops, h), Take(FirstUses(Asked(ops, h)), MAX_GLYPHS))
    decreases |ops|
  {
    hide Inv, Step, Touch, Holds;
    RunHoldsFirstUses(Asked(ops, h));
    HeldOrder(fonts, gpu, ops, h);
  }

  lemma {:induction false} HeldOrder(fonts: Fonts, gpu: Gpu, ops: seq<Op>, h: int)
    requires Inv(fonts, Empty(gpu), gpu.bufs.Keys) && Client(ops)
    ensures Holds(Run(fonts, Empty(gpu), gpu.bufs.Keys, ops).entries, h,
                  Named(ops, h), TouchAll([], Asked(ops, h)))
    decreases |ops|
  {
    hide Inv, Step, Touch, Holds, Run, FindOrCreate, RequestGlyph, TouchAll, Named, Asked, Empty;
    var foreign := gpu.bufs.Keys;
    if ops == [] {
      HeldAtStart(fonts, gpu, h);
    } else {
      var n := |ops| - 1;
      var op, st := ops[n], Run(fonts, Empty(gpu), foreign, ops[..n]);
      HeldOrder(fonts, gpu, ops[..n], h);
      RunSnoc(fonts, Empty(gpu), foreign, ops[..n], op);
      assert ops == ops[..n] + [op];
      NamedNext(ops, h);
      StepHolds(fonts, st, foreign, op, h, Named(ops[..n], h), TouchAll([], Asked(ops[..n], h)));
      AskedNext(ops, h);
    }
  }

  lemma HeldAtStart(fonts: Fonts, gpu: Gpu, h: int)
    requires Inv(fonts, Empty(gpu), gpu.bufs.Keys)
    ensures Holds(Run(fonts, Empty(gpu), gpu.bufs.Keys, []).entries, h, Named([], h), TouchAll([], Asked([], h)))
  {}

  lemma AskedNext(ops: seq<Op>, h: int)
    requires ops != []
    ensures var was := TouchAll([], Asked(ops[..|ops| - 1], h));
            var op := ops[|ops| - 1];
            TouchAll([], Asked(ops, h))
            == if op.Request? && op.handle == h && op.g != 0 && op.g != 0xFFFF_FFFF then Touch(was, op.g) else was
  {
    hide Touch;
    var a, op := Asked(ops[..|ops| - 1], h), ops[|ops| - 1];
    if op.Request? && op.handle == h && op.g != 0 && op.g != 0xFFFF_FFFF {
      assert Asked(ops, h) == a + [op.g];
      TouchAllSnoc(a, op.g);
    } else {
      assert Asked(ops, h) == a;
    }
  }

  lemma TouchAllSnoc(a: seq<nat>, g: nat)
    ensures TouchAll([], a + [g]) == Touch(TouchAll([], a), g)
  {
    assert (a + [g])[..|a|] == a;
  }

  lemma StepHolds(fonts: Fonts, st: State, foreign: set<nat>, op: Op, h: int, named: bool, order: seq<nat>)
    requires Inv(fonts, st, foreign) && Holds(st.entries, h, named, order)
    requires op.Find? || op.Request? || op.Upload?
    ensures Holds(Step(fonts, st, foreign, op).entries, h, named || Names(op, h),
                  if op.Request? && op.handle == h && op.g != 0 && op.g != 0xFFFF_FFFF
                  then Touch(order, op.g) else order)
  {
    hide Inv, Holds, Touch, FindOrCreate, RequestGlyph, UploadAt;
    match op
    case Find(x) => FindHolds(st, x, h, named, order);
    case Request(x, g) => RequestHolds(st, x, g, h, named, order);
    case Upload(i) => UploadHolds(fonts, st, foreign, i, h, named, order);
    case _ =>
  }
}
