/**
 The font registry (sdk/font_fallback.h): one entry per font handle, each with
 a glyph atlas and two GPU storage buffers that mirror it after an upload.

 RegistrySpec is the registry together with the GPU's buffers as one value;
 RegistryRuns proves what every run of calls keeps.
 */
module RegistrySpec {
  import opened GlyphCache
  import opened Sequences

  const GPU_GLYPH_CAP: nat := 4096 * RECORD_SIZE
  const GPU_SEGMENT_CAP: nat := 8192 * RECORD_SIZE

  // ---- GPU buffers -------------------------------------------------------------

  /** One 48-byte record of a storage buffer. */
  datatype Cell = GlyphCell(info: GlyphInfo) | SegmentCell(seg: Segment)

  datatype Buffer = Buffer(capacity: nat, data: seq<Cell>)

  /** Buffer ids are never reissued: `next` is above every id handed out. */
  datatype Gpu = Gpu(next: nat, bufs: map<nat, Buffer>)

  ghost predicate GpuOk(g: Gpu) {
    && (forall b :: b in g.bufs ==> 0 < b < g.next)
    && (forall b :: b in g.bufs ==> |g.bufs[b].data| * RECORD_SIZE <= g.bufs[b].capacity)
    && 0 < g.next
  }

  function CreateBuffer(g: Gpu, capacity: nat): Gpu {
    Gpu(g.next + 1, g.bufs[g.next := Buffer(capacity, [])])
  }

  /** Only a live buffer can be destroyed, so none is destroyed twice. */
  function DestroyBuffer(g: Gpu, b: nat): Gpu
    requires b in g.bufs
  {
    g.(bufs := g.bufs - {b})
  }

  /** A write at offset 0 must stay inside the buffer. */
  function WriteBuffer(g: Gpu, b: nat, data: seq<Cell>): Gpu
    requires b in g.bufs && |data| * RECORD_SIZE <= g.bufs[b].capacity
  {
    var was := g.bufs[b].data;
    var rest := if |data| <= |was| then was[|data|..] else [];
    g.(bufs := g.bufs[b := Buffer(g.bufs[b].capacity, data + rest)])
  }

  function DoubleUntil(c: nat, need: nat): (r: nat)
    requires c >= 1
    ensures r >= need && r >= c
    decreases need - c
  {
    if c < need then DoubleUntil(2 * c, need) else c
  }

  /** Uploads data, replacing the buffer by a larger one if it does not fit. */
  function Send(g: Gpu, b: nat, cap: nat, data: seq<Cell>): (Gpu, nat, nat)
    requires b in g.bufs && g.bufs[b].capacity == cap >= 1
  {
    var need := |data| * RECORD_SIZE;
    if need > cap then
      var newCap := DoubleUntil(2 * cap, need);
      (WriteBuffer(CreateBuffer(DestroyBuffer(g, b), newCap), g.next, data), g.next, newCap)
    else (WriteBuffer(g, b, data), b, cap)
  }

  /** What a send does to the GPU: the buffer it returns begins with the data,
      at most one old buffer is gone, and all others are as before. */
  lemma SendEffect(g: Gpu, b: nat, cap: nat, data: seq<Cell>)
    requires GpuOk(g) && b in g.bufs && g.bufs[b].capacity == cap >= 1
    ensures var (g', b', cap') := Send(g, b, cap, data);
            && GpuOk(g') && g.next <= g'.next
            && b' in g'.bufs && (b' == b || b' == g.next)
            && g'.bufs[b'].capacity == cap'
            && data <= g'.bufs[b'].data
            && g'.bufs.Keys == (g.bufs.Keys - {b}) + {b'}
            && (forall x :: x in g.bufs && x != b ==> x in g'.bufs && g'.bufs[x] == g.bufs[x])
  {}

  /** A buffer that is not replaced keeps what lies beyond the data sent. */
  lemma SendKeepsRest(g: Gpu, b: nat, cap: nat, data: seq<Cell>, k: nat)
    requires GpuOk(g) && b in g.bufs && g.bufs[b].capacity == cap >= 1
    requires Send(g, b, cap, data).1 == b && |data| <= k < |g.bufs[b].data|
    ensures var g' := Send(g, b, cap, data).0;
            b in g'.bufs && k < |g'.bufs[b].data| && g'.bufs[b].data[k] == g.bufs[b].data[k]
  {}

  // ---- Registry ------------------------------------------------------------------

  datatype Entry = Entry(handle: int, order: seq<nat>, dirty: bool,
                         glyphBuf: nat, segBuf: nat, glyphCap: nat, segCap: nat)

  datatype State = State(entries: seq<Entry>, gpu: Gpu)

  type Fonts = int -> Font

  ghost predicate FontsOk(fonts: Fonts) { forall h: int :: FontOk(fonts(h)) }

  function GlyphCells(f: Font, order: seq<nat>): seq<Cell> {
    seq(|order|, i requires 0 <= i < |order| => GlyphCell(Record(f, order, i)))
  }

  function SegmentCells(f: Font, order: seq<nat>): seq<Cell> {
    var s := Segments(f, order);
    seq(|s|, i requires 0 <= i < |s| => SegmentCell(s[i]))
  }

  /** The capacities the segment buffer can take: 8192 to 2^20 records. */
  predicate GpuSegmentCap(c: nat) {
    c in {0x2000 * RECORD_SIZE, 0x4000 * RECORD_SIZE, 0x8000 * RECORD_SIZE, 0x1_0000 * RECORD_SIZE,
          0x2_0000 * RECORD_SIZE, 0x4_0000 * RECORD_SIZE, 0x8_0000 * RECORD_SIZE, 0x10_0000 * RECORD_SIZE}
  }

  ghost predicate BuffersOk(g: Gpu, e: Entry) {
    && e.glyphBuf in g.bufs && g.bufs[e.glyphBuf].capacity == e.glyphCap == GPU_GLYPH_CAP
    && e.segBuf in g.bufs && g.bufs[e.segBuf].capacity == e.segCap && GpuSegmentCap(e.segCap)
    && e.glyphBuf != e.segBuf
  }

  /** The two GPU buffers begin with exactly the atlas arrays. */
  ghost predicate Mirrored(fonts: Fonts, g: Gpu, e: Entry)
    requires BuffersOk(g, e)
  {
    && GlyphCells(fonts(e.handle), e.order) <= g.bufs[e.glyphBuf].data
    && SegmentCells(fonts(e.handle), e.order) <= g.bufs[e.segBuf].data
  }

  ghost predicate EntryOk(fonts: Fonts, g: Gpu, e: Entry) {
    && Distinct(e.order) && |e.order| <= MAX_GLYPHS
    && BuffersOk(g, e)
    && (!e.dirty ==> Mirrored(fonts, g, e))
  }

  predicate Has(e: Entry, b: nat) { b == e.glyphBuf || b == e.segBuf }

  predicate Apart(a: Entry, b: Entry) { !Has(a, b.glyphBuf) && !Has(a, b.segBuf) }

  /** No two buffer roles share a buffer. */
  ghost predicate Separate(entries: seq<Entry>) {
    && (forall i :: 0 <= i < |entries| ==> entries[i].glyphBuf != entries[i].segBuf)
    && (forall i, j :: 0 <= i < j < |entries| ==> Apart(entries[i], entries[j]))
  }

  ghost function OwnedBuffers(entries: seq<Entry>): set<nat> {
    if entries == [] then {} else
      var e := entries[|entries| - 1];
      OwnedBuffers(entries[..|entries| - 1]) + {e.glyphBuf, e.segBuf}
  }

  /** Each live buffer is foreign or plays one role in one entry. */
  ghost predicate Layout(entries: seq<Entry>, live: set<nat>, foreign: set<nat>) {
    && Separate(entries)
    && live == foreign + OwnedBuffers(entries)
    && foreign !! OwnedBuffers(entries)
  }

  ghost predicate EntriesOk(fonts: Fonts, g: Gpu, entries: seq<Entry>) {
    forall i :: 0 <= i < |entries| ==> EntryOk(fonts, g, entries[i])
  }

  /** The state invariant; `foreign` are the buffers of other owners. */
  ghost predicate Inv(fonts: Fonts, st: State, foreign: set<nat>) {
    && FontsOk(fonts)
    && GpuOk(st.gpu)
    && EntriesOk(fonts, st.gpu, st.entries)
    && Layout(st.entries, st.gpu.bufs.Keys, foreign)
  }

  // ---- One call, as a function -----------------------------------------------------

  function NewEntry(handle: int, next: nat): Entry {
    Entry(handle, [], false, next, next + 1, GPU_GLYPH_CAP, GPU_SEGMENT_CAP)
  }

  function CreateEntry(st: State, handle: int): State {
    State(st.entries + [NewEntry(handle, st.gpu.next)],
          CreateBuffer(CreateBuffer(st.gpu, GPU_GLYPH_CAP), GPU_SEGMENT_CAP))
  }

  /** The first entry of a handle, or -1. */
  function FindHandle(entries: seq<Entry>, handle: int): (r: int)
    ensures -1 <= r < |entries|
    ensures r >= 0 ==> entries[r].handle == handle
    ensures forall i :: 0 <= i < (if r >= 0 then r else |entries|) ==> entries[i].handle != handle
  {
    if entries == [] then -1 else
      var n := |entries| - 1;
      var r := FindHandle(entries[..n], handle);
      if r >= 0 then r else if entries[n].handle == handle then n else -1
  }

  function FindOrCreate(st: State, handle: int): (State, nat) {
    var r := FindHandle(st.entries, handle);
    if r >= 0 then (st, r) else (CreateEntry(st, handle), |st.entries|)
  }

  function TouchEntry(e: Entry, g: nat): Entry {
    var order := Touch(e.order, g);
    e.(order := order, dirty := e.dirty || order != e.order)
  }

  function AtlasGet(st: State, i: int, g: nat): (State, int) {
    if i < 0 || i >= |st.entries| then (st, -1) else
      var e := TouchEntry(st.entries[i], g);
      (st.(entries := st.entries[i := e]), IndexOf(e.order, g))
  }

  function UploadEntry(fonts: Fonts, g: Gpu, e: Entry): (Gpu, Entry)
    requires BuffersOk(g, e) && GpuOk(g)
  {
    if !e.dirty then (g, e) else
      var f := fonts(e.handle);
      var (g1, gb, gc) := if |e.order| > 0 then Send(g, e.glyphBuf, e.glyphCap, GlyphCells(f, e.order))
                          else (g, e.glyphBuf, e.glyphCap);
      SendEffect(g, e.glyphBuf, e.glyphCap, GlyphCells(f, e.order));
      var (g2, sb, sc) := if |Segments(f, e.order)| > 0 then Send(g1, e.segBuf, e.segCap, SegmentCells(f, e.order))
                          else (g1, e.segBuf, e.segCap);
      (g2, e.(dirty := false, glyphBuf := gb, segBuf := sb, glyphCap := gc, segCap := sc))
  }

  function UploadAt(fonts: Fonts, st: State, i: nat): State
    requires i < |st.entries| && BuffersOk(st.gpu, st.entries[i]) && GpuOk(st.gpu)
  {
    var (g, e) := UploadEntry(fonts, st.gpu, st.entries[i]);
    State(st.entries[i := e], g)
  }

  // ---- Each call keeps the invariant ---------------------------------------------

  lemma DoubleUntilCap(c: nat, need: nat)
    requires GpuSegmentCap(c) && need <= MAX_SEGMENTS * RECORD_SIZE
    ensures GpuSegmentCap(DoubleUntil(c, need))
    decreases need - c
  {
    if c < need {
      DoubleUntilCap(2 * c, need);
    }
  }

  /** One entry of an upload: it becomes clean and mirrored, keeps its handle,
      glyphs and glyph buffer, and touches no buffer but its own. */
  lemma UploadEntryOk(fonts: Fonts, g: Gpu, e: Entry)
    requires FontsOk(fonts) && GpuOk(g) && EntryOk(fonts, g, e)
    ensures var (g', e') := UploadEntry(fonts, g, e);
            && GpuOk(g') && EntryOk(fonts, g', e') && !e'.dirty
            && e'.handle == e.handle && e'.order == e.order && e'.glyphBuf == e.glyphBuf
            && (e'.segBuf == e.segBuf || e'.segBuf >= g.next)
            && g'.bufs.Keys == (g.bufs.Keys - {e.segBuf}) + {e'.segBuf}
            && (forall x :: x in g.bufs && !Has(e, x) ==> x in g'.bufs && g'.bufs[x] == g.bufs[x])
  {
    if e.dirty {
      var f := fonts(e.handle);
      var glyphs, segs := GlyphCells(f, e.order), SegmentCells(f, e.order);
      ByteSizesFit(f, e.order);
      SendEffect(g, e.glyphBuf, e.glyphCap, glyphs);
      var g1 := if |e.order| > 0 then Send(g, e.glyphBuf, e.glyphCap, glyphs).0 else g;
      assert g1.bufs.Keys == g.bufs.Keys;
      SendEffect(g1, e.segBuf, e.segCap, segs);
      if |segs| * RECORD_SIZE > e.segCap {
        DoubleUntilCap(2 * e.segCap, |segs| * RECORD_SIZE);
      }
    }
  }

  lemma {:induction false} OwnedContains(entries: seq<Entry>, i: nat)
    requires i < |entries|
    ensures entries[i].glyphBuf in OwnedBuffers(entries) && entries[i].segBuf in OwnedBuffers(entries)
    decreases |entries|
  {
    var n := |entries| - 1;
    if i < n {
      OwnedContains(entries[..n], i);
    }
  }

  lemma {:induction false} OwnedApart(entries: seq<Entry>, b: nat)
    requires forall j :: 0 <= j < |entries| ==> !Has(entries[j], b)
    ensures b !in OwnedBuffers(entries)
  {
    if entries != [] {
      OwnedApart(entries[..|entries| - 1], b);
    }
  }

  lemma {:induction false} OwnedUpdate(entries: seq<Entry>, i: nat, e: Entry)
    requires Separate(entries) && i < |entries| && e.glyphBuf == entries[i].glyphBuf
    ensures OwnedBuffers(entries[i := e]) == (OwnedBuffers(entries) - {entries[i].segBuf}) + {e.segBuf}
    decreases |entries|
  {
    var n := |entries| - 1;
    var front, last, was := entries[..n], entries[n], entries[i];
    if i < n {
      OwnedUpdate(front, i, e);
      assert entries[i := e][..n] == front[i := e];
      assert Apart(was, last);
    } else {
      assert entries[i := e][..n] == front;
      OwnedApart(front, was.segBuf);
    }
  }

  lemma SeparateUpdate(entries: seq<Entry>, i: nat, e: Entry)
    requires Separate(entries) && i < |entries| && e.glyphBuf == entries[i].glyphBuf != e.segBuf
    requires e.segBuf == entries[i].segBuf || forall j :: 0 <= j < |entries| ==> !Has(entries[j], e.segBuf)
    ensures Separate(entries[i := e])
  {}

  lemma LayoutUpdate(entries: seq<Entry>, live: set<nat>, foreign: set<nat>, i: nat, e: Entry, live': set<nat>)
    requires Layout(entries, live, foreign) && i < |entries|
    requires e.glyphBuf == entries[i].glyphBuf != e.segBuf
    requires e.segBuf == entries[i].segBuf || e.segBuf !in live
    requires live' == (live - {entries[i].segBuf}) + {e.segBuf}
    ensures Layout(entries[i := e], live', foreign)
  {
    OwnedUpdate(entries, i, e);
    OwnedContains(entries, i);
    forall j | 0 <= j < |entries| ensures e.segBuf !in live ==> !Has(entries[j], e.segBuf) {
      OwnedContains(entries, j);
    }
    SeparateUpdate(entries, i, e);
  }

  lemma LayoutAppend(entries: seq<Entry>, live: set<nat>, foreign: set<nat>, e: Entry)
    requires Layout(entries, live, foreign)
    requires e.glyphBuf !in live && e.segBuf !in live && e.glyphBuf != e.segBuf
    ensures Layout(entries + [e], live + {e.glyphBuf, e.segBuf}, foreign)
  {
    assert (entries + [e])[..|entries|] == entries;
    forall j | 0 <= j < |entries| ensures Apart(entries[j], e) {
      OwnedContains(entries, j);
    }
  }

  lemma EntriesOkUpdate(fonts: Fonts, g: Gpu, g': Gpu, entries: seq<Entry>, i: nat, e: Entry)
    requires EntriesOk(fonts, g, entries) && Separate(entries) && i < |entries|
    requires EntryOk(fonts, g', e)
    requires forall x :: x in g.bufs && !Has(entries[i], x) ==> x in g'.bufs && g'.bufs[x] == g.bufs[x]
    ensures EntriesOk(fonts, g', entries[i := e])
  {}

  lemma EntriesOkAppend(fonts: Fonts, g: Gpu, g': Gpu, entries: seq<Entry>, e: Entry)
    requires EntriesOk(fonts, g, entries) && EntryOk(fonts, g', e)
    requires forall x :: x in g.bufs ==> x in g'.bufs && g'.bufs[x] == g.bufs[x]
    ensures EntriesOk(fonts, g', entries + [e])
  {}

  /** Entry i has been cleaned; handles, glyph buffers and glyphs are as before. */
  ghost predicate Uploaded(a: seq<Entry>, b: seq<Entry>, i: nat) {
    && i < |a| == |b|
    && !b[i].dirty && b[i].handle == a[i].handle && b[i].order == a[i].order && b[i].glyphBuf == a[i].glyphBuf
    && (forall j :: 0 <= j < |a| && j != i ==> b[j] == a[j])
  }

  lemma EntryAt(fonts: Fonts, st: State, foreign: set<nat>, i: nat)
    requires Inv(fonts, st, foreign) && i < |st.entries|
    ensures GpuOk(st.gpu) && EntryOk(fonts, st.gpu, st.entries[i]) && BuffersOk(st.gpu, st.entries[i])
  {}

  /** Uploading one entry keeps the invariant and all foreign buffers. */
  lemma UploadAtInv(fonts: Fonts, st: State, foreign: set<nat>, i: nat)
    requires Inv(fonts, st, foreign) && i < |st.entries|
    requires GpuOk(st.gpu) && BuffersOk(st.gpu, st.entries[i])
    ensures Inv(fonts, UploadAt(fonts, st, i), foreign)
    ensures ForeignKept(st.gpu, UploadAt(fonts, st, i).gpu, foreign)
    ensures Uploaded(st.entries, UploadAt(fonts, st, i).entries, i)
  {
    var e := st.entries[i];
    var (g', e') := UploadEntry(fonts, st.gpu, e);
    UploadEntryOk(fonts, st.gpu, e);
    EntriesOkUpdate(fonts, st.gpu, g', st.entries, i, e');
    LayoutUpdate(st.entries, st.gpu.bufs.Keys, foreign, i, e', g'.bufs.Keys);
    OwnedContains(st.entries, i);
  }

  ghost predicate ForeignKept(g: Gpu, g': Gpu, foreign: set<nat>) {
    forall x :: x in foreign ==> x in g.bufs && x in g'.bufs && g'.bufs[x] == g.bufs[x]
  }

  lemma CreateEntryInv(fonts: Fonts, st: State, foreign: set<nat>, handle: int)
    requires Inv(fonts, st, foreign)
    ensures Inv(fonts, CreateEntry(st, handle), foreign)
    ensures ForeignKept(st.gpu, CreateEntry(st, handle).gpu, foreign)
  {
    var e, st' := NewEntry(handle, st.gpu.next), CreateEntry(st, handle);
    LayoutAppend(st.entries, st.gpu.bufs.Keys, foreign, e);
    assert st'.gpu.bufs.Keys == st.gpu.bufs.Keys + {e.glyphBuf, e.segBuf};
    NewEntryOk(fonts, st.gpu, handle);
    EntriesOkAppend(fonts, st.gpu, st'.gpu, st.entries, e);
  }

  lemma NewEntryOk(fonts: Fonts, g: Gpu, handle: int)
    requires GpuOk(g)
    ensures var g' := CreateBuffer(CreateBuffer(g, GPU_GLYPH_CAP), GPU_SEGMENT_CAP);
            GpuOk(g') && EntryOk(fonts, g', NewEntry(handle, g.next))
  {}

  lemma AtlasGetInv(fonts: Fonts, st: State, foreign: set<nat>, i: int, g: nat)
    requires Inv(fonts, st, foreign)
    ensures Inv(fonts, AtlasGet(st, i, g).0, foreign)
  {
    if 0 <= i < |st.entries| {
      var e := st.entries[i];
      var e' := TouchEntry(e, g);
      TouchKeeps(e.order, g);
      assert EntryOk(fonts, st.gpu, e);
      OwnedContains(st.entries, i);
      LayoutUpdate(st.entries, st.gpu.bufs.Keys, foreign, i, e', st.gpu.bufs.Keys);
      EntriesOkUpdate(fonts, st.gpu, st.gpu, st.entries, i, e');
    }
  }

  lemma {:induction false} OwnedCount(entries: seq<Entry>)
    requires Separate(entries)
    ensures |OwnedBuffers(entries)| == 2 * |entries|
  {
    if entries != [] {
      var n := |entries| - 1;
      var a, e := OwnedBuffers(entries[..n]), entries[n];
      OwnedCount(entries[..n]);
      OwnedApart(entries[..n], e.glyphBuf);
      OwnedApart(entries[..n], e.segBuf);
      assert OwnedBuffers(entries) == (a + {e.glyphBuf}) + {e.segBuf};
    }
  }

  /** The live buffers are the foreign ones and exactly two per entry. */
  lemma TwoBuffersPerEntry(fonts: Fonts, st: State, foreign: set<nat>)
    requires Inv(fonts, st, foreign)
    ensures |st.gpu.bufs| == |foreign| + 2 * |st.entries|
  {
    OwnedCount(st.entries);
    assert |st.gpu.bufs.Keys| == |foreign| + |OwnedBuffers(st.entries)|;
  }
}

module RegistryRuns {
  import opened GlyphCache
  import opened Sequences
  import opened RegistrySpec

  /** Entries only ever grow: indices, handles, glyph buffers and the glyphs
      already cached stay as they are. */
  ghost predicate Extends(a: seq<Entry>, b: seq<Entry>) {
    && |a| <= |b|
    && (forall i :: 0 <= i < |a| ==>
          && a[i].handle == b[i].handle
          && a[i].glyphBuf == b[i].glyphBuf
          && a[i].order <= b[i].order)
  }

  datatype Op =
    | Primary(handle: int)
    | Find(handle: int)
    | Fetch(entry: int, g: nat)
    | Upload(i: nat)
    | Request(handle: int, g: nat)

  const MISSING_GLYPH: nat := 0xFFFF_FFFF

  /** Glyph ids that are looked up: not .notdef and not the missing marker. */
  predicate Drawable(g: nat) { g != 0 && g != MISSING_GLYPH }

  /** Finds the font's entry and looks the glyph up in it: new state, entry
      index, atlas index or -1. */
  function RequestGlyph(st: State, handle: int, g: nat): (State, nat, int) {
    var (st1, i) := FindOrCreate(st, handle);
    if Drawable(g) then
      var (st2, r) := AtlasGet(st1, i, g);
      (st2, i, r)
    else (st1, i, -1)
  }

  ghost function Step(fonts: Fonts, st: State, foreign: set<nat>, op: Op): State
    requires Inv(fonts, st, foreign)
  {
    match op
    case Primary(h) => CreateEntry(st, h)
    case Find(h) => FindOrCreate(st, h).0
    case Fetch(i, g) => AtlasGet(st, i, g).0
    case Upload(i) => if i < |st.entries| then EntryAt(fonts, st, foreign, i); UploadAt(fonts, st, i) else st
    case Request(h, g) => RequestGlyph(st, h, g).0
  }

  lemma UploadStep(fonts: Fonts, st: State, foreign: set<nat>, i: nat)
    requires Inv(fonts, st, foreign) && i < |st.entries|
    ensures Inv(fonts, Step(fonts, st, foreign, Upload(i)), foreign)
    ensures Uploaded(st.entries, Step(fonts, st, foreign, Upload(i)).entries, i)
    ensures ForeignKept(st.gpu, Step(fonts, st, foreign, Upload(i)).gpu, foreign)
  {
    EntryAt(fonts, st, foreign, i);
    UploadAtInv(fonts, st, foreign, i);
  }

  lemma FetchStep(fonts: Fonts, st: State, foreign: set<nat>, i: int, g: nat)
    requires Inv(fonts, st, foreign)
    ensures Inv(fonts, AtlasGet(st, i, g).0, foreign)
    ensures Extends(st.entries, AtlasGet(st, i, g).0.entries)
  {
    AtlasGetInv(fonts, st, foreign, i, g);
    if 0 <= i < |st.entries| {
      EntryAt(fonts, st, foreign, i);
      TouchKeeps(st.entries[i].order, g);
    }
  }

  lemma FindStep(fonts: Fonts, st: State, foreign: set<nat>, h: int)
    requires Inv(fonts, st, foreign)
    ensures var (st1, i) := FindOrCreate(st, h);
            && Inv(fonts, st1, foreign) && Extends(st.entries, st1.entries)
            && ForeignKept(st.gpu, st1.gpu, foreign)
            && i < |st1.entries| && st1.entries[i].handle == h
  {
    CreateEntryInv(fonts, st, foreign, h);
  }

  lemma RequestStep(fonts: Fonts, st: State, foreign: set<nat>, h: int, g: nat)
    requires Inv(fonts, st, foreign)
    ensures Inv(fonts, RequestGlyph(st, h, g).0, foreign)
    ensures Extends(st.entries, RequestGlyph(st, h, g).0.entries)
    ensures ForeignKept(st.gpu, RequestGlyph(st, h, g).0.gpu, foreign)
  {
    hide Inv, FindOrCreate;
    FindStep(fonts, st, foreign, h);
    var (st1, i) := FindOrCreate(st, h);
    if Drawable(g) {
      FetchStep(fonts, st1, foreign, i, g);
      ExtendsTransitive(st.entries, st1.entries, AtlasGet(st1, i, g).0.entries);
    }
  }

  lemma StepKeeps(fonts: Fonts, st: State, foreign: set<nat>, op: Op)
    requires Inv(fonts, st, foreign)
    ensures Inv(fonts, Step(fonts, st, foreign, op), foreign)
    ensures Extends(st.entries, Step(fonts, st, foreign, op).entries)
    ensures ForeignKept(st.gpu, Step(fonts, st, foreign, op).gpu, foreign)
  {
    hide EntriesOk, GpuOk, UploadEntry;
    match op
    case Primary(h) => CreateEntryInv(fonts, st, foreign, h);
    case Find(h) => FindStep(fonts, st, foreign, h);
    case Fetch(i, g) => FetchStep(fonts, st, foreign, i, g);
    case Upload(i) => if i < |st.entries| { UploadStep(fonts, st, foreign, i); }
    case Request(h, g) => RequestStep(fonts, st, foreign, h, g);
  }

  ghost function Run(fonts: Fonts, st: State, foreign: set<nat>, ops: seq<Op>): State
    requires Inv(fonts, st, foreign)
    decreases |ops|
  {
    if ops == [] then st else
      StepKeeps(fonts, st, foreign, ops[0]);
      Run(fonts, Step(fonts, st, foreign, ops[0]), foreign, ops[1..])
  }

  /** Every run keeps the invariant, every index and cached glyph, and the
      buffers of other owners. */
  lemma {:induction false} RunKeeps(fonts: Fonts, st: State, foreign: set<nat>, ops: seq<Op>)
    requires Inv(fonts, st, foreign)
    ensures Inv(fonts, Run(fonts, st, foreign, ops), foreign)
    ensures Extends(st.entries, Run(fonts, st, foreign, ops).entries)
    ensures ForeignKept(st.gpu, Run(fonts, st, foreign, ops).gpu, foreign)
    decreases |ops|
  {
    if ops != [] {
      StepKeeps(fonts, st, foreign, ops[0]);
      var s := Step(fonts, st, foreign, ops[0]);
      RunKeeps(fonts, s, foreign, ops[1..]);
      ExtendsTransitive(st.entries, s.entries, Run(fonts, st, foreign, ops).entries);
    }
  }

  lemma ExtendsTransitive(a: seq<Entry>, b: seq<Entry>, c: seq<Entry>)
    requires Extends(a, b) && Extends(b, c)
    ensures Extends(a, c)
  {}

  ghost function Empty(gpu: Gpu): State { State([], gpu) }

  lemma EmptyInv(fonts: Fonts, gpu: Gpu)
    requires FontsOk(fonts) && GpuOk(gpu)
    ensures Inv(fonts, Empty(gpu), gpu.bufs.Keys)
  {}

  /** A clean entry is mirrored record for record, and the buffer sizes of any
      entry stay within signed 32 bits; the glyph buffer never grows. */
  ghost predicate MirrorAt(fonts: Fonts, st: State, i: nat) {
    i < |st.entries| ==>
      var e := st.entries[i];
      && BuffersOk(st.gpu, e)
      && (!e.dirty ==> Mirrored(fonts, st.gpu, e))
      && e.glyphCap == GPU_GLYPH_CAP
      && GPU_SEGMENT_CAP <= e.segCap <= MAX_SEGMENTS * RECORD_SIZE < I32_LIMIT
  }

  lemma InvMirrors(fonts: Fonts, st: State, foreign: set<nat>, i: nat)
    requires Inv(fonts, st, foreign)
    ensures MirrorAt(fonts, st, i)
  {}

  /** In every state that a run of calls can reach, each entry satisfies
      MirrorAt, and beyond the foreign buffers two per entry are live. */
  lemma ReachableMirror(fonts: Fonts, gpu: Gpu, ops: seq<Op>, i: nat)
    requires FontsOk(fonts) && GpuOk(gpu)
    ensures Inv(fonts, Empty(gpu), gpu.bufs.Keys)
    ensures MirrorAt(fonts, Run(fonts, Empty(gpu), gpu.bufs.Keys, ops), i)
    ensures var st := Run(fonts, Empty(gpu), gpu.bufs.Keys, ops); |st.gpu.bufs| == |gpu.bufs| + 2 * |st.entries|
  {
    hide Run, Inv, MirrorAt;
    EmptyInv(fonts, gpu);
    RunKeeps(fonts, Empty(gpu), gpu.bufs.Keys, ops);
    var st := Run(fonts, Empty(gpu), gpu.bufs.Keys, ops);
    TwoBuffersPerEntry(fonts, st, gpu.bufs.Keys);
    InvMirrors(fonts, st, gpu.bufs.Keys, i);
  }

  /** fallback_upload_dirty from entry i on: one step per entry, in order. */
  function UploadPass(i: nat, n: nat): seq<Op>
    decreases n - i
  {
    if i >= n then [] else [Upload(i)] + UploadPass(i + 1, n)
  }

  ghost predicate CleanUpto(entries: seq<Entry>, n: nat) {
    n <= |entries| && forall i :: 0 <= i < n ==> !entries[i].dirty
  }

  lemma {:induction false} UploadPassCleans(fonts: Fonts, st: State, foreign: set<nat>, i: nat)
    requires Inv(fonts, st, foreign) && CleanUpto(st.entries, i)
    ensures var r := Run(fonts, st, foreign, UploadPass(i, |st.entries|));
            && |r.entries| == |st.entries| && CleanUpto(r.entries, |r.entries|)
            && (forall j :: 0 <= j < |r.entries| ==> r.entries[j].order == st.entries[j].order)
    decreases |st.entries| - i
  {
    hide Inv, Step;
    if i < |st.entries| {
      UploadStep(fonts, st, foreign, i);
      PassUnfolds(fonts, st, foreign, i);
      UploadPassCleans(fonts, Step(fonts, st, foreign, Upload(i)), foreign, i + 1);
    }
  }

  lemma PassUnfolds(fonts: Fonts, st: State, foreign: set<nat>, i: nat)
    requires Inv(fonts, st, foreign) && i < |st.entries|
    requires Inv(fonts, Step(fonts, st, foreign, Upload(i)), foreign)
    ensures Run(fonts, st, foreign, UploadPass(i, |st.entries|))
            == Run(fonts, Step(fonts, st, foreign, Upload(i)), foreign, UploadPass(i + 1, |st.entries|))
  {
    var pass := UploadPass(i, |st.entries|);
    assert pass[0] == Upload(i) && pass[1..] == UploadPass(i + 1, |st.entries|);
  }

  /** After an upload every entry is clean, hence mirrored, and no cached glyph
      has changed. */
  lemma UploadMirrorsAll(fonts: Fonts, st: State, foreign: set<nat>, i: nat)
    requires Inv(fonts, st, foreign) && i < |st.entries|
    ensures var r := Run(fonts, st, foreign, UploadPass(0, |st.entries|));
            && |r.entries| == |st.entries|
            && r.entries[i].order == st.entries[i].order
            && BuffersOk(r.gpu, r.entries[i]) && Mirrored(fonts, r.gpu, r.entries[i])
  {
    UploadPassCleans(fonts, st, foreign, 0);
    RunKeeps(fonts, st, foreign, UploadPass(0, |st.entries|));
    EntryAt(fonts, Run(fonts, st, foreign, UploadPass(0, |st.entries|)), foreign, i);
  }

  /** Creating an entry always adds one, for its font, empty and clean, even if the
      font has one already. */
  lemma PrimaryEffect(fonts: Fonts, st: State, foreign: set<nat>, h: int)
    requires Inv(fonts, st, foreign)
    ensures var entries := Step(fonts, st, foreign, Primary(h)).entries;
            && |entries| == |st.entries| + 1 && entries[..|st.entries|] == st.entries
            && entries[|st.entries|].handle == h && entries[|st.entries|].order == [] && !entries[|st.entries|].dirty
  {}

  /** Fetching a glyph of an entry appends it to that entry alone, unless it is there
      or the atlas is full, and makes it dirty if it was appended; an index out of
      range changes nothing. */
  lemma FetchEffect(fonts: Fonts, st: State, foreign: set<nat>, i: int, g: nat)
    requires Inv(fonts, st, foreign)
    ensures var st' := Step(fonts, st, foreign, Fetch(i, g));
            if i < 0 || i >= |st.entries| then st' == st else
              var e := st.entries[i];
              var added := g !in e.order && |e.order| < 4096;
              && st'.gpu == st.gpu
              && st'.entries == st.entries[i := e.(order := if added then e.order + [g] else e.order,
                                                   dirty := e.dirty || added)]
  {}

  /** A reference to a cached glyph: entry index, handle, glyph id and index. */
  ghost predicate Refers(entries: seq<Entry>, entry: int, handle: int, g: nat, idx: int) {
    && 0 <= entry < |entries|
    && entries[entry].handle == handle
    && 0 <= idx < |entries[entry].order|
    && entries[entry].order[idx] == g
    && IndexOf(entries[entry].order, g) == idx
  }

  /** A reference stays good through every later run of calls. */
  lemma RefersForever(fonts: Fonts, st: State, foreign: set<nat>, ops: seq<Op>,
                      entry: int, handle: int, g: nat, idx: int)
    requires Inv(fonts, st, foreign) && Refers(st.entries, entry, handle, g, idx)
    ensures Refers(Run(fonts, st, foreign, ops).entries, entry, handle, g, idx)
  {
    RunKeeps(fonts, st, foreign, ops);
    RefersExtends(st.entries, Run(fonts, st, foreign, ops).entries, entry, handle, g, idx);
  }

  lemma RefersExtends(a: seq<Entry>, b: seq<Entry>, entry: int, handle: int, g: nat, idx: int)
    requires Extends(a, b) && Refers(a, entry, handle, g, idx)
    ensures Refers(b, entry, handle, g, idx)
  {
    assert g in a[entry].order;
    IndexOfPrefix(a[entry].order, b[entry].order, g);
  }

  /** A request ends in the right entry, with a good reference to the glyph, or
      with -1 because the glyph is not drawable or the atlas is full. */
  lemma RequestOutcome(fonts: Fonts, st: State, foreign: set<nat>, h: int, g: nat)
    requires Inv(fonts, st, foreign)
    ensures var (st2, i, r) := RequestGlyph(st, h, g);
            && i < |st2.entries| && st2.entries[i].handle == h
            && (r >= 0 ==> Drawable(g) && Refers(st2.entries, i, h, g, r))
            && (r < 0 && Drawable(g) ==> g !in st2.entries[i].order && |st2.entries[i].order| >= MAX_GLYPHS)
  {
    hide Inv;
    FindStep(fonts, st, foreign, h);
  }

  lemma {:induction false} RunSnoc(fonts: Fonts, st: State, foreign: set<nat>, ops: seq<Op>, op: Op)
    requires Inv(fonts, st, foreign)
    ensures Inv(fonts, Run(fonts, st, foreign, ops), foreign)
    ensures Run(fonts, st, foreign, ops + [op]) == Step(fonts, Run(fonts, st, foreign, ops), foreign, op)
    decreases |ops|
  {
    hide Inv, Step;
    RunKeeps(fonts, st, foreign, ops);
    if ops == [] {
      assert ([] + [op])[1..] == [];
      StepKeeps(fonts, st, foreign, op);
    } else {
      StepKeeps(fonts, st, foreign, ops[0]);
      RunSnoc(fonts, Step(fonts, st, foreign, ops[0]), foreign, ops[1..], op);
      assert (ops + [op])[1..] == ops[1..] + [op];
    }
  }

  // ---- Teardown -------------------------------------------------------------------

  /** The GPU after destroying the buffers of entries 0..n, each of them live. */
  ghost function DestroyUpto(g: Gpu, entries: seq<Entry>, n: nat): (r: Gpu)
    requires n <= |entries| && Separate(entries) && OwnedBuffers(entries) <= g.bufs.Keys
    ensures r.bufs == g.bufs - OwnedBuffers(entries[..n])
  {
    if n == 0 then g else
      var r := DestroyUpto(g, entries, n - 1);
      var e := entries[n - 1];
      OwnedContains(entries, n - 1);
      OwnedApart(entries[..n - 1], e.glyphBuf);
      OwnedApart(entries[..n - 1], e.segBuf);
      assert entries[..n][..n - 1] == entries[..n - 1];
      DestroyBuffer(DestroyBuffer(r, e.glyphBuf), e.segBuf)
  }

  /** Destroying the registry destroys each of its buffers once and leaves the
      GPU with just the foreign ones. */
  lemma DestroyReleasesAll(fonts: Fonts, st: State, foreign: set<nat>)
    requires Inv(fonts, st, foreign)
    ensures DestroyUpto(st.gpu, st.entries, |st.entries|).bufs.Keys == foreign
    ensures ForeignKept(st.gpu, DestroyUpto(st.gpu, st.entries, |st.entries|), foreign)
  {}

  lemma OwnedLive(fonts: Fonts, st: State, foreign: set<nat>)
    requires Inv(fonts, st, foreign)
    ensures Separate(st.entries) && OwnedBuffers(st.entries) <= st.gpu.bufs.Keys
  {}

  lemma NextToDestroy(g: Gpu, entries: seq<Entry>, i: nat)
    requires i < |entries| && Separate(entries) && OwnedBuffers(entries) <= g.bufs.Keys
    ensures entries[i].glyphBuf in DestroyUpto(g, entries, i).bufs
    ensures entries[i].segBuf in DestroyUpto(g, entries, i).bufs
  {
    OwnedContains(entries, i);
    OwnedApart(entries[..i], entries[i].glyphBuf);
    OwnedApart(entries[..i], entries[i].segBuf);
  }
}
