/**
 The registry object (sdk/font_fallback.h) over real atlas objects and a GPU
 device, proved against RegistrySpec.
 */
module FontFallbackClass {
  import opened GlyphCache
  import opened Sequences
  import opened FontAtlasClass
  import opened RegistrySpec
  import opened RegistryRuns

  const FALLBACK_INITIAL_CAP: nat := 8

  /** The GPU's buffer calls. Its state is host state, known only through them. */
  class Device {
    var gpu: Gpu

    constructor (g: Gpu)
      ensures gpu == g
    {
      gpu := g;
    }

    method Create(capacity: nat) returns (b: nat)
      modifies this
      ensures gpu == CreateBuffer(old(gpu), capacity) && b == old(gpu.next)
    {
      b := gpu.next;
      gpu := CreateBuffer(gpu, capacity);
    }

    method Destroy(b: nat)
      requires b in gpu.bufs
      modifies this
      ensures gpu == DestroyBuffer(old(gpu), b)
    {
      gpu := DestroyBuffer(gpu, b);
    }

    method Write(b: nat, data: seq<Cell>)
      requires b in gpu.bufs && |data| * RECORD_SIZE <= gpu.bufs[b].capacity
      modifies this
      ensures gpu == WriteBuffer(old(gpu), b, data)
    {
      gpu := WriteBuffer(gpu, b, data);
    }
  }

  /** Uploads data to a buffer, moving to a larger one when it does not fit. */
  method SendData(dev: Device, b: nat, cap: nat, data: seq<Cell>) returns (b': nat, cap': nat)
    requires b in dev.gpu.bufs && dev.gpu.bufs[b].capacity == cap >= 1
    modifies dev
    ensures (dev.gpu, b', cap') == Send(old(dev.gpu), b, cap, data)
  {
    b', cap' := b, cap;
    var need := |data| * RECORD_SIZE;
    if need > cap {
      var newCap := cap * 2;
      while newCap < need
        invariant newCap >= 1
        invariant DoubleUntil(newCap, need) == DoubleUntil(2 * cap, need)
        decreases need - newCap
      {
        newCap := newCap * 2;
      }
      dev.Destroy(b);
      b' := dev.Create(newCap);
      cap' := newCap;
    }
    dev.Write(b', data);
  }

  /** One element of the entries array. */
  datatype Slot = Slot(handle: int, atlas: FontAtlas, glyphBuf: nat, segBuf: nat, glyphCap: nat, segCap: nat)

  ghost predicate Matches(fonts: Fonts, s: Slot, e: Entry)
    reads s.atlas
  {
    && s.atlas.Valid() && s.atlas.font == fonts(s.handle)
    && e == Entry(s.handle, s.atlas.order, s.atlas.dirty, s.glyphBuf, s.segBuf, s.glyphCap, s.segCap)
  }

  class FontFallback {
    const fonts: Fonts
    const glyphCounts: int -> int
    const device: Device
    var entries: seq<Slot>
    var cap: nat
    /** The entries as values, and the device buffers that are not ours. */
    ghost var view: seq<Entry>
    ghost const foreign: set<nat>

    ghost function Atlases(): set<FontAtlas>
      reads this
    {
      set i | 0 <= i < |entries| :: entries[i].atlas
    }

    ghost function View(): State
      reads this, device
    {
      State(view, device.gpu)
    }

    /** The object graph holds what the view says. */
    ghost predicate Linked()
      reads this, Atlases()
    {
      && |entries| <= cap && cap >= 1
      && |view| == |entries|
      && (forall i :: 0 <= i < |entries| ==> Matches(fonts, entries[i], view[i]))
      && (forall i, j :: 0 <= i < j < |entries| ==> entries[i].atlas != entries[j].atlas)
    }

    /** Every atlas is one of the given ones or newly allocated. */
    twostate predicate Grown(before: set<FontAtlas>)
      reads this
    {
      forall i :: 0 <= i < |entries| ==> entries[i].atlas in before || fresh(entries[i].atlas)
    }

    /** The host's fonts behave: segment counts and glyph counts are bounded. */
    ghost predicate HostOk() {
      FontsOk(fonts) && forall h: int :: glyphCounts(h) < GID_LIMIT
    }

    /** The registry invariant; every call keeps it by the lemmas of RegistrySpec. */
    ghost predicate Valid()
      reads this, device, Atlases()
    {
      Linked() && HostOk() && Inv(fonts, View(), foreign)
    }

    constructor (dev: Device, fs: Fonts, counts: int -> int)
      requires FontsOk(fs) && GpuOk(dev.gpu)
      requires forall h: int :: counts(h) < GID_LIMIT
      ensures Valid() && View() == Empty(dev.gpu) && foreign == dev.gpu.bufs.Keys
      ensures device == dev && fonts == fs && glyphCounts == counts
    {
      device, fonts, glyphCounts := dev, fs, counts;
      entries, view := [], [];
      cap := FALLBACK_INITIAL_CAP;
      foreign := dev.gpu.bufs.Keys;
    }

    method CreateEntry(handle: int) returns (idx: nat)
      requires Linked() && HostOk()
      modifies this, device
      ensures Linked()
      ensures View() == RegistrySpec.CreateEntry(old(View()), handle) && idx == |old(view)|
      ensures |entries| == |old(entries)| + 1 && entries[..|old(entries)|] == old(entries)
      ensures fresh(entries[|old(entries)|].atlas)
    {
      hide FontAtlas.Valid;
      if |entries| >= cap {
        cap := cap * 2;
      }
      idx := |entries|;
      var s := NewSlot(handle);
      view := view + [NewEntry(handle, s.glyphBuf)];
      entries := entries + [s];
    }

    /** A new atlas with its two GPU buffers. */
    method NewSlot(handle: int) returns (s: Slot)
      requires HostOk()
      modifies device
      ensures fresh(s.atlas) && s.glyphBuf == old(device.gpu).next
      ensures Matches(fonts, s, NewEntry(handle, old(device.gpu).next))
      ensures device.gpu == CreateBuffer(CreateBuffer(old(device.gpu), GPU_GLYPH_CAP), GPU_SEGMENT_CAP)
    {
      var a := new FontAtlas(handle, fonts(handle), glyphCounts(handle));
      var gb := device.Create(GPU_GLYPH_CAP);
      var sb := device.Create(GPU_SEGMENT_CAP);
      s := Slot(handle, a, gb, sb, GPU_GLYPH_CAP, GPU_SEGMENT_CAP);
    }

    /** The entry of a font handle, created on first sight. */
    method FindOrCreate(handle: int) returns (idx: nat)
      requires Linked() && HostOk()
      modifies this, device
      ensures Linked()
      ensures (View(), idx) == RegistrySpec.FindOrCreate(old(View()), handle)
      ensures old(entries) <= entries
      ensures forall i :: |old(entries)| <= i < |entries| ==> fresh(entries[i].atlas)
    {
      hide FontAtlas.Valid;
      var found := Search(handle);
      if found >= 0 {
        return found;
      }
      idx := CreateEntry(handle);
    }

    /** The first entry of a handle, or -1. */
    method Search(handle: int) returns (r: int)
      requires Linked()
      ensures r == FindHandle(view, handle)
    {
      var i := 0;
      while i < |entries|
        invariant 0 <= i <= |entries|
        invariant forall k :: 0 <= k < i ==> view[k].handle != handle
      {
        if entries[i].handle == handle {
          return i;
        }
        i := i + 1;
      }
      return -1;
    }

    /** Looks a glyph up in one entry; -1 for a bad entry or a full atlas. */
    method AtlasGet(entryIdx: int, g: nat) returns (r: int)
      requires Linked() && g < GID_LIMIT
      modifies this`view, if 0 <= entryIdx < |entries| then {entries[entryIdx].atlas} else {}
      ensures Linked()
      ensures (View(), r) == RegistrySpec.AtlasGet(old(View()), entryIdx, g)
      ensures entries == old(entries)
    {
      hide FontAtlas.Valid;
      if entryIdx < 0 || entryIdx >= |entries| {
        return -1;
      }
      var a := entries[entryIdx].atlas;
      r := a.Get(g);
      view := view[entryIdx := TouchEntry(view[entryIdx], g)];
    }

    /** Sends the buffers of a dirty atlas. */
    method SendAtlas(s: Slot, ghost e: Entry) returns (gb: nat, gc: nat, sb: nat, sc: nat)
      requires Matches(fonts, s, e) && e.dirty && GpuOk(device.gpu) && BuffersOk(device.gpu, e)
      modifies device
      ensures (device.gpu, e.(dirty := false, glyphBuf := gb, segBuf := sb, glyphCap := gc, segCap := sc))
              == UploadEntry(fonts, old(device.gpu), e)
    {
      var a := s.atlas;
      gb, gc, sb, sc := s.glyphBuf, s.glyphCap, s.segBuf, s.segCap;
      SendEffect(device.gpu, gb, gc, GlyphCells(a.font, a.order));
      if a.glyphCount > 0 {
        var cells := CellsOfGlyphs(a.glyphs[..a.glyphCount]);
        assert cells == GlyphCells(a.font, a.order);
        gb, gc := SendData(device, gb, gc, cells);
      }
      if a.segmentCount > 0 {
        var cells := CellsOfSegments(a.segmentBuf[..a.segmentCount]);
        assert cells == SegmentCells(a.font, a.order);
        sb, sc := SendData(device, sb, sc, cells);
      }
    }

    /** Uploads entry i if its atlas changed since the last upload. */
    method UploadOne(i: nat)
      requires Linked() && GpuOk(device.gpu) && i < |entries| && BuffersOk(device.gpu, view[i])
      modifies this`entries, this`view, device, entries[i].atlas
      ensures Linked()
      ensures View() == UploadAt(fonts, old(View()), i)
      ensures |entries| == |old(entries)|
      ensures forall k :: 0 <= k < |entries| ==> entries[k].atlas == old(entries[k].atlas)
    {
      hide FontAtlas.Valid;
      var s := entries[i];
      if !s.atlas.dirty { return; }
      var gb, gc, sb, sc := SendAtlas(s, view[i]);
      s.atlas.ClearDirty();
      entries := entries[i := Slot(s.handle, s.atlas, gb, sb, gc, sc)];
      view := view[i := view[i].(dirty := false, glyphBuf := gb, segBuf := sb, glyphCap := gc, segCap := sc)];
    }

    /** Brings the GPU buffers of every dirty entry up to date. */
    method UploadDirty()
      requires Valid()
      modifies this, device, Atlases()
      ensures Valid()
      ensures View() == Run(fonts, old(View()), foreign, UploadPass(0, |old(view)|))
      ensures |entries| == |old(entries)|
      ensures forall k :: 0 <= k < |entries| ==> entries[k].atlas == old(entries[k].atlas)
    {
      hide FontAtlas.Valid, UploadEntry, EntriesOk, Layout, GpuOk;
      var n := |entries|;
      var i := 0;
      ghost var cur := View();
      while i < n
        invariant 0 <= i <= n == |entries| && n == |old(entries)|
        invariant Linked() && cur == View() && Inv(fonts, cur, foreign)
        invariant forall k :: 0 <= k < n ==> entries[k].atlas == old(entries[k].atlas)
        invariant Run(fonts, cur, foreign, UploadPass(i, n)) == Run(fonts, old(View()), foreign, UploadPass(0, n))
      {
        UploadStep(fonts, cur, foreign, i);
        EntryAt(fonts, cur, foreign, i);
        PassUnfolds(fonts, cur, foreign, i);
        cur := Step(fonts, cur, foreign, Upload(i));
        UploadOne(i);
        i := i + 1;
      }
    }

    /** Releases every GPU buffer of the registry, and nothing else. */
    method Destroy()
      requires Valid()
      modifies this, device
      ensures entries == [] && view == []
      ensures device.gpu.bufs.Keys == foreign && ForeignKept(old(device.gpu), device.gpu, foreign)
    {
      hide FontAtlas.Valid, Inv, DestroyUpto, OwnedBuffers;
      DestroyReleasesAll(fonts, View(), foreign);
      OwnedLive(fonts, View(), foreign);
      DestroyBuffers(device, entries, view);
      entries, view, cap := [], [], 0;
    }
  }

  method DestroyBuffers(dev: Device, slots: seq<Slot>, ghost view: seq<Entry>)
    requires |slots| == |view| && Separate(view) && OwnedBuffers(view) <= dev.gpu.bufs.Keys
    requires forall k :: 0 <= k < |slots| ==> view[k].glyphBuf == slots[k].glyphBuf && view[k].segBuf == slots[k].segBuf
    modifies dev
    ensures dev.gpu == DestroyUpto(old(dev.gpu), view, |view|)
  {
    var i := 0;
    while i < |slots|
      invariant 0 <= i <= |slots|
      invariant dev.gpu == DestroyUpto(old(dev.gpu), view, i)
    {
      NextToDestroy(old(dev.gpu), view, i);
      dev.Destroy(slots[i].glyphBuf);
      dev.Destroy(slots[i].segBuf);
      i := i + 1;
    }
  }

  function CellsOfGlyphs(gs: seq<GlyphInfo>): seq<Cell> {
    seq(|gs|, i requires 0 <= i < |gs| => GlyphCell(gs[i]))
  }

  function CellsOfSegments(ss: seq<Segment>): seq<Cell> {
    seq(|ss|, i requires 0 <= i < |ss| => SegmentCell(ss[i]))
  }
}
