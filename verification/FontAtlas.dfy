/**
 The CPU-side atlas of one font (sdk/wasm_font.h): growing buffers for glyph
 records, bitmap flags and flat segments, and a growing map from glyph id to
 record index. The length of a buffer field is its allocated capacity.
 */
module FontAtlasClass {
  import opened GlyphCache
  import opened Sequences

  const INITIAL_GLYPHS: nat := 32
  const INITIAL_SEGMENTS: nat := 64

  /** The segment capacities that doubling from 64 can reach below the bound. */
  predicate SegmentCap(c: nat) {
    c in {0x40, 0x80, 0x100, 0x200, 0x400, 0x800, 0x1000, 0x2000, 0x4000, 0x8000,
          0x1_0000, 0x2_0000, 0x4_0000, 0x8_0000, 0x10_0000}
  }

  // ---- What each buffer holds, given the request order -------------------------

  ghost predicate GlyphsHold(f: Font, order: seq<nat>, glyphs: seq<GlyphInfo>, isBitmap: seq<bool>) {
    && |order| <= |glyphs| == |isBitmap|
    && 1 <= |glyphs| <= MAX_GLYPHS
    && (forall i :: 0 <= i < |order| ==> glyphs[i] == Record(f, order, i))
    && (forall i :: 0 <= i < |order| ==> isBitmap[i] == Bitmap(f, order[i]))
  }

  ghost predicate SegmentsHold(f: Font, order: seq<nat>, buf: seq<Segment>, count: nat) {
    && (|buf| == 0 || SegmentCap(|buf|))
    && count <= |buf|
    && buf[..count] == Segments(f, order)
  }

  ghost predicate MapHolds(order: seq<nat>, gidMap: seq<int>) {
    && (forall g :: g in order ==> g < |gidMap|)
    && (forall g :: 0 <= g < |gidMap| ==> gidMap[g] == IndexOf(order, g))
  }

  lemma GlyphsHoldAppend(f: Font, order: seq<nat>, g: nat, glyphs: seq<GlyphInfo>, isBitmap: seq<bool>)
    requires GlyphsHold(f, order, glyphs, isBitmap) && |order| < |glyphs|
    ensures var n := |order|;
            GlyphsHold(f, order + [g],
                       glyphs[n := f(g).info.(segmentOffset := |Segments(f, order)|, segmentCount := |Outline(f, g)|)],
                       isBitmap[n := Bitmap(f, g)])
  {
    var order' := order + [g];
    forall i | 0 <= i < |order| ensures Record(f, order', i) == Record(f, order, i) {
      assert order'[..i] == order[..i];
    }
    assert order'[..|order|] == order;
  }

  lemma MapLookup(order: seq<nat>, gidMap: seq<int>, g: nat)
    requires MapHolds(order, gidMap)
    ensures g < |gidMap| ==> gidMap[g] == IndexOf(order, g)
    ensures g in order <==> g < |gidMap| && gidMap[g] >= 0
  {}

  /** The id map is a bijection between the cached ids and 0..glyphCount. */
  lemma IdMapBijective(order: seq<nat>, gidMap: seq<int>)
    requires Distinct(order) && MapHolds(order, gidMap)
    ensures forall g :: 0 <= g < |gidMap| ==> -1 <= gidMap[g] < |order|
    ensures forall g, h :: 0 <= g < h < |gidMap| && gidMap[g] >= 0 ==> gidMap[g] != gidMap[h]
    ensures forall i :: 0 <= i < |order| ==> order[i] < |gidMap| && gidMap[order[i]] == i
  {
    forall i | 0 <= i < |order| ensures order[i] < |gidMap| && gidMap[order[i]] == i {
      IndexOfAt(order, i);
      assert order[i] in order;
    }
  }

  lemma MapHoldsAppend(order: seq<nat>, g: nat, gidMap: seq<int>)
    requires MapHolds(order, gidMap) && g < |gidMap| && g !in order
    ensures MapHolds(order + [g], gidMap[g := |order|])
  {}

  class FontAtlas {
    const fontHandle: int
    const font: Font
    var gidToAtlas: seq<int>
    var glyphs: seq<GlyphInfo>
    var glyphCount: nat
    var isBitmap: seq<bool>
    var segmentBuf: seq<Segment>
    var segmentCount: nat
    var dirty: bool
    /** The ids cached so far, in order of first request. */
    ghost var order: seq<nat>

    ghost predicate Valid()
      reads this
    {
      && FontOk(font)
      && Distinct(order)
      && glyphCount == |order| <= MAX_GLYPHS
      && GlyphsHold(font, order, glyphs, isBitmap)
      && SegmentsHold(font, order, segmentBuf, segmentCount)
      && MapHolds(order, gidToAtlas)
    }

    /** @param hostGlyphCount what font_glyph_count reports for the font. */
    constructor (handle: int, f: Font, hostGlyphCount: int)
      requires FontOk(f) && hostGlyphCount < GID_LIMIT
      ensures Valid() && order == [] && !dirty
      ensures fontHandle == handle && font == f
    {
      fontHandle, font := handle, f;
      glyphCount, segmentCount, dirty := 0, 0, false;
      var none := GlyphInfo(Metrics(0, 0.0, 0.0, 0.0, 0.0, 0.0, 0.0, 0.0, 0, 0.0), 0, 0);
      glyphs := seq(INITIAL_GLYPHS, _ => none);
      isBitmap := seq(INITIAL_GLYPHS, _ => false);
      segmentBuf := [];
      order := [];
      var gc := if hostGlyphCount <= 0 then 64 else hostGlyphCount;
      var map0 := ExtendMap([], gc + 1);
      gidToAtlas := map0;
    }

    method GrowGlyphs()
      requires GlyphsHold(font, order, glyphs, isBitmap) && glyphCount == |order| < MAX_GLYPHS
      modifies this`glyphs, this`isBitmap
      ensures GlyphsHold(font, order, glyphs, isBitmap)
      ensures glyphCount < |glyphs|
    {
      if glyphCount < |glyphs| { return; }
      var newCap := |glyphs| * 2;
      if newCap > MAX_GLYPHS { newCap := MAX_GLYPHS; }
      var filler := glyphs[0];
      glyphs := glyphs[..glyphCount] + seq(newCap - glyphCount, _ => filler);
      isBitmap := isBitmap[..glyphCount] + seq(newCap - glyphCount, _ => false);
    }

    /** Makes room for `need` more segments; the stored ones are copied over. */
    method GrowSegments(need: nat, filler: Segment)
      requires 1 <= need && segmentCount + need <= MAX_SEGMENTS
      requires |segmentBuf| == 0 || SegmentCap(|segmentBuf|)
      requires segmentCount <= |segmentBuf|
      modifies this`segmentBuf
      ensures SegmentCap(|segmentBuf|) && segmentCount + need <= |segmentBuf|
      ensures |segmentBuf| * RECORD_SIZE < U32_LIMIT
      ensures segmentBuf[..segmentCount] == old(segmentBuf[..segmentCount])
    {
      var required := segmentCount + need;
      if required <= |segmentBuf| { return; }
      var newCap: nat := |segmentBuf|;
      if newCap == 0 { newCap := INITIAL_SEGMENTS; }
      while newCap < required
        invariant SegmentCap(newCap) && |segmentBuf| <= newCap
        decreases required - newCap
      {
        newCap := newCap * 2;
      }
      segmentBuf := segmentBuf[..segmentCount] + seq(newCap - segmentCount, _ => filler);
    }

    /** Writes the record and the bitmap flag of a new glyph. */
    method StoreRecord(g: nat)
      requires FontOk(font) && glyphCount == |order| < MAX_GLYPHS
      requires GlyphsHold(font, order, glyphs, isBitmap)
      requires segmentCount == |Segments(font, order)|
      modifies this`glyphs, this`isBitmap
      ensures GlyphsHold(font, order + [g], glyphs, isBitmap)
    {
      var reply := font(g);
      GrowGlyphs();
      GlyphsHoldAppend(font, order, g, glyphs, isBitmap);
      var info := reply.info.(segmentOffset := segmentCount,
                              segmentCount := if reply.count > 0 then reply.count else 0);
      glyphs := glyphs[glyphCount := info];
      isBitmap := isBitmap[glyphCount := reply.count == 0 && info.metrics.advanceX > 0.0];
    }

    /** Points the id map at a new glyph, growing the map for large ids. */
    method StoreIndex(g: nat, atlasIdx: nat)
      requires MapHolds(order, gidToAtlas) && g !in order && g < GID_LIMIT && atlasIdx == |order|
      modifies this`gidToAtlas
      ensures MapHolds(order + [g], gidToAtlas)
    {
      if g >= |gidToAtlas| {
        gidToAtlas := ExtendMap(gidToAtlas, g + 256);
      }
      MapHoldsAppend(order, g, gidToAtlas);
      gidToAtlas := gidToAtlas[g := atlasIdx];
    }

    /** Appends an outline to the segment buffer. */
    method StoreSegments(g: nat)
      requires FontOk(font) && |order| < MAX_GLYPHS && g !in order
      requires SegmentsHold(font, order, segmentBuf, segmentCount)
      modifies this`segmentBuf, this`segmentCount
      ensures SegmentsHold(font, order + [g], segmentBuf, segmentCount)
    {
      var reply := font(g);
      assert (order + [g])[..|order|] == order;
      if reply.count > 0 {
        SegmentsBound(font, order);
        GrowSegments(reply.count, reply.segments[0]);
        var n := segmentCount + reply.count;
        segmentBuf := segmentBuf[..segmentCount] + reply.segments + segmentBuf[n..];
        assert segmentBuf[..n] == Segments(font, order) + Outline(font, g);
        segmentCount := n;
      }
    }

    /** First use of a glyph: fetch it from the host and append it everywhere. */
    method Load(g: nat) returns (idx: int)
      requires Valid() && g < GID_LIMIT && g !in order && glyphCount < MAX_GLYPHS
      modifies this
      ensures Valid() && dirty
      ensures order == old(order) + [g] && idx == |old(order)|
    {
      idx := glyphCount;
      StoreRecord(g);
      StoreSegments(g);
      glyphCount := glyphCount + 1;
      StoreIndex(g, idx);
      dirty := true;
      order := order + [g];
    }

    /** The index of a glyph, loading it on first use; -1 when the atlas is full. */
    method Get(g: nat) returns (idx: int)
      requires Valid() && g < GID_LIMIT
      modifies this
      ensures Valid()
      ensures order == Touch(old(order), g)
      ensures idx == IndexOf(order, g)
      ensures dirty == (old(dirty) || order != old(order))
    {
      MapLookup(order, gidToAtlas, g);
      if g < |gidToAtlas| && gidToAtlas[g] >= 0 {
        return gidToAtlas[g];
      }
      if glyphCount >= MAX_GLYPHS {
        return -1;
      }
      IndexOfAppend(order, g, g);
      idx := Load(g);
    }

    method ClearDirty()
      requires Valid()
      modifies this`dirty
      ensures Valid() && !dirty
    {
      dirty := false;
    }

    method IsBitmap(idx: int) returns (b: bool)
      requires Valid()
      ensures b <==> 0 <= idx < |order| && font(order[idx]).count == 0 && font(order[idx]).info.metrics.advanceX > 0.0
    {
      if idx < 0 || idx >= glyphCount { return false; }
      b := isBitmap[idx];
    }
  }

  /** A larger id map: the old entries, then -1. */
  method ExtendMap(gidMap: seq<int>, newSize: nat) returns (m: seq<int>)
    requires |gidMap| <= newSize && newSize * 4 < U32_LIMIT
    ensures |m| == newSize && m[..|gidMap|] == gidMap
    ensures forall i :: |gidMap| <= i < newSize ==> m[i] == -1
  {
    m := gidMap;
    while |m| < newSize
      invariant |gidMap| <= |m| <= newSize
      invariant m[..|gidMap|] == gidMap
      invariant forall i :: |gidMap| <= i < |m| ==> m[i] == -1
    {
      m := m + [-1];
    }
  }
}
