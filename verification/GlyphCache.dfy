/**
 The glyph cache of one font (sdk/wasm_font.h) as a value: the list of glyph
 ids in the order in which they were first asked for. Everything the atlas
 buffers hold is a function of that list and of the font.
 */
module GlyphCache {
  import opened Sequences

  /** One packed outline segment: twelve 4-byte floats. */
  datatype Segment = Segment(coords: seq<real>)

  datatype Metrics = Metrics(codepoint: nat, advanceX: real, bearingX: real, bearingY: real,
                             bboxMinX: real, bboxMinY: real, bboxMaxX: real, bboxMaxY: real,
                             contourCount: nat, totalArcLength: real)

  datatype GlyphInfo = GlyphInfo(metrics: Metrics, segmentOffset: nat, segmentCount: nat)

  /** What the host's font_get_glyph writes and returns for one glyph. */
  datatype GlyphReply = GlyphReply(info: GlyphInfo, count: int, segments: seq<Segment>)

  type Font = nat -> GlyphReply

  const MAX_GLYPHS: nat := 4096
  const MAX_SEGS_PER_GLYPH: nat := 256
  const MAX_SEGMENTS: nat := 0x10_0000
  const RECORD_SIZE: nat := 48
  /** Ids below this keep the byte size of the grown id map within 32 bits. */
  const GID_LIMIT: nat := 0x4000_0000 - 256

  const I32_LIMIT: nat := 0x8000_0000
  const U32_LIMIT: nat := 0x1_0000_0000

  /** The bytes asked for when the id map grows for id g fit 32 bits exactly
      below GID_LIMIT. */
  lemma MapBytesFitIff(g: nat)
    ensures 4 * (g + 256) < U32_LIMIT <==> g < GID_LIMIT
  {}

  /** The host writes no more segments than it was given room for. */
  ghost predicate FontOk(f: Font) {
    forall g: nat :: f(g).count <= MAX_SEGS_PER_GLYPH && (f(g).count > 0 ==> |f(g).segments| == f(g).count)
  }

  function Outline(f: Font, g: nat): seq<Segment> {
    if f(g).count > 0 then f(g).segments else []
  }

  predicate Bitmap(f: Font, g: nat) {
    f(g).count == 0 && f(g).info.metrics.advanceX > 0.0
  }

  // ---- The request order -----------------------------------------------------

  /** The position of g, or -1. */
  function IndexOf(order: seq<nat>, g: nat): (r: int)
    ensures -1 <= r < |order|
    ensures r >= 0 ==> order[r] == g
    ensures r == -1 <==> g !in order
  {
    if order == [] then -1 else
      var n := |order| - 1;
      var r := IndexOf(order[..n], g);
      assert order == order[..n] + [order[n]];
      if r >= 0 then r else if order[n] == g then n else -1
  }

  /** One request: a new id is appended while there is room. */
  function Touch(order: seq<nat>, g: nat): seq<nat> {
    if g in order || |order| >= MAX_GLYPHS then order else order + [g]
  }

  function TouchAll(order: seq<nat>, gids: seq<nat>): seq<nat>
    decreases |gids|
  {
    if gids == [] then order else Touch(TouchAll(order, gids[..|gids| - 1]), gids[|gids| - 1])
  }

  /** The ids of a request sequence without repetitions, in order of first use. */
  function FirstUses(gids: seq<nat>): seq<nat> {
    if gids == [] then [] else
      var rest := FirstUses(gids[..|gids| - 1]);
      if gids[|gids| - 1] in rest then rest else rest + [gids[|gids| - 1]]
  }

  /** Over any request sequence, a new atlas holds exactly the first 4096
      different ids, in order of first use. */
  lemma {:induction false} RunHoldsFirstUses(gids: seq<nat>)
    ensures TouchAll([], gids) == Take(FirstUses(gids), MAX_GLYPHS)
    decreases |gids|
  {
    if gids != [] {
      var n := |gids| - 1;
      RunHoldsFirstUses(gids[..n]);
      var rest := FirstUses(gids[..n]);
      if |rest| > MAX_GLYPHS {
        assert |Take(rest, MAX_GLYPHS)| == MAX_GLYPHS;
      }
    }
  }

  lemma {:induction false} FirstUsesDistinct(gids: seq<nat>)
    ensures Distinct(FirstUses(gids))
    ensures forall g :: g in FirstUses(gids) <==> g in gids
    decreases |gids|
  {
    if gids != [] {
      var n := |gids| - 1;
      FirstUsesDistinct(gids[..n]);
      assert gids == gids[..n] + [gids[n]];
    }
  }

  lemma {:induction false} IndexOfTake(s: seq<nat>, n: nat, g: nat)
    requires Distinct(s)
    ensures IndexOf(Take(s, n), g) == if IndexOf(s, g) < n then IndexOf(s, g) else -1
  {}

  /** The answer for an id after any request sequence: its rank of first use,
      or -1 when 4096 other ids came first. */
  lemma AnswerIsFirstUseRank(gids: seq<nat>, g: nat)
    ensures IndexOf(TouchAll([], gids), g)
            == if IndexOf(FirstUses(gids), g) < MAX_GLYPHS then IndexOf(FirstUses(gids), g) else -1
  {
    RunHoldsFirstUses(gids);
    FirstUsesDistinct(gids);
    IndexOfTake(FirstUses(gids), MAX_GLYPHS, g);
  }

  lemma TouchKeeps(order: seq<nat>, g: nat)
    requires Distinct(order) && |order| <= MAX_GLYPHS
    ensures Distinct(Touch(order, g)) && |Touch(order, g)| <= MAX_GLYPHS
    ensures order <= Touch(order, g)
  {}

  lemma {:induction false} TouchAllKeeps(order: seq<nat>, gids: seq<nat>)
    requires Distinct(order) && |order| <= MAX_GLYPHS
    ensures Distinct(TouchAll(order, gids)) && |TouchAll(order, gids)| <= MAX_GLYPHS
    ensures order <= TouchAll(order, gids)
    decreases |gids|
  {
    if gids != [] {
      TouchAllKeeps(order, gids[..|gids| - 1]);
      TouchKeeps(TouchAll(order, gids[..|gids| - 1]), gids[|gids| - 1]);
    }
  }

  lemma {:induction false} IndexOfPrefix(a: seq<nat>, b: seq<nat>, g: nat)
    requires a <= b && g in a
    ensures IndexOf(b, g) == IndexOf(a, g)
    decreases |b|
  {
    if |a| == |b| {
      assert a == b;
    } else {
      var n := |b| - 1;
      assert a <= b[..n];
      IndexOfPrefix(a, b[..n], g);
    }
  }

  lemma IndexOfAt(order: seq<nat>, i: nat)
    requires Distinct(order) && i < |order|
    ensures IndexOf(order, order[i]) == i
  {}

  lemma IndexOfAppend(order: seq<nat>, g: nat, x: nat)
    requires g !in order
    ensures IndexOf(order + [g], x) == if x == g then |order| else IndexOf(order, x)
  {}

  // ---- Segment storage ---------------------------------------------------------

  /** The outlines of the listed glyphs, one after the other. */
  function Segments(f: Font, order: seq<nat>): seq<Segment> {
    if order == [] then [] else
      Segments(f, order[..|order| - 1]) + Outline(f, order[|order| - 1])
  }

  /** The stored record of glyph i. */
  function Record(f: Font, order: seq<nat>, i: nat): GlyphInfo
    requires i < |order|
  {
    f(order[i]).info.(segmentOffset := |Segments(f, order[..i])|, segmentCount := |Outline(f, order[i])|)
  }

  lemma {:induction false} SegmentsPrefix(f: Font, a: seq<nat>, b: seq<nat>)
    requires a <= b
    ensures Segments(f, a) <= Segments(f, b)
    decreases |b|
  {
    if |a| == |b| {
      assert a == b;
    } else {
      SegmentsPrefix(f, a, b[..|b| - 1]);
    }
  }

  /** The records tile the segment buffer in order, without gap or overlap, and
      each slice is the outline the font gives for that glyph. */
  lemma RecordsTile(f: Font, order: seq<nat>, i: nat)
    requires i < |order|
    ensures var r := Record(f, order, i);
            && r.segmentOffset + r.segmentCount <= |Segments(f, order)|
            && Segments(f, order)[r.segmentOffset..r.segmentOffset + r.segmentCount] == Outline(f, order[i])
            && r.segmentOffset + r.segmentCount
               == (if i + 1 < |order| then Record(f, order, i + 1).segmentOffset else |Segments(f, order)|)
            && (i == 0 ==> r.segmentOffset == 0)
  {
    hide Segments;
    SegmentsNext(f, order, i);
    SegmentsPrefix(f, order[..i + 1], order);
    SliceOf(Segments(f, order[..i]), Outline(f, order[i]), Segments(f, order));
    if i + 1 == |order| {
      assert order[..i + 1] == order;
    }
  }

  lemma SegmentsNext(f: Font, order: seq<nat>, i: nat)
    requires i < |order|
    ensures Segments(f, order[..i + 1]) == Segments(f, order[..i]) + Outline(f, order[i])
    ensures i == 0 ==> Segments(f, order[..i]) == []
  {
    assert order[..i + 1][..i] == order[..i];
  }

  /** What is stored for a cached glyph is what the font replied for that glyph:
      its metrics, and its segments at the record's place. */
  lemma StoredReply(f: Font, order: seq<nat>, g: nat)
    requires FontOk(f) && g in order
    ensures var r := Record(f, order, IndexOf(order, g));
            && r.metrics == f(g).info.metrics
            && r.segmentCount == (if f(g).count > 0 then f(g).count else 0)
            && r.segmentOffset + r.segmentCount <= |Segments(f, order)|
            && (forall m :: 0 <= m < r.segmentCount ==> Segments(f, order)[r.segmentOffset + m] == f(g).segments[m])
  {
    hide Segments;
    var i := IndexOf(order, g);
    RecordsTile(f, order, i);
    var r := Record(f, order, i);
    forall m | 0 <= m < r.segmentCount ensures Segments(f, order)[r.segmentOffset + m] == f(g).segments[m] {
      assert Segments(f, order)[r.segmentOffset..r.segmentOffset + r.segmentCount][m] == Outline(f, g)[m];
    }
  }

  /** The bitmap flag agrees with the stored record: no segments and a positive
      advance; except when the host reports an error, which is never flagged. */
  lemma BitmapIff(f: Font, order: seq<nat>, i: nat)
    requires FontOk(f) && i < |order|
    ensures var r := Record(f, order, i);
            Bitmap(f, order[i]) <==> f(order[i]).count >= 0 && r.segmentCount == 0 && r.metrics.advanceX > 0.0
  {}

  /** No later request moves a glyph's index or record, or changes its slice. */
  lemma RecordStable(f: Font, order: seq<nat>, gids: seq<nat>, i: nat)
    requires Distinct(order) && |order| <= MAX_GLYPHS && i < |order|
    ensures var later := TouchAll(order, gids);
            && i < |later|
            && IndexOf(later, order[i]) == i
            && Record(f, later, i) == Record(f, order, i)
            && Segments(f, order) <= Segments(f, later)
  {
    var later := TouchAll(order, gids);
    TouchAllKeeps(order, gids);
    IndexOfAt(order, i);
    IndexOfPrefix(order, later, order[i]);
    assert later[..i] == order[..i];
    SegmentsPrefix(f, order, later);
  }

  lemma {:induction false} SegmentsBound(f: Font, order: seq<nat>)
    requires FontOk(f)
    ensures |Segments(f, order)| <= MAX_SEGS_PER_GLYPH * |order|
  {
    if order != [] {
      SegmentsBound(f, order[..|order| - 1]);
    }
  }

  /** With at most 4096 glyphs no byte count of the atlas leaves 32 bits. */
  lemma ByteSizesFit(f: Font, order: seq<nat>)
    requires FontOk(f) && |order| <= MAX_GLYPHS
    ensures |Segments(f, order)| <= MAX_SEGMENTS
    ensures |order| * RECORD_SIZE <= 4096 * RECORD_SIZE < I32_LIMIT
    ensures |Segments(f, order)| * RECORD_SIZE <= MAX_SEGMENTS * RECORD_SIZE < I32_LIMIT
  {
    SegmentsBound(f, order);
  }
}
