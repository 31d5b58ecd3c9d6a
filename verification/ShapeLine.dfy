/**
 Line shaping (sdk/text_shaping.h): bidi runs, one shaping call per run, and a
 registry lookup per glyph, into a line of at most 256 positioned glyphs.
 */
module LineSpec {
  import opened GlyphCache
  import opened Sequences
  import opened RegistrySpec
  import opened RegistryRuns

  const LINE_MAX_GLYPHS: nat := 256
  const LINE_MAX_RUNS: nat := 32
  const BIDI_MAX: nat := 4096
  const NO_ATLAS: nat := 0xFFFF_FFFF

  /** One glyph as the host's shaper reports it. */
  datatype Shaped = Shaped(glyph: nat, xAdvance: real, xOffset: real, yOffset: real, cluster: nat, font: int)

  datatype BidiRun = BidiRun(offset: nat, length: nat, direction: nat)

  /** The host's text services. `shape` gives all glyphs of a run; text_shape
      writes as many of them, from the first on, as its caller has room for. */
  datatype TextHost = TextHost(shape: (seq<nat>, real, nat) -> seq<Shaped>,
                               bidi: seq<nat> -> (int, seq<BidiRun>))

  ghost predicate TextHostOk(host: TextHost) {
    && (forall cps: seq<nat>, size: real, dir: nat, k: nat :: k < |host.shape(cps, size, dir)| ==>
          var sg := host.shape(cps, size, dir)[k];
          sg.cluster < |cps| && (sg.glyph < GID_LIMIT || sg.glyph == MISSING_GLYPH))
    && (forall cps: seq<nat> :: |host.bidi(cps).1| <= LINE_MAX_RUNS)
    && (forall cps: seq<nat>, k: nat :: k < |host.bidi(cps).1| ==>
          host.bidi(cps).1[k].offset + host.bidi(cps).1[k].length <= |cps|)
  }

  function TextShape(host: TextHost, cps: seq<nat>, size: real, dir: nat, maxGlyphs: nat): seq<Shaped> {
    Take(host.shape(cps, size, dir), maxGlyphs)
  }

  /** One glyph of the output line. */
  datatype OutGlyph = OutGlyph(atlasIndex: nat, fontIdx: int, x: real, y: real, advance: real,
                               cluster: nat, glyphId: nat, isBitmap: bool)

  // ---- What a line consists of ------------------------------------------------

  /** A shaped glyph with the offset of its run. */
  datatype Tagged = Tagged(g: Shaped, base: nat)

  function Tag(gs: seq<Shaped>, base: nat): seq<Tagged> {
    seq(|gs|, i requires 0 <= i < |gs| => Tagged(gs[i], base))
  }

  function VisualRuns(host: TextHost, cps: seq<nat>): seq<BidiRun> {
    var runs := host.bidi(BidiText(cps)).1;
    if runs == [] then [BidiRun(0, |cps|, 0)] else runs
  }

  ghost predicate RunsFit(cps: seq<nat>, runs: seq<BidiRun>) {
    forall k :: 0 <= k < |runs| ==> runs[k].offset <= |cps|
  }

  predicate InRun(run: BidiRun, c: nat) { run.offset <= c < run.offset + run.length }

  ghost predicate InSomeRun(runs: seq<BidiRun>, c: nat) {
    exists k :: 0 <= k < |runs| && InRun(runs[k], c)
  }

  /** Codepoint c is part of a run, and so is shaped unless the line fills up. */
  ghost predicate Reached(host: TextHost, cps: seq<nat>, c: nat) { InSomeRun(VisualRuns(host, cps), c) }

  /** The text of a run, cut off at the end of the line. */
  function RunText(cps: seq<nat>, run: BidiRun): seq<nat>
    requires run.offset <= |cps|
  {
    if run.offset + run.length > |cps| then cps[run.offset..] else cps[run.offset..run.offset + run.length]
  }

  /** All glyphs of the given runs, in visual order. */
  function RunGlyphs(host: TextHost, cps: seq<nat>, size: real, run: BidiRun): seq<Tagged>
    requires run.offset <= |cps|
  {
    if run.length == 0 then [] else
      Tag(host.shape(RunText(cps, run), size, run.direction), run.offset)
  }

  ghost function AllGlyphs(host: TextHost, cps: seq<nat>, size: real, runs: seq<BidiRun>): seq<Tagged>
    requires RunsFit(cps, runs)
  {
    if runs == [] then [] else
      AllGlyphs(host, cps, size, runs[..|runs| - 1]) + RunGlyphs(host, cps, size, runs[|runs| - 1])
  }

  /** The part of the line that bidi analysis sees. */
  function BidiText(cps: seq<nat>): seq<nat> { if |cps| > BIDI_MAX then cps[..BIDI_MAX] else cps }

  lemma VisualRunsFit(host: TextHost, cps: seq<nat>)
    requires TextHostOk(host)
    ensures RunsFit(cps, VisualRuns(host, cps))
  {}

  /** The glyphs of a line: the first 256 of all its visual runs. */
  ghost function LineGlyphs(host: TextHost, cps: seq<nat>, size: real): seq<Tagged>
    requires TextHostOk(host)
  {
    VisualRunsFit(host, cps);
    if cps == [] then [] else Take(AllGlyphs(host, cps, size, VisualRuns(host, cps)), LINE_MAX_GLYPHS)
  }

  /** Left fold of the advances. */
  function Advance(gs: seq<Tagged>): real {
    if gs == [] then 0.0 else Advance(gs[..|gs| - 1]) + gs[|gs| - 1].g.xAdvance
  }

  function Requests(gs: seq<Tagged>): seq<Op> {
    seq(|gs|, i requires 0 <= i < |gs| => Request(gs[i].g.font, gs[i].g.glyph))
  }

  // ---- What an output glyph means -----------------------------------------------

  /** Output glyph o stands for shaped glyph t placed at the given cursor: its
      entry is that of the font that produced it, and its atlas index refers to
      exactly that glyph. There is no index only if the glyph is not drawable or
      the font's atlas is full without it. */
  ghost predicate GlyphHolds(fonts: Fonts, entries: seq<Entry>, t: Tagged, cursor: real, o: OutGlyph) {
    && 0 <= o.fontIdx < |entries|
    && entries[o.fontIdx].handle == t.g.font
    && o.glyphId == t.g.glyph && o.cluster == t.base + t.g.cluster
    && o.x == cursor + t.g.xOffset && o.y == t.g.yOffset && o.advance == t.g.xAdvance
    && (if o.atlasIndex != NO_ATLAS then
          && Drawable(o.glyphId)
          && Refers(entries, o.fontIdx, t.g.font, o.glyphId, o.atlasIndex)
          && o.isBitmap == Bitmap(fonts(t.g.font), o.glyphId)
        else if Drawable(o.glyphId) then
          && o.glyphId !in entries[o.fontIdx].order
          && |entries[o.fontIdx].order| >= MAX_GLYPHS
          && o.isBitmap
        else !o.isBitmap)
  }

  ghost predicate LineHolds(fonts: Fonts, entries: seq<Entry>, gs: seq<Tagged>, os: seq<OutGlyph>) {
    && |os| == |gs|
    && (forall i :: 0 <= i < |gs| ==> GlyphHolds(fonts, entries, gs[i], Advance(gs[..i]), os[i]))
  }

  /** Registry growth never invalidates an output glyph. */
  lemma GlyphHoldsLater(fonts: Fonts, a: seq<Entry>, b: seq<Entry>, t: Tagged, cursor: real, o: OutGlyph)
    requires GlyphHolds(fonts, a, t, cursor, o) && Extends(a, b)
    requires |b[o.fontIdx].order| <= MAX_GLYPHS
    ensures GlyphHolds(fonts, b, t, cursor, o)
  {
    if o.atlasIndex != NO_ATLAS {
      RefersExtends(a, b, o.fontIdx, t.g.font, o.glyphId, o.atlasIndex);
    } else {
      assert a[o.fontIdx].order <= b[o.fontIdx].order;
    }
  }

  ghost predicate OrdersBounded(entries: seq<Entry>) {
    forall i :: 0 <= i < |entries| ==> |entries[i].order| <= MAX_GLYPHS
  }

  lemma LineHoldsLater(fonts: Fonts, a: seq<Entry>, b: seq<Entry>, gs: seq<Tagged>, os: seq<OutGlyph>)
    requires LineHolds(fonts, a, gs, os) && Extends(a, b) && OrdersBounded(b)
    ensures LineHolds(fonts, b, gs, os)
  {
    forall i | 0 <= i < |gs| ensures GlyphHolds(fonts, b, gs[i], Advance(gs[..i]), os[i]) {
      assert GlyphHolds(fonts, a, gs[i], Advance(gs[..i]), os[i]);
      GlyphHoldsLater(fonts, a, b, gs[i], Advance(gs[..i]), os[i]);
    }
  }

  lemma InvBounds(fonts: Fonts, st: State, foreign: set<nat>)
    requires Inv(fonts, st, foreign)
    ensures OrdersBounded(st.entries)
  {}

  /** A shaped line stays valid through every later run of registry calls:
      other lines, uploads, new fonts, atlas and registry growth. */
  lemma LineHoldsForever(fonts: Fonts, st: State, foreign: set<nat>, ops: seq<Op>, gs: seq<Tagged>, os: seq<OutGlyph>)
    requires Inv(fonts, st, foreign) && LineHolds(fonts, st.entries, gs, os)
    ensures LineHolds(fonts, Run(fonts, st, foreign, ops).entries, gs, os)
  {
    hide Inv, Run, LineHolds;
    RunKeeps(fonts, st, foreign, ops);
    InvBounds(fonts, Run(fonts, st, foreign, ops), foreign);
    LineHoldsLater(fonts, st.entries, Run(fonts, st, foreign, ops).entries, gs, os);
  }

  lemma LineAppend(fonts: Fonts, entries: seq<Entry>, gs: seq<Tagged>, os: seq<OutGlyph>, t: Tagged, o: OutGlyph)
    requires LineHolds(fonts, entries, gs, os)
    requires GlyphHolds(fonts, entries, t, Advance(gs), o)
    ensures LineHolds(fonts, entries, gs + [t], os + [o])
  {
    var gs', os' := gs + [t], os + [o];
    forall i | 0 <= i < |gs'| ensures GlyphHolds(fonts, entries, gs'[i], Advance(gs'[..i]), os'[i]) {
      if i < |gs| {
        assert gs'[..i] == gs[..i];
      } else {
        assert gs'[..i] == gs;
      }
    }
  }

  lemma AdvanceAppend(gs: seq<Tagged>, t: Tagged)
    ensures Advance(gs + [t]) == Advance(gs) + t.g.xAdvance
  {}

  // ---- Truncation --------------------------------------------------------------

  lemma {:induction false} AllGlyphsPrefix(host: TextHost, cps: seq<nat>, size: real, runs: seq<BidiRun>, k: nat)
    requires RunsFit(cps, runs) && k <= |runs|
    ensures AllGlyphs(host, cps, size, runs[..k]) <= AllGlyphs(host, cps, size, runs)
    decreases |runs|
  {
    if k == |runs| {
      assert runs[..k] == runs;
    } else {
      var front := runs[..|runs| - 1];
      AllGlyphsPrefix(host, cps, size, front, k);
      assert front[..k] == runs[..k];
    }
  }

  /** What is asked of one run when there is room for so many glyphs. */
  function RunPart(host: TextHost, cps: seq<nat>, size: real, run: BidiRun, room: nat): seq<Tagged>
    requires run.offset <= |cps|
  {
    if run.length == 0 then [] else
      Tag(TextShape(host, RunText(cps, run), size, run.direction, room), run.offset)
  }

  /** Asking each run only for what still fits loses nothing: it yields the
      first 256 glyphs of the whole line. */
  lemma TruncatedRun(host: TextHost, cps: seq<nat>, size: real, runs: seq<BidiRun>, k: nat)
    requires RunsFit(cps, runs) && k < |runs|
    ensures var done := Take(AllGlyphs(host, cps, size, runs[..k]), LINE_MAX_GLYPHS);
            Take(AllGlyphs(host, cps, size, runs[..k + 1]), LINE_MAX_GLYPHS)
            == done + RunPart(host, cps, size, runs[k], LINE_MAX_GLYPHS - |done|)
  {
    assert runs[..k + 1][..k] == runs[..k];
  }

  lemma NoRunsYet(host: TextHost, cps: seq<nat>, size: real, runs: seq<BidiRun>)
    requires RunsFit(cps, runs)
    ensures Take(AllGlyphs(host, cps, size, runs[..0]), LINE_MAX_GLYPHS) == []
  {
    NoRunsNoGlyphs(host, cps, size, runs);
  }

  /** Stopping after k runs with a full line is as good as shaping them all. */
  lemma FullLineDone(host: TextHost, cps: seq<nat>, size: real, runs: seq<BidiRun>, k: nat)
    requires RunsFit(cps, runs) && k <= |runs|
    requires k < |runs| ==> |Take(AllGlyphs(host, cps, size, runs[..k]), LINE_MAX_GLYPHS)| >= LINE_MAX_GLYPHS
    ensures Take(AllGlyphs(host, cps, size, runs[..k]), LINE_MAX_GLYPHS)
            == Take(AllGlyphs(host, cps, size, runs), LINE_MAX_GLYPHS)
  {
    AllGlyphsPrefix(host, cps, size, runs, k);
    if k == |runs| {
      assert runs[..k] == runs;
    }
  }

  lemma ShapedIdsOk(host: TextHost, text: seq<nat>, size: real, dir: nat, maxGlyphs: nat)
    requires TextHostOk(host)
    ensures var sg := TextShape(host, text, size, dir, maxGlyphs);
            |sg| <= maxGlyphs && forall k :: 0 <= k < |sg| ==> sg[k].glyph < GID_LIMIT || sg[k].glyph == MISSING_GLYPH
  {}

  lemma LineStart(fonts: Fonts, st: State, foreign: set<nat>)
    requires Inv(fonts, st, foreign)
    ensures Advance([]) == 0.0 && LineHolds(fonts, st.entries, [], [])
    ensures Run(fonts, st, foreign, Requests([])) == st
  {}

  ghost predicate ClusterOk(cps: seq<nat>, runs: seq<BidiRun>, t: Tagged) {
    t.base + t.g.cluster < |cps| && InSomeRun(runs, t.base + t.g.cluster)
  }

  // ---- A line glyph by glyph --------------------------------------------------------

  /** The text of a run is the codepoints at its own place in the line. */
  lemma RunTextAt(cps: seq<nat>, run: BidiRun, i: nat)
    requires run.offset + run.length <= |cps| && i < run.length
    ensures |RunText(cps, run)| == run.length && RunText(cps, run)[i] == cps[run.offset + i]
  {}

  /** How many glyphs the first r runs have, empty runs having none. */
  function GlyphsBefore(host: TextHost, cps: seq<nat>, size: real, runs: seq<BidiRun>, r: nat): nat
    requires r <= |runs| && forall k :: 0 <= k < |runs| ==> runs[k].offset + runs[k].length <= |cps|
  {
    if r == 0 then 0 else
      var run := runs[r - 1];
      GlyphsBefore(host, cps, size, runs, r - 1)
      + if run.length == 0 then 0 else
          |host.shape(cps[run.offset..run.offset + run.length], size, run.direction)|
  }

  lemma AllGlyphsNext(host: TextHost, cps: seq<nat>, size: real, runs: seq<BidiRun>, n: nat)
    requires n < |runs| && RunsFit(cps, runs)
    ensures AllGlyphs(host, cps, size, runs[..n + 1])
            == AllGlyphs(host, cps, size, runs[..n]) + RunGlyphs(host, cps, size, runs[n])
  {
    assert runs[..n + 1][..n] == runs[..n];
  }

  lemma {:induction false} AllGlyphsCount(host: TextHost, cps: seq<nat>, size: real, runs: seq<BidiRun>, n: nat)
    requires n <= |runs| && RunsFit(cps, runs)
    requires forall k :: 0 <= k < |runs| ==> runs[k].offset + runs[k].length <= |cps|
    ensures |AllGlyphs(host, cps, size, runs[..n])| == GlyphsBefore(host, cps, size, runs, n)
  {
    hide AllGlyphs, RunGlyphs;
    if n == 0 {
      NoRunsNoGlyphs(host, cps, size, runs);
    } else {
      AllGlyphsCount(host, cps, size, runs, n - 1);
      AllGlyphsNext(host, cps, size, runs, n - 1);
      RunGlyphsCount(host, cps, size, runs[n - 1]);
    }
  }

  lemma NoRunsNoGlyphs(host: TextHost, cps: seq<nat>, size: real, runs: seq<BidiRun>)
    requires RunsFit(cps, runs)
    ensures AllGlyphs(host, cps, size, runs[..0]) == []
  {}

  lemma RunGlyphsCount(host: TextHost, cps: seq<nat>, size: real, run: BidiRun)
    requires run.offset + run.length <= |cps|
    ensures |RunGlyphs(host, cps, size, run)| == if run.length == 0 then 0 else
              |host.shape(cps[run.offset..run.offset + run.length], size, run.direction)|
  {}

  /** A line, glyph by glyph: its runs are those of the analysis of the first 4096
      codepoints, or the whole line left to right; the j-th glyph of run r is what
      the shaper gives, in the run's direction, for the codepoints at the run's own
      place, and comes after all glyphs of the runs before. */
  lemma LineGlyphAt(host: TextHost, cps: seq<nat>, size: real, runs: seq<BidiRun>, r: nat, j: nat)
    requires TextHostOk(host) && cps != []
    requires var found := host.bidi(if |cps| > 4096 then cps[..4096] else cps).1;
             runs == if found == [] then [BidiRun(0, |cps|, 0)] else found
    ensures forall k :: 0 <= k < |runs| ==> runs[k].offset + runs[k].length <= |cps|
    ensures var all := GlyphsBefore(host, cps, size, runs, |runs|);
            |LineGlyphs(host, cps, size)| == if all < 256 then all else 256
    ensures r < |runs| && runs[r].length > 0 ==>
              var run := runs[r];
              var shaped := host.shape(cps[run.offset..run.offset + run.length], size, run.direction);
              var i := GlyphsBefore(host, cps, size, runs, r) + j;
              j < |shaped| && i < 256 ==>
                i < |LineGlyphs(host, cps, size)| && LineGlyphs(host, cps, size)[i] == Tagged(shaped[j], run.offset)
  {
    hide AllGlyphs, GlyphsBefore;
    LineRunsInText(host, cps, runs);
    AllGlyphsCount(host, cps, size, runs, |runs|);
    assert runs[..|runs|] == runs;
    if r < |runs| {
      AllGlyphsCount(host, cps, size, runs, r);
      AllGlyphsNext(host, cps, size, runs, r);
      AllGlyphsPrefix(host, cps, size, runs, r + 1);
    }
  }

  lemma LineRunsInText(host: TextHost, cps: seq<nat>, runs: seq<BidiRun>)
    requires TextHostOk(host) && runs == VisualRuns(host, cps)
    ensures forall k :: 0 <= k < |runs| ==> runs[k].offset + runs[k].length <= |cps|
  {
    var text := BidiText(cps);
    assert |text| <= |cps|;
    forall k | 0 <= k < |runs| ensures runs[k].offset + runs[k].length <= |cps| {
      if host.bidi(text).1 != [] {
        assert runs[k] == host.bidi(text).1[k];
      }
    }
  }

  /** A shaper that picks glyphs by codepoint has its choice on the line, whatever
      the order of the runs: each output glyph is that of the codepoint at its own
      cluster. */
  ghost predicate PicksBy(host: TextHost, g: nat -> nat) {
    forall text: seq<nat>, size: real, dir: nat, k: nat :: k < |host.shape(text, size, dir)| ==>
      var sg := host.shape(text, size, dir)[k];
      sg.cluster < |text| && sg.glyph == g(text[sg.cluster])
  }

  lemma {:induction false} AllPicked(host: TextHost, cps: seq<nat>, size: real, runs: seq<BidiRun>, g: nat -> nat)
    requires PicksBy(host, g) && RunsFit(cps, runs)
    ensures forall i :: 0 <= i < |AllGlyphs(host, cps, size, runs)| ==>
              var t := AllGlyphs(host, cps, size, runs)[i];
              t.base + t.g.cluster < |cps| && t.g.glyph == g(cps[t.base + t.g.cluster])
    decreases |runs|
  {
    if runs != [] {
      AllPicked(host, cps, size, runs[..|runs| - 1], g);
      RunPicked(host, cps, size, runs[|runs| - 1], g);
    }
  }

  lemma RunPicked(host: TextHost, cps: seq<nat>, size: real, run: BidiRun, g: nat -> nat)
    requires PicksBy(host, g) && run.offset <= |cps|
    ensures forall i :: 0 <= i < |RunGlyphs(host, cps, size, run)| ==>
              var t := RunGlyphs(host, cps, size, run)[i];
              t.base + t.g.cluster < |cps| && t.g.glyph == g(cps[t.base + t.g.cluster])
  {
    var gs := RunGlyphs(host, cps, size, run);
    forall i | 0 <= i < |gs|
      ensures gs[i].base + gs[i].g.cluster < |cps| && gs[i].g.glyph == g(cps[gs[i].base + gs[i].g.cluster])
    {
      var text := RunText(cps, run);
      var sg := host.shape(text, size, run.direction)[i];
      assert sg.cluster < |text| && sg.glyph == g(text[sg.cluster]);
      assert text[sg.cluster] == cps[run.offset + sg.cluster];
    }
  }

  /** ... as a shaped line in the caller's buffer. */
  lemma LineShowsItsText(fonts: Fonts, entries: seq<Entry>, host: TextHost, cps: seq<nat>, size: real, g: nat -> nat,
                         os: seq<OutGlyph>, i: nat)
    requires TextHostOk(host) && PicksBy(host, g)
    requires LineHolds(fonts, entries, LineGlyphs(host, cps, size), os) && i < |os|
    ensures os[i].cluster < |cps| && os[i].glyphId == g(cps[os[i].cluster])
  {
    hide PicksBy, AllGlyphs;
    VisualRunsFit(host, cps);
    AllPicked(host, cps, size, VisualRuns(host, cps), g);
    assert GlyphHolds(fonts, entries, LineGlyphs(host, cps, size)[i], Advance(LineGlyphs(host, cps, size)[..i]), os[i]);
  }

  /** Where glyphs are placed: the first at the origin plus its own offset, each
      further one the advance of the one before further on, offsets apart. */
  lemma PenMoves(fonts: Fonts, entries: seq<Entry>, gs: seq<Tagged>, os: seq<OutGlyph>, k: nat)
    requires LineHolds(fonts, entries, gs, os) && k < |os|
    ensures os[k].y == gs[k].g.yOffset && os[k].advance == gs[k].g.xAdvance
    ensures if k == 0 then os[0].x == gs[0].g.xOffset else
              os[k].x - gs[k].g.xOffset == os[k - 1].x - gs[k - 1].g.xOffset + gs[k - 1].g.xAdvance
  {
    assert GlyphHolds(fonts, entries, gs[k], Advance(gs[..k]), os[k]);
    if k > 0 {
      assert GlyphHolds(fonts, entries, gs[k - 1], Advance(gs[..k - 1]), os[k - 1]);
      assert gs[..k][..k - 1] == gs[..k - 1];
    }
  }

  /** Every cluster of a line is an index into its text, in one of its runs. */
  lemma {:induction false} ClustersValid(host: TextHost, cps: seq<nat>, size: real, runs: seq<BidiRun>)
    requires TextHostOk(host) && RunsFit(cps, runs)
    ensures forall i :: 0 <= i < |AllGlyphs(host, cps, size, runs)| ==>
              ClusterOk(cps, runs, AllGlyphs(host, cps, size, runs)[i])
    decreases |runs|
  {
    if runs != [] {
      var n := |runs| - 1;
      var front := AllGlyphs(host, cps, size, runs[..n]);
      ClustersValid(host, cps, size, runs[..n]);
      forall i | 0 <= i < |front| ensures ClusterOk(cps, runs, front[i]) {
        assert ClusterOk(cps, runs[..n], front[i]);
        var k :| 0 <= k < n && InRun(runs[..n][k], front[i].base + front[i].g.cluster);
        assert runs[k] == runs[..n][k];
      }
      RunClusters(host, cps, size, runs, n);
    }
  }

  lemma RunClusters(host: TextHost, cps: seq<nat>, size: real, runs: seq<BidiRun>, n: nat)
    requires TextHostOk(host) && RunsFit(cps, runs) && n < |runs|
    ensures forall i :: 0 <= i < |RunGlyphs(host, cps, size, runs[n])| ==>
              ClusterOk(cps, runs, RunGlyphs(host, cps, size, runs[n])[i])
  {
    var run := runs[n];
    var last := RunGlyphs(host, cps, size, run);
    forall i | 0 <= i < |last| ensures ClusterOk(cps, runs, last[i]) {
      var text := RunText(cps, run);
      assert host.shape(text, size, run.direction)[i].cluster < |text|;
      assert InRun(runs[n], last[i].base + last[i].g.cluster);
    }
  }

  lemma LineClustersValid(host: TextHost, cps: seq<nat>, size: real, i: nat)
    requires TextHostOk(host) && i < |LineGlyphs(host, cps, size)|
    ensures var c := LineGlyphs(host, cps, size)[i].base + LineGlyphs(host, cps, size)[i].g.cluster;
            c < |cps| && Reached(host, cps, c)
  {
    hide AllGlyphs, VisualRuns, InSomeRun, TextHostOk;
    VisualRunsFit(host, cps);
    ClustersValid(host, cps, size, VisualRuns(host, cps));
    var all := AllGlyphs(host, cps, size, VisualRuns(host, cps));
    assert LineGlyphs(host, cps, size)[i] == all[i] && ClusterOk(cps, VisualRuns(host, cps), all[i]);
  }
}

module LineClass {
  import opened GlyphCache
  import opened Sequences
  import opened FontAtlasClass
  import opened RegistrySpec
  import opened RegistryRuns
  import opened FontFallbackClass
  import opened LineSpec

  class ShapedLine {
    const glyphs: array<OutGlyph>
    var count: nat
    var width: real
    var baseDir: int

    ghost predicate Valid()
      reads this
    {
      glyphs.Length == LINE_MAX_GLYPHS && count <= LINE_MAX_GLYPHS
    }

    constructor ()
      ensures Valid() && fresh(glyphs)
    {
      glyphs := new OutGlyph[LINE_MAX_GLYPHS](_ => OutGlyph(0, 0, 0.0, 0.0, 0.0, 0, 0, false));
      count, width, baseDir := 0, 0.0, 0;
    }
  }

  /** Registry lookup for one shaped glyph, and whether it is drawn as a bitmap. */
  method Lookup(fb: FontFallback, font: int, glyph: nat) returns (entry: nat, idx: int, bmp: bool)
    requires fb.Linked() && fb.HostOk() && (glyph < GID_LIMIT || glyph == MISSING_GLYPH)
    modifies fb, fb.device, fb.Atlases()
    ensures fb.Linked() && (fb.View(), entry, idx) == RequestGlyph(old(fb.View()), font, glyph)
    ensures fb.Grown(old(fb.Atlases()))
    ensures entry < |fb.view|
    ensures idx >= 0 ==> idx < |fb.view[entry].order|
    ensures idx >= 0 ==> bmp == Bitmap(fb.fonts(fb.view[entry].handle), fb.view[entry].order[idx])
    ensures idx < 0 ==> bmp == Drawable(glyph)
  {
    hide FontAtlas.Valid, IndexOf, Touch, FindHandle;
    entry := fb.FindOrCreate(font);
    idx := -1;
    if glyph != MISSING_GLYPH && glyph != 0 {
      idx := fb.AtlasGet(entry, glyph);
    }
    bmp := false;
    if idx >= 0 {
      bmp := fb.entries[entry].atlas.IsBitmap(idx);
    } else if glyph != MISSING_GLYPH && glyph != 0 {
      bmp := true;
    }
  }

  /** Emits one glyph at the cursor. */
  method Emit(fb: FontFallback, out: ShapedLine, t: Tagged, cursorX: real, ghost gs: seq<Tagged>)
    requires fb.Valid() && out.Valid() && out.count < LINE_MAX_GLYPHS
    requires t.g.glyph < GID_LIMIT || t.g.glyph == MISSING_GLYPH
    requires cursorX == Advance(gs)
    requires LineHolds(fb.fonts, fb.view, gs, out.glyphs[..out.count])
    modifies fb, fb.device, fb.Atlases(), out`count, out.glyphs
    ensures fb.Valid() && out.Valid() && out.count == old(out.count) + 1
    ensures fb.View() == Step(fb.fonts, old(fb.View()), fb.foreign, Request(t.g.font, t.g.glyph))
    ensures LineHolds(fb.fonts, fb.view, gs + [t], out.glyphs[..out.count])
    ensures fb.Grown(old(fb.Atlases()))
  {
    hide FontAtlas.Valid, Inv, RequestGlyph, LineHolds, Advance, Matches, Bitmap, IndexOf;
    ghost var st, os := fb.View(), out.glyphs[..out.count];
    StepKeeps(fb.fonts, st, fb.foreign, Request(t.g.font, t.g.glyph));
    RequestOutcome(fb.fonts, st, fb.foreign, t.g.font, t.g.glyph);
    var entry, idx, bmp := Lookup(fb, t.g.font, t.g.glyph);
    InvBounds(fb.fonts, fb.View(), fb.foreign);
    LineHoldsLater(fb.fonts, st.entries, fb.view, gs, os);
    var o := OutGlyph(if idx >= 0 then idx else NO_ATLAS, entry, cursorX + t.g.xOffset, t.g.yOffset,
                      t.g.xAdvance, t.base + t.g.cluster, t.g.glyph, bmp);
    LineAppend(fb.fonts, fb.view, gs, os, t, o);
    out.glyphs[out.count] := o;
    out.count := out.count + 1;
    assert out.glyphs[..out.count] == os + [o];
  }

  /** Emits the shaped glyphs of one run, from the current cursor on. */
  method EmitRun(fb: FontFallback, out: ShapedLine, shaped: seq<Shaped>, runOff: nat, cursorX: real,
                 ghost gs: seq<Tagged>, ghost st0: State)
      returns (cursor: real)
    requires fb.Valid() && out.Valid() && out.count == |gs| && |gs| + |shaped| <= LINE_MAX_GLYPHS
    requires forall k :: 0 <= k < |shaped| ==> shaped[k].glyph < GID_LIMIT || shaped[k].glyph == MISSING_GLYPH
    requires cursorX == Advance(gs)
    requires LineHolds(fb.fonts, fb.view, gs, out.glyphs[..out.count])
    requires Inv(fb.fonts, st0, fb.foreign) && fb.View() == Run(fb.fonts, st0, fb.foreign, Requests(gs))
    modifies fb, fb.device, fb.Atlases(), out`count, out.glyphs
    ensures fb.Valid() && out.Valid() && out.count == |gs + Tag(shaped, runOff)|
    ensures cursor == Advance(gs + Tag(shaped, runOff))
    ensures LineHolds(fb.fonts, fb.view, gs + Tag(shaped, runOff), out.glyphs[..out.count])
    ensures fb.View() == Run(fb.fonts, st0, fb.foreign, Requests(gs + Tag(shaped, runOff)))
    ensures fb.Grown(old(fb.Atlases()))
  {
    hide FontFallback.Linked, FontFallback.HostOk, Inv, LineHolds, Advance, Run, Step;
    cursor := cursorX;
    ghost var all := Tag(shaped, runOff);
    ghost var now := gs;
    var gi := 0;
    assert gs + all[..0] == gs;
    while gi < |shaped|
      invariant 0 <= gi <= |shaped| == |all| && now == gs + all[..gi]
      invariant fb.Valid() && out.Valid() && out.count == |now|
      invariant cursor == Advance(now)
      invariant LineHolds(fb.fonts, fb.view, now, out.glyphs[..out.count])
      invariant fb.View() == Run(fb.fonts, st0, fb.foreign, Requests(now))
      invariant fb.Grown(old(fb.Atlases()))
    {
      var t := Tagged(shaped[gi], runOff);
      RunSnoc(fb.fonts, st0, fb.foreign, Requests(now), Request(t.g.font, t.g.glyph));
      assert Requests(now + [t]) == Requests(now) + [Request(t.g.font, t.g.glyph)];
      AdvanceAppend(now, t);
      Emit(fb, out, t, cursor, now);
      cursor := cursor + t.g.xAdvance;
      assert all[..gi + 1] == all[..gi] + [t];
      now := now + [t];
      gi := gi + 1;
    }
    assert all[..gi] == all;
  }

  /** Shapes one run as far as there is room, from the current cursor on. */
  method ShapeRun(cps: seq<nat>, fontSize: real, fb: FontFallback, out: ShapedLine, host: TextHost, run: BidiRun,
                  cursorX: real, ghost gs: seq<Tagged>, ghost st0: State)
      returns (cursor: real)
    requires fb.Valid() && out.Valid() && TextHostOk(host) && run.offset <= |cps| && out.count == |gs|
    requires cursorX == Advance(gs)
    requires LineHolds(fb.fonts, fb.view, gs, out.glyphs[..out.count])
    requires Inv(fb.fonts, st0, fb.foreign) && fb.View() == Run(fb.fonts, st0, fb.foreign, Requests(gs))
    modifies fb, fb.device, fb.Atlases(), out`count, out.glyphs
    ensures fb.Valid() && out.Valid()
    ensures var now := gs + RunPart(host, cps, fontSize, run, LINE_MAX_GLYPHS - |gs|);
            && out.count == |now|
            && cursor == Advance(now)
            && LineHolds(fb.fonts, fb.view, now, out.glyphs[..out.count])
            && fb.View() == Run(fb.fonts, st0, fb.foreign, Requests(now))
    ensures fb.Grown(old(fb.Atlases()))
  {
    hide FontFallback.Linked, FontFallback.HostOk, Inv, LineHolds, Step, Run;
    hide TextHostOk, RunText, Tag, TextShape, Advance, Requests;
    if run.length == 0 {
      assert gs + [] == gs;
      return cursorX;
    }
    var maxOut := LINE_MAX_GLYPHS - out.count;
    var shaped := TextShape(host, RunText(cps, run), fontSize, run.direction, maxOut);
    ShapedIdsOk(host, RunText(cps, run), fontSize, run.direction, maxOut);
    cursor := EmitRun(fb, out, shaped, run.offset, cursorX, gs, st0);
  }

  /** Shapes the runs in order until the line is full. */
  method ShapeRuns(cps: seq<nat>, fontSize: real, fb: FontFallback, out: ShapedLine, host: TextHost,
                   runs: seq<BidiRun>)
      returns (cursorX: real)
    requires fb.Valid() && out.Valid() && out.count == 0 && TextHostOk(host) && RunsFit(cps, runs)
    modifies fb, fb.device, fb.Atlases(), out`count, out.glyphs
    ensures fb.Valid() && out.Valid()
    ensures var gs := Take(AllGlyphs(host, cps, fontSize, runs), LINE_MAX_GLYPHS);
            && out.count == |gs|
            && cursorX == Advance(gs)
            && LineHolds(fb.fonts, fb.view, gs, out.glyphs[..out.count])
            && fb.View() == Run(fb.fonts, old(fb.View()), fb.foreign, Requests(gs))
    ensures fb.Grown(old(fb.Atlases()))
  {
    hide FontFallback.Linked, FontFallback.HostOk, Inv, LineHolds, Step, Run;
    hide TextHostOk, AllGlyphs, RunPart, Advance, Requests, Take;
    ghost var st0 := fb.View();
    LineStart(fb.fonts, st0, fb.foreign);
    assert out.glyphs[..0] == [];
    cursorX := 0.0;
    ghost var gs: seq<Tagged> := [];
    var ri := 0;
    NoRunsYet(host, cps, fontSize, runs);
    while ri < |runs| && out.count < LINE_MAX_GLYPHS
      invariant 0 <= ri <= |runs|
      invariant gs == Take(AllGlyphs(host, cps, fontSize, runs[..ri]), LINE_MAX_GLYPHS)
      invariant fb.Valid() && out.Valid() && out.count == |gs|
      invariant cursorX == Advance(gs)
      invariant LineHolds(fb.fonts, fb.view, gs, out.glyphs[..out.count])
      invariant Inv(fb.fonts, st0, fb.foreign) && fb.View() == Run(fb.fonts, st0, fb.foreign, Requests(gs))
      invariant fb.Grown(old(fb.Atlases()))
    {
      TruncatedRun(host, cps, fontSize, runs, ri);
      cursorX := ShapeRun(cps, fontSize, fb, out, host, runs[ri], cursorX, gs, st0);
      gs := gs + RunPart(host, cps, fontSize, runs[ri], LINE_MAX_GLYPHS - |gs|);
      ri := ri + 1;
    }
    FullLineDone(host, cps, fontSize, runs, ri);
  }

  /** Shapes a line: the output is exactly the line's glyphs, each placed after
      the advances of all earlier ones, with valid registry references; the
      registry has served one request per glyph, in order. */
  method ShapeLine(cps: seq<nat>, fontSize: real, fb: FontFallback, out: ShapedLine, host: TextHost)
    requires fb.Valid() && out.Valid() && TextHostOk(host)
    modifies fb, fb.device, fb.Atlases(), out, out.glyphs
    ensures fb.Valid() && out.Valid()
    ensures var gs := LineGlyphs(host, cps, fontSize);
            && out.count == |gs|
            && out.width == Advance(gs)
            && LineHolds(fb.fonts, fb.view, gs, out.glyphs[..out.count])
            && fb.View() == Run(fb.fonts, old(fb.View()), fb.foreign, Requests(gs))
    ensures out.baseDir == if cps == [] then 0 else host.bidi(BidiText(cps)).0
    ensures fb.Grown(old(fb.Atlases()))
  {
    hide FontAtlas.Valid, Matches, Inv, LineHolds, Step, Run, TextHostOk, AllGlyphs, Advance, Requests, Take;
    out.count, out.width, out.baseDir := 0, 0.0, 0;
    LineStart(fb.fonts, fb.View(), fb.foreign);
    assert out.glyphs[..0] == [];
    if |cps| == 0 { return; }
    var bidi := host.bidi(BidiText(cps));
    out.baseDir := bidi.0;
    var runs := bidi.1;
    if |runs| == 0 {
      runs := [BidiRun(0, |cps|, 0)];
    }
    VisualRunsFit(host, cps);
    out.width := ShapeRuns(cps, fontSize, fb, out, host, runs);
  }
}
