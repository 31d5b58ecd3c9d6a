/**
 The host side of text shaping (src/text_bindings.c): runs grouped by font are
 shaped in turn into the caller's buffer, and bidi analysis goes through UTF-16
 and back. This is where the contract that line shaping relies on is earned.
 HarfBuzz, ICU and font resolution stay uninterpreted.
 */
module HostShaping {
  import opened Sequences
  import opened GlyphCache
  import opened RegistryRuns
  import opened LineSpec

  const MAX_CODEPOINTS: nat := 1024 * 1024
  const MAX_GLYPHS_OUT: nat := 256 * 1024

  /** One glyph as HarfBuzz reports it, in font units. */
  datatype HbGlyph = HbGlyph(gid: nat, cluster: nat, xAdvance: int, xOffset: int, yOffset: int)

  /** The shaper's surroundings: whether a font is active, which font serves a
      codepoint, each font's guest handle and units per em, and HarfBuzz itself. */
  datatype ShapeEnv = ShapeEnv(active: bool, fontOf: nat -> int, handleOf: int -> int, upem: int -> nat,
                               hb: (int, seq<nat>, nat) -> seq<HbGlyph>)

  ghost predicate ShapeEnvOk(env: ShapeEnv) {
    && (forall f: int :: env.upem(f) >= 1)
    && (forall f: int, cps: seq<nat>, dir: nat, k: nat :: k < |env.hb(f, cps, dir)| ==>
          env.hb(f, cps, dir)[k].cluster < |cps| && env.hb(f, cps, dir)[k].gid < GID_LIMIT)
  }

  /** The end of the group of codepoints from `start` that share its font. */
  function GroupEnd(env: ShapeEnv, cps: seq<nat>, start: nat, end: nat): (e: nat)
    requires start < end <= |cps|
    ensures end <= e <= |cps|
    ensures forall k :: end <= k < e ==> env.fontOf(cps[k]) == env.fontOf(cps[start])
    ensures e < |cps| ==> env.fontOf(cps[e]) != env.fontOf(cps[start])
    decreases |cps| - end
  {
    if end < |cps| && env.fontOf(cps[end]) == env.fontOf(cps[start]) then GroupEnd(env, cps, start, end + 1) else end
  }

  /** A glyph of the group at `start`, scaled to pixels, its cluster moved to the run. */
  function Convert(env: ShapeEnv, f: int, size: real, start: nat, g: HbGlyph): Shaped
    requires env.upem(f) >= 1
  {
    var scale := size / (env.upem(f) as real);
    Shaped(g.gid, g.xAdvance as real * scale, g.xOffset as real * scale, g.yOffset as real * scale,
           g.cluster + start, env.handleOf(f))
  }

  function ConvertAll(env: ShapeEnv, f: int, size: real, start: nat, gs: seq<HbGlyph>): seq<Shaped>
    requires env.upem(f) >= 1
  {
    seq(|gs|, i requires 0 <= i < |gs| => Convert(env, f, size, start, gs[i]))
  }

  /** All glyphs of a run from codepoint `start` on, group by group. */
  ghost function ShapeFrom(env: ShapeEnv, cps: seq<nat>, size: real, dir: nat, start: nat): seq<Shaped>
    requires ShapeEnvOk(env)
    decreases |cps| - start
  {
    if start >= |cps| then [] else
      var e := GroupEnd(env, cps, start, start + 1);
      var f := env.fontOf(cps[start]);
      ConvertAll(env, f, size, start, env.hb(f, cps[start..e], dir)) + ShapeFrom(env, cps, size, dir, e)
  }

  ghost function FullShape(env: ShapeEnv, cps: seq<nat>, size: real, dir: nat): seq<Shaped>
    requires ShapeEnvOk(env)
  {
    if !env.active || |cps| > MAX_CODEPOINTS then [] else ShapeFrom(env, cps, size, dir, 0)
  }

  method FindGroupEnd(env: ShapeEnv, cps: seq<nat>, start: nat) returns (subEnd: nat)
    requires start < |cps|
    ensures subEnd == GroupEnd(env, cps, start, start + 1)
  {
    var f := env.fontOf(cps[start]);
    subEnd := start + 1;
    while subEnd < |cps| && env.fontOf(cps[subEnd]) == f
      invariant start < subEnd <= |cps|
      invariant GroupEnd(env, cps, start, subEnd) == GroupEnd(env, cps, start, start + 1)
      decreases |cps| - subEnd
    {
      subEnd := subEnd + 1;
    }
  }

  /** Writes the glyphs of one group, as many as fit. */
  method WriteGroup(env: ShapeEnv, f: int, size: real, start: nat, glyphs: seq<HbGlyph>, was: seq<Shaped>,
                    maxGlyphs: nat)
      returns (out: seq<Shaped>)
    requires env.upem(f) >= 1 && |was| <= maxGlyphs
    ensures out == Take(was + ConvertAll(env, f, size, start, glyphs), maxGlyphs)
  {
    out := was;
    var n := |glyphs|;
    if n > maxGlyphs - |was| { n := maxGlyphs - |was|; }
    ghost var group := ConvertAll(env, f, size, start, glyphs);
    var i := 0;
    while i < n
      invariant 0 <= i <= n <= |glyphs| && out == was + group[..i]
    {
      out := out + [Convert(env, f, size, start, glyphs[i])];
      i := i + 1;
    }
    assert n == |glyphs| ==> group[..n] == group;
  }

  /** text_shape: whatever room the caller has, it gets the first glyphs of the
      full shaping of the run. */
  method ShapeInto(env: ShapeEnv, cps: seq<nat>, size: real, dir: nat, maxGlyphs: nat) returns (out: seq<Shaped>)
    requires ShapeEnvOk(env)
    ensures out == if maxGlyphs <= MAX_GLYPHS_OUT then Take(FullShape(env, cps, size, dir), maxGlyphs) else []
  {
    hide ConvertAll, ShapeFrom, GroupEnd;
    ShapeFromEnd(env, cps, size, dir);
    out := [];
    if |cps| == 0 || |cps| > MAX_CODEPOINTS || maxGlyphs == 0 || maxGlyphs > MAX_GLYPHS_OUT { return; }
    if !env.active { return; }
    ghost var full := FullShape(env, cps, size, dir);
    ghost var done := [];
    var subStart := 0;
    while subStart < |cps| && |out| < maxGlyphs
      invariant 0 <= subStart <= |cps|
      invariant out == Take(done, maxGlyphs)
      invariant full == done + ShapeFrom(env, cps, size, dir, subStart)
      decreases |cps| - subStart
    {
      var f := env.fontOf(cps[subStart]);
      var subEnd := FindGroupEnd(env, cps, subStart);
      var glyphs := env.hb(f, cps[subStart..subEnd], dir);
      ghost var group := ConvertAll(env, f, size, subStart, glyphs);
      ShapeFromStep(env, cps, size, dir, subStart);
      assert full == (done + group) + ShapeFrom(env, cps, size, dir, subEnd);
      out := WriteGroup(env, f, size, subStart, glyphs, out, maxGlyphs);
      done := done + group;
      subStart := subEnd;
    }
    PrefixSettled(done, ShapeFrom(env, cps, size, dir, subStart), maxGlyphs);
  }

  lemma PrefixSettled(done: seq<Shaped>, rest: seq<Shaped>, n: nat)
    ensures |done| >= n ==> Take(done + rest, n) == Take(done, n)
    ensures rest == [] ==> Take(done + rest, n) == Take(done, n)
  {}

  lemma ShapeFromEnd(env: ShapeEnv, cps: seq<nat>, size: real, dir: nat)
    requires ShapeEnvOk(env)
    ensures ShapeFrom(env, cps, size, dir, |cps|) == []
  {}

  lemma ShapeFromStep(env: ShapeEnv, cps: seq<nat>, size: real, dir: nat, start: nat)
    requires ShapeEnvOk(env) && start < |cps|
    ensures var e := GroupEnd(env, cps, start, start + 1);
            var f := env.fontOf(cps[start]);
            ShapeFrom(env, cps, size, dir, start)
            == ConvertAll(env, f, size, start, env.hb(f, cps[start..e], dir)) + ShapeFrom(env, cps, size, dir, e)
  {}

  lemma {:induction false} ClustersInRun(env: ShapeEnv, cps: seq<nat>, size: real, dir: nat, start: nat)
    requires ShapeEnvOk(env)
    ensures forall k :: 0 <= k < |ShapeFrom(env, cps, size, dir, start)| ==>
              && ShapeFrom(env, cps, size, dir, start)[k].cluster < |cps|
              && ShapeFrom(env, cps, size, dir, start)[k].glyph < GID_LIMIT
    decreases |cps| - start
  {
    if start < |cps| {
      var e := GroupEnd(env, cps, start, start + 1);
      var f := env.fontOf(cps[start]);
      ClustersInRun(env, cps, size, dir, e);
      var gs := env.hb(f, cps[start..e], dir);
      forall k | 0 <= k < |gs| ensures gs[k].cluster + start < |cps| && gs[k].gid < GID_LIMIT {
        assert gs[k].cluster < |cps[start..e]|;
      }
    }
  }
}

/** What the shaped glyphs of a run are, glyph by glyph. */
module HostGlyphs {
  import opened LineSpec
  import opened HostShaping

  /** A longest stretch s..e of codepoints that one font serves. */
  ghost predicate FontGroup(env: ShapeEnv, cps: seq<nat>, s: nat, e: nat) {
    && s < e <= |cps|
    && (forall k :: s <= k < e ==> env.fontOf(cps[k]) == env.fontOf(cps[s]))
    && (e < |cps| ==> env.fontOf(cps[e]) != env.fontOf(cps[s]))
    && (s > 0 ==> env.fontOf(cps[s - 1]) != env.fontOf(cps[s]))
  }

  /** The glyph is HarfBuzz's, its lengths scaled by size over units per em, its
      cluster moved by the start of the group, its font the handle of the group's. */
  ghost predicate ShapedFrom(env: ShapeEnv, f: int, size: real, s: nat, hg: HbGlyph, sg: Shaped) {
    && sg.glyph == hg.gid && sg.cluster == s + hg.cluster && sg.font == env.handleOf(f)
    && sg.xAdvance * env.upem(f) as real == hg.xAdvance as real * size
    && sg.xOffset * env.upem(f) as real == hg.xOffset as real * size
    && sg.yOffset * env.upem(f) as real == hg.yOffset as real * size
  }

  lemma ConvertedGlyph(env: ShapeEnv, f: int, size: real, s: nat, hg: HbGlyph)
    requires env.upem(f) >= 1
    ensures ShapedFrom(env, f, size, s, hg, Convert(env, f, size, s, hg))
  {
    Scaled(hg.xAdvance as real, size, env.upem(f));
    Scaled(hg.xOffset as real, size, env.upem(f));
    Scaled(hg.yOffset as real, size, env.upem(f));
  }

  /** Each glyph of a run is the j-th that HarfBuzz gives for one font group. */
  lemma {:induction false} GlyphOfGroup(env: ShapeEnv, cps: seq<nat>, size: real, dir: nat, from: nat, k: nat)
      returns (s: nat, e: nat, j: nat)
    requires ShapeEnvOk(env) && k < |ShapeFrom(env, cps, size, dir, from)|
    requires 0 < from < |cps| ==> env.fontOf(cps[from - 1]) != env.fontOf(cps[from])
    ensures from <= s && FontGroup(env, cps, s, e)
    ensures var group := env.hb(env.fontOf(cps[s]), cps[s..e], dir);
            && j < |group|
            && ShapedFrom(env, env.fontOf(cps[s]), size, s, group[j], ShapeFrom(env, cps, size, dir, from)[k])
    decreases |cps| - from
  {
    hide GroupEnd, ShapeFrom, ShapedFrom, Convert;
    if from >= |cps| {
      ShapeFromPastEnd(env, cps, size, dir, from);
    }
    s, e := from, GroupEnd(env, cps, from, from + 1);
    var f := env.fontOf(cps[from]);
    var group := env.hb(f, cps[s..e], dir);
    ShapeFromStep(env, cps, size, dir, from);
    var rest := ShapeFrom(env, cps, size, dir, e);
    if k < |group| {
      j := k;
      assert ConvertAll(env, f, size, from, group)[k] == Convert(env, f, size, from, group[k]);
      ConvertedGlyph(env, f, size, from, group[k]);
    } else {
      assert ShapeFrom(env, cps, size, dir, from)[k] == rest[k - |group|];
      s, e, j := GlyphOfGroup(env, cps, size, dir, e, k - |group|);
    }
  }

  lemma ShapeFromPastEnd(env: ShapeEnv, cps: seq<nat>, size: real, dir: nat, from: nat)
    requires ShapeEnvOk(env) && from >= |cps|
    ensures ShapeFrom(env, cps, size, dir, from) == []
  {}

  lemma Scaled(n: real, size: real, upem: nat)
    requires upem >= 1
    ensures n * (size / upem as real) * upem as real == n * size
  {
    assert size / upem as real * upem as real == size;
  }

  /** Every glyph comes from the font that serves the codepoint at its cluster; and
      there are glyphs only while a font is active and the text is not too long. */
  lemma FontOfCluster(env: ShapeEnv, cps: seq<nat>, size: real, dir: nat, k: nat)
    requires ShapeEnvOk(env) && k < |FullShape(env, cps, size, dir)|
    ensures var sg := FullShape(env, cps, size, dir)[k];
            sg.cluster < |cps| && sg.font == env.handleOf(env.fontOf(cps[sg.cluster]))
    ensures env.active && |cps| <= 1024 * 1024
  {
    hide ShapeFrom;
    var s, e, j := GlyphOfGroup(env, cps, size, dir, 0, k);
    assert env.hb(env.fontOf(cps[s]), cps[s..e], dir)[j].cluster < |cps[s..e]|;
  }

  /** HarfBuzz maps codepoints to glyphs one to one, in order. */
  ghost predicate OneToOne(env: ShapeEnv, pick: (int, nat, nat) -> nat) {
    && (forall f: int, text: seq<nat>, dir: nat :: |env.hb(f, text, dir)| == |text|)
    && (forall f: int, text: seq<nat>, dir: nat, k: nat :: k < |text| && k < |env.hb(f, text, dir)| ==>
          env.hb(f, text, dir)[k].cluster == k && env.hb(f, text, dir)[k].gid == pick(f, text[k], dir))
  }

  /** Glyph k is the one picked for codepoint c. */
  ghost predicate PickedAt(env: ShapeEnv, cps: seq<nat>, dir: nat, pick: (int, nat, nat) -> nat, sg: Shaped, c: nat) {
    c < |cps| && sg.cluster == c && sg.glyph == pick(env.fontOf(cps[c]), cps[c], dir)
  }

  /** Then so does the run, across all its fonts: no glyph is lost, repeated or
      moved where one group ends and the next begins. */
  lemma {:induction false} OneGlyphEach(env: ShapeEnv, cps: seq<nat>, size: real, dir: nat, from: nat,
                                        pick: (int, nat, nat) -> nat)
    requires ShapeEnvOk(env) && OneToOne(env, pick) && from <= |cps|
    ensures |ShapeFrom(env, cps, size, dir, from)| == |cps| - from
    ensures forall k :: 0 <= k < |ShapeFrom(env, cps, size, dir, from)| ==>
              PickedAt(env, cps, dir, pick, ShapeFrom(env, cps, size, dir, from)[k], from + k)
    decreases |cps| - from
  {
    hide GroupEnd, ShapeFrom;
    if from == |cps| {
      ShapeFromPastEnd(env, cps, size, dir, from);
    } else {
      var e := GroupEnd(env, cps, from, from + 1);
      var f := env.fontOf(cps[from]);
      var group := env.hb(f, cps[from..e], dir);
      OneGlyphEach(env, cps, size, dir, e, pick);
      ShapeFromStep(env, cps, size, dir, from);
      var all, rest := ShapeFrom(env, cps, size, dir, from), ShapeFrom(env, cps, size, dir, e);
      forall k | 0 <= k < |all| ensures PickedAt(env, cps, dir, pick, all[k], from + k) {
        if k < |group| {
          assert cps[from..e][k] == cps[from + k];
          assert env.fontOf(cps[from + k]) == f;
          assert all[k] == Convert(env, f, size, from, group[k]);
        } else {
          assert all[k] == rest[k - |group|];
        }
      }
    }
  }

  /** The whole of text_shape, for such a HarfBuzz and texts of a size it accepts. */
  lemma FullShapeOneToOne(env: ShapeEnv, cps: seq<nat>, size: real, dir: nat, pick: (int, nat, nat) -> nat, i: nat)
    requires ShapeEnvOk(env) && OneToOne(env, pick) && env.active && |cps| <= 1024 * 1024
    ensures |FullShape(env, cps, size, dir)| == |cps|
    ensures i < |cps| ==> PickedAt(env, cps, dir, pick, FullShape(env, cps, size, dir)[i], i)
  {
    hide ShapeFrom, OneToOne, PickedAt;
    OneGlyphEach(env, cps, size, dir, 0, pick);
  }
}

/** UTF-16 conversion and the mapping of bidi runs back to codepoints. */
module HostBidi {
  import opened LineSpec
  import opened HostShaping

  const MAX_BIDI_RUNS_OUT: nat := 4096

  const REPLACEMENT: nat := 0xFFFD

  /** The code units of one codepoint; values beyond Unicode are replaced. */
  function Units(c: nat): (u: seq<nat>)
    ensures 1 <= |u| <= 2
  {
    if c <= 0xFFFF then [c]
    else if c <= 0x10FFFF then [0xD800 + (c - 0x1_0000) / 0x400, 0xDC00 + (c - 0x1_0000) % 0x400]
    else [REPLACEMENT]
  }

  function Encode(cps: seq<nat>): seq<nat> {
    if cps == [] then [] else Encode(cps[..|cps| - 1]) + Units(cps[|cps| - 1])
  }

  /** Where the units of codepoint i start; the end of the text for i = |cps|. */
  function UnitStart(cps: seq<nat>, i: nat): nat
    requires i <= |cps|
  {
    |Encode(cps[..i])|
  }

  lemma UnitStartNext(cps: seq<nat>, i: nat)
    requires i < |cps|
    ensures UnitStart(cps, i + 1) == UnitStart(cps, i) + |Units(cps[i])|
  {
    assert cps[..i + 1][..i] == cps[..i];
  }

  lemma {:induction false} UnitStartMonotone(cps: seq<nat>, i: nat, j: nat)
    requires i <= j <= |cps|
    ensures UnitStart(cps, i) + (j - i) <= UnitStart(cps, j)
    decreases j - i
  {
    if i < j {
      UnitStartNext(cps, i);
      UnitStartMonotone(cps, i + 1, j);
    }
  }

  /** Fills the UTF-16 buffer and the codepoint-to-unit table. */
  method ToUtf16(cps: seq<nat>) returns (u16: seq<nat>, cpToU16: seq<nat>)
    ensures u16 == Encode(cps)
    ensures |cpToU16| == |cps| && forall i :: 0 <= i < |cps| ==> cpToU16[i] == UnitStart(cps, i)
  {
    hide Units;
    u16, cpToU16 := [], [];
    var i := 0;
    while i < |cps|
      invariant 0 <= i <= |cps| && u16 == Encode(cps[..i])
      invariant |cpToU16| == i && forall k :: 0 <= k < i ==> cpToU16[k] == UnitStart(cps, k)
    {
      assert cps[..i + 1][..i] == cps[..i];
      cpToU16 := cpToU16 + [|u16|];
      u16 := AppendUnits(u16, cps[i]);
      i := i + 1;
    }
    assert cps[..i] == cps;
  }

  method AppendUnits(u16: seq<nat>, cp: nat) returns (r: seq<nat>)
    ensures r == u16 + Units(cp)
  {
    var c := cp;
    if c <= 0xFFFF {
      r := u16 + [c];
    } else if c <= 0x10FFFF {
      c := c - 0x1_0000;
      r := u16 + [0xD800 + c / 0x400, 0xDC00 + c % 0x400];
    } else {
      r := u16 + [REPLACEMENT];
    }
  }

  lemma EncodeNothing(cps: seq<nat>)
    ensures UnitStart(cps, 0) == 0
  {}

  /** Unit u belongs to codepoint c. */
  ghost predicate Covers(cps: seq<nat>, c: nat, u: nat) {
    c < |cps| && UnitStart(cps, c) <= u < UnitStart(cps, c + 1)
  }

  /** The unit-to-codepoint table: every unit gets the codepoint it belongs to. */
  method InvertTable(cps: seq<nat>, cpToU16: seq<nat>, u16len: nat) returns (u16ToCp: seq<nat>)
    requires |cpToU16| == |cps| && forall i :: 0 <= i < |cps| ==> cpToU16[i] == UnitStart(cps, i)
    requires u16len == UnitStart(cps, |cps|)
    ensures |u16ToCp| == u16len && forall u :: 0 <= u < u16len ==> Covers(cps, u16ToCp[u], u)
  {
    hide Encode;
    u16ToCp := [];
    assert UnitStart(cps, 0) == 0 by { EncodeNothing(cps); }
    var ci, i := 0, 0;
    while i < u16len
      invariant 0 <= i <= u16len && |u16ToCp| == i
      invariant ci <= |cps| && UnitStart(cps, ci) <= i
      invariant ci < |cps| || i == u16len
      invariant forall u :: 0 <= u < i ==> Covers(cps, u16ToCp[u], u)
    {
      assert |cps| > 0;
      while ci + 1 < |cps| && cpToU16[ci + 1] <= i
        invariant ci < |cps| && UnitStart(cps, ci) <= i
        decreases |cps| - ci
      {
        ci := ci + 1;
      }
      u16ToCp := u16ToCp + [ci];
      i := i + 1;
    }
  }

  /** A unit belongs to one codepoint only, so the table inverts the other one:
      the first unit of codepoint c leads back to c. */
  lemma CoversUnique(cps: seq<nat>, c: nat, d: nat, u: nat)
    requires Covers(cps, c, u) && Covers(cps, d, u)
    ensures c == d
  {
    if c < d {
      UnitStartMonotone(cps, c + 1, d);
    } else if d < c {
      UnitStartMonotone(cps, d + 1, c);
    }
  }

  lemma TableRoundTrip(cps: seq<nat>, u16ToCp: seq<nat>, c: nat)
    requires TableOk(cps, u16ToCp) && c < |cps|
    ensures UnitStart(cps, c) < |u16ToCp| && u16ToCp[UnitStart(cps, c)] == c
  {
    UnitStartNext(cps, c);
    UnitStartMonotone(cps, c + 1, |cps|);
    assert Covers(cps, c, UnitStart(cps, c));
    CoversUnique(cps, c, u16ToCp[UnitStart(cps, c)], UnitStart(cps, c));
  }

  /** A run of code units, as ICU reports it. */
  datatype UnitRun = UnitRun(start: nat, length: nat, rtl: bool)

  /** The codepoint at a unit position, or the count at the end. */
  function CpAt(cps: seq<nat>, u16ToCp: seq<nat>, u: nat): nat {
    if u >= |u16ToCp| then |cps| else u16ToCp[u]
  }

  ghost predicate TableOk(cps: seq<nat>, u16ToCp: seq<nat>) {
    && |u16ToCp| == UnitStart(cps, |cps|)
    && (forall u :: 0 <= u < |u16ToCp| ==> Covers(cps, u16ToCp[u], u))
  }

  lemma CpAtMonotone(cps: seq<nat>, u16ToCp: seq<nat>, u: nat, v: nat)
    requires TableOk(cps, u16ToCp) && u <= v
    ensures CpAt(cps, u16ToCp, u) <= CpAt(cps, u16ToCp, v) <= |cps|
  {
    if v < |u16ToCp| {
      var c, d := u16ToCp[u], u16ToCp[v];
      assert Covers(cps, c, u) && Covers(cps, d, v);
      if d < c {
        UnitStartMonotone(cps, d + 1, c);
      }
    } else if u < |u16ToCp| {
      assert Covers(cps, u16ToCp[u], u);
    }
  }

  /** For each code unit, the codepoint it belongs to. */
  ghost function Owners(cps: seq<nat>): seq<nat> {
    if cps == [] then [] else
      var n := |cps| - 1;
      Owners(cps[..n]) + seq(|Units(cps[n])|, _ => n)
  }

  lemma {:induction false} OwnersCover(cps: seq<nat>)
    ensures TableOk(cps, Owners(cps))
  {
    if cps == [] {
      EncodeNothing(cps);
    } else {
      OwnersCover(cps[..|cps| - 1]);
      TableSnoc(cps, Owners(cps[..|cps| - 1]));
    }
  }

  /** A table of all but the last codepoint, extended by the units of the last. */
  lemma TableSnoc(cps: seq<nat>, t: seq<nat>)
    requires cps != [] && TableOk(cps[..|cps| - 1], t)
    ensures TableOk(cps, t + seq(|Units(cps[|cps| - 1])|, _ => |cps| - 1))
  {
    hide Units, Encode, UnitStart;
    var n := |cps| - 1;
    var t' := t + seq(|Units(cps[n])|, _ => n);
    UnitStartNext(cps, n);
    UnitStartPrefix(cps, n, n);
    forall u | 0 <= u < |t'| ensures Covers(cps, t'[u], u) {
      if u < |t| {
        assert Covers(cps[..n], t[u], u);
        UnitStartPrefix(cps, n, t[u]);
        UnitStartPrefix(cps, n, t[u] + 1);
      }
    }
  }

  lemma UnitStartPrefix(cps: seq<nat>, n: nat, c: nat)
    requires c <= n <= |cps|
    ensures UnitStart(cps[..n], c) == UnitStart(cps, c)
  {
    assert cps[..n][..c] == cps[..c];
  }

  lemma TableUnique(cps: seq<nat>, t: seq<nat>)
    requires TableOk(cps, t)
    ensures t == Owners(cps)
  {
    OwnersCover(cps);
    forall u | 0 <= u < |t| ensures t[u] == Owners(cps)[u] {
      CoversUnique(cps, t[u], Owners(cps)[u], u);
    }
  }

  lemma OwnersMonotone(cps: seq<nat>, u: nat, v: nat)
    requires u <= v
    ensures CpAt(cps, Owners(cps), u) <= CpAt(cps, Owners(cps), v) <= |cps|
  {
    hide Owners, TableOk, CpAt;
    OwnersCover(cps);
    CpAtMonotone(cps, Owners(cps), u, v);
  }

  /** The run in codepoints. */
  ghost function MapRun(cps: seq<nat>, r: UnitRun): BidiRun {
    var t := Owners(cps);
    OwnersMonotone(cps, r.start, r.start + r.length);
    var start := CpAt(cps, t, r.start);
    BidiRun(start, CpAt(cps, t, r.start + r.length) - start, if r.rtl then 1 else 0)
  }

  /** A position between two codepoints, or at an end of the text. */
  ghost predicate Boundary(cps: seq<nat>, u: nat) {
    exists c :: 0 <= c <= |cps| && u == UnitStart(cps, c)
  }

  predicate InUnits(r: UnitRun, u: nat) { r.start <= u < r.start + r.length }

  /** The run lies in the text and does not split a surrogate pair. */
  ghost predicate Whole(cps: seq<nat>, r: UnitRun) {
    r.start + r.length <= |Encode(cps)| && Boundary(cps, r.start) && Boundary(cps, r.start + r.length)
  }

  ghost predicate AllWhole(cps: seq<nat>, units: seq<UnitRun>) {
    forall j :: 0 <= j < |units| ==> Whole(cps, units[j])
  }

  /** When ICU does not split a surrogate pair, a codepoint is in the mapped run
      exactly when its code units are in the original one. */
  lemma MapRunExact(cps: seq<nat>, r: UnitRun, c: nat)
    requires Whole(cps, r) && c < |cps|
    ensures InRun(MapRun(cps, r), c) <==> InUnits(r, UnitStart(cps, c))
    ensures MapRun(cps, r).direction == if r.rtl then 1 else 0
  {
    hide Encode, Owners;
    OwnersCover(cps);
    var a :| 0 <= a <= |cps| && r.start == UnitStart(cps, a);
    var b :| 0 <= b <= |cps| && r.start + r.length == UnitStart(cps, b);
    CpAtBoundary(cps, Owners(cps), a);
    CpAtBoundary(cps, Owners(cps), b);
    StartOrder(cps, a, c);
    StartOrder(cps, b, c);
  }

  /** Run k of the analysis is the only one with unit u. */
  ghost predicate OnlyUnitRun(units: seq<UnitRun>, u: nat, k: nat) {
    k < |units| && forall j :: 0 <= j < |units| ==> (InUnits(units[j], u) <==> j == k)
  }

  ghost predicate InOneRun(units: seq<UnitRun>, u: nat) { exists k: nat :: OnlyUnitRun(units, u, k) }

  /** Run k, mapped to codepoints, is the only one with codepoint c. */
  ghost predicate OnlyRun(cps: seq<nat>, units: seq<UnitRun>, c: nat, k: nat) {
    k < |units| && forall j :: 0 <= j < |units| ==> (InRun(MapRun(cps, units[j]), c) <==> j == k)
  }

  lemma OnlyRunIff(cps: seq<nat>, units: seq<UnitRun>, c: nat, k: nat)
    requires c < |cps| && AllWhole(cps, units)
    ensures OnlyRun(cps, units, c, k) <==> OnlyUnitRun(units, UnitStart(cps, c), k)
  {
    hide Whole, MapRun, InRun, InUnits;
    forall j | 0 <= j < |units|
      ensures InRun(MapRun(cps, units[j]), c) <==> InUnits(units[j], UnitStart(cps, c))
    {
      MapRunExact(cps, units[j], c);
    }
  }

  /** Runs that partition the code units partition the codepoints. */
  lemma PartitionKept(cps: seq<nat>, units: seq<UnitRun>, c: nat) returns (k: nat)
    requires c < |cps| && AllWhole(cps, units)
    requires forall u: nat :: u < |Encode(cps)| ==> InOneRun(units, u)
    ensures OnlyRun(cps, units, c, k)
  {
    hide Whole, MapRun, OnlyUnitRun, OnlyRun;
    assert UnitStart(cps, c) < |Encode(cps)| by {
      assert cps[..|cps|] == cps;
      UnitStartMonotone(cps, c + 1, |cps|);
      UnitStartNext(cps, c);
    }
    assert InOneRun(units, UnitStart(cps, c));
    k :| OnlyUnitRun(units, UnitStart(cps, c), k);
    OnlyRunIff(cps, units, c, k);
  }

  lemma MapRunInText(cps: seq<nat>, r: UnitRun)
    ensures MapRun(cps, r).offset + MapRun(cps, r).length <= |cps|
  {
    OwnersMonotone(cps, r.start, r.start + r.length);
  }

  lemma CpAtBoundary(cps: seq<nat>, u16ToCp: seq<nat>, c: nat)
    requires TableOk(cps, u16ToCp) && c <= |cps|
    ensures CpAt(cps, u16ToCp, UnitStart(cps, c)) == c
  {
    if c < |cps| {
      TableRoundTrip(cps, u16ToCp, c);
    }
  }

  lemma StartOrder(cps: seq<nat>, a: nat, c: nat)
    requires a <= |cps| && c <= |cps|
    ensures UnitStart(cps, a) <= UnitStart(cps, c) <==> a <= c
  {
    if a <= c {
      UnitStartMonotone(cps, a, c);
    } else {
      UnitStartMonotone(cps, c, a);
    }
  }

  /** The runs ICU finds; texts that are empty or too long are not analysed. */
  function Analysed(cps: seq<nat>, icu: seq<nat> -> seq<UnitRun>): seq<UnitRun> {
    if |cps| == 0 || |cps| > MAX_CODEPOINTS then [] else icu(Encode(cps))
  }

  /** text_bidi: the first maxRuns runs of the analysis, in codepoints. */
  method BidiRuns(cps: seq<nat>, icu: seq<nat> -> seq<UnitRun>, maxRuns: nat) returns (runs: seq<BidiRun>)
    requires forall k :: 0 <= k < |icu(Encode(cps))| ==> icu(Encode(cps))[k].start < |Encode(cps)|
    ensures if 0 < |cps| <= MAX_CODEPOINTS && maxRuns <= MAX_BIDI_RUNS_OUT
            then |runs| == (if |icu(Encode(cps))| < maxRuns then |icu(Encode(cps))| else maxRuns)
            else runs == []
    ensures |runs| <= |icu(Encode(cps))|
    ensures forall k :: 0 <= k < |runs| ==> runs[k] == MapRun(cps, icu(Encode(cps))[k])
  {
    runs := [];
    if |cps| == 0 || |cps| > MAX_CODEPOINTS || maxRuns == 0 || maxRuns > MAX_BIDI_RUNS_OUT { return; }
    hide Encode, Owners;
    var u16, cpToU16 := ToUtf16(cps);
    assert cps[..|cps|] == cps;
    var u16ToCp := InvertTable(cps, cpToU16, |u16|);
    TableUnique(cps, u16ToCp);
    var units := icu(u16);
    var n := if |units| < maxRuns then |units| else maxRuns;
    runs := MapRuns(cps, u16ToCp, units[..n]);
  }

  method MapRuns(cps: seq<nat>, u16ToCp: seq<nat>, units: seq<UnitRun>) returns (runs: seq<BidiRun>)
    requires TableOk(cps, u16ToCp) && u16ToCp == Owners(cps)
    ensures |runs| == |units| && forall k :: 0 <= k < |runs| ==> runs[k] == MapRun(cps, units[k])
  {
    hide Encode, Owners;
    runs := [];
    var i := 0;
    while i < |units|
      invariant 0 <= i <= |units| && |runs| == i
      invariant forall k :: 0 <= k < i ==> runs[k] == MapRun(cps, units[k])
    {
      var start := CpAt(cps, u16ToCp, units[i].start);
      var end := CpAt(cps, u16ToCp, units[i].start + units[i].length);
      CpAtMonotone(cps, u16ToCp, units[i].start, units[i].start + units[i].length);
      runs := runs + [BidiRun(start, end - start, if units[i].rtl then 1 else 0)];
      i := i + 1;
    }
  }

  // ---- Is the text ICU sees the same text? ---------------------------------------

  predicate High(u: nat) { 0xD800 <= u <= 0xDBFF }

  predicate Low(u: nat) { 0xDC00 <= u <= 0xDFFF }

  /** UTF-16 decoding: a high unit followed by a low one is one codepoint, any
      other unit stands for itself. */
  function Decode(u: seq<nat>): seq<nat>
    decreases |u|
  {
    if u == [] then []
    else if |u| >= 2 && High(u[0]) && Low(u[1]) then
      [0x1_0000 + (u[0] - 0xD800) * 0x400 + (u[1] - 0xDC00)] + Decode(u[2..])
    else [u[0]] + Decode(u[1..])
  }

  /** The text with values beyond Unicode replaced. */
  function Scalars(cps: seq<nat>): seq<nat> {
    seq(|cps|, i requires 0 <= i < |cps| => if cps[i] <= 0x10FFFF then cps[i] else REPLACEMENT)
  }

  /** Two neighbouring codepoints that are surrogate values forming a pair. */
  predicate SplitPair(cps: seq<nat>, i: nat) { i + 1 < |cps| && High(cps[i]) && Low(cps[i + 1]) }

  lemma {:induction false} EncodeHead(cps: seq<nat>)
    requires cps != []
    ensures Encode(cps) == Units(cps[0]) + Encode(cps[1..])
    decreases |cps|
  {
    hide Units;
    var n := |cps| - 1;
    if n > 0 {
      EncodeHead(cps[..n]);
      assert cps[..n][1..] == cps[1..][..n - 1];
    } else {
      assert cps[..n] == [] && cps[1..] == [];
    }
  }

  lemma {:induction false} EncodeFaithful(cps: seq<nat>)
    requires forall i: nat :: !SplitPair(cps, i)
    ensures Decode(Encode(cps)) == Scalars(cps)
    decreases |cps|
  {
    if cps != [] {
      hide Decode, Encode, Units, Scalars, SplitPair;
      NoPairInTail(cps);
      EncodeFaithful(cps[1..]);
      EncodeHead(cps);
      DecodeHead(cps[0], cps[1..]);
      ScalarsHead(cps);
    }
  }

  lemma NoPairInTail(cps: seq<nat>)
    requires cps != [] && forall i: nat :: !SplitPair(cps, i)
    ensures forall i: nat :: !SplitPair(cps[1..], i)
    ensures !(cps[1..] != [] && High(cps[0]) && Low(cps[1..][0]))
  {
    forall i: nat ensures !SplitPair(cps[1..], i) {
      assert !SplitPair(cps, i + 1);
    }
    assert !SplitPair(cps, 0);
  }

  lemma ScalarsHead(cps: seq<nat>)
    requires cps != []
    ensures Scalars(cps) == [if cps[0] <= 0x10FFFF then cps[0] else REPLACEMENT] + Scalars(cps[1..])
  {}

  lemma DecodeSingle(x: nat, e: seq<nat>)
    requires !(e != [] && High(x) && Low(e[0]))
    ensures Decode([x] + e) == [x] + Decode(e)
  {}

  lemma DecodePair(h: nat, l: nat, e: seq<nat>)
    requires High(h) && Low(l)
    ensures Decode([h, l] + e) == [0x1_0000 + (h - 0xD800) * 0x400 + (l - 0xDC00)] + Decode(e)
  {}

  /** The units of c decode to c unless c merges with the codepoint after it. */
  lemma DecodeHead(c: nat, rest: seq<nat>)
    requires !(rest != [] && High(c) && Low(rest[0]))
    ensures Decode(Units(c) + Encode(rest)) == [if c <= 0x10FFFF then c else REPLACEMENT] + Decode(Encode(rest))
  {
    hide Decode, Encode;
    var e := Encode(rest);
    FirstUnit(rest);
    if c <= 0xFFFF || c > 0x10FFFF {
      DecodeSingle(if c <= 0xFFFF then c else REPLACEMENT, e);
    } else {
      var d := c - 0x1_0000;
      DecodePair(0xD800 + d / 0x400, 0xDC00 + d % 0x400, e);
    }
  }

  lemma FirstUnit(rest: seq<nat>)
    ensures Encode(rest) != [] && Low(Encode(rest)[0]) ==> rest != [] && Low(rest[0])
  {
    if rest != [] {
      EncodeHead(rest);
    }
  }

  /** Decoding never yields more codepoints than were encoded, and fewer once a
      pair of surrogate values has merged. */
  lemma {:induction false} SplitPairMerges(cps: seq<nat>)
    ensures |Decode(Encode(cps))| <= |cps|
    ensures (exists i: nat :: SplitPair(cps, i)) ==> |Decode(Encode(cps))| < |cps|
    decreases |cps|
  {
    if cps != [] {
      var c, rest := cps[0], cps[1..];
      EncodeHead(cps);
      if SplitPair(cps, 0) {
        EncodeHead(rest);
        SplitPairMerges(rest[1..]);
        var u := Encode(cps);
        assert u == [c, rest[0]] + Encode(rest[1..]);
        assert u[2..] == Encode(rest[1..]);
      } else {
        SplitPairMerges(rest);
        DecodeHead(c, rest);
        if i: nat :| SplitPair(cps, i) {
          assert i > 0 && SplitPair(rest, i - 1);
        }
      }
    }
  }

  /** The analysed text is the given text, with values beyond Unicode replaced,
      if and only if no two neighbouring codepoints are a high and a low
      surrogate value. */
  lemma EncodeFaithfulIff(cps: seq<nat>)
    ensures Decode(Encode(cps)) == Scalars(cps) <==> forall i: nat :: !SplitPair(cps, i)
  {
    if forall i: nat :: !SplitPair(cps, i) {
      EncodeFaithful(cps);
    } else {
      SplitPairMerges(cps);
    }
  }
}

/** The two host services meet the contract that line shaping assumes. */
module HostContract {
  import opened GlyphCache
  import opened RegistryRuns
  import opened LineSpec
  import opened HostShaping
  import opened HostBidi

  /** The runs of a line: the first 32 of the analysis, in codepoints. */
  ghost function FirstRuns(cps: seq<nat>, icu: seq<nat> -> seq<UnitRun>): seq<BidiRun> {
    var units := Analysed(cps, icu);
    var n := if |units| < LINE_MAX_RUNS then |units| else LINE_MAX_RUNS;
    seq(n, k requires 0 <= k < n => MapRun(cps, units[k]))
  }

  /** Asked for as many runs as a line uses, the host's loops report exactly those
      that line shaping takes from its text host. */
  method RunsForLine(cps: seq<nat>, icu: seq<nat> -> seq<UnitRun>) returns (runs: seq<BidiRun>)
    requires forall k :: 0 <= k < |icu(Encode(cps))| ==> icu(Encode(cps))[k].start < |Encode(cps)|
    ensures runs == FirstRuns(cps, icu)
  {
    runs := BidiRuns(cps, icu, LINE_MAX_RUNS);
  }

  /** Asked for as many glyphs as a line has room for, the host's loops report
      exactly those that line shaping takes from its text host. */
  method GlyphsForLine(env: ShapeEnv, host: TextHost, cps: seq<nat>, size: real, dir: nat, room: nat)
    returns (out: seq<Shaped>)
    requires ShapeEnvOk(env) && room <= LINE_MAX_GLYPHS && host.shape(cps, size, dir) == FullShape(env, cps, size, dir)
    ensures out == TextShape(host, cps, size, dir, room)
  {
    out := ShapeInto(env, cps, size, dir, room);
  }

  /** Which codepoints a line shapes at all: every one if the analysis yields no
      run; otherwise those among the first 4096 whose code units are in one of
      the first 32 runs. The rest is dropped. */
  lemma ReachedIff(host: TextHost, icu: seq<nat> -> seq<UnitRun>, cps: seq<nat>, c: nat)
    requires c < |cps| && host.bidi(BidiText(cps)).1 == FirstRuns(BidiText(cps), icu)
    requires AllWhole(BidiText(cps), icu(Encode(BidiText(cps))))
    ensures var text, units := BidiText(cps), icu(Encode(BidiText(cps)));
            Reached(host, cps, c) <==>
            units == [] || (c < BIDI_MAX && exists j ::
              0 <= j < |units| && j < LINE_MAX_RUNS && InUnits(units[j], UnitStart(text, c)))
  {
    hide Whole, MapRun, InUnits, Encode;
    var text, units, runs := BidiText(cps), icu(Encode(BidiText(cps))), VisualRuns(host, cps);
    assert units == Analysed(text, icu);
    if units == [] {
      assert InRun(runs[0], c);
      return;
    }
    forall j | 0 <= j < |runs| ensures InRun(runs[j], c) ==> c < |text| {
      MapRunInText(text, units[j]);
    }
    if c < |text| {
      forall j | 0 <= j < |runs| ensures InRun(runs[j], c) <==> InUnits(units[j], UnitStart(text, c)) {
        MapRunExact(text, units[j], c);
      }
    }
  }

  /** So a codepoint of the first 4096, in run k alone, is shaped exactly if k < 32. */
  lemma ReachedByRank(host: TextHost, icu: seq<nat> -> seq<UnitRun>, cps: seq<nat>, c: nat, k: nat)
    requires c < |BidiText(cps)| && host.bidi(BidiText(cps)).1 == FirstRuns(BidiText(cps), icu)
    requires AllWhole(BidiText(cps), icu(Encode(BidiText(cps))))
    requires OnlyUnitRun(icu(Encode(BidiText(cps))), UnitStart(BidiText(cps), c), k)
    ensures Reached(host, cps, c) <==> k < LINE_MAX_RUNS
  {
    hide Whole, Reached, Encode, UnitStart;
    ReachedIff(host, icu, cps, c);
    assert InUnits(icu(Encode(BidiText(cps)))[k], UnitStart(BidiText(cps), c));
  }

  lemma FirstRunsInText(cps: seq<nat>, icu: seq<nat> -> seq<UnitRun>, k: nat)
    requires k < |FirstRuns(cps, icu)|
    ensures FirstRuns(cps, icu)[k].offset + FirstRuns(cps, icu)[k].length <= |cps|
  {
    MapRunInText(cps, Analysed(cps, icu)[k]);
  }

  lemma FullShapeOk(env: ShapeEnv, cps: seq<nat>, size: real, dir: nat, k: nat)
    requires ShapeEnvOk(env) && k < |FullShape(env, cps, size, dir)|
    ensures FullShape(env, cps, size, dir)[k].cluster < |cps| && FullShape(env, cps, size, dir)[k].glyph < GID_LIMIT
  {
    ClustersInRun(env, cps, size, dir, 0);
  }

  /** A text host whose services are the host's own loops satisfies TextHostOk,
      for any HarfBuzz with clusters inside its input and any ICU. */
  lemma HostMeetsContract(env: ShapeEnv, icu: seq<nat> -> seq<UnitRun>, baseDir: seq<nat> -> int, host: TextHost)
    requires ShapeEnvOk(env)
    requires forall cps: seq<nat>, size: real, dir: nat :: host.shape(cps, size, dir) == FullShape(env, cps, size, dir)
    requires forall cps: seq<nat> :: host.bidi(cps) == (baseDir(cps), FirstRuns(cps, icu))
    ensures TextHostOk(host)
  {
    hide FullShape, FirstRuns, ShapeEnvOk;
    forall cps: seq<nat>, size: real, dir: nat, k: nat | k < |host.shape(cps, size, dir)|
      ensures var sg := host.shape(cps, size, dir)[k];
              sg.cluster < |cps| && (sg.glyph < GID_LIMIT || sg.glyph == MISSING_GLYPH)
    {
      FullShapeOk(env, cps, size, dir, k);
    }
    forall cps: seq<nat> ensures |host.bidi(cps).1| <= LINE_MAX_RUNS {
      FirstRunsCount(cps, icu);
    }
    forall cps: seq<nat>, k: nat | k < |host.bidi(cps).1|
      ensures host.bidi(cps).1[k].offset + host.bidi(cps).1[k].length <= |cps|
    {
      FirstRunsInText(cps, icu, k);
    }
  }

  lemma FirstRunsCount(cps: seq<nat>, icu: seq<nat> -> seq<UnitRun>)
    ensures |FirstRuns(cps, icu)| <= LINE_MAX_RUNS
  {}
}
