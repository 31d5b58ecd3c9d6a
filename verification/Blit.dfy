/**
 Blitting between surfaces (sdk/wasm_surface.c): the destination rectangle is
 clipped to the destination, the source window is corrected for what was cut
 off, and pixels are combined by hardware blending or, for other modes, through
 a second texture. Texture coordinates are exact reals.
 */
module BlitGeometry {

  datatype Option<T> = None | Some(value: T)

  datatype Rect = Rect(x: int, y: int, w: int, h: int)

  /** A window of texture coordinates: origin and extent. */
  datatype Window = Window(u: real, v: real, du: real, dv: real)

  const I32_MAX: int := 0x7FFF_FFFF

  predicate InI32(n: int) { -I32_MAX - 1 <= n <= I32_MAX }

  // ---- Clipping ------------------------------------------------------------------

  predicate InSpan(p: int, x: int, w: int) { x <= p < x + w }

  predicate InRect(r: Rect, px: int, py: int) { InSpan(px, r.x, r.w) && InSpan(py, r.y, r.h) }

  function ClipAxis(x: int, w: int, limit: nat): (int, int) {
    var x1 := if x < 0 then 0 else x;
    var w1 := if x < 0 then w + x else w;
    (x1, if x1 + w1 > limit then limit - x1 else w1)
  }

  /** The rectangle asked for: the given one, or the whole destination. */
  function Target(rect: Option<Rect>, width: nat, height: nat): Rect {
    if rect.Some? then rect.value else Rect(0, 0, width, height)
  }

  /** Clipping an axis is exactly intersecting with 0..limit, for every point. */
  lemma ClipAxisIntersects(x: int, w: int, limit: nat, p: int)
    ensures var (cx, cw) := ClipAxis(x, w, limit);
            && (InSpan(p, cx, cw) <==> InSpan(p, x, w) && 0 <= p < limit)
            && cw <= w && x <= cx && cx >= 0
            && (cw > 0 ==> cx + cw <= limit && cx + cw <= x + w)
  {}

  /** In-place clipping, one edge after the other. The arithmetic is that of
      32-bit ints: the requires exclude overflow of x + w and y + h. */
  method GetDstRect(width: nat, height: nat, rect: Option<Rect>) returns (d: Rect)
    requires width <= I32_MAX && height <= I32_MAX
    requires rect.Some? ==> InI32(rect.value.x + rect.value.w) && InI32(rect.value.y + rect.value.h)
    ensures var t := Target(rect, width, height);
            && (forall px: int, py: int ::
                  InRect(d, px, py) <==> InRect(t, px, py) && 0 <= px < width && 0 <= py < height)
            && d.w <= t.w && d.h <= t.h
            && (d.w > 0 ==> t.x <= d.x && 0 <= d.x && d.x + d.w <= width && d.x + d.w <= t.x + t.w)
            && (d.h > 0 ==> t.y <= d.y && 0 <= d.y && d.y + d.h <= height && d.y + d.h <= t.y + t.h)
            && d == Clipped(rect, width, height)
  {
    var x, y, w, h;
    if rect.Some? {
      x, y, w, h := rect.value.x, rect.value.y, rect.value.w, rect.value.h;
    } else {
      x, y, w, h := 0, 0, width, height;
    }
    if x < 0 { w := w + x; x := 0; }
    if y < 0 { h := h + y; y := 0; }
    if x + w > width { w := width - x; }
    if y + h > height { h := height - y; }
    d := Rect(x, y, w, h);
  }

  function Clipped(rect: Option<Rect>, width: nat, height: nat): Rect {
    var t := Target(rect, width, height);
    var (x, w) := ClipAxis(t.x, t.w, width);
    var (y, h) := ClipAxis(t.y, t.h, height);
    Rect(x, y, w, h)
  }

  /** A non-empty rectangle inside an area of w x h. */
  ghost predicate RectInside(d: Rect, w: nat, h: nat) {
    0 <= d.x && 0 < d.w && d.x + d.w <= w && 0 <= d.y && 0 < d.h && d.y + d.h <= h
  }

  /** What is left after clipping lies inside any allocation of the destination. */
  lemma ClippedInside(rect: Option<Rect>, width: nat, height: nat, allocW: nat, allocH: nat)
    requires width <= allocW && height <= allocH
    requires var d := Clipped(rect, width, height); d.w > 0 && d.h > 0
    ensures RectInside(Clipped(rect, width, height), allocW, allocH)
  {
    var t := Target(rect, width, height);
    ClipAxisIntersects(t.x, t.w, width, 0);
    ClipAxisIntersects(t.y, t.h, height, 0);
  }

  // ---- Texture coordinates ---------------------------------------------------------

  /** The coordinate sampled at position p when the window [c, c + d] is stretched
      over the pixels [x, x + w]. */
  function Sampled(c: real, d: real, x: int, w: int, p: real): real
    requires w > 0
  {
    c + (p - x as real) / (w as real) * d
  }

  /** The source window before correction: the source rectangle, or the logical
      part of the source, relative to the allocated texture. */
  function SourceWindow(rect: Option<Rect>, width: nat, height: nat, allocW: nat, allocH: nat): Window
    requires allocW >= 1 && allocH >= 1
  {
    if rect.Some? then
      var r := rect.value;
      Window(r.x as real / allocW as real, r.y as real / allocH as real,
             r.w as real / allocW as real, r.h as real / allocH as real)
    else Window(0.0, 0.0, width as real / allocW as real, height as real / allocH as real)
  }

  /** Along an axis: a window of w texels at x, stretched over ow pixels at ox, maps
      position p to the texel position as far into the window as p is into them. */
  lemma SampleAxis(x: int, w: int, alloc: nat, ox: int, ow: int, p: real)
    requires alloc >= 1 && ow > 0
    ensures Sampled(x as real / alloc as real, w as real / alloc as real, ox, ow, p) * alloc as real
            == x as real + (p - ox as real) / ow as real * w as real
  {}

  /** Stretching the window over the target maps it onto the source rectangle, or
      the whole source: its left edge to x, its right edge to x + w, in texels. */
  lemma WindowMapsOnto(rect: Option<Rect>, width: nat, height: nat, allocW: nat, allocH: nat,
                       o: Rect, px: real, py: real)
    requires allocW >= 1 && allocH >= 1 && o.w > 0 && o.h > 0
    ensures var s := if rect.Some? then rect.value else Rect(0, 0, width, height);
            var win := SourceWindow(rect, width, height, allocW, allocH);
            && Sampled(win.u, win.du, o.x, o.w, px) * allocW as real
               == s.x as real + (px - o.x as real) / o.w as real * s.w as real
            && Sampled(win.v, win.dv, o.y, o.h, py) * allocH as real
               == s.y as real + (py - o.y as real) / o.h as real * s.h as real
  {
    var s := if rect.Some? then rect.value else Rect(0, 0, width, height);
    SampleAxis(s.x, s.w, allocW, o.x, o.w, px);
    SampleAxis(s.y, s.h, allocH, o.y, o.h, py);
  }

  /** The source rectangle is absent or inside the source. */
  predicate Contained(rect: Option<Rect>, width: nat, height: nat) {
    rect.Some? ==>
      var r := rect.value;
      0 <= r.x && 0 <= r.w && r.x + r.w <= width && 0 <= r.y && 0 <= r.h && r.y + r.h <= height
  }

  function CorrectOrigin(c: real, d: real, ox: int, ow: int, dx: int): real
    requires ow > 0
  {
    c + ((dx - ox) as real) / (ow as real) * d
  }

  function CorrectExtent(d: real, ow: int, dw: int): real
    requires ow > 0
  {
    d * (dw as real / ow as real)
  }

  /** The window for the clipped rectangle d of target o. */
  function Corrected(win: Window, o: Rect, d: Rect): Window
    requires o.w > 0 && o.h > 0
  {
    Window(CorrectOrigin(win.u, win.du, o.x, o.w, d.x), CorrectOrigin(win.v, win.dv, o.y, o.h, d.y),
           CorrectExtent(win.du, o.w, d.w), CorrectExtent(win.dv, o.h, d.h))
  }

  /** Sampling is unaffected by clipping: along an axis, every position gets the
      coordinate that the unclipped blit would give it. */
  lemma CorrectionPreservesSampling(c: real, d: real, ox: int, ow: int, dx: int, dw: int, p: real)
    requires ow > 0 && dw > 0
    ensures Sampled(CorrectOrigin(c, d, ox, ow, dx), CorrectExtent(d, ow, dw), dx, dw, p) == Sampled(c, d, ox, ow, p)
  {}

  predicate InUnit(c: real, d: real) { 0.0 <= c && 0.0 <= d && c + d <= 1.0 }

  lemma RatioInUnit(x: int, w: int, alloc: nat)
    requires alloc >= 1 && 0 <= x && 0 <= w && x + w <= alloc
    ensures InUnit(x as real / alloc as real, w as real / alloc as real)
  {}

  /** The source window of an absent or contained source rectangle lies in the texture. */
  lemma SourceWindowInUnit(rect: Option<Rect>, width: nat, height: nat, allocW: nat, allocH: nat)
    requires 1 <= allocW && 1 <= allocH && width <= allocW && height <= allocH
    requires Contained(rect, width, height)
    ensures var win := SourceWindow(rect, width, height, allocW, allocH);
            InUnit(win.u, win.du) && InUnit(win.v, win.dv)
  {
    if rect.Some? {
      RatioInUnit(rect.value.x, rect.value.w, allocW);
      RatioInUnit(rect.value.y, rect.value.h, allocH);
    } else {
      RatioInUnit(0, width, allocW);
      RatioInUnit(0, height, allocH);
    }
  }

  /** Correction for a contained rectangle keeps the window in the texture. */
  lemma CorrectedInUnit(c: real, d: real, ox: int, ow: int, dx: int, dw: int)
    requires InUnit(c, d) && 0 < dw && ox <= dx && dx + dw <= ox + ow
    ensures InUnit(CorrectOrigin(c, d, ox, ow, dx), CorrectExtent(d, ow, dw))
  {}

  /** The window a blit samples lies in the source texture whenever the source
      rectangle is absent or inside the source, however the target is clipped. */
  lemma BlitWindowInUnit(srcRect: Option<Rect>, width: nat, height: nat, allocW: nat, allocH: nat,
                         dstRect: Option<Rect>, dstW: nat, dstH: nat)
    requires 1 <= allocW && 1 <= allocH && width <= allocW && height <= allocH
    requires Contained(srcRect, width, height)
    requires var d := Clipped(dstRect, dstW, dstH); d.w > 0 && d.h > 0
    ensures var o, d := Target(dstRect, dstW, dstH), Clipped(dstRect, dstW, dstH);
            && o.w > 0 && o.h > 0
            && var win := Corrected(SourceWindow(srcRect, width, height, allocW, allocH), o, d);
               InUnit(win.u, win.du) && InUnit(win.v, win.dv)
  {
    var o, d := Target(dstRect, dstW, dstH), Clipped(dstRect, dstW, dstH);
    ClipAxisIntersects(o.x, o.w, dstW, 0);
    ClipAxisIntersects(o.y, o.h, dstH, 0);
    SourceWindowInUnit(srcRect, width, height, allocW, allocH);
    var win := SourceWindow(srcRect, width, height, allocW, allocH);
    CorrectedInUnit(win.u, win.du, o.x, o.w, d.x, d.w);
    CorrectedInUnit(win.v, win.dv, o.y, o.h, d.y, d.h);
  }
}

module BlitPixels {
  import opened BlitGeometry

  datatype Pixel = Pixel(r: real, g: real, b: real, a: real)

  const TRANSPARENT: Pixel := Pixel(0.0, 0.0, 0.0, 0.0)

  type Pixels = map<(int, int), Pixel>

  const BLEND_HW_MAX: int := 3
  const BLEND_PREMULTIPLIED: int := 31
  const BLEND_COUNT: int := 32

  predicate HardwareMode(mode: int) { mode < BLEND_HW_MAX || mode == BLEND_PREMULTIPLIED }

  /** How a source pixel is combined with the one below it. */
  type Combine = (Pixel, Pixel) -> Pixel

  /** The parts the GPU decides: texture sampling and, per mode and opacity, the
      blend equation of the fixed-function path and of the blend shader. */
  datatype Shading = Shading(sample: (Pixels, real, real) -> Pixel,
                             hardware: (int, real) -> Combine,
                             shader: (int, real) -> Combine)

  ghost predicate Covers(px: Pixels, w: nat, h: nat) {
    forall p: (int, int) :: p in px <==> 0 <= p.0 < w && 0 <= p.1 < h
  }

  lemma SameExtent(a: Pixels, b: Pixels, w: nat, h: nat)
    requires Covers(a, w, h)
    ensures Covers(b, w, h) <==> b.Keys == a.Keys
  {}

  /** The source pixel for (x, y) when the window is stretched over rectangle d;
      pixels are sampled at their centres. */
  function Fragment(sh: Shading, src: Pixels, win: Window, d: Rect, x: int, y: int): Pixel
    requires d.w > 0 && d.h > 0
  {
    sh.sample(src, Sampled(win.u, win.du, d.x, d.w, x as real + 0.5),
              Sampled(win.v, win.dv, d.y, d.h, y as real + 0.5))
  }

  /** A quad drawn over rectangle d: each covered pixel of the target becomes the
      source pixel combined with what `below` holds there. */
  function DrawQuad(sh: Shading, f: Combine, src: Pixels, win: Window, d: Rect, target: Pixels, below: Pixels)
      : (r: Pixels)
    requires d.w > 0 && d.h > 0 && target.Keys <= below.Keys
    ensures r.Keys == target.Keys
  {
    map p | p in target ::
      if InRect(d, p.0, p.1) then f(Fragment(sh, src, win, d, p.0, p.1), below[p]) else target[p]
  }

  function Clear(t: Pixels): (r: Pixels)
    ensures r.Keys == t.Keys
  {
    map p | p in t :: TRANSPARENT
  }

  /** Copies a region that must lie inside both textures. */
  ghost function CopyRegion(dst: Pixels, src: Pixels, d: Rect, w: nat, h: nat): (r: Pixels)
    requires Covers(dst, w, h) && Covers(src, w, h) && RectInside(d, w, h)
    ensures r.Keys == dst.Keys
  {
    map p | p in dst :: if InRect(d, p.0, p.1) then src[p] else dst[p]
  }

  /** The shader path: clear the second texture, draw into it, copy the
      rectangle back. */
  ghost function PingPong(sh: Shading, f: Combine, src: Pixels, win: Window, d: Rect,
                          texA: Pixels, texB: Pixels, w: nat, h: nat): Pixels
    requires Covers(texA, w, h) && Covers(texB, w, h) && RectInside(d, w, h)
  {
    assert texA.Keys == texB.Keys;
    var drawn := DrawQuad(sh, f, src, win, d, Clear(texB), texA);
    CopyRegion(texA, drawn, d, w, h)
  }

  /** Going through the second texture amounts to blending in place, whatever
      that texture held before. */
  lemma PingPongIsInPlace(sh: Shading, f: Combine, src: Pixels, win: Window, d: Rect,
                          texA: Pixels, texB: Pixels, w: nat, h: nat)
    requires Covers(texA, w, h) && Covers(texB, w, h) && RectInside(d, w, h)
    ensures PingPong(sh, f, src, win, d, texA, texB, w, h) == DrawQuad(sh, f, src, win, d, texA, texA)
  {}

  /** The pixels `after` are `before` with each pixel of rectangle d combined with
      its source pixel, and every other pixel kept. */
  ghost predicate Blended(sh: Shading, f: Combine, src: Pixels, win: Window, d: Rect, before: Pixels, after: Pixels)
    requires d.w > 0 && d.h > 0
  {
    && after.Keys == before.Keys
    && (forall p :: p in before && InRect(d, p.0, p.1) ==>
          after[p] == f(Fragment(sh, src, win, d, p.0, p.1), before[p]))
    && (forall p :: p in before && !InRect(d, p.0, p.1) ==> after[p] == before[p])
  }

  lemma BlendedIsDraw(sh: Shading, f: Combine, src: Pixels, win: Window, d: Rect, before: Pixels, after: Pixels)
    requires d.w > 0 && d.h > 0
    ensures Blended(sh, f, src, win, d, before, after) <==> after == DrawQuad(sh, f, src, win, d, before, before)
  {}

  /** A texture whose covered pixels are combined with `below` and whose other
      pixels are kept is the quad drawn on it. */
  lemma DrawnQuad(sh: Shading, f: Combine, src: Pixels, win: Window, d: Rect, target: Pixels, below: Pixels,
                  after: Pixels)
    requires d.w > 0 && d.h > 0 && target.Keys <= below.Keys && after.Keys == target.Keys
    requires forall p :: p in after && InRect(d, p.0, p.1) ==>
               after[p] == f(Fragment(sh, src, win, d, p.0, p.1), below[p])
    requires forall p :: p in after && !InRect(d, p.0, p.1) ==> after[p] == target[p]
    ensures after == DrawQuad(sh, f, src, win, d, target, below)
  {}

  /** What a blit promises: every destination pixel inside the rectangle asked
      for and inside the destination is combined with the source pixel that the
      unclipped window puts there; all other pixels stay. */
  function Reference(sh: Shading, f: Combine, src: Pixels, win: Window, o: Rect,
                     width: nat, height: nat, dst: Pixels): Pixels
  {
    map p | p in dst ::
      if o.w > 0 && o.h > 0 && InRect(o, p.0, p.1) && p.0 < width && p.1 < height && 0 <= p.0 && 0 <= p.1
      then f(Fragment(sh, src, win, o, p.0, p.1), dst[p]) else dst[p]
  }

  /** Drawing the clipped rectangle with the corrected window is the reference blit. */
  lemma ClippedDrawIsReference(sh: Shading, f: Combine, src: Pixels, win: Window, rect: Option<Rect>,
                               width: nat, height: nat, dst: Pixels)
    requires var d := Clipped(rect, width, height); d.w > 0 && d.h > 0
    ensures var o, d := Target(rect, width, height), Clipped(rect, width, height);
            && o.w > 0 && o.h > 0
            && DrawQuad(sh, f, src, Corrected(win, o, d), d, dst, dst)
               == Reference(sh, f, src, win, o, width, height, dst)
  {
    var o, d := Target(rect, width, height), Clipped(rect, width, height);
    ClipAxisIntersects(o.x, o.w, width, 0);
    ClipAxisIntersects(o.y, o.h, height, 0);
    var cor := Corrected(win, o, d);
    var a, b := DrawQuad(sh, f, src, cor, d, dst, dst), Reference(sh, f, src, win, o, width, height, dst);
    forall p | p in dst ensures a[p] == b[p] {
      PixelAgrees(sh, src, win, rect, width, height, p.0, p.1);
    }
  }

  /** Sampling at the centre of a texel gives that texel. */
  ghost predicate ExactAtCentres(sh: Shading, src: Pixels, allocW: nat, allocH: nat)
    requires allocW >= 1 && allocH >= 1
  {
    forall i: int, j: int :: (i, j) in src ==>
      sh.sample(src, (i as real + 0.5) / allocW as real, (j as real + 0.5) / allocH as real) == src[(i, j)]
  }

  /** Between rectangles of the same size the fragment of a pixel is the texel at
      the same place in the source rectangle. */
  lemma FragmentIsTexel(sh: Shading, src: Pixels, srcRect: Option<Rect>, width: nat, height: nat,
                        allocW: nat, allocH: nat, o: Rect, x: int, y: int)
    requires allocW >= 1 && allocH >= 1 && o.w > 0 && o.h > 0 && ExactAtCentres(sh, src, allocW, allocH)
    requires var s := if srcRect.Some? then srcRect.value else Rect(0, 0, width, height);
             s.w == o.w && s.h == o.h && (x - o.x + s.x, y - o.y + s.y) in src
    ensures var s := if srcRect.Some? then srcRect.value else Rect(0, 0, width, height);
            Fragment(sh, src, SourceWindow(srcRect, width, height, allocW, allocH), o, x, y)
            == src[(x - o.x + s.x, y - o.y + s.y)]
  {
    hide Sampled, SourceWindow;
    var s := if srcRect.Some? then srcRect.value else Rect(0, 0, width, height);
    var win := SourceWindow(srcRect, width, height, allocW, allocH);
    var px, py := x as real + 0.5, y as real + 0.5;
    WindowMapsOnto(srcRect, width, height, allocW, allocH, o, px, py);
    Centre(Sampled(win.u, win.du, o.x, o.w, px), allocW, s.x, o.x, o.w, x);
    Centre(Sampled(win.v, win.dv, o.y, o.h, py), allocH, s.y, o.y, o.h, y);
  }

  lemma Centre(c: real, alloc: nat, sx: int, ox: int, w: int, x: int)
    requires alloc >= 1 && w > 0
    requires c * alloc as real == sx as real + (x as real + 0.5 - ox as real) / w as real * w as real
    ensures c == ((x - ox + sx) as real + 0.5) / alloc as real
  {
    assert (x as real + 0.5 - ox as real) / w as real * w as real == x as real + 0.5 - ox as real;
  }

  lemma PixelAgrees(sh: Shading, src: Pixels, win: Window, rect: Option<Rect>, width: nat, height: nat, x: int, y: int)
    requires var o, d := Target(rect, width, height), Clipped(rect, width, height);
             d.w > 0 && d.h > 0 && o.w > 0 && o.h > 0
    ensures var o, d := Target(rect, width, height), Clipped(rect, width, height);
            && (InRect(d, x, y) <==> InRect(o, x, y) && 0 <= x < width && 0 <= y < height)
            && Fragment(sh, src, Corrected(win, o, d), d, x, y) == Fragment(sh, src, win, o, x, y)
  {
    var o, d := Target(rect, width, height), Clipped(rect, width, height);
    ClipAxisIntersects(o.x, o.w, width, x);
    ClipAxisIntersects(o.y, o.h, height, y);
    CorrectionPreservesSampling(win.u, win.du, o.x, o.w, d.x, d.w, x as real + 0.5);
    CorrectionPreservesSampling(win.v, win.dv, o.y, o.h, d.y, d.h, y as real + 0.5);
  }
}

module BlitClass {
  import opened BlitGeometry
  import opened BlitPixels

  /** A texture in GPU memory. */
  class Texture {
    var px: Pixels

    constructor (p: Pixels)
      ensures px == p
    {
      px := p;
    }
  }

  /** The part of a surface that blitting reads and writes. */
  class BlitSurface {
    const texA: Texture
    const texB: Texture
    var width: nat
    var height: nat
    var allocW: nat
    var allocH: nat
    var passActive: bool

    ghost predicate Valid()
      reads this, texA, texB
    {
      && texA != texB
      && 1 <= allocW && 1 <= allocH && width <= allocW && height <= allocH
      && width <= I32_MAX && height <= I32_MAX
      && Covers(texA.px, allocW, allocH) && Covers(texB.px, allocW, allocH)
    }

    constructor (a: Texture, b: Texture, w: nat, h: nat, aw: nat, ah: nat)
      ensures texA == a && texB == b && width == w && height == h && allocW == aw && allocH == ah && !passActive
    {
      texA, texB, width, height, allocW, allocH, passActive := a, b, w, h, aw, ah, false;
    }
  }

  /** A render pass on one texture of size w x h. The GPU accepts viewports and
      scissor rectangles only inside the attachment: that is their precondition. */
  class RenderPass {
    const target: Texture
    const w: nat
    const h: nat
    var viewport: Rect
    var scissor: Rect

    constructor (t: Texture, width: nat, height: nat)
      ensures target == t && w == width && h == height
    {
      target, w, h := t, width, height;
      viewport, scissor := Rect(0, 0, width, height), Rect(0, 0, width, height);
    }

    method SetViewport(d: Rect)
      requires RectInside(d, w, h)
      modifies this`viewport
      ensures viewport == d
    {
      viewport := d;
    }

    method SetScissorRect(d: Rect)
      requires RectInside(d, w, h)
      modifies this`scissor
      ensures scissor == d
    {
      scissor := d;
    }

    /** Draws the quad: it fills the viewport, and the scissor cuts it off. */
    method Draw(sh: Shading, f: Combine, src: Pixels, win: Window, below: Pixels)
      requires viewport.w > 0 && viewport.h > 0 && target.px.Keys <= below.Keys
      modifies target
      ensures target.px.Keys == old(target.px.Keys)
      ensures forall p :: p in target.px && InRect(viewport, p.0, p.1) && InRect(scissor, p.0, p.1) ==>
                target.px[p] == f(Fragment(sh, src, win, viewport, p.0, p.1), below[p])
      ensures forall p :: p in target.px && !(InRect(viewport, p.0, p.1) && InRect(scissor, p.0, p.1)) ==>
                target.px[p] == old(target.px[p])
    {
      var was, v, s := target.px, viewport, scissor;
      target.px := map p | p in was ::
        if InRect(v, p.0, p.1) && InRect(s, p.0, p.1) then f(Fragment(sh, src, win, v, p.0, p.1), below[p]) else was[p];
    }
  }

  /** Begins a pass that clears its texture. */
  method ClearTexture(t: Texture)
    modifies t
    ensures t.px == Clear(old(t.px))
  {
    t.px := Clear(t.px);
  }

  /** Copies a region that must lie inside both textures. */
  method CopyTexture(dst: Texture, src: Texture, d: Rect, w: nat, h: nat)
    requires dst != src && Covers(dst.px, w, h) && Covers(src.px, w, h) && RectInside(d, w, h)
    modifies dst
    ensures dst.px == CopyRegion(old(dst.px), src.px, d, w, h)
  {
    var was, from := dst.px, src.px;
    dst.px := map p | p in was :: if InRect(d, p.0, p.1) then from[p] else was[p];
  }

  /** Fixed-function blending: viewport and scissor are the clipped rectangle, and
      exactly its pixels are combined with the source. */
  method BlitHardware(src: BlitSurface, dst: BlitSurface, win: Window, d: Rect, sh: Shading, f: Combine)
    requires src.Valid() && dst.Valid() && RectInside(d, dst.allocW, dst.allocH)
    modifies dst.texA
    ensures Blended(sh, f, old(src.texA.px), win, d, old(dst.texA.px), dst.texA.px)
    ensures dst.Valid()
  {
    hide Fragment;
    var pass := new RenderPass(dst.texA, dst.allocW, dst.allocH);
    pass.SetViewport(d);
    pass.SetScissorRect(d);
    pass.Draw(sh, f, src.texA.px, win, dst.texA.px);
  }

  /** Blends through the second texture: clear, draw, copy back. The outcome is
      the same as blending in place. */
  method BlitShader(src: BlitSurface, dst: BlitSurface, win: Window, d: Rect, sh: Shading, f: Combine)
    requires src.Valid() && dst.Valid() && RectInside(d, dst.allocW, dst.allocH)
    modifies dst.texA, dst.texB
    ensures Blended(sh, f, old(src.texA.px), win, d, old(dst.texA.px), dst.texA.px)
    ensures dst.Valid()
  {
    hide Fragment, Blended, InRect, DrawQuad, CopyRegion, Clear, Covers;
    var under, from := dst.texA.px, src.texA.px;
    ghost var w, h, stale := dst.allocW, dst.allocH, dst.texB.px;
    SameExtent(under, stale, w, h);
    ClearTexture(dst.texB);
    var pass := new RenderPass(dst.texB, dst.allocW, dst.allocH);
    pass.SetViewport(d);
    pass.SetScissorRect(d);
    pass.Draw(sh, f, from, win, under);
    DrawnQuad(sh, f, from, win, d, Clear(stale), under, dst.texB.px);
    SameExtent(under, dst.texB.px, w, h);
    CopyTexture(dst.texA, dst.texB, d, dst.allocW, dst.allocH);
    assert dst.texA.px == PingPong(sh, f, from, win, d, under, stale, w, h);
    PingPongIsInPlace(sh, f, from, win, d, under, stale, w, h);
    BlendedIsDraw(sh, f, from, win, d, under, dst.texA.px);
    SameExtent(under, dst.texA.px, w, h);
  }

  function CombineFor(sh: Shading, mode: int, opacity: real): Combine {
    if HardwareMode(mode) then sh.hardware(mode, opacity) else sh.shader(mode, opacity)
  }

  /** The public blit: the destination becomes the reference blit of the request,
      in every mode, for every pair of rectangles. */
  method Blit(src: BlitSurface, srcRect: Option<Rect>, dst: BlitSurface, dstRect: Option<Rect>,
              mode: int, opacity: real, sh: Shading)
    requires src.Valid() && dst.Valid()
    requires src != dst ==> {src.texA, src.texB} !! {dst.texA, dst.texB}
    requires dstRect.Some? ==> InI32(dstRect.value.x + dstRect.value.w) && InI32(dstRect.value.y + dstRect.value.h)
    modifies dst.texA, dst.texB
    ensures dst.Valid() && src.Valid()
    ensures src.passActive || dst.passActive || src == dst || mode < 0 || mode >= BLEND_COUNT ==>
              dst.texA.px == old(dst.texA.px)
    ensures !src.passActive && !dst.passActive && src != dst && 0 <= mode < BLEND_COUNT ==>
              dst.texA.px == Reference(sh, CombineFor(sh, mode, opacity), old(src.texA.px),
                                       SourceWindow(srcRect, src.width, src.height, src.allocW, src.allocH),
                                       Target(dstRect, dst.width, dst.height), dst.width, dst.height, old(dst.texA.px))
  {
    hide DrawQuad, Reference, Clipped, Corrected, SourceWindow, Covers, Blended;
    ghost var from, under := src.texA.px, dst.texA.px;
    if src.passActive || dst.passActive || src == dst { return; }
    if mode < 0 || mode >= BLEND_COUNT { return; }
    var o := Target(dstRect, dst.width, dst.height);
    var d := GetDstRect(dst.width, dst.height, dstRect);
    var win := SourceWindow(srcRect, src.width, src.height, src.allocW, src.allocH);
    var f := CombineFor(sh, mode, opacity);
    if d.w <= 0 || d.h <= 0 {
      NothingToDraw(sh, f, src.texA.px, win, o, d, dst.width, dst.height, dst.texA.px);
      return;
    }
    ClippedDrawIsReference(sh, f, src.texA.px, win, dstRect, dst.width, dst.height, dst.texA.px);
    if o.w > 0 && o.h > 0 {
      win := Corrected(win, o, d);
    }
    if mode < BLEND_HW_MAX || mode == BLEND_PREMULTIPLIED {
      BlitHardware(src, dst, win, d, sh, f);
    } else {
      BlitShader(src, dst, win, d, sh, f);
    }
    BlendedIsDraw(sh, f, from, win, d, under, dst.texA.px);
  }

  /** What a blit means, whatever the GPU samples between texels: between rectangles
      of the same size, each pixel of the target that lies in the destination is
      combined with the texel at the same place in the source rectangle, by the
      fixed-function stage for modes 0, 1, 2 and 31 and by the blend shader for the
      others; every other pixel is left alone. */
  lemma BlitTexelByTexel(sh: Shading, mode: int, opacity: real, src: Pixels, width: nat, height: nat, allocW: nat,
                         allocH: nat, srcRect: Option<Rect>, dst: Pixels, dstW: nat, dstH: nat,
                         dstRect: Option<Rect>, x: int, y: int)
    requires 0 <= mode < 32 && allocW >= 1 && allocH >= 1 && ExactAtCentres(sh, src, allocW, allocH)
    requires var s := if srcRect.Some? then srcRect.value else Rect(0, 0, width, height);
             var o := if dstRect.Some? then dstRect.value else Rect(0, 0, dstW, dstH);
             && s.w == o.w > 0 && s.h == o.h > 0
             && (x, y) in dst && (x - o.x + s.x, y - o.y + s.y) in src
    ensures var s := if srcRect.Some? then srcRect.value else Rect(0, 0, width, height);
            var o := if dstRect.Some? then dstRect.value else Rect(0, 0, dstW, dstH);
            var after := Reference(sh, CombineFor(sh, mode, opacity), src,
                                   SourceWindow(srcRect, width, height, allocW, allocH),
                                   Target(dstRect, dstW, dstH), dstW, dstH, dst);
            (x, y) in after &&
            if !(o.x <= x < o.x + o.w && o.y <= y < o.y + o.h && 0 <= x < dstW && 0 <= y < dstH) then
              after[(x, y)] == dst[(x, y)]
            else if mode in {0, 1, 2, 31} then
              after[(x, y)] == sh.hardware(mode, opacity)(src[(x - o.x + s.x, y - o.y + s.y)], dst[(x, y)])
            else
              after[(x, y)] == sh.shader(mode, opacity)(src[(x - o.x + s.x, y - o.y + s.y)], dst[(x, y)])
  {
    hide SourceWindow, Fragment, ExactAtCentres;
    var o := Target(dstRect, dstW, dstH);
    FragmentIsTexel(sh, src, srcRect, width, height, allocW, allocH, o, x, y);
    ReferenceAt(sh, CombineFor(sh, mode, opacity), src, SourceWindow(srcRect, width, height, allocW, allocH), o,
                dstW, dstH, dst, x, y);
  }

  lemma ReferenceAt(sh: Shading, f: Combine, src: Pixels, win: Window, o: Rect, width: nat, height: nat, dst: Pixels,
                    x: int, y: int)
    requires o.w > 0 && o.h > 0 && (x, y) in dst
    ensures Reference(sh, f, src, win, o, width, height, dst)[(x, y)]
            == if InRect(o, x, y) && 0 <= x < width && 0 <= y < height
               then f(Fragment(sh, src, win, o, x, y), dst[(x, y)]) else dst[(x, y)]
  {}

  lemma NothingToDraw(sh: Shading, f: Combine, src: Pixels, win: Window, o: Rect, d: Rect,
                      width: nat, height: nat, dst: Pixels)
    requires d.w <= 0 || d.h <= 0
    requires forall px: int, py: int :: InRect(d, px, py) <==> InRect(o, px, py) && 0 <= px < width && 0 <= py < height
    ensures Reference(sh, f, src, win, o, width, height, dst) == dst
  {}
}
