/**
 The bitmap glyph atlas (sdk/font_bitmap_atlas.h): rasterised glyphs packed
 into one pixel buffer, found by (font index, glyph id, requested size), and
 copied to a GPU buffer while the dirty flag is set.
 */
module BitmapSpec {
  import opened Sequences

  type Pixel = nat

  const MAX_BITMAP_PIXELS: nat := 136 * 136

  /** What font_get_glyph_bitmap writes and returns. */
  datatype Raster = Raster(bytes: int, w: nat, h: nat, advanceX: real, bearingX: real, bearingY: real,
                           pixelSize: nat, pixels: seq<Pixel>)

  type Rasteriser = (int, nat, int) -> Raster

  /** A successful reply fits the scratch buffer and is w x h pixels. */
  ghost predicate RasteriserOk(ras: Rasteriser) {
    forall f: int, g: nat, px: int :: ras(f, g, px).bytes > 0 ==>
      |ras(f, g, px).pixels| == ras(f, g, px).w * ras(f, g, px).h <= MAX_BITMAP_PIXELS
  }

  /** The arguments of one bitmap_atlas_get call. */
  datatype Request = Request(font: int, glyph: nat, fontIdx: int, px: int)

  function Raw(ras: Rasteriser, r: Request): Raster { ras(r.font, r.glyph, r.px) }

  /** The rasteriser delivers a bitmap with at least one pixel. */
  predicate Loads(ras: Rasteriser, r: Request) {
    Raw(ras, r).bytes > 0 && Raw(ras, r).w * Raw(ras, r).h != 0
  }

  predicate SameKey(a: Request, b: Request) {
    a.fontIdx == b.fontIdx && a.glyph == b.glyph && a.px == b.px
  }

  /** The first logged request with the same key, or -1. */
  function FindKey(log: seq<Request>, r: Request): (k: int)
    ensures -1 <= k < |log|
    ensures k >= 0 ==> SameKey(log[k], r)
    ensures forall i :: 0 <= i < (if k >= 0 then k else |log|) ==> !SameKey(log[i], r)
  {
    if log == [] then -1 else
      var n := |log| - 1;
      var k := FindKey(log[..n], r);
      if k >= 0 then k else if SameKey(log[n], r) then n else -1
  }

  /** One call: the log of loads gains the request if its key is new and the
      rasteriser delivers. */
  function Serve(ras: Rasteriser, log: seq<Request>, r: Request): seq<Request> {
    if FindKey(log, r) >= 0 || !Loads(ras, r) then log else log + [r]
  }

  function ServeAll(ras: Rasteriser, log: seq<Request>, rs: seq<Request>): seq<Request>
    decreases |rs|
  {
    if rs == [] then log else Serve(ras, ServeAll(ras, log, rs[..|rs| - 1]), rs[|rs| - 1])
  }

  ghost predicate KeysUnique(log: seq<Request>) {
    forall i, j :: 0 <= i < j < |log| ==> !SameKey(log[i], log[j])
  }

  ghost predicate AllLoad(ras: Rasteriser, log: seq<Request>) {
    forall i :: 0 <= i < |log| ==> Loads(ras, log[i])
  }

  /** Loads only append: entries keep their index, keys stay unique. */
  lemma {:induction false} ServeAllKeeps(ras: Rasteriser, log: seq<Request>, rs: seq<Request>)
    requires KeysUnique(log) && AllLoad(ras, log)
    ensures KeysUnique(ServeAll(ras, log, rs)) && AllLoad(ras, ServeAll(ras, log, rs))
    ensures log <= ServeAll(ras, log, rs)
    decreases |rs|
  {
    if rs != [] {
      ServeAllKeeps(ras, log, rs[..|rs| - 1]);
    }
  }

  lemma {:induction false} FindKeyPrefix(a: seq<Request>, b: seq<Request>, r: Request)
    requires a <= b && FindKey(a, r) >= 0
    ensures FindKey(b, r) == FindKey(a, r)
    decreases |b|
  {}

  lemma ServeFinds(ras: Rasteriser, log: seq<Request>, r: Request)
    requires Loads(ras, r)
    ensures FindKey(Serve(ras, log, r), r) >= 0
  {}

  /** Complete: in a run from an empty atlas every delivering request ends up
      with an entry for its key. */
  lemma {:induction false} LoadsAreLogged(ras: Rasteriser, rs: seq<Request>, p: nat)
    requires p < |rs| && Loads(ras, rs[p])
    ensures FindKey(ServeAll(ras, [], rs), rs[p]) >= 0
    decreases |rs|
  {
    var n := |rs| - 1;
    var before := ServeAll(ras, [], rs[..n]);
    if p < n {
      LoadsAreLogged(ras, rs[..n], p);
      FindKeyPrefix(before, Serve(ras, before, rs[n]), rs[p]);
    } else {
      ServeFinds(ras, before, rs[n]);
    }
  }

  /** Sound: each entry comes from the first delivering request of its key. */
  lemma {:induction false} LoggedAreFirst(ras: Rasteriser, rs: seq<Request>, i: nat) returns (p: nat)
    requires i < |ServeAll(ras, [], rs)|
    ensures p < |rs| && rs[p] == ServeAll(ras, [], rs)[i] && Loads(ras, rs[p])
    ensures forall q :: 0 <= q < p && Loads(ras, rs[q]) ==> !SameKey(rs[q], rs[p])
    decreases |rs|
  {
    var n := |rs| - 1;
    var before := ServeAll(ras, [], rs[..n]);
    if i < |before| {
      p := LoggedAreFirst(ras, rs[..n], i);
      forall q | 0 <= q < p && Loads(ras, rs[q]) ensures !SameKey(rs[q], rs[p]) {
        assert rs[..n][q] == rs[q];
      }
    } else {
      p := n;
      forall q | 0 <= q < p && Loads(ras, rs[q]) ensures !SameKey(rs[q], rs[p]) {
        LoadsAreLogged(ras, rs[..n], q);
        var k := FindKey(before, rs[q]);
        assert SameKey(before[k], rs[q]) && !SameKey(before[k], rs[n]);
      }
    }
  }

  // ---- Stored data ---------------------------------------------------------------

  datatype Entry = Entry(fontIdx: int, font: int, glyph: nat, offset: nat, width: nat, height: nat,
                         advanceX: real, bearingX: real, bearingY: real, pixelSize: nat, requestPx: int)

  /** The bitmaps of the logged requests, one after the other. */
  function Pixels(ras: Rasteriser, log: seq<Request>): seq<Pixel> {
    if log == [] then [] else
      Pixels(ras, log[..|log| - 1]) + Raw(ras, log[|log| - 1]).pixels
  }

  function EntryOf(r: Request, raw: Raster, offset: nat): Entry {
    Entry(r.fontIdx, r.font, r.glyph, offset, raw.w, raw.h,
          raw.advanceX, raw.bearingX, raw.bearingY, raw.pixelSize, r.px)
  }

  function EntryAt(ras: Rasteriser, log: seq<Request>, i: nat): Entry
    requires i < |log|
  {
    EntryOf(log[i], Raw(ras, log[i]), |Pixels(ras, log[..i])|)
  }

  lemma {:induction false} PixelsPrefix(ras: Rasteriser, a: seq<Request>, b: seq<Request>)
    requires a <= b
    ensures Pixels(ras, a) <= Pixels(ras, b)
    decreases |b|
  {
    if |a| == |b| {
      assert a == b;
    } else {
      PixelsPrefix(ras, a, b[..|b| - 1]);
    }
  }

  /** Entries tile the pixel buffer, and each slice is the bitmap that the
      rasteriser gave for that entry. */
  lemma EntriesTile(ras: Rasteriser, log: seq<Request>, i: nat)
    requires RasteriserOk(ras) && AllLoad(ras, log) && i < |log|
    ensures var e := EntryAt(ras, log, i);
            var end := e.offset + e.width * e.height;
            && e.offset < end <= |Pixels(ras, log)|
            && Pixels(ras, log)[e.offset..end] == ras(e.font, e.glyph, e.requestPx).pixels
            && end == (if i + 1 < |log| then EntryAt(ras, log, i + 1).offset else |Pixels(ras, log)|)
  {
    hide Pixels;
    assert Loads(ras, log[i]);
    PixelsNext(ras, log, i);
    PixelsPrefix(ras, log[..i + 1], log);
    SliceOf(Pixels(ras, log[..i]), Raw(ras, log[i]).pixels, Pixels(ras, log));
    if i + 1 == |log| {
      assert log[..i + 1] == log;
    }
  }

  lemma PixelsNext(ras: Rasteriser, log: seq<Request>, i: nat)
    requires i < |log|
    ensures Pixels(ras, log[..i + 1]) == Pixels(ras, log[..i]) + Raw(ras, log[i]).pixels
  {
    assert log[..i + 1][..i] == log[..i];
  }

  /** A repeated request gets the index of the first one and changes nothing,
      however many requests come in between. */
  lemma RepeatedRequest(ras: Rasteriser, log: seq<Request>, r: Request, rs: seq<Request>)
    requires KeysUnique(log) && AllLoad(ras, log) && Loads(ras, r)
    ensures var now := Serve(ras, log, r);
            var later := ServeAll(ras, now, rs);
            && 0 <= FindKey(now, r) == FindKey(later, r)
            && Serve(ras, later, r) == later
            && EntryAt(ras, later, FindKey(later, r)) == EntryAt(ras, now, FindKey(now, r))
  {
    hide ServeAll, Loads, KeysUnique, AllLoad, Pixels;
    var now := Serve(ras, log, r);
    var later := ServeAll(ras, now, rs);
    ServeFinds(ras, log, r);
    ServeKeeps(ras, log, r);
    ServeAllKeeps(ras, now, rs);
    FindKeyPrefix(now, later, r);
    assert later[..FindKey(now, r)] == now[..FindKey(now, r)];
  }

  lemma ServeKeeps(ras: Rasteriser, log: seq<Request>, r: Request)
    requires KeysUnique(log) && AllLoad(ras, log)
    ensures KeysUnique(Serve(ras, log, r)) && AllLoad(ras, Serve(ras, log, r))
  {}

  // ---- Whose bitmap is it? -----------------------------------------------------

  /** Request q of a run, if it is answered with an entry, is answered with one
      of its own font handle. */
  ghost predicate ServedOwn(ras: Rasteriser, rs: seq<Request>, q: nat)
    requires q < |rs|
  {
    var log := ServeAll(ras, [], rs[..q + 1]);
    var k := FindKey(log, rs[q]);
    k >= 0 ==> EntryAt(ras, log, k).font == rs[q].font
  }

  /** Every delivering request before q with its key used its handle. */
  ghost predicate Agrees(ras: Rasteriser, rs: seq<Request>, q: nat)
    requires q < |rs|
  {
    forall p :: 0 <= p < q && SameKey(rs[p], rs[q]) && Loads(ras, rs[p]) ==> rs[p].font == rs[q].font
  }

  /** The answer to request q is the entry of the first delivering request of its
      key, and so carries that request's handle. */
  lemma AnswerIsFirstDelivery(ras: Rasteriser, rs: seq<Request>, q: nat) returns (p: nat)
    requires q < |rs| && FindKey(ServeAll(ras, [], rs[..q + 1]), rs[q]) >= 0
    ensures p <= q && SameKey(rs[p], rs[q]) && Loads(ras, rs[p])
    ensures forall o :: 0 <= o < p && Loads(ras, rs[o]) ==> !SameKey(rs[o], rs[p])
    ensures var log := ServeAll(ras, [], rs[..q + 1]); log[FindKey(log, rs[q])] == rs[p]
    ensures ServedOwn(ras, rs, q) <==> rs[p].font == rs[q].font
  {
    var upto := rs[..q + 1];
    var k := FindKey(ServeAll(ras, [], upto), rs[q]);
    p := LoggedAreFirst(ras, upto, k);
    forall o | 0 <= o < p && Loads(ras, rs[o]) ensures !SameKey(rs[o], rs[p]) {
      assert upto[o] == rs[o];
    }
  }

  lemma AnswerAfterDelivery(ras: Rasteriser, rs: seq<Request>, p: nat, q: nat)
    requires p <= q < |rs| && SameKey(rs[p], rs[q]) && Loads(ras, rs[p])
    ensures FindKey(ServeAll(ras, [], rs[..q + 1]), rs[q]) >= 0
  {
    var upto := rs[..q + 1];
    LoadsAreLogged(ras, upto, p);
    var k := FindKey(ServeAll(ras, [], upto), rs[p]);
    assert SameKey(ServeAll(ras, [], upto)[k], rs[q]);
  }

  /** Entry e has the font index, glyph and size of the request, describes what the
      rasteriser returns for them, and its slice of the pixel buffer is that bitmap. */
  ghost predicate BitmapFor(ras: Rasteriser, px: seq<Pixel>, e: Entry, r: Request) {
    && e.fontIdx == r.fontIdx && e.glyph == r.glyph && e.requestPx == r.px
    && var raw := ras(e.font, r.glyph, r.px);
       && e.width == raw.w && e.height == raw.h && e.pixelSize == raw.pixelSize
       && e.advanceX == raw.advanceX && e.bearingX == raw.bearingX && e.bearingY == raw.bearingY
       && e.offset + raw.w * raw.h <= |px|
       && px[e.offset..e.offset + raw.w * raw.h] == raw.pixels
  }

  /** An answered request gets a bitmap of what it asked for; with its own handle it
      is its own bitmap. */
  lemma AnswerIsAsAsked(ras: Rasteriser, rs: seq<Request>, q: nat)
    requires RasteriserOk(ras) && q < |rs| && FindKey(ServeAll(ras, [], rs[..q + 1]), rs[q]) >= 0
    ensures var log := ServeAll(ras, [], rs[..q + 1]);
            var e := EntryAt(ras, log, FindKey(log, rs[q]));
            && BitmapFor(ras, Pixels(ras, log), e, rs[q])
            && (Agrees(ras, rs, q) ==> e.font == rs[q].font)
  {
    hide ServeAll, Pixels;
    var log := ServeAll(ras, [], rs[..q + 1]);
    ServeAllKeeps(ras, [], rs[..q + 1]);
    var p := AnswerIsFirstDelivery(ras, rs, q);
    EntriesTile(ras, log, FindKey(log, rs[q]));
  }

  /** Request q is answered if and only if it or an earlier request for the same
      font index, glyph and size got a bitmap with pixels from the rasteriser. */
  lemma AnsweredIff(ras: Rasteriser, rs: seq<Request>, q: nat)
    requires q < |rs|
    ensures FindKey(ServeAll(ras, [], rs[..q + 1]), rs[q]) >= 0 <==>
            exists p :: 0 <= p <= q &&
              var (a, b) := (rs[p], rs[q]);
              && a.fontIdx == b.fontIdx && a.glyph == b.glyph && a.px == b.px
              && ras(a.font, a.glyph, a.px).bytes > 0
              && ras(a.font, a.glyph, a.px).w > 0 && ras(a.font, a.glyph, a.px).h > 0
  {
    hide ServeAll, FindKey;
    if FindKey(ServeAll(ras, [], rs[..q + 1]), rs[q]) >= 0 {
      var p := AnswerIsFirstDelivery(ras, rs, q);
    }
    forall p | 0 <= p <= q && SameKey(rs[p], rs[q]) && Loads(ras, rs[p])
      ensures FindKey(ServeAll(ras, [], rs[..q + 1]), rs[q]) >= 0
    {
      AnswerAfterDelivery(ras, rs, p, q);
    }
  }

  /** Two answered requests share an entry if and only if they ask for the same
      font index, glyph and size. */
  lemma SharedIff(ras: Rasteriser, rs: seq<Request>, a: Request, b: Request)
    requires var log := ServeAll(ras, [], rs); FindKey(log, a) >= 0 && FindKey(log, b) >= 0
    ensures var log := ServeAll(ras, [], rs);
            FindKey(log, a) == FindKey(log, b) <==> a.fontIdx == b.fontIdx && a.glyph == b.glyph && a.px == b.px
  {
    hide ServeAll;
    if SameKey(a, b) {
      SameKeyFound(ServeAll(ras, [], rs), a, b);
    }
  }

  /** The key leaves the font handle out. Over a run from an empty atlas, every
      request is answered with its own handle's bitmap if and only if no two
      requests with one key, the earlier one delivering, differ in their handle. */
  lemma OwnHandleIff(ras: Rasteriser, rs: seq<Request>)
    ensures (forall q :: 0 <= q < |rs| ==> ServedOwn(ras, rs, q))
            <==> (forall q :: 0 <= q < |rs| ==> Agrees(ras, rs, q))
  {
    if forall q :: 0 <= q < |rs| ==> Agrees(ras, rs, q) {
      forall q | 0 <= q < |rs| ensures ServedOwn(ras, rs, q) {
        assert Agrees(ras, rs, q);
        if FindKey(ServeAll(ras, [], rs[..q + 1]), rs[q]) >= 0 {
          var p := AnswerIsFirstDelivery(ras, rs, q);
        }
      }
    }
    if forall q :: 0 <= q < |rs| ==> ServedOwn(ras, rs, q) {
      forall q | 0 <= q < |rs| ensures Agrees(ras, rs, q) {
        forall p | 0 <= p < q && SameKey(rs[p], rs[q]) && Loads(ras, rs[p]) ensures rs[p].font == rs[q].font {
          OwnersAgree(ras, rs, p, q);
        }
      }
    }
  }

  lemma OwnersAgree(ras: Rasteriser, rs: seq<Request>, p: nat, q: nat)
    requires p < q < |rs| && SameKey(rs[p], rs[q]) && Loads(ras, rs[p])
    requires ServedOwn(ras, rs, p) && ServedOwn(ras, rs, q)
    ensures rs[p].font == rs[q].font
  {
    AnswerAfterDelivery(ras, rs, p, p);
    AnswerAfterDelivery(ras, rs, p, q);
    var a := AnswerIsFirstDelivery(ras, rs, p);
    var b := AnswerIsFirstDelivery(ras, rs, q);
    assert SameKey(rs[a], rs[b]);
    assert a == b;
  }

  /** In particular, one handle per font index is enough. */
  lemma OneHandlePerIndex(ras: Rasteriser, rs: seq<Request>, handleOf: int -> int)
    requires forall p :: 0 <= p < |rs| ==> rs[p].font == handleOf(rs[p].fontIdx)
    ensures forall q :: 0 <= q < |rs| ==> ServedOwn(ras, rs, q)
  {
    OwnHandleIff(ras, rs);
  }

  /** And every run that breaks the condition fails: once a has been loaded, a
      later request b for its key under another handle is served a's pixels,
      whatever came before and in between. */
  lemma OtherHandleServed(ras: Rasteriser, log: seq<Request>, a: Request, mid: seq<Request>, b: Request)
    requires RasteriserOk(ras) && KeysUnique(log) && AllLoad(ras, log)
    requires FindKey(log, a) < 0 && Loads(ras, a) && SameKey(a, b) && a.font != b.font
    ensures var later := Serve(ras, ServeAll(ras, Serve(ras, log, a), mid), b);
            var k := FindKey(later, b);
            && k >= 0 && EntryAt(ras, later, k).font == a.font != b.font
            && var e := EntryAt(ras, later, k);
               e.offset + e.width * e.height <= |Pixels(ras, later)|
               && Pixels(ras, later)[e.offset..e.offset + e.width * e.height] == Raw(ras, a).pixels
  {
    hide Serve, ServeAll, Pixels, KeysUnique, AllLoad, Loads;
    StillThere(ras, log, a, mid, b);
    var later := Serve(ras, ServeAll(ras, Serve(ras, log, a), mid), b);
    EntriesTile(ras, later, |log|);
  }

  lemma StillThere(ras: Rasteriser, log: seq<Request>, a: Request, mid: seq<Request>, b: Request)
    requires KeysUnique(log) && AllLoad(ras, log)
    requires FindKey(log, a) < 0 && Loads(ras, a) && SameKey(a, b)
    ensures var later := Serve(ras, ServeAll(ras, Serve(ras, log, a), mid), b);
            AllLoad(ras, later) && FindKey(later, b) == |log| && later[|log|] == a
  {
    hide ServeAll, Loads, KeysUnique, AllLoad;
    var now := Serve(ras, log, a);
    var before := ServeAll(ras, now, mid);
    ServeKeeps(ras, log, a);
    ServeAllKeeps(ras, now, mid);
    ServeFinds(ras, log, a);
    FindKeyPrefix(now, before, a);
    assert before[|log|] == a;
    SameKeyFound(before, a, b);
  }

  lemma SameKeyFound(log: seq<Request>, a: Request, b: Request)
    requires SameKey(a, b)
    ensures FindKey(log, a) == FindKey(log, b)
  {}
}

/** Uploading the pixels, over runs of gets, uploads and buffer changes. */
module BitmapUpload {
  import opened BitmapSpec

  /** @param size pixel_buf_size, the bytes the caller says the buffer holds.
      @param gpu the pixels the GPU buffer begins with. */
  datatype State = State(log: seq<Request>, dirty: bool, attached: bool, size: nat, gpu: seq<Pixel>)

  datatype Op = Get(r: Request) | Upload | Attach(size: nat)

  function WriteAt0(was: seq<Pixel>, data: seq<Pixel>): seq<Pixel> {
    data + (if |data| <= |was| then was[|data|..] else [])
  }

  /** The upload call writes or, if the pixels do not fit, only clears the flag. */
  function UploadStep(st: State, px: seq<Pixel>): State {
    if !st.dirty || !st.attached || px == [] then st else
      st.(dirty := false, gpu := if 4 * |px| <= st.size then WriteAt0(st.gpu, px) else st.gpu)
  }

  function Step(ras: Rasteriser, st: State, op: Op): State {
    match op
    case Get(r) =>
      var log := Serve(ras, st.log, r);
      st.(log := log, dirty := st.dirty || log != st.log)
    case Upload => UploadStep(st, Pixels(ras, st.log))
    case Attach(size) => st.(attached := true, size := size, gpu := [])
  }

  ghost predicate Fits(st: State) { 4 * |st.gpu| <= st.size }

  /** A clean atlas is on the GPU. */
  ghost predicate Mirrored(ras: Rasteriser, st: State) {
    !st.dirty && Pixels(ras, st.log) != [] ==> st.attached && Pixels(ras, st.log) <= st.gpu
  }

  /** The condition a caller can check: an upload that would clear the flag
      finds room, and a new buffer is attached only while an upload is due. */
  ghost predicate Safe(ras: Rasteriser, st: State, op: Op) {
    var px := Pixels(ras, st.log);
    match op
    case Get(_) => true
    case Upload => st.dirty && st.attached && px != [] ==> 4 * |px| <= st.size
    case Attach(_) => st.dirty || px == []
  }

  /** One call keeps the mirror exactly when it is safe. */
  lemma StepMirrorsIffSafe(ras: Rasteriser, st: State, op: Op)
    requires Fits(st) && Mirrored(ras, st)
    ensures Fits(Step(ras, st, op))
    ensures Mirrored(ras, Step(ras, st, op)) <==> Safe(ras, st, op)
  {}

  ghost predicate AlwaysMirrored(ras: Rasteriser, st: State, ops: seq<Op>)
    decreases |ops|
  {
    Mirrored(ras, st) && (ops == [] || AlwaysMirrored(ras, Step(ras, st, ops[0]), ops[1..]))
  }

  ghost predicate AlwaysSafe(ras: Rasteriser, st: State, ops: seq<Op>)
    decreases |ops|
  {
    ops == [] || (Safe(ras, st, ops[0]) && AlwaysSafe(ras, Step(ras, st, ops[0]), ops[1..]))
  }

  /** Over a whole run: clean implies mirrored in every state if and only if
      every call was safe. */
  lemma {:induction false} RunMirroredIffSafe(ras: Rasteriser, st: State, ops: seq<Op>)
    requires Fits(st) && Mirrored(ras, st)
    ensures AlwaysMirrored(ras, st, ops) <==> AlwaysSafe(ras, st, ops)
    decreases |ops|
  {
    if ops != [] {
      StepMirrorsIffSafe(ras, st, ops[0]);
      if Safe(ras, st, ops[0]) {
        RunMirroredIffSafe(ras, Step(ras, st, ops[0]), ops[1..]);
      } else {
        assert !AlwaysMirrored(ras, Step(ras, st, ops[0]), ops[1..]);
      }
    }
  }

  const NEW_ATLAS: State := State([], false, false, 0, [])

  /** Uploads are lost: on a new atlas, loading any bitmap and attaching any buffer
      too small for it makes the next upload clear the flag without writing. */
  lemma UploadLost(ras: Rasteriser, r: Request, size: nat)
    requires Loads(ras, r) && size < 4 * |Raw(ras, r).pixels|
    ensures var loaded := Step(ras, NEW_ATLAS, Get(r));
            var st := Step(ras, Step(ras, loaded, Attach(size)), Upload);
            !st.dirty && Pixels(ras, st.log) == Raw(ras, r).pixels != [] && st.gpu == []
    ensures !AlwaysMirrored(ras, NEW_ATLAS, [Get(r), Attach(size), Upload])
  {
    hide Raw;
    var ops := [Get(r), Attach(size), Upload];
    var loaded := Step(ras, NEW_ATLAS, Get(r));
    assert loaded.log == [r] && loaded.log[..0] == [];
    assert Pixels(ras, [r]) == Raw(ras, r).pixels;
    assert ops[1..] == [Attach(size), Upload] && ops[1..][1..] == [Upload];
    var st := Step(ras, Step(ras, loaded, Attach(size)), Upload);
    assert !Mirrored(ras, st);
    assert !AlwaysMirrored(ras, Step(ras, loaded, Attach(size)), [Upload]);
    assert !AlwaysMirrored(ras, loaded, ops[1..]);
  }
}

module BitmapAtlasClass {
  import opened BitmapSpec
  import opened BitmapUpload

  const INITIAL_PIXELS: nat := 4 * 1024
  const INITIAL_ENTRIES: nat := 32
  /** The memory budget: pixel and entry counts whose byte sizes fit 32 bits. */
  const PIXEL_LIMIT: nat := 0x1000_0000
  const ENTRY_LIMIT: nat := 0x200_0000
  const ENTRY_SIZE: nat := 44

  /** Pixel capacities that doubling from 4096 reaches within the budget. */
  predicate PixelCap(c: nat) {
    c in {0x1000, 0x2000, 0x4000, 0x8000, 0x1_0000, 0x2_0000, 0x4_0000, 0x8_0000, 0x10_0000, 0x20_0000,
          0x40_0000, 0x80_0000, 0x100_0000, 0x200_0000, 0x400_0000, 0x800_0000, 0x1000_0000}
  }

  /** A GPU storage buffer of pixels. */
  class PixelBuffer {
    const capacity: nat
    var data: seq<Pixel>

    constructor (bytes: nat)
      ensures capacity == bytes && data == []
    {
      capacity, data := bytes, [];
    }

    method Write(d: seq<Pixel>)
      requires 4 * |d| <= capacity
      modifies this
      ensures data == WriteAt0(old(data), d)
    {
      data := WriteAt0(data, d);
    }
  }

  /** The entry array is at its initial size or less than twice its use. */
  predicate EntryCap(cap: nat, used: nat) { 1 <= cap && (cap <= INITIAL_ENTRIES || cap < 2 * used) }

  ghost predicate EntriesHold(ras: Rasteriser, log: seq<Request>, entries: seq<Entry>) {
    && |log| <= |entries|
    && (forall i :: 0 <= i < |log| ==> entries[i] == EntryAt(ras, log, i))
  }

  lemma EntriesHoldAppend(ras: Rasteriser, log: seq<Request>, r: Request, entries: seq<Entry>)
    requires EntriesHold(ras, log, entries) && |log| < |entries|
    ensures EntriesHold(ras, log + [r], entries[|log| := EntryOf(r, Raw(ras, r), |Pixels(ras, log)|)])
  {
    var log' := log + [r];
    forall i | 0 <= i < |log| ensures EntryAt(ras, log', i) == EntryAt(ras, log, i) {
      assert log'[..i] == log[..i];
    }
    assert log'[..|log|] == log;
  }

  class BitmapAtlas {
    const ras: Rasteriser
    var pixels: seq<Pixel>
    var pixelCount: nat
    var entries: seq<Entry>
    var entryCount: nat
    var pixelBuf: PixelBuffer?
    var pixelBufSize: nat
    var dirty: bool
    /** The requests that were loaded, one per entry. */
    ghost var log: seq<Request>

    ghost predicate Valid()
      reads this
    {
      && RasteriserOk(ras)
      && KeysUnique(log) && AllLoad(ras, log)
      && entryCount == |log| && EntriesHold(ras, log, entries) && EntryCap(|entries|, entryCount)
      && PixelCap(|pixels|) && pixelCount <= |pixels| && pixels[..pixelCount] == Pixels(ras, log)
      && (pixelBuf != null ==> pixelBufSize <= pixelBuf.capacity)
    }

    ghost function View(): State
      reads this, pixelBuf
    {
      State(log, dirty, pixelBuf != null, pixelBufSize, if pixelBuf != null then pixelBuf.data else [])
    }

    constructor (r: Rasteriser)
      requires RasteriserOk(r)
      ensures Valid() && ras == r && View() == State([], false, false, 0, [])
    {
      ras := r;
      pixels := seq(INITIAL_PIXELS, _ => 0);
      entries := seq(INITIAL_ENTRIES, _ => Entry(0, 0, 0, 0, 0, 0, 0.0, 0.0, 0.0, 0, 0));
      pixelCount, entryCount := 0, 0;
      pixelBuf, pixelBufSize, dirty := null, 0, false;
      log := [];
    }

    method Find(r: Request) returns (k: int)
      requires Valid()
      ensures k == FindKey(log, r)
    {
      var i := 0;
      while i < entryCount
        invariant 0 <= i <= entryCount
        invariant forall j :: 0 <= j < i ==> !SameKey(log[j], r)
      {
        assert entries[i] == EntryAt(ras, log, i);
        if entries[i].fontIdx == r.fontIdx && entries[i].glyph == r.glyph && entries[i].requestPx == r.px {
          return i;
        }
        i := i + 1;
      }
      return -1;
    }

    /** Appends a bitmap to the pixel buffer, doubling it until it fits. */
    method StorePixels(px: seq<Pixel>)
      requires PixelCap(|pixels|) && pixelCount <= |pixels| && pixelCount + |px| <= PIXEL_LIMIT
      modifies this`pixels, this`pixelCount
      ensures PixelCap(|pixels|) && pixelCount == old(pixelCount) + |px| <= |pixels|
      ensures pixels[..pixelCount] == old(pixels[..pixelCount]) + px
    {
      if pixelCount + |px| > |pixels| {
        var newCap := |pixels| * 2;
        while pixelCount + |px| > newCap
          invariant PixelCap(newCap) && |pixels| <= newCap
          decreases PIXEL_LIMIT - newCap
        {
          newCap := newCap * 2;
        }
        pixels := pixels + seq(newCap - |pixels|, _ => 0);
      }
      var n := pixelCount + |px|;
      pixels := pixels[..pixelCount] + px + pixels[n..];
      pixelCount := n;
      assert pixels[..n] == old(pixels[..pixelCount]) + px;
    }

    method StoreEntry(r: Request, raw: Raster, offset: nat)
      requires raw == Raw(ras, r) && offset == |Pixels(ras, log)|
      requires entryCount == |log| < ENTRY_LIMIT && EntriesHold(ras, log, entries) && EntryCap(|entries|, entryCount)
      modifies this`entries, this`entryCount
      ensures entryCount == |log| + 1 && EntriesHold(ras, log + [r], entries) && EntryCap(|entries|, entryCount)
      ensures |entries| * ENTRY_SIZE < 0x1_0000_0000
    {
      if entryCount >= |entries| {
        var filler := entries[0];
        entries := entries + seq(|entries|, _ => filler);
      }
      EntriesHoldAppend(ras, log, r, entries);
      entries := entries[entryCount := EntryOf(r, raw, offset)];
      entryCount := entryCount + 1;
    }

    /** Rasterises a glyph into the atlas; -1, with nothing changed, on failure. */
    method Load(r: Request) returns (idx: int)
      requires Valid() && FindKey(log, r) < 0
      requires pixelCount + MAX_BITMAP_PIXELS <= PIXEL_LIMIT && entryCount < ENTRY_LIMIT
      modifies this`pixels, this`pixelCount, this`entries, this`entryCount, this`dirty, this`log
      ensures Valid()
      ensures log == Serve(ras, old(log), r) && dirty == (old(dirty) || log != old(log))
      ensures idx == if Loads(ras, r) then |old(log)| else -1
      ensures !Loads(ras, r) ==> pixels == old(pixels) && entries == old(entries)
    {
      hide KeysUnique, AllLoad;
      var raw := ras(r.font, r.glyph, r.px);
      if raw.bytes <= 0 { return -1; }
      var n := raw.w * raw.h;
      if n == 0 { return -1; }
      ServeKeeps(ras, log, r);
      var offset := pixelCount;
      StorePixels(raw.pixels);
      StoreEntry(r, raw, offset);
      idx := entryCount - 1;
      dirty := true;
      assert (log + [r])[..|log|] == log;
      log := log + [r];
    }

    /** The entry of a request, loading it on first use. */
    method Get(r: Request) returns (idx: int)
      requires Valid()
      requires pixelCount + MAX_BITMAP_PIXELS <= PIXEL_LIMIT && entryCount < ENTRY_LIMIT
      modifies this`pixels, this`pixelCount, this`entries, this`entryCount, this`dirty, this`log
      ensures Valid()
      ensures View() == Step(ras, old(View()), BitmapUpload.Get(r))
      ensures idx == FindKey(log, r)
      ensures idx >= 0 ==> entries[idx] == EntryAt(ras, log, idx)
      ensures idx >= 0 ==> entries[idx].fontIdx == r.fontIdx && entries[idx].glyph == r.glyph
      ensures idx >= 0 ==> entries[idx].requestPx == r.px
    {
      hide RasteriserOk, KeysUnique, AllLoad, PixelCap, EntryCap, EntryAt, Pixels, Loads, FindKey;
      idx := Find(r);
      if idx < 0 {
        idx := Load(r);
        if idx >= 0 {
          LastFound(old(log), r);
        }
      }
      if idx >= 0 {
        EntryKey(ras, log, idx);
      }
    }

    /** The caller gives the atlas a new GPU buffer. */
    method Attach(buf: PixelBuffer, size: nat)
      requires Valid() && buf.data == [] && size <= buf.capacity
      modifies this`pixelBuf, this`pixelBufSize
      ensures Valid()
      ensures View() == Step(ras, old(View()), BitmapUpload.Attach(size))
    {
      pixelBuf, pixelBufSize := buf, size;
    }

    /** Copies the pixels to the GPU buffer while they are dirty and fit. */
    method Upload()
      requires Valid()
      modifies this`dirty, pixelBuf
      ensures Valid()
      ensures View() == Step(ras, old(View()), BitmapUpload.Upload)
    {
      if !dirty || pixelBuf == null || pixelCount == 0 { return; }
      var byteSize := pixelCount * 4;
      assert byteSize < 0x8000_0000;
      if byteSize <= pixelBufSize {
        pixelBuf.Write(pixels[..pixelCount]);
      }
      dirty := false;
    }
  }

  lemma EntryKey(ras: Rasteriser, log: seq<Request>, i: nat)
    requires i < |log|
    ensures var e := EntryAt(ras, log, i);
            e.fontIdx == log[i].fontIdx && e.glyph == log[i].glyph && e.requestPx == log[i].px
  {}

  lemma LastFound(log: seq<Request>, r: Request)
    requires FindKey(log, r) < 0
    ensures FindKey(log + [r], r) == |log|
  {}
}
