/**
 Size policy of surfaces (sdk/wasm_surface.c): textures are allocated 15% larger
 than asked for when a resize needs new ones, and are replaced only when the
 new size no longer fits or both dimensions fall below 30% of the allocation.
 The single-precision factors are taken exactly, as 23/20 and 3/10.
 */
module SurfaceSizing {

  /** 1.15 * d rounded to the nearest integer, ties upwards; for d below 4, where
      that is no increase, the next integer. */
  function OverallocDim(d: nat): (r: nat)
    ensures r > d
    ensures d >= 4 ==> -10 < 20 * r - 23 * d <= 10
    ensures d < 4 ==> r == d + 1
  {
    var r := (23 * d + 10) / 20;
    if r > d then r else d + 1
  }

  /** Logical and allocated size. */
  datatype Size = Size(w: nat, h: nat, aw: nat, ah: nat)

  ghost predicate SizeOk(s: Size) { s.w <= s.aw && s.h <= s.ah && 1 <= s.aw && 1 <= s.ah }

  predicate Outgrows(s: Size, w: nat, h: nat) { w > s.aw || h > s.ah }

  predicate Shrinks(s: Size, w: nat, h: nat) { !Outgrows(s, w, h) && 10 * w < 3 * s.aw && 10 * h < 3 * s.ah }

  predicate Unchanged(s: Size, w: nat, h: nat) { w == s.w && h == s.h }

  predicate Reallocates(s: Size, w: nat, h: nat) {
    !Unchanged(s, w, h) && (Outgrows(s, w, h) || Shrinks(s, w, h))
  }

  function Resized(s: Size, w: nat, h: nat): (r: Size)
    ensures r.w == w && r.h == h
    ensures SizeOk(s) ==> SizeOk(r)
  {
    if Reallocates(s, w, h) then Size(w, h, OverallocDim(w), OverallocDim(h)) else Size(w, h, s.aw, s.ah)
  }

  /** When a resize keeps the allocated size: the size is the same, or it fits
      without being below 30% of the allocation in both dimensions; or a 1x1
      allocation is made anew for the empty size. */
  lemma KeepsAllocationIff(s: Size, w: nat, h: nat)
    requires SizeOk(s)
    ensures var r := Resized(s, w, h);
            r.aw == s.aw && r.ah == s.ah <==>
            || (w == s.w && h == s.h)
            || (w <= s.aw && h <= s.ah && (10 * w >= 3 * s.aw || 10 * h >= 3 * s.ah))
            || (w == 0 && h == 0 && s.aw == 1 && s.ah == 1)
    ensures var r := Resized(s, w, h);
            !(r.aw == s.aw && r.ah == s.ah) ==> r.aw == OverallocDim(w) && r.ah == OverallocDim(h)
  {}

  /** After a change of size the textures are not too large by the 30% rule, for
      every size but the empty one: memory is given back. */
  lemma GivesBack(s: Size, w: nat, h: nat)
    requires SizeOk(s) && (w != s.w || h != s.h)
    ensures var r := Resized(s, w, h); 10 * w >= 3 * r.aw || 10 * h >= 3 * r.ah <==> w >= 1 || h >= 1
  {}

  // ---- Runs of growing sizes --------------------------------------------------

  /** A run of resizes, each at least as large as the one before in both dimensions. */
  ghost predicate Growing(w: nat, h: nat, targets: seq<(nat, nat)>)
    decreases |targets|
  {
    targets == [] || (w <= targets[0].0 && h <= targets[0].1 && Growing(targets[0].0, targets[0].1, targets[1..]))
  }

  function RunSize(s: Size, targets: seq<(nat, nat)>): Size
    decreases |targets|
  {
    if targets == [] then s else RunSize(Resized(s, targets[0].0, targets[0].1), targets[1..])
  }

  /** How often a run allocates new textures. */
  function Reallocations(s: Size, targets: seq<(nat, nat)>): nat
    decreases |targets|
  {
    if targets == [] then 0 else
      var (w, h) := targets[0];
      (if Reallocates(s, w, h) then 1 else 0) + Reallocations(Resized(s, w, h), targets[1..])
  }

  /** Some resize of the run takes the shrink branch. */
  predicate EverShrinks(s: Size, targets: seq<(nat, nat)>)
    decreases |targets|
  {
    targets != [] &&
    var (w, h) := targets[0];
    (!Unchanged(s, w, h) && Shrinks(s, w, h)) || EverShrinks(Resized(s, w, h), targets[1..])
  }

  function Growth(k: nat): (r: real)
    ensures r >= 1.0
  {
    if k == 0 then 1.0 else 1.15 * Growth(k - 1)
  }

  function Area(w: nat, h: nat): real { (w * h) as real }

  /** k reallocations from area `base` are paid for by the area reached. */
  predicate PaidFor(k: nat, base: real, area: real) { Growth(k) * base <= area }

  /** The allocation is the over-allocation of a size (bw, bh) no larger than the present one. */
  ghost predicate AllocatedFor(s: Size, bw: nat, bh: nat) {
    1 <= bw <= s.w && 1 <= bh <= s.h && s.aw == OverallocDim(bw) && s.ah == OverallocDim(bh)
  }

  lemma OverallocBounds(d: nat)
    requires d >= 1
    ensures 20 * (OverallocDim(d) + 1) > 23 * d
    ensures 3 * OverallocDim(d) <= 10 * d
  {}

  lemma NeverShrinksGrowing(s: Size, bw: nat, bh: nat, w: nat, h: nat)
    requires AllocatedFor(s, bw, bh) && s.w <= w && s.h <= h
    ensures !Shrinks(s, w, h)
  {}

  lemma AreaGrows(bw: nat, bh: nat, w: nat, h: nat)
    requires 1 <= bw <= w && 1 <= bh <= h
    requires w > OverallocDim(bw) || h > OverallocDim(bh)
    ensures 1.15 * Area(bw, bh) <= Area(w, h)
  {
    OverallocBounds(bw);
    OverallocBounds(bh);
    if w > OverallocDim(bw) {
      ScaledProduct(bw, w, bh, h);
    } else {
      ScaledProduct(bh, h, bw, w);
      assert bh * bw == bw * bh && h * w == w * h;
    }
  }

  lemma ScaledProduct(a: nat, x: nat, b: nat, y: nat)
    requires 20 * x >= 23 * a && y >= b
    ensures 1.15 * Area(a, b) <= Area(x, y)
  {}

  lemma AreaMono(a: nat, b: nat, x: nat, y: nat)
    requires a <= x && b <= y
    ensures Area(a, b) <= Area(x, y)
  {}

  lemma PaidForMore(k: nat, base: real, mid: real, area: real)
    requires base <= mid && PaidFor(k, mid, area)
    ensures PaidFor(k, base, area)
  {}

  lemma PaidForNext(k: nat, base: real, mid: real, area: real)
    requires 1.15 * base <= mid && PaidFor(k, mid, area)
    ensures PaidFor(k + 1, base, area)
  {}

  lemma PaidForNone(base: real, area: real)
    requires base <= area
    ensures PaidFor(0, base, area)
  {}

  /** From an over-allocated surface: growing never shrinks the allocation, and
      k reallocations need 1.15^k times the area it was allocated for. */
  lemma {:induction false} GrowthFrom(s: Size, bw: nat, bh: nat, targets: seq<(nat, nat)>)
    requires AllocatedFor(s, bw, bh) && Growing(s.w, s.h, targets)
    ensures !EverShrinks(s, targets)
    ensures var r := RunSize(s, targets);
            PaidFor(Reallocations(s, targets), Area(bw, bh), Area(r.w, r.h))
    decreases |targets|
  {
    hide PaidFor, Area, OverallocDim, Growth;
    if targets == [] {
      AreaMono(bw, bh, s.w, s.h);
      PaidForNone(Area(bw, bh), Area(s.w, s.h));
    } else {
      var (w, h) := targets[0];
      var s1 := Resized(s, w, h);
      var r := RunSize(s1, targets[1..]);
      NeverShrinksGrowing(s, bw, bh, w, h);
      if Reallocates(s, w, h) {
        AreaGrows(bw, bh, w, h);
        GrowthFrom(s1, w, h, targets[1..]);
        PaidForNext(Reallocations(s1, targets[1..]), Area(bw, bh), Area(w, h), Area(r.w, r.h));
      } else {
        GrowthFrom(s1, bw, bh, targets[1..]);
      }
    }
  }

  /** Amortised resize: a run of growing sizes from a surface created at w x h
      that reallocates k >= 1 times ends at an area of at least
      1.15^(k-1) * w * h, and never takes the shrink branch. */
  lemma {:induction false} AmortisedResize(s: Size, targets: seq<(nat, nat)>)
    requires s.aw == s.w >= 1 && s.ah == s.h >= 1 && Growing(s.w, s.h, targets)
    ensures !EverShrinks(s, targets)
    ensures var k := Reallocations(s, targets);
            var r := RunSize(s, targets);
            k >= 1 ==> Growth(k - 1) * Area(s.w, s.h) <= Area(r.w, r.h)
    decreases |targets|
  {
    hide Area, OverallocDim, Growth;
    if targets != [] {
      var (w, h) := targets[0];
      var s1 := Resized(s, w, h);
      if Unchanged(s, w, h) {
        AmortisedResize(s1, targets[1..]);
      } else {
        var r := RunSize(s1, targets[1..]);
        assert Outgrows(s, w, h);
        GrowthFrom(s1, w, h, targets[1..]);
        AreaMono(s.w, s.h, w, h);
        PaidForMore(Reallocations(s1, targets[1..]), Area(s.w, s.h), Area(w, h), Area(r.w, r.h));
      }
    }
  }
}
