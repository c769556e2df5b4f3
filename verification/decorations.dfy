/** What a frame should look like: every decoration blended over the backdrop, from scratch, and why
    repainting only the damage is enough to get there. */
module Decorations {
  import opened Wrappers
  import opened Damage
  import opened Canvas

  /** A decoration slot of one frame; None is a vacant slot (no surface, or an empty one). */
  datatype SurfaceRef = SurfaceRef(surface: Option<Source>, x: int, y: int)

  ghost predicate WellFormedRefs(refs: seq<SurfaceRef>) {
    forall i :: 0 <= i < |refs| && refs[i].surface.Some? ==> WellFormed(refs[i].surface.value)
  }

  function SlotOf(ref: SurfaceRef): DamageSlot {
    match ref.surface
    case None => VACANT
    case Some(s) => DamageSlot(true, ref.x, ref.y, s.width, s.height, s.gen)
  }

  function Slots(refs: seq<SurfaceRef>): (s: seq<DamageSlot>)
    ensures |s| == |refs| && forall i :: 0 <= i < |refs| ==> s[i] == SlotOf(refs[i])
  {
    seq(|refs|, i requires 0 <= i < |refs| => SlotOf(refs[i]))
  }

  method SnapshotSlots(refs: seq<SurfaceRef>) returns (cur: seq<DamageSlot>)
    ensures cur == Slots(refs)
  {
    cur := [];
    for i := 0 to |refs|
      invariant cur == Slots(refs)[..i]
    {
      cur := cur + [SlotOf(refs[i])];
    }
  }

  /** One decoration blended over `below` at canvas pixel (x, y). */
  ghost function Contribution(ref: SurfaceRef, x: int, y: int, below: Argb): Argb
    requires ref.surface.Some? ==> WellFormed(ref.surface.value)
  {
    match ref.surface
    case None => below
    case Some(s) =>
      if !s.format.Unsupported? && 0 <= x - ref.x < s.width && 0 <= y - ref.y < s.height
      then BlendPixelOver(Prepared(s.format, s.pixels[y - ref.y][x - ref.x]), below)
      else below
  }

  /** The first n decorations blended bottom to top over `base`. */
  ghost function Recomposite(base: Argb, refs: seq<SurfaceRef>, n: nat, x: int, y: int): Argb
    requires n <= |refs| && WellFormedRefs(refs)
  {
    if n == 0 then base else Contribution(refs[n - 1], x, y, Recomposite(base, refs, n - 1, x, y))
  }

  ghost function FullPixel(base: Argb, refs: seq<SurfaceRef>, x: int, y: int): Argb
    requires WellFormedRefs(refs)
  {
    Recomposite(base, refs, |refs|, x, y)
  }

  /** Two decorations of one place, size and content generation. */
  predicate LooksAlike(p: SurfaceRef, c: SurfaceRef) {
    && p.surface.Some? && c.surface.Some? && p.x == c.x && p.y == c.y
    && p.surface.value.width == c.surface.value.width && p.surface.value.height == c.surface.value.height
    && p.surface.value.gen == c.surface.value.gen
  }

  /** Decorations in one slot that look alike are one surface. The diff does not see which surface a slot shows,
      so this is an obligation on whoever fills the slots. */
  ghost predicate Coherent(prev: seq<SurfaceRef>, cur: seq<SurfaceRef>) {
    |prev| == |cur| ==>
      forall i :: 0 <= i < |cur| && LooksAlike(prev[i], cur[i]) ==> prev[i].surface == cur[i].surface
  }

  /** The decoration covers canvas pixel (x, y). */
  predicate Reaches(ref: SurfaceRef, x: int, y: int) {
    ref.surface.Some? && 0 <= x - ref.x < ref.surface.value.width && 0 <= y - ref.y < ref.surface.value.height
  }

  /** A decoration that comes, goes, moves, is resized or is painted anew damages every canvas pixel that it covered
      or covers. */
  lemma ChangeIsDamaged(prev: seq<SurfaceRef>, cur: seq<SurfaceRef>, i: nat, w: nat, h: nat, x: int, y: int)
    requires i < |cur| && (|prev| == |cur| ==> !LooksAlike(prev[i], cur[i]))
    requires 0 <= x < w && 0 <= y < h && (Reaches(cur[i], x, y) || (|prev| == |cur| && Reaches(prev[i], x, y)))
    ensures DamageOf(Slots(prev), Slots(cur), w, h).Has(x, y)
  {
    if |prev| == |cur| {
      assert Changed(Slots(prev)[i], Slots(cur)[i]);
      assert Footprint(Slots(prev)[i], x, y) || Footprint(Slots(cur)[i], x, y);
      DamageCovers(Slots(prev), Slots(cur), w, h, x, y);
    }
  }

  /** In particular, a window painted anew in place is redrawn whole. */
  lemma RepaintIsDamaged(prev: seq<SurfaceRef>, cur: seq<SurfaceRef>, i: nat, w: nat, h: nat, x: int, y: int)
    requires i < |prev| == |cur| && prev[i].surface.Some? && cur[i].surface.Some?
    requires prev[i].surface.value.gen != cur[i].surface.value.gen
    requires 0 <= x < w && 0 <= y < h
    requires 0 <= x - cur[i].x < cur[i].surface.value.width && 0 <= y - cur[i].y < cur[i].surface.value.height
    ensures DamageOf(Slots(prev), Slots(cur), w, h).Has(x, y)
  {
    ChangeIsDamaged(prev, cur, i, w, h, x, y);
  }

  /** Where no decoration lies, the backdrop shows. */
  lemma {:induction false} UncoveredShowsBase(base: Argb, refs: seq<SurfaceRef>, n: nat, x: int, y: int)
    requires n <= |refs| && WellFormedRefs(refs) && forall j :: 0 <= j < n ==> !Reaches(refs[j], x, y)
    ensures Recomposite(base, refs, n, x, y) == base
  {
    if n > 0 {
      UncoveredShowsBase(base, refs, n - 1, x, y);
    }
  }

  /** Of the decorations over a pixel the last one is on top: when it is opaque there, it alone shows. */
  lemma {:induction false} TopmostShows(base: Argb, refs: seq<SurfaceRef>, i: nat, n: nat, x: int, y: int)
    requires i < n <= |refs| && WellFormedRefs(refs) && Reaches(refs[i], x, y)
    requires forall j :: i < j < n ==> !Reaches(refs[j], x, y)
    requires var s := refs[i].surface.value;
             s.format.Xrgb8888? || (s.format.Argb8888? && s.pixels[y - refs[i].y][x - refs[i].x].a == 255)
    ensures Recomposite(base, refs, n, x, y) == refs[i].surface.value.pixels[y - refs[i].y][x - refs[i].x].(a := 255)
  {
    if i < n - 1 {
      TopmostShows(base, refs, i, n - 1, x, y);
    }
  }

  /** And where it is translucent, it is mixed with what is below it in the proportion of its alpha, to the nearest
      255th in every channel. */
  lemma TopmostMixes(base: Argb, refs: seq<SurfaceRef>, i: nat, x: int, y: int)
    requires |refs| == i + 1 && WellFormedRefs(refs) && Reaches(refs[i], x, y)
    requires refs[i].surface.value.format.Argb8888?
    requires Premultiplied(refs[i].surface.value.pixels[y - refs[i].y][x - refs[i].x])
    ensures var p := refs[i].surface.value.pixels[y - refs[i].y][x - refs[i].x];
            var below, out := Recomposite(base, refs, i, x, y), FullPixel(base, refs, x, y);
            && -127 <= 255 * out.a - (255 * p.a + below.a * (255 - p.a)) <= 127
            && -127 <= 255 * out.r - (255 * p.r + below.r * (255 - p.a)) <= 127
            && -127 <= 255 * out.g - (255 * p.g + below.g * (255 - p.a)) <= 127
            && -127 <= 255 * out.b - (255 * p.b + below.b * (255 - p.a)) <= 127
  {
    BlendIsNear(refs[i].surface.value.pixels[y - refs[i].y][x - refs[i].x], Recomposite(base, refs, i, x, y));
  }

  /** An unchanged slot, or a changed one that stays clear of (x, y), contributes the same. */
  lemma SlotFrame(p: SurfaceRef, c: SurfaceRef, x: int, y: int, below: Argb)
    requires p.surface.Some? ==> WellFormed(p.surface.value)
    requires c.surface.Some? ==> WellFormed(c.surface.value)
    requires LooksAlike(p, c) ==> p.surface == c.surface
    requires Changed(SlotOf(p), SlotOf(c)) ==> !Footprint(SlotOf(p), x, y) && !Footprint(SlotOf(c), x, y)
    ensures Contribution(p, x, y, below) == Contribution(c, x, y, below)
  {
  }

  /** Outside what changed, both frames composite to the same pixel. */
  lemma {:induction false} UntouchedPixel(base: Argb, prev: seq<SurfaceRef>, cur: seq<SurfaceRef>, n: nat, x: int,
      y: int)
    requires n <= |prev| == |cur| && WellFormedRefs(prev) && WellFormedRefs(cur)
    requires Coherent(prev, cur) && !Touched(Slots(prev), Slots(cur), x, y)
    ensures Recomposite(base, prev, n, x, y) == Recomposite(base, cur, n, x, y)
  {
    if n > 0 {
      UntouchedPixel(base, prev, cur, n - 1, x, y);
      assert Changed(Slots(prev)[n - 1], Slots(cur)[n - 1]) ==>
          !Footprint(Slots(prev)[n - 1], x, y) && !Footprint(Slots(cur)[n - 1], x, y);
      SlotFrame(prev[n - 1], cur[n - 1], x, y, Recomposite(base, prev, n - 1, x, y));
    }
  }

  /** The key fact of incremental compositing: a canvas pixel outside the computed damage has the same
      full recomposite in both frames. */
  lemma OutsideDamage(base: Argb, prev: seq<SurfaceRef>, cur: seq<SurfaceRef>, w: nat, h: nat, x: int, y: int)
    requires WellFormedRefs(prev) && WellFormedRefs(cur) && Coherent(prev, cur)
    requires OnCanvas(x, y, w, h) && !DamageOf(Slots(prev), Slots(cur), w, h).Has(x, y)
    ensures |prev| == |cur| > 0
    ensures FullPixel(base, prev, x, y) == FullPixel(base, cur, x, y)
  {
    DamageCovers(Slots(prev), Slots(cur), w, h, x, y);
    UntouchedPixel(base, prev, cur, |cur|, x, y);
  }

  /** A patch inside both the source and the target is blended one source pixel to one target pixel. */
  lemma UnscaledBlend(s: Source, src: DamageRect, d: DamageRect, w: nat, h: nat, x: int, y: int, below: Argb)
    requires WellFormed(s) && !s.format.Unsupported? && 0 < d.w == src.w && 0 < d.h == src.h
    requires 0 <= d.x && d.x + d.w <= w && 0 <= d.y && d.y + d.h <= h
    requires 0 <= src.x && src.x + src.w <= s.width && 0 <= src.y && src.y + src.h <= s.height
    ensures BlendedAt(s, src, d, w, h, x, y, below) ==
            if d.Has(x, y) then BlendPixelOver(Prepared(s.format, s.pixels[y - d.y + src.y][x - d.x + src.x]), below)
            else below
  {
    assert ClipAxis(d.x, d.w, w, src.x, src.w, s.width) == Some(AxisRange(d.x, d.x + d.w, src.x, src.w));
    assert ClipAxis(d.y, d.h, h, src.y, src.h, s.height) == Some(AxisRange(d.y, d.y + d.h, src.y, src.h));
    if d.Has(x, y) {
      MapInSpan(x - d.x, d.w, d.w);
      MapInSpan(y - d.y, d.h, d.h);
    }
  }

  /** Blending the part of a decoration that lies in `region`, one source pixel to one canvas pixel, is
      that decoration's contribution inside the region and nothing outside it. */
  lemma ClippedBlend(ref: SurfaceRef, region: DamageRect, w: nat, h: nat, x: int, y: int, below: Argb)
    requires ref.surface.Some? && WellFormed(ref.surface.value)
    requires forall px, py :: region.Has(px, py) ==> OnCanvas(px, py, w, h)
    ensures var s := ref.surface.value;
            var d := IntersectRect(ref.x, ref.y, s.width, s.height, region);
            if d.Empty() then region.Has(x, y) ==> Contribution(ref, x, y, below) == below
            else BlendedAt(s, DamageRect(d.x - ref.x, d.y - ref.y, d.w, d.h), d, w, h, x, y, below) ==
                 if region.Has(x, y) then Contribution(ref, x, y, below) else below
  {
    var s := ref.surface.value;
    var d := IntersectRect(ref.x, ref.y, s.width, s.height, region);
    var foot := DamageRect(ref.x, ref.y, s.width, s.height);
    assert d.Has(x, y) <==> foot.Has(x, y) && region.Has(x, y);
    if !d.Empty() {
      assert d.Has(d.x, d.y) && d.Has(d.x + d.w - 1, d.y + d.h - 1);
      assert foot.Has(d.x, d.y) && foot.Has(d.x + d.w - 1, d.y + d.h - 1);
      assert region.Has(d.x, d.y) && region.Has(d.x + d.w - 1, d.y + d.h - 1);
      if !s.format.Unsupported? {
        UnscaledBlend(s, DamageRect(d.x - ref.x, d.y - ref.y, d.w, d.h), d, w, h, x, y, below);
      }
    }
  }
}
