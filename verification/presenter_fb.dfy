/** The fbdev presenter: one persistent shadow, one live framebuffer (src/csd/presenter_fb.cpp). */
module FbPresenter {
  import opened Wrappers
  import opened Damage
  import opened Canvas
  import opened Decorations

  predicate InCanvas(r: DamageRect, w: nat, h: nat) {
    r.Empty() || (0 <= r.x && r.x + r.w <= w && 0 <= r.y && r.y + r.h <= h)
  }

  /** Blends the part of `item` that lies in `damage`. */
  method BlendItem(shadow: array2<Argb>, item: SurfaceRef, damage: DamageRect)
    requires item.surface.Some? && WellFormed(item.surface.value)
    requires InCanvas(damage, shadow.Length1, shadow.Length0)
    modifies shadow
    ensures forall y, x :: 0 <= y < shadow.Length0 && 0 <= x < shadow.Length1 ==>
              shadow[y, x] == if damage.Has(x, y) then Contribution(item, x, y, old(shadow[y, x]))
                              else old(shadow[y, x])
  {
    var s := item.surface.value;
    var d := IntersectRect(item.x, item.y, s.width, s.height, damage);
    forall y, x | 0 <= y < shadow.Length0 && 0 <= x < shadow.Length1
      ensures d.Empty() && damage.Has(x, y) ==> Contribution(item, x, y, shadow[y, x]) == shadow[y, x]
      ensures !d.Empty() ==>
                BlendedAt(s, DamageRect(d.x - item.x, d.y - item.y, d.w, d.h), d, shadow.Length1, shadow.Length0,
                          x, y, shadow[y, x]) ==
                if damage.Has(x, y) then Contribution(item, x, y, shadow[y, x]) else shadow[y, x]
    {
      ClippedBlend(item, damage, shadow.Length1, shadow.Length0, x, y, shadow[y, x]);
    }
    if d.Empty() {
      return;
    }
    BlendInto(shadow, s, DamageRect(d.x - item.x, d.y - item.y, d.w, d.h), d);
  }

  /** Converts the scanlines [y0, y1) of the shadow into the framebuffer's layout. */
  method ConvertRows(fb: array2<Scanout>, fourcc: Fourcc, shadow: array2<Argb>, y0: nat, y1: nat)
    requires fb.Length0 == shadow.Length0 && fb.Length1 == shadow.Length1
    requires y0 <= y1 <= fb.Length0
    modifies fb
    ensures forall y, x :: 0 <= y < fb.Length0 && 0 <= x < fb.Length1 ==>
              fb[y, x] == if y0 <= y < y1 then ConvertPixel(shadow[y, x], fourcc) else old(fb[y, x])
  {
    for row := y0 to y1
      invariant forall y, x :: 0 <= y < fb.Length0 && 0 <= x < fb.Length1 ==>
                  fb[y, x] == if y0 <= y < row then ConvertPixel(shadow[y, x], fourcc) else old(fb[y, x])
    {
      for col := 0 to fb.Length1
        invariant forall y, x :: 0 <= y < fb.Length0 && 0 <= x < fb.Length1 ==>
                    fb[y, x] == if y0 <= y && (y < row || (y == row && x < col))
                                then ConvertPixel(shadow[y, x], fourcc) else old(fb[y, x])
      {
        fb[row, col] := ConvertPixel(shadow[row, col], fourcc);
      }
    }
  }

  /** Redraws `damage` in the shadow from `items` and converts its scanlines into the framebuffer. */
  method ComposeIntoFramebuffer(fb: array2<Scanout>, fourcc: Fourcc, shadow: array2<Argb>,
                                items: seq<SurfaceRef>, damage: DamageRect)
    requires fb.Length0 == shadow.Length0 && fb.Length1 == shadow.Length1
    requires WellFormedRefs(items) && forall i :: 0 <= i < |items| ==> items[i].surface.Some?
    requires InCanvas(damage, shadow.Length1, shadow.Length0)
    modifies fb, shadow
    ensures forall y, x :: 0 <= y < shadow.Length0 && 0 <= x < shadow.Length1 ==>
              shadow[y, x] == if damage.Has(x, y) then FullPixel(CLEAR, items, x, y) else old(shadow[y, x])
    ensures forall y, x :: 0 <= y < fb.Length0 && 0 <= x < fb.Length1 ==>
              fb[y, x] == if !damage.Empty() && damage.y <= y < damage.y + damage.h
                          then ConvertPixel(shadow[y, x], fourcc) else old(fb[y, x])
  {
    if damage.Empty() {
      return;
    }
    ClearInto(shadow, damage.x, damage.y, damage.w, damage.h);
    for i := 0 to |items|
      modifies shadow
      invariant forall y, x :: 0 <= y < shadow.Length0 && 0 <= x < shadow.Length1 ==>
                  shadow[y, x] == if damage.Has(x, y) then Recomposite(CLEAR, items, i, x, y) else old(shadow[y, x])
    {
      BlendItem(shadow, items[i], damage);
    }
    ConvertRows(fb, fourcc, shadow, damage.y, damage.y + damage.h);
  }

  /** Whether a slot has to be mapped to redraw `damage`. */
  predicate Overlaps(ref: SurfaceRef, damage: DamageRect) {
    ref.surface.Some? &&
    !IntersectRect(ref.x, ref.y, ref.surface.value.width, ref.surface.value.height, damage).Empty()
  }

  /** A slot has to be mapped exactly when it covers a pixel of the damage. */
  lemma OverlapsIs(ref: SurfaceRef, damage: DamageRect)
    ensures Overlaps(ref, damage) <==> exists x, y :: Reaches(ref, x, y) && damage.Has(x, y)
  {
    if Overlaps(ref, damage) {
      var common := IntersectRect(ref.x, ref.y, ref.surface.value.width, ref.surface.value.height, damage);
      assert common.Has(common.x, common.y);
      assert Reaches(ref, common.x, common.y) && damage.Has(common.x, common.y);
    }
    if x, y :| Reaches(ref, x, y) && damage.Has(x, y) {
      assert IntersectRect(ref.x, ref.y, ref.surface.value.width, ref.surface.value.height, damage).Has(x, y);
    }
  }

  /** The mapped decorations that overlap the damage, or None when one of them cannot be mapped. Leaving
      out the others does not change what the damaged pixels composite to. */
  method CollectItems(refs: seq<SurfaceRef>, mapOk: seq<bool>, damage: DamageRect, w: nat, h: nat)
    returns (r: Option<seq<SurfaceRef>>)
    requires WellFormedRefs(refs) && |mapOk| == |refs| && InCanvas(damage, w, h)
    ensures r.None? <==> exists i :: 0 <= i < |refs| && Overlaps(refs[i], damage) && !mapOk[i]
    ensures r.Some? ==> WellFormedRefs(r.value) && forall k :: 0 <= k < |r.value| ==> r.value[k].surface.Some?
    ensures r.Some? ==> forall y, x :: damage.Has(x, y) ==>
              FullPixel(CLEAR, r.value, x, y) == FullPixel(CLEAR, refs, x, y)
  {
    var items: seq<SurfaceRef> := [];
    for i := 0 to |refs|
      invariant WellFormedRefs(items) && forall k :: 0 <= k < |items| ==> items[k].surface.Some?
      invariant forall k :: 0 <= k < i && Overlaps(refs[k], damage) ==> mapOk[k]
      invariant forall y, x :: damage.Has(x, y) ==>
                  FullPixel(CLEAR, items, x, y) == Recomposite(CLEAR, refs, i, x, y)
    {
      var ref := refs[i];
      if !Overlaps(ref, damage) {
        forall y, x | damage.Has(x, y)
          ensures Contribution(ref, x, y, Recomposite(CLEAR, refs, i, x, y)) == Recomposite(CLEAR, refs, i, x, y)
        {
          if ref.surface.Some? {
            ClippedBlend(ref, damage, w, h, x, y, Recomposite(CLEAR, refs, i, x, y));
          }
        }
        continue;
      }
      if !mapOk[i] {
        return None;
      }
      forall y, x | damage.Has(x, y)
        ensures FullPixel(CLEAR, items + [ref], x, y) == Recomposite(CLEAR, refs, i + 1, x, y)
      {
        PrefixRecomposite(CLEAR, items, [ref], |items|, x, y);
      }
      items := items + [ref];
    }
    r := Some(items);
  }

  /** Outside the rectangle r, both frames composite to the same pixels. */
  ghost predicate AgreeOff(r: DamageRect, w: nat, h: nat, prev: seq<SurfaceRef>, refs: seq<SurfaceRef>)
    requires WellFormedRefs(prev) && WellFormedRefs(refs)
  {
    forall y, x :: 0 <= y < h && 0 <= x < w && !r.Has(x, y) ==>
      FullPixel(CLEAR, prev, x, y) == FullPixel(CLEAR, refs, x, y)
  }

  class FramebufferPresenter {
    const width: nat
    const height: nat
    const fourcc: Fourcc
    const fb: array2<Scanout>
    const shadow: array2<Argb>
    var prevSlots: seq<DamageSlot>
    ghost var prevRefs: seq<SurfaceRef>  // the slots of the last successful apply

    ghost predicate Valid()
      reads this
    {
      && shadow.Length0 == height && shadow.Length1 == width
      && fb.Length0 == height && fb.Length1 == width
      && prevSlots == Slots(prevRefs) && WellFormedRefs(prevRefs)
    }

    /** Every shadow pixel is the full recomposite, and every framebuffer pixel is its conversion. */
    ghost predicate Shows(refs: seq<SurfaceRef>)
      requires Valid() && WellFormedRefs(refs)
      reads this, shadow, fb
    {
      forall y, x :: 0 <= y < height && 0 <= x < width ==>
        shadow[y, x] == FullPixel(CLEAR, refs, x, y) && fb[y, x] == ConvertPixel(shadow[y, x], fourcc)
    }

    ghost predicate Correct()
      requires Valid()
      reads this, shadow, fb
    {
      prevRefs != [] ==> Shows(prevRefs)
    }

    constructor (mapped: array2<Scanout>, f: Fourcc)
      ensures Valid() && Correct() && fb == mapped && fourcc == f && fresh(shadow) && prevRefs == []
    {
      width, height, fourcc, fb := mapped.Length1, mapped.Length0, f, mapped;
      shadow := new Argb[mapped.Length0, mapped.Length1]((i, j) => CLEAR);
      prevSlots, prevRefs := [], [];
    }

    /** Redraws the damage from this frame's slots, unless one of them cannot be mapped. */
    method Redraw(refs: seq<SurfaceRef>, mapOk: seq<bool>, damage: DamageRect) returns (ok: bool)
      requires Valid() && WellFormedRefs(refs) && |mapOk| == |refs| && InCanvas(damage, width, height)
      modifies fb, shadow
      ensures !ok <==> !damage.Empty() && exists i :: 0 <= i < |refs| && Overlaps(refs[i], damage) && !mapOk[i]
      ensures !ok ==> forall y, x :: 0 <= y < height && 0 <= x < width ==>
                        shadow[y, x] == old(shadow[y, x]) && fb[y, x] == old(fb[y, x])
      ensures ok ==> forall y, x :: 0 <= y < height && 0 <= x < width ==>
                       && shadow[y, x] == (if damage.Has(x, y) then FullPixel(CLEAR, refs, x, y) else old(shadow[y, x]))
                       && fb[y, x] == (if !damage.Empty() && damage.y <= y < damage.y + damage.h
                                       then ConvertPixel(shadow[y, x], fourcc) else old(fb[y, x]))
    {
      var items: seq<SurfaceRef> := [];
      if !damage.Empty() {
        var collected := CollectItems(refs, mapOk, damage, width, height);
        if collected.None? {
          return false;
        }
        items := collected.value;
      }
      ComposeIntoFramebuffer(fb, fourcc, shadow, items, damage);
      ok := true;
    }

    /** `mapOk[i]` says whether mapping slot i's pixels would succeed. */
    method Apply(refs: seq<SurfaceRef>, mapOk: seq<bool>) returns (ok: bool)
      requires Valid() && WellFormedRefs(refs) && |mapOk| == |refs|
      modifies this, fb, shadow
      ensures Valid()
      // the frame fails exactly when a decoration that overlaps the damage cannot be mapped
      ensures var damage := DamageOf(old(prevSlots), Slots(refs), width, height);
              !ok <==> !damage.Empty() && exists i :: 0 <= i < |refs| && Overlaps(refs[i], damage) && !mapOk[i]
      // a failed frame changes nothing
      ensures !ok ==> prevSlots == old(prevSlots) && prevRefs == old(prevRefs)
      ensures !ok ==> forall y, x :: 0 <= y < height && 0 <= x < width ==>
                        shadow[y, x] == old(shadow[y, x]) && fb[y, x] == old(fb[y, x])
      // a successful one redraws the damage and touches only its scanlines
      ensures ok ==> prevRefs == refs
      ensures var damage := DamageOf(old(prevSlots), Slots(refs), width, height);
              ok ==> forall y, x :: 0 <= y < height && 0 <= x < width ==>
                       && (!damage.Has(x, y) ==> shadow[y, x] == old(shadow[y, x]))
                       && (damage.Empty() || !(damage.y <= y < damage.y + damage.h) ==> fb[y, x] == old(fb[y, x]))
      // and what it redraws is in its final colours
      ensures var damage := DamageOf(old(prevSlots), Slots(refs), width, height);
              ok ==> forall y, x :: 0 <= y < height && 0 <= x < width && damage.Has(x, y) ==>
                       shadow[y, x] == FullPixel(CLEAR, refs, x, y) && fb[y, x] == ConvertPixel(shadow[y, x], fourcc)
      // from a correct frame the screen then shows the full recomposite of this one exactly when what was not
      // redrawn composites as it did before
      ensures var damage := DamageOf(old(prevSlots), Slots(refs), width, height);
              old(Correct()) && old(prevRefs) != [] && ok ==>
                (Shows(refs) <==> AgreeOff(damage, width, height, old(prevRefs), refs))
      // which coherent frames do
      ensures old(Correct()) && Coherent(old(prevRefs), refs) && ok ==> Shows(refs)
      ensures old(Correct()) && (ok ==> Coherent(old(prevRefs), refs)) ==> Correct()
    {
      var cur := SnapshotSlots(refs);
      var damage := ComputeDamage(prevSlots, cur, width, height);
      ok := Redraw(refs, mapOk, damage);
      if !ok {
        return;
      }
      ghost var before := prevRefs;
      if Coherent(before, refs) {
        CoherentAgree(before, refs, width, height);
      }
      prevSlots := cur;
      prevRefs := refs;
    }
  }

  /** Coherent frames agree off their damage. */
  lemma CoherentAgree(prev: seq<SurfaceRef>, refs: seq<SurfaceRef>, w: nat, h: nat)
    requires WellFormedRefs(prev) && WellFormedRefs(refs) && Coherent(prev, refs)
    ensures AgreeOff(DamageOf(Slots(prev), Slots(refs), w, h), w, h, prev, refs)
  {
    forall y, x | 0 <= y < h && 0 <= x < w && !DamageOf(Slots(prev), Slots(refs), w, h).Has(x, y)
      ensures FullPixel(CLEAR, prev, x, y) == FullPixel(CLEAR, refs, x, y)
    {
      OutsideDamage(CLEAR, prev, refs, w, h, x, y);
    }
  }

  /** Appending slots does not change what the earlier ones composite to. */
  lemma {:induction false} PrefixRecomposite(base: Argb, refs: seq<SurfaceRef>, more: seq<SurfaceRef>, n: nat, x: int,
      y: int)
    requires n <= |refs| && WellFormedRefs(refs) && WellFormedRefs(refs + more)
    ensures Recomposite(base, refs + more, n, x, y) == Recomposite(base, refs, n, x, y)
  {
    if n > 0 {
      PrefixRecomposite(base, refs, more, n - 1, x, y);
    }
  }
}
