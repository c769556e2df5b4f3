/** Decoration damage: which rectangle of the canvas a frame has to repaint (src/csd/damage.cpp). */
module Damage {
  import opened Arith

  datatype DamageSlot = DamageSlot(armed: bool, x: int, y: int, w: nat, h: nat, gen: nat)

  /** A canvas-space rectangle with half-open extents. */
  datatype DamageRect = DamageRect(x: int, y: int, w: nat, h: nat) {
    predicate Empty() {
      w == 0 || h == 0
    }

    predicate Has(px: int, py: int) {
      x <= px < x + w && y <= py < y + h
    }
  }

  const NO_DAMAGE := DamageRect(0, 0, 0, 0)
  const VACANT := DamageSlot(false, 0, 0, 0, 0, 0)

  /** The bounding-box accumulator. */
  datatype Bounds = Bounds(valid: bool, x0: int, y0: int, x1: int, y1: int)

  const NO_BOUNDS := Bounds(false, 0, 0, 0, 0)

  function AddRect(b: Bounds, x: int, y: int, w: nat, h: nat): Bounds {
    if w == 0 || h == 0 then b
    else if !b.valid then Bounds(true, x, y, x + w, y + h)
    else Bounds(true, Min(b.x0, x), Min(b.y0, y), Max(b.x1, x + w), Max(b.y1, y + h))
  }

  predicate Changed(p: DamageSlot, c: DamageSlot) {
    p.armed != c.armed ||
    (c.armed && (p.x != c.x || p.y != c.y || p.w != c.w || p.h != c.h || p.gen != c.gen))
  }

  function AddSlot(b: Bounds, s: DamageSlot): Bounds {
    if s.armed then AddRect(b, s.x, s.y, s.w, s.h) else b
  }

  /** The bounding box of the old and new footprints of the first n slots that changed. */
  function Hull(prev: seq<DamageSlot>, cur: seq<DamageSlot>, n: nat): Bounds
    requires n <= |prev| && n <= |cur|
  {
    if n == 0 then NO_BOUNDS
    else
      var b := Hull(prev, cur, n - 1);
      if Changed(prev[n - 1], cur[n - 1]) then AddSlot(AddSlot(b, prev[n - 1]), cur[n - 1]) else b
  }

  function ClampToCanvas(b: Bounds, canvasW: nat, canvasH: nat): DamageRect {
    if !b.valid then NO_DAMAGE
    else
      var x0 := Max(0, b.x0);
      var y0 := Max(0, b.y0);
      var x1 := Min(canvasW, b.x1);
      var y1 := Min(canvasH, b.y1);
      if x1 <= x0 || y1 <= y0 then NO_DAMAGE else DamageRect(x0, y0, x1 - x0, y1 - y0)
  }

  function DamageOf(prev: seq<DamageSlot>, cur: seq<DamageSlot>, canvasW: nat, canvasH: nat): DamageRect {
    if |prev| != |cur| || |prev| == 0 then DamageRect(0, 0, canvasW, canvasH)
    else ClampToCanvas(Hull(prev, cur, |cur|), canvasW, canvasH)
  }

  method ComputeDamage(prev: seq<DamageSlot>, cur: seq<DamageSlot>, canvasW: nat, canvasH: nat)
    returns (r: DamageRect)
    ensures r == DamageOf(prev, cur, canvasW, canvasH)
  {
    if |prev| != |cur| || |prev| == 0 {
      return DamageRect(0, 0, canvasW, canvasH);
    }
    var b := NO_BOUNDS;
    for i := 0 to |cur|
      invariant b == Hull(prev, cur, i)
    {
      var p, c := prev[i], cur[i];
      if !Changed(p, c) {
        continue;
      }
      if p.armed {
        b := AddRect(b, p.x, p.y, p.w, p.h);
      }
      if c.armed {
        b := AddRect(b, c.x, c.y, c.w, c.h);
      }
    }
    r := ClampToCanvas(b, canvasW, canvasH);
  }

  predicate Footprint(s: DamageSlot, px: int, py: int) {
    s.armed && s.x <= px < s.x + s.w && s.y <= py < s.y + s.h
  }

  predicate InBounds(b: Bounds, px: int, py: int) {
    b.valid && b.x0 <= px < b.x1 && b.y0 <= py < b.y1
  }

  predicate OnCanvas(px: int, py: int, canvasW: nat, canvasH: nat) {
    0 <= px < canvasW && 0 <= py < canvasH
  }

  /** Whether (px, py) lies in the old or the new footprint of a slot that changed. */
  ghost predicate Touched(prev: seq<DamageSlot>, cur: seq<DamageSlot>, px: int, py: int)
    requires |prev| == |cur|
  {
    exists i :: 0 <= i < |cur| && Changed(prev[i], cur[i]) && (Footprint(prev[i], px, py) || Footprint(cur[i], px, py))
  }

  lemma {:induction false} HullCovers(prev: seq<DamageSlot>, cur: seq<DamageSlot>, n: nat, i: nat, px: int, py: int)
    requires i < n <= |prev| && n <= |cur|
    requires Changed(prev[i], cur[i]) && (Footprint(prev[i], px, py) || Footprint(cur[i], px, py))
    ensures InBounds(Hull(prev, cur, n), px, py)
  {
    if i < n - 1 {
      HullCovers(prev, cur, n - 1, i, px, py);
    }
  }

  /** No pixel of the canvas that a changed slot covered or covers is missed, and nothing off the
      canvas is ever reported. */
  lemma DamageCovers(prev: seq<DamageSlot>, cur: seq<DamageSlot>, canvasW: nat, canvasH: nat, px: int, py: int)
    ensures var r := DamageOf(prev, cur, canvasW, canvasH);
            && (r.Has(px, py) ==> OnCanvas(px, py, canvasW, canvasH))
            && (OnCanvas(px, py, canvasW, canvasH) && |prev| == |cur| && Touched(prev, cur, px, py) ==> r.Has(px, py))
  {
    if |prev| == |cur| && Touched(prev, cur, px, py) {
      var i :| 0 <= i < |cur| && Changed(prev[i], cur[i]) && (Footprint(prev[i], px, py) || Footprint(cur[i], px, py));
      HullCovers(prev, cur, |cur|, i, px, py);
    }
  }

  ghost predicate Encloses(box: DamageRect, s: DamageSlot) {
    s.armed && s.w > 0 && s.h > 0 ==>
      box.x <= s.x && s.x + s.w <= box.x + box.w && box.y <= s.y && s.y + s.h <= box.y + box.h
  }

  lemma {:induction false} HullWithin(prev: seq<DamageSlot>, cur: seq<DamageSlot>, n: nat, box: DamageRect)
    requires n <= |prev| && n <= |cur|
    requires forall i :: 0 <= i < n && Changed(prev[i], cur[i]) ==> Encloses(box, prev[i]) && Encloses(box, cur[i])
    ensures var b := Hull(prev, cur, n);
            b.valid ==> box.x <= b.x0 && b.x1 <= box.x + box.w && box.y <= b.y0 && b.y1 <= box.y + box.h
  {
    if n > 0 {
      HullWithin(prev, cur, n - 1, box);
    }
  }

  /** The damage of a diffed frame is the least rectangle: every box that encloses the footprints of
      the changed slots contains it. */
  lemma DamageLeast(prev: seq<DamageSlot>, cur: seq<DamageSlot>, canvasW: nat, canvasH: nat,
                    box: DamageRect, px: int, py: int)
    requires |prev| == |cur| > 0
    requires forall i :: 0 <= i < |cur| && Changed(prev[i], cur[i]) ==> Encloses(box, prev[i]) && Encloses(box, cur[i])
    requires DamageOf(prev, cur, canvasW, canvasH).Has(px, py)
    ensures box.Has(px, py)
  {
    HullWithin(prev, cur, |cur|, box);
  }

  /** Intersection: exactly the pixels of both rectangles. */
  function IntersectRect(x: int, y: int, w: nat, h: nat, r: DamageRect): (d: DamageRect)
    ensures forall px, py :: d.Has(px, py) <==> DamageRect(x, y, w, h).Has(px, py) && r.Has(px, py)
    ensures d.Empty() <==> forall px, py :: !(DamageRect(x, y, w, h).Has(px, py) && r.Has(px, py))
  {
    var x0 := Max(x, r.x);
    var y0 := Max(y, r.y);
    var x1 := Min(x + w, r.x + r.w);
    var y1 := Min(y + h, r.y + r.h);
    if x1 <= x0 || y1 <= y0 then NO_DAMAGE
    else
      var d := DamageRect(x0, y0, x1 - x0, y1 - y0);
      assert d.Has(x0, y0);
      d
  }

  /** Bounding union: contains both rectangles. */
  function UnionRect(a: DamageRect, b: DamageRect): (u: DamageRect)
    ensures forall px, py :: a.Has(px, py) || b.Has(px, py) ==> u.Has(px, py)
  {
    if a.Empty() then b
    else if b.Empty() then a
    else
      var x0 := Min(a.x, b.x);
      var y0 := Min(a.y, b.y);
      var x1 := Max(a.x + a.w, b.x + b.w);
      var y1 := Max(a.y + a.h, b.y + b.h);
      DamageRect(x0, y0, x1 - x0, y1 - y0)
  }

  /** ... and is contained in every rectangle that contains both. */
  lemma UnionLeast(a: DamageRect, b: DamageRect, box: DamageRect, px: int, py: int)
    requires forall qx, qy :: a.Has(qx, qy) || b.Has(qx, qy) ==> box.Has(qx, qy)
    requires UnionRect(a, b).Has(px, py)
    ensures box.Has(px, py)
  {
    if !a.Empty() && !b.Empty() {
      assert a.Has(a.x, a.y) && a.Has(a.x + a.w - 1, a.y + a.h - 1);
      assert b.Has(b.x, b.y) && b.Has(b.x + b.w - 1, b.y + b.h - 1);
    }
  }
}
