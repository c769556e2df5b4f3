/** The software composition canvas (src/scene/composite_canvas.cpp): premultiplied SRC_OVER into a
    persistent shadow, and a flush that converts the dirty part of it into one of two buffers. */
module Canvas {
  import opened Wrappers
  import opened Bytes
  import opened Grid
  import opened Damage
  import opened Arith

  datatype Argb = Argb(a: byte, r: byte, g: byte, b: byte)

  const CLEAR := Argb(0, 0, 0, 0)

  // ---- pixels ----

  predicate Premultiplied(p: Argb) {
    p.r <= p.a && p.g <= p.a && p.b <= p.a
  }

  function OverChannel(s: byte, d: byte, inv: byte): byte {
    Min(255, s + (d * inv + 127) / 255)
  }

  function BlendPixelOver(src: Argb, dst: Argb): Argb {
    if src.a == 0 then dst
    else if src.a == 255 then src
    else
      var inv := 255 - src.a;
      Argb(OverChannel(src.a, dst.a, inv), OverChannel(src.r, dst.r, inv),
           OverChannel(src.g, dst.g, inv), OverChannel(src.b, dst.b, inv))
  }

  lemma OverChannelIsNear(s: byte, d: byte, alpha: byte)
    requires s <= alpha < 255
    ensures -127 <= 255 * OverChannel(s, d, 255 - alpha) - (255 * s + d * (255 - alpha)) <= 127
  {
    var n := d * (255 - alpha);
    MulMono(d, 255, 255 - alpha);
    DivBounds(n + 127, 255);
    DivBelow(n + 127, 255, 256 - alpha);
  }

  /** A premultiplied pixel over another is their sum, the one below weighted by what the alpha leaves of it, to the
      nearest 255th in every channel. */
  lemma BlendIsNear(p: Argb, d: Argb)
    requires Premultiplied(p)
    ensures var out := BlendPixelOver(p, d);
            && -127 <= 255 * out.a - (255 * p.a + d.a * (255 - p.a)) <= 127
            && -127 <= 255 * out.r - (255 * p.r + d.r * (255 - p.a)) <= 127
            && -127 <= 255 * out.g - (255 * p.g + d.g * (255 - p.a)) <= 127
            && -127 <= 255 * out.b - (255 * p.b + d.b * (255 - p.a)) <= 127
  {
    if 0 < p.a < 255 {
      OverChannelIsNear(p.a, d.a, p.a);
      OverChannelIsNear(p.r, d.r, p.a);
      OverChannelIsNear(p.g, d.g, p.a);
      OverChannelIsNear(p.b, d.b, p.a);
    }
  }

  datatype SourceFormat = Argb8888 | Xrgb8888 | Unsupported

  /** CPU-mapped source pixels: a decoration or the desktop backdrop. `gen` is the content generation. */
  datatype Source = Source(width: nat, height: nat, format: SourceFormat, gen: nat, pixels: Image<Argb>)

  ghost predicate WellFormed(s: Source) {
    Sized(s.pixels, s.width, s.height)
  }

  /** An XRGB source is opaque whatever its top byte says. */
  function Prepared(format: SourceFormat, p: Argb): Argb {
    if format.Xrgb8888? then p.(a := 255) else p
  }

  datatype Fourcc = ARGB8888 | XRGB8888 | XBGR8888 | ABGR8888 | RGB565 | BGR565

  type Scanout = seq<byte>

  function Pack565(hi: byte, g: byte, lo: byte): Scanout {
    var v := (hi / 8) * 2048 + (g / 4) * 32 + lo / 8;
    [v % 256, v / 256]
  }

  /** The bytes of one shadow pixel in the scanout format, in memory order. */
  function ConvertPixel(p: Argb, f: Fourcc): Scanout {
    match f
    case ARGB8888 => [p.b, p.g, p.r, p.a]
    case XRGB8888 => [p.b, p.g, p.r, p.a]
    case XBGR8888 => [p.r, p.g, p.b, p.a]
    case ABGR8888 => [p.r, p.g, p.b, p.a]
    case RGB565 => Pack565(p.r, p.g, p.b)
    case BGR565 => Pack565(p.b, p.g, p.r)
  }

  lemma Pack565Word(hi: byte, g: byte, lo: byte)
    ensures var bytes := Pack565(hi, g, lo);
            |bytes| == 2 && bytes[0] as int + 0x100 * bytes[1] as int == (hi / 8) * 0x800 + (g / 4) * 0x20 + lo / 8
  {
  }

  lemma FourByteWord(b0: byte, b1: byte, b2: byte, b3: byte)
    ensures var word, low := U32([b0, b1, b2, b3], 0), b2 * 0x1_0000 + b1 * 0x100 + b0;
            word == b3 * 0x100_0000 + low && word % 0x100_0000 == low
  {
  }

  /** The channels as the format's name lists them, from the top bits of a little-endian word down; the 565 formats
      keep the top 5, 6 and 5 bits. */
  lemma ConvertedWord(p: Argb, f: Fourcc)
    ensures var bytes := ConvertPixel(p, f);
            match f
            case ARGB8888 => |bytes| == 4 && U32(bytes, 0) == p.a * 0x100_0000 + p.r * 0x1_0000 + p.g * 0x100 + p.b
            case XRGB8888 => |bytes| == 4 && U32(bytes, 0) % 0x100_0000 == p.r * 0x1_0000 + p.g * 0x100 + p.b
            case ABGR8888 => |bytes| == 4 && U32(bytes, 0) == p.a * 0x100_0000 + p.b * 0x1_0000 + p.g * 0x100 + p.r
            case XBGR8888 => |bytes| == 4 && U32(bytes, 0) % 0x100_0000 == p.b * 0x1_0000 + p.g * 0x100 + p.r
            case RGB565 =>
              && |bytes| == 2
              && bytes[0] as int + 0x100 * bytes[1] as int == (p.r / 8) * 0x800 + (p.g / 4) * 0x20 + p.b / 8
            case BGR565 =>
              && |bytes| == 2
              && bytes[0] as int + 0x100 * bytes[1] as int == (p.b / 8) * 0x800 + (p.g / 4) * 0x20 + p.r / 8
  {
    match f
    case ARGB8888 => FourByteWord(p.b, p.g, p.r, p.a);
    case XRGB8888 => FourByteWord(p.b, p.g, p.r, p.a);
    case XBGR8888 => FourByteWord(p.r, p.g, p.b, p.a);
    case ABGR8888 => FourByteWord(p.r, p.g, p.b, p.a);
    case RGB565 => Pack565Word(p.r, p.g, p.b);
    case BGR565 => Pack565Word(p.b, p.g, p.r);
  }

  // ---- clipping ----

  datatype AxisRange = AxisRange(dstStart: nat, dstEnd: nat, srcStart: nat, srcSpan: nat)

  function ClipAxis(dstPos: int, dstSize: nat, dstExtent: nat, srcPos: int, srcSize: nat, srcExtent: nat)
    : (r: Option<AxisRange>)
    ensures r.Some? ==> r.value.dstStart < r.value.dstEnd <= dstExtent
    ensures r.Some? ==> 0 < r.value.srcSpan && r.value.srcStart + r.value.srcSpan <= srcExtent
    ensures r.Some? ==> dstPos <= r.value.dstStart && r.value.dstEnd <= dstPos + dstSize
    ensures 0 <= dstPos && dstPos + dstSize <= dstExtent && 0 <= srcPos && srcPos + srcSize <= srcExtent
            && dstSize == srcSize > 0
            ==> r == Some(AxisRange(dstPos, dstPos + dstSize, srcPos, srcSize))
  {
    if dstSize == 0 || srcSize == 0 then None
    else
      var srcClip := Max(0, -srcPos);
      var srcAt := srcPos + srcClip;
      if srcAt >= srcExtent || srcSize <= srcClip then None
      else
        var srcVisible := Min(srcSize - srcClip, srcExtent - srcAt);
        var dstClip := Max(0, -dstPos);
        var dstAt := dstPos + dstClip;
        if dstAt >= dstExtent || dstSize <= dstClip then None
        else
          var dstVisible := Min(dstSize - dstClip, dstExtent - dstAt);
          Some(AxisRange(dstAt, dstAt + dstVisible, srcAt, srcVisible))
  }

  /** Target and source are each cut to their own extent, and nothing is left exactly when one of the two is empty. */
  lemma ClipIsExact(dstPos: int, dstSize: nat, dstExtent: nat, srcPos: int, srcSize: nat, srcExtent: nat)
    ensures var r := ClipAxis(dstPos, dstSize, dstExtent, srcPos, srcSize, srcExtent);
            var dstLo, dstHi := Max(0, dstPos), Min(dstExtent, dstPos + dstSize);
            var srcLo, srcHi := Max(0, srcPos), Min(srcExtent, srcPos + srcSize);
            && (r.Some? <==> dstLo < dstHi && srcLo < srcHi)
            && (r.Some? ==> r.value == AxisRange(dstLo, dstHi, srcLo, srcHi - srcLo))
  {
  }

  /** Nearest-neighbour source index of a destination index. */
  function MapSrcIndex(i: nat, dstVisible: nat, srcSpan: nat): nat {
    if dstVisible <= 1 then 0 else (i * srcSpan) / dstVisible
  }

  lemma MapInSpan(i: nat, dstVisible: nat, srcSpan: nat)
    requires i < dstVisible && 0 < srcSpan
    ensures MapSrcIndex(i, dstVisible, srcSpan) < srcSpan
    ensures srcSpan == dstVisible ==> MapSrcIndex(i, dstVisible, srcSpan) == i
  {
    if dstVisible > 1 {
      MulStrict(i, dstVisible, srcSpan);
      DivBelow(i * srcSpan, dstVisible, srcSpan);
      if srcSpan == dstVisible {
        DivExact(i, dstVisible);
      }
    }
  }

  /** And it is proportional: i / dstVisible of the way through the span, rounded down. */
  lemma MapIsProportional(i: nat, dstVisible: nat, srcSpan: nat)
    requires i < dstVisible
    ensures dstVisible * MapSrcIndex(i, dstVisible, srcSpan) <= i * srcSpan <
            dstVisible * MapSrcIndex(i, dstVisible, srcSpan) + dstVisible
  {
    if dstVisible > 1 {
      DivBounds(i * srcSpan, dstVisible);
    }
  }

  /** The source sample that reaches destination index d along one axis. */
  function SrcAt(r: AxisRange, d: int): int
    requires r.dstStart <= d < r.dstEnd
  {
    r.srcStart + MapSrcIndex(d - r.dstStart, r.dstEnd - r.dstStart, r.srcSpan)
  }

  /** What blending `src[srcRect]` at `dstRect` leaves at (x, y) of a w x h target holding `below`. */
  ghost function BlendedAt(src: Source, srcRect: DamageRect, dstRect: DamageRect, w: nat, h: nat,
                           x: int, y: int, below: Argb): Argb
    requires WellFormed(src)
  {
    var xr := ClipAxis(dstRect.x, dstRect.w, w, srcRect.x, srcRect.w, src.width);
    var yr := ClipAxis(dstRect.y, dstRect.h, h, srcRect.y, srcRect.h, src.height);
    if src.format.Unsupported? || xr.None? || yr.None? then below
    else if xr.value.dstStart <= x < xr.value.dstEnd && yr.value.dstStart <= y < yr.value.dstEnd then
      MapInSpan(x - xr.value.dstStart, xr.value.dstEnd - xr.value.dstStart, xr.value.srcSpan);
      MapInSpan(y - yr.value.dstStart, yr.value.dstEnd - yr.value.dstStart, yr.value.srcSpan);
      BlendPixelOver(Prepared(src.format, src.pixels[SrcAt(yr.value, y)][SrcAt(xr.value, x)]), below)
    else below
  }

  method BlendInto(dst: array2<Argb>, src: Source, srcRect: DamageRect, dstRect: DamageRect)
    requires WellFormed(src)
    modifies dst
    ensures forall y, x :: 0 <= y < dst.Length0 && 0 <= x < dst.Length1 ==>
              dst[y, x] == BlendedAt(src, srcRect, dstRect, dst.Length1, dst.Length0, x, y, old(dst[y, x]))
  {
    if src.format.Unsupported? {
      return;
    }
    var xc := ClipAxis(dstRect.x, dstRect.w, dst.Length1, srcRect.x, srcRect.w, src.width);
    if xc.None? {
      return;
    }
    var yc := ClipAxis(dstRect.y, dstRect.h, dst.Length0, srcRect.y, srcRect.h, src.height);
    if yc.None? {
      return;
    }
    var xr, yr := xc.value, yc.value;
    var visibleX, visibleY := xr.dstEnd - xr.dstStart, yr.dstEnd - yr.dstStart;
    var noScale := xr.srcSpan == visibleX && yr.srcSpan == visibleY;
    var pureCopy := src.format.Xrgb8888?;
    for dy := 0 to visibleY
      invariant forall y, x :: 0 <= y < dst.Length0 && 0 <= x < dst.Length1 ==>
                  dst[y, x] == if y < yr.dstStart + dy
                               then BlendedAt(src, srcRect, dstRect, dst.Length1, dst.Length0, x, y, old(dst[y, x]))
                               else old(dst[y, x])
    {
      MapInSpan(dy, visibleY, yr.srcSpan);
      var sy := yr.srcStart + if noScale then dy else MapSrcIndex(dy, visibleY, yr.srcSpan);
      var row := yr.dstStart + dy;
      for dx := 0 to visibleX
        invariant forall y, x :: 0 <= y < dst.Length0 && 0 <= x < dst.Length1 ==>
                    dst[y, x] == if y < row || (y == row && x < xr.dstStart + dx)
                                 then BlendedAt(src, srcRect, dstRect, dst.Length1, dst.Length0, x, y, old(dst[y, x]))
                                 else old(dst[y, x])
      {
        MapInSpan(dx, visibleX, xr.srcSpan);
        var sx := xr.srcStart + if noScale then dx else MapSrcIndex(dx, visibleX, xr.srcSpan);
        var col := xr.dstStart + dx;
        var s := Prepared(src.format, src.pixels[sy][sx]);
        dst[row, col] := if pureCopy then s else BlendPixelOver(s, dst[row, col]);
      }
    }
  }

  method ClearInto(dst: array2<Argb>, x: int, y: int, w: int, h: int)
    modifies dst
    ensures forall py, px :: 0 <= py < dst.Length0 && 0 <= px < dst.Length1 ==>
              dst[py, px] == if x <= px < x + w && y <= py < y + h then CLEAR else old(dst[py, px])
  {
    if w <= 0 || h <= 0 {
      return;
    }
    var x0, y0 := Max(0, x), Max(0, y);
    var x1, y1 := Min(dst.Length1, x + w), Min(dst.Length0, y + h);
    if x1 <= x0 || y1 <= y0 {
      return;
    }
    for row := y0 to y1
      invariant forall py, px :: 0 <= py < dst.Length0 && 0 <= px < dst.Length1 ==>
                  dst[py, px] == if y0 <= py < row && x0 <= px < x1 then CLEAR else old(dst[py, px])
    {
      for col := x0 to x1
        invariant forall py, px :: 0 <= py < dst.Length0 && 0 <= px < dst.Length1 ==>
                    dst[py, px] == if x0 <= px < x1 && y0 <= py && (py < row || (py == row && px < col)) then CLEAR
                                   else old(dst[py, px])
      {
        dst[row, col] := CLEAR;
      }
    }
  }

  function ClipToCanvas(r: DamageRect, w: nat, h: nat): DamageRect {
    IntersectRect(0, 0, w, h, r)
  }

  // ---- the canvas object ----

  class CompositeCanvas {
    const width: nat
    const height: nat
    const fourcc: Fourcc
    const shadow: array2<Argb>
    const buffer0: array2<Scanout>
    const buffer1: array2<Scanout>
    var backIndex: nat
    var currentDirty: DamageRect
    var prevFlush0: DamageRect
    var prevFlush1: DamageRect

    ghost predicate Valid()
      reads this
    {
      && backIndex < 2
      && buffer0 != buffer1
      && shadow.Length0 == height && shadow.Length1 == width
      && buffer0.Length0 == height && buffer0.Length1 == width
      && buffer1.Length0 == height && buffer1.Length1 == width
    }

    function Buffer(i: nat): array2<Scanout> {
      if i == 0 then buffer0 else buffer1
    }

    function PrevFlush(i: nat): DamageRect
      reads this
    {
      if i == 0 then prevFlush0 else prevFlush1
    }

    constructor (w: nat, h: nat, f: Fourcc)
      ensures Valid() && width == w && height == h && fourcc == f
      ensures backIndex == 1 && currentDirty == NO_DAMAGE
      ensures fresh(shadow) && fresh(buffer0) && fresh(buffer1)
    {
      width, height, fourcc := w, h, f;
      shadow := new Argb[h, w]((i, j) => CLEAR);
      buffer0 := new Scanout[h, w]((i, j) => []);
      buffer1 := new Scanout[h, w]((i, j) => []);
      backIndex, currentDirty, prevFlush0, prevFlush1 := 1, NO_DAMAGE, NO_DAMAGE, NO_DAMAGE;
    }

    method BeginFrame()
      requires Valid()
      modifies this`backIndex
      ensures Valid() && backIndex == 1 - old(backIndex)
    {
      backIndex := 1 - backIndex;
    }

    method ClearRect(r: DamageRect)
      requires Valid()
      modifies this`currentDirty, shadow
      ensures Valid() && currentDirty == UnionRect(old(currentDirty), r)
      ensures forall y, x :: 0 <= y < height && 0 <= x < width ==>
                shadow[y, x] == if r.Has(x, y) then CLEAR else old(shadow[y, x])
    {
      ClearInto(shadow, r.x, r.y, r.w, r.h);
      currentDirty := UnionRect(currentDirty, r);
    }

    method Blend(src: Source, srcRect: DamageRect, dstRect: DamageRect)
      requires Valid() && WellFormed(src)
      modifies this`currentDirty, shadow
      ensures Valid() && currentDirty == UnionRect(old(currentDirty), dstRect)
      ensures forall y, x :: 0 <= y < height && 0 <= x < width ==>
                shadow[y, x] == BlendedAt(src, srcRect, dstRect, width, height, x, y, old(shadow[y, x]))
    {
      BlendInto(shadow, src, srcRect, dstRect);
      currentDirty := UnionRect(currentDirty, dstRect);
    }

    /** Converts the part of the shadow that is dirty, or was when this buffer was last the back one.
        `currentDirty` is not reset here, so it only grows. */
    method Flush()
      requires Valid()
      modifies this`prevFlush0, this`prevFlush1, Buffer(backIndex)
      ensures Valid()
      ensures PrevFlush(backIndex) == currentDirty && PrevFlush(1 - backIndex) == old(PrevFlush(1 - backIndex))
      ensures var r := old(UnionRect(currentDirty, PrevFlush(backIndex)));
              forall y, x :: 0 <= y < height && 0 <= x < width ==>
                Buffer(backIndex)[y, x] ==
                if r.Has(x, y) then ConvertPixel(shadow[y, x], fourcc) else old(Buffer(backIndex)[y, x])
    {
      var back := Buffer(backIndex);
      var r := UnionRect(currentDirty, PrevFlush(backIndex));
      var rect := ClipToCanvas(r, width, height);
      assert forall x, y :: 0 <= y < height && 0 <= x < width ==>
          DamageRect(0, 0, width, height).Has(x, y) && (rect.Has(x, y) <==> r.Has(x, y));
      if !rect.Empty() {
        assert rect.Has(rect.x, rect.y) && rect.Has(rect.x + rect.w - 1, rect.y + rect.h - 1);
        for row := rect.y to rect.y + rect.h
          modifies back
          invariant forall y, x :: 0 <= y < height && 0 <= x < width ==>
                      back[y, x] == if rect.Has(x, y) && y < row then ConvertPixel(shadow[y, x], fourcc)
                                    else old(back[y, x])
        {
          for col := rect.x to rect.x + rect.w
            modifies back
            invariant forall y, x :: 0 <= y < height && 0 <= x < width ==>
                        back[y, x] == if rect.Has(x, y) && (y < row || (y == row && x < col))
                                      then ConvertPixel(shadow[y, x], fourcc) else old(back[y, x])
          {
            back[row, col] := ConvertPixel(shadow[row, col], fourcc);
          }
        }
      }
      if backIndex == 0 {
        prevFlush0 := currentDirty;
      } else {
        prevFlush1 := currentDirty;
      }
    }
  }
}
