/** Blitting a cursor frame into a scanout buffer, and where its hotspot ends up
    (src/cursor/renderer.cpp, src/cursor/cursor_format.hpp). */
module CursorBlit {
  import opened Arith
  import opened Grid
  import opened Canvas
  import opened CursorFrame
  import opened CursorDownscale

  // ---- fitting the rotated frame into the buffer ----

  /** The size and place of the blitted frame in a bw x bh buffer. */
  datatype Fit = Fit(w: nat, h: nat, xOff: nat, yOff: nat) {
    predicate Has(x: int, y: int) {
      xOff <= x < xOff + w && yOff <= y < yOff + h
    }
  }

  predicate NeedsDownscale(rotW: nat, rotH: nat, bw: nat, bh: nat) {
    rotW > bw || rotH > bh
  }

  /** The 16.16 shrink ratio: the smaller of the two axes'. */
  function ShrinkRatio(rotW: nat, rotH: nat, bw: nat, bh: nat): nat
    requires 0 < rotW && 0 < rotH
  {
    Min((bw * 65536) / rotW, (bh * 65536) / rotH)
  }

  function ShrunkSide(side: nat, ratio: nat, cap: nat): nat {
    var s := Min((side * ratio + 32768) / 65536, cap);
    if s == 0 then 1 else s
  }

  function BlitW(rotW: nat, rotH: nat, bw: nat, bh: nat): nat
    requires 0 < rotW && 0 < rotH
  {
    if NeedsDownscale(rotW, rotH, bw, bh) then ShrunkSide(rotW, ShrinkRatio(rotW, rotH, bw, bh), bw) else Min(rotW, bw)
  }

  function BlitH(rotW: nat, rotH: nat, bw: nat, bh: nat): nat
    requires 0 < rotW && 0 < rotH
  {
    if NeedsDownscale(rotW, rotH, bw, bh) then ShrunkSide(rotH, ShrinkRatio(rotW, rotH, bw, bh), bh) else Min(rotH, bh)
  }

  function Centred(bufferSide: nat, blitSide: nat): nat {
    if bufferSide > blitSide then (bufferSide - blitSide) / 2 else 0
  }

  function FitOf(rotW: nat, rotH: nat, bw: nat, bh: nat): Fit
    requires 0 < rotW && 0 < rotH
  {
    var w, h := BlitW(rotW, rotH, bw, bh), BlitH(rotW, rotH, bw, bh);
    Fit(w, h, Centred(bw, w), Centred(bh, h))
  }

  lemma ShrunkWithin(side: nat, ratio: nat, cap: nat)
    requires 0 < side && 0 < cap && ratio <= 65536
    ensures 1 <= ShrunkSide(side, ratio, cap) <= cap && ShrunkSide(side, ratio, cap) <= side
  {
    MulMono(ratio, 65536, side);
  }

  lemma RatioBelowOne(side: nat, cap: nat)
    requires cap < side
    ensures (cap * 65536) / side < 65536
  {
    DivBelow(cap * 65536, side, 65536);
  }

  /** The blitted frame is never empty, never larger than the rotated frame on either axis, and lies with
      its centring offset inside the buffer. */
  lemma FitInside(rotW: nat, rotH: nat, bw: nat, bh: nat)
    requires 0 < rotW && 0 < rotH && 0 < bw && 0 < bh
    ensures var t := FitOf(rotW, rotH, bw, bh);
            && 1 <= t.w <= rotW && 1 <= t.h <= rotH
            && t.xOff + t.w <= bw && t.yOff + t.h <= bh
            && (!NeedsDownscale(rotW, rotH, bw, bh) ==> t.w == rotW && t.h == rotH)
  {
    if NeedsDownscale(rotW, rotH, bw, bh) {
      if rotW > bw {
        RatioBelowOne(rotW, bw);
      } else {
        RatioBelowOne(rotH, bh);
      }
      var ratio := ShrinkRatio(rotW, rotH, bw, bh);
      ShrunkWithin(rotW, ratio, bw);
      ShrunkWithin(rotH, ratio, bh);
    }
  }

  /** The axis that sets the ratio fills the buffer exactly. Cursors load at most 512 pixels a side. */
  lemma LimitingAxisFills(side: nat, cap: nat)
    requires 0 < side <= 32768 && 0 < cap
    ensures ShrunkSide(side, (cap * 65536) / side, cap) == cap
  {
    var ratio := (cap * 65536) / side;
    DivBounds(cap * 65536, side);
    assert side * ratio > cap * 65536 - side;
    DivIs(side * ratio + 32768, 65536, cap);
  }

  /** The other axis, shrunk by the ratio cap/side of the limiting one, stays within one pixel of its true
      proportional size other*cap/side. */
  lemma OtherAxisProportional(side: nat, cap: nat, other: nat, otherCap: nat)
    requires 0 < side <= 32768 && 0 < cap && 0 < other <= 32768 && 0 < otherCap
    requires (cap * 65536) / side <= (otherCap * 65536) / other
    ensures var s := ShrunkSide(other, (cap * 65536) / side, otherCap);
            other * cap - side < s * side < other * cap + side
  {
    var ratio := (cap * 65536) / side;
    DivBounds(cap * 65536, side);
    DivBounds(otherCap * 65536, other);
    MulMono(ratio, (otherCap * 65536) / other, other);
    assert other * ratio <= otherCap * 65536;
    var q := (other * ratio + 32768) / 65536;
    assert q <= otherCap;
    ProportionalProducts(side, cap, other, ratio, q);
  }

  /** A frame that has to shrink fills the buffer exactly on one axis and is within one pixel of keeping
      its proportions on the other. */
  lemma ShrinkKeepsProportions(rotW: nat, rotH: nat, bw: nat, bh: nat)
    requires 0 < rotW <= 32768 && 0 < rotH <= 32768 && 0 < bw && 0 < bh && NeedsDownscale(rotW, rotH, bw, bh)
    ensures var t := FitOf(rotW, rotH, bw, bh);
            || (t.w == bw && rotH * bw - rotW < t.h * rotW < rotH * bw + rotW)
            || (t.h == bh && rotW * bh - rotH < t.w * rotH < rotW * bh + rotH)
  {
    if (bw * 65536) / rotW <= (bh * 65536) / rotH {
      LimitingAxisFills(rotW, bw);
      OtherAxisProportional(rotW, bw, rotH, bh);
    } else {
      LimitingAxisFills(rotH, bh);
      OtherAxisProportional(rotH, bh, rotW, bw);
    }
  }

  lemma ProportionalProducts(side: nat, cap: nat, other: nat, ratio: nat, q: nat)
    requires 0 < side <= 32768 && 0 < cap && 0 < other <= 32768
    requires side * ratio <= cap * 65536 < side * ratio + side
    requires 65536 * q <= other * ratio + 32768 < 65536 * q + 65536
    ensures other * cap - side < q * side < other * cap + side
    ensures side < other * cap + side
    ensures q == 0 ==> other * cap < side
  {
    ScaledUp(side, cap, other, ratio);
    MulMono(65536 * q, other * ratio + 32768, side);
    MulMono(other * ratio + 32769, 65536 * q + 65536, side);
    MulMono(other, 32768, side);
    MulMono(1, other, cap);
    Expanded(side, other * ratio, q);
    ProportionalSum(side, other * cap, (other * ratio) * side, q * side, other * side,
                    (65536 * q) * side, (other * ratio + 32768) * side,
                    (other * ratio + 32769) * side, (65536 * q + 65536) * side);
  }

  lemma Expanded(side: nat, p: nat, q: nat)
    ensures (65536 * q) * side == 65536 * (q * side)
    ensures (65536 * q + 65536) * side == 65536 * (q * side) + 65536 * side
    ensures (p + 32768) * side == p * side + 32768 * side && (p + 32769) * side == p * side + 32769 * side
  {
  }

  lemma ScaledUp(side: nat, cap: nat, other: nat, ratio: nat)
    requires side * ratio <= cap * 65536 < side * ratio + side
    ensures (other * ratio) * side <= (other * cap) * 65536 <= (other * ratio) * side + other * side
  {
    MulMono(side * ratio, cap * 65536, other);
    MulMono(cap * 65536, side * ratio + side, other);
    assert (side * ratio) * other == (other * ratio) * side;
    assert (cap * 65536) * other == (other * cap) * 65536;
    assert (side * ratio + side) * other == (other * ratio) * side + other * side;
  }

  /** The products of `ProportionalProducts` as plain numbers. */
  lemma ProportionalSum(side: int, oc: int, n: int, k: int, os: int, lo: int, mid: int, mid1: int, hi: int)
    requires 0 < side && 0 < oc && n <= oc * 65536 <= n + os && os <= 32768 * side
    requires lo <= mid && mid1 <= hi
    requires lo == 65536 * k && mid == n + 32768 * side && mid1 == n + 32769 * side && hi == 65536 * k + 65536 * side
    ensures oc - side < k < oc + side && side < oc + side
    ensures k == 0 ==> oc < side
  {
  }

  // ---- the blitted pixels ----

  datatype CursorFourcc = FARGB8888 | FRGBA8888 | FABGR8888 | FBGRA8888

  /** A word of the buffer, its four bytes named a, r, g, b from the top whatever channel they carry. */
  type Word = Argb

  function FromArgb(p: Argb, f: CursorFourcc): Word {
    match f
    case FARGB8888 => p
    case FRGBA8888 => Argb(p.r, p.g, p.b, p.a)
    case FABGR8888 => Argb(p.a, p.b, p.g, p.r)
    case FBGRA8888 => Argb(p.b, p.g, p.r, p.a)
  }

  /** What the plane reads out of a word in its format. */
  function ScannedOut(w: Word, f: CursorFourcc): Argb {
    match f
    case FARGB8888 => w
    case FRGBA8888 => Argb(w.b, w.a, w.r, w.g)
    case FABGR8888 => Argb(w.a, w.b, w.g, w.r)
    case FBGRA8888 => Argb(w.b, w.g, w.r, w.a)
  }

  /** A word as a number. */
  function Value(w: Word): nat {
    w.a * 0x100_0000 + w.r * 0x1_0000 + w.g * 0x100 + w.b
  }

  /** The converted word lists the channels from the top bits down as the format's name does. */
  lemma ConvertedValue(p: Argb, f: CursorFourcc)
    ensures Value(FromArgb(p, f)) ==
            match f
            case FARGB8888 => p.a * 0x100_0000 + p.r * 0x1_0000 + p.g * 0x100 + p.b
            case FRGBA8888 => p.r * 0x100_0000 + p.g * 0x1_0000 + p.b * 0x100 + p.a
            case FABGR8888 => p.a * 0x100_0000 + p.b * 0x1_0000 + p.g * 0x100 + p.r
            case FBGRA8888 => p.b * 0x100_0000 + p.g * 0x1_0000 + p.r * 0x100 + p.a
  {
  }

  lemma FormatRoundTrip(p: Argb, f: CursorFourcc)
    ensures ScannedOut(FromArgb(p, f), f) == p
  {
  }

  ghost predicate Fits(f: Frame, rot: Rotation, t: Fit, shrink: bool) {
    && ValidFrame(f) && t.w <= RotW(f, rot) && t.h <= RotH(f, rot)
    && (!shrink ==> t.w == RotW(f, rot) && t.h == RotH(f, rot))
  }

  /** Pixel (x, y) of a frame blitted into the rectangle t of a wiped buffer. */
  function PlacedPixel(f: Frame, rot: Rotation, t: Fit, shrink: bool, format: CursorFourcc, x: int, y: int): Word
    requires Fits(f, rot, t, shrink)
  {
    if !t.Has(x, y) then CLEAR
    else if shrink then FromArgb(ScaledPixel(f, rot, t.w, t.h, x - t.xOff, y - t.yOff), format)
    else FromArgb(SampleRotated(f, rot, x - t.xOff, y - t.yOff), format)
  }

  /** What a blit leaves at (x, y) of a bw x bh buffer. */
  function BlitPixel(f: Frame, rot: Rotation, bw: nat, bh: nat, format: CursorFourcc, x: int, y: int): Word
    requires ValidFrame(f) && 0 < bw && 0 < bh
  {
    FitInside(RotW(f, rot), RotH(f, rot), bw, bh);
    PlacedPixel(f, rot, FitOf(RotW(f, rot), RotH(f, rot), bw, bh),
                NeedsDownscale(RotW(f, rot), RotH(f, rot), bw, bh), format, x, y)
  }

  /** The whole buffer after a blit. */
  ghost function BlitImage(f: Frame, rot: Rotation, bw: nat, bh: nat, format: CursorFourcc): (g: Image<Word>)
    requires ValidFrame(f) && 0 < bw && 0 < bh
  {
    seq(bh, y requires 0 <= y < bh => BlitRow(f, rot, bw, bh, format, y))
  }

  ghost function BlitRow(f: Frame, rot: Rotation, bw: nat, bh: nat, format: CursorFourcc, y: int): (g: seq<Word>)
    requires ValidFrame(f) && 0 < bw && 0 < bh
  {
    seq(bw, x requires 0 <= x < bw => BlitPixel(f, rot, bw, bh, format, x, y))
  }

  /** The size of the blitted frame. */
  function BlitSize(f: Frame, rot: Rotation, bw: nat, bh: nat): (nat, nat)
    requires 0 < f.width && 0 < f.height
  {
    (BlitW(RotW(f, rot), RotH(f, rot), bw, bh), BlitH(RotW(f, rot), RotH(f, rot), bw, bh))
  }

  /** A frame that fits is centred, and every pixel of it is where a clockwise turn by the rotation puts it. */
  lemma FittedFrameLands(f: Frame, rot: Rotation, bw: nat, bh: nat, format: CursorFourcc, w: nat, h: nat,
                         sx: int, sy: int)
    requires ValidFrame(f) && 0 <= sx < f.width && 0 <= sy < f.height
    requires (w, h) == if rot.K90? || rot.K270? then (f.height, f.width) else (f.width, f.height)
    requires w <= bw && h <= bh
    ensures var (x, y) := match rot
                          case K0 => (sx, sy)
                          case K90 => (f.height - 1 - sy, sx)
                          case K180 => (f.width - 1 - sx, f.height - 1 - sy)
                          case K270 => (sy, f.width - 1 - sx);
            var at := BlitPixel(f, rot, bw, bh, format, (bw - w) / 2 + x, (bh - h) / 2 + y);
            ScannedOut(at, format) == f.pixels[sy][sx]
  {
    RotationRoundTrip(f, rot, sx, sy);
    var (rx, ry) := RotatedTo(f, rot, sx, sy);
    FittedPixel(f, rot, bw, bh, format, rx, ry);
    FormatRoundTrip(f.pixels[sy][sx], format);
  }

  /** Around it the buffer is transparent black. */
  lemma AroundIsBlank(f: Frame, rot: Rotation, bw: nat, bh: nat, format: CursorFourcc, x: int, y: int)
    requires ValidFrame(f) && 0 < bw && 0 < bh
    requires if rot.K90? || rot.K270? then f.height <= bw && f.width <= bh else f.width <= bw && f.height <= bh
    requires var (w, h) := if rot.K90? || rot.K270? then (f.height, f.width) else (f.width, f.height);
             !((bw - w) / 2 <= x < (bw - w) / 2 + w && (bh - h) / 2 <= y < (bh - h) / 2 + h)
    ensures BlitPixel(f, rot, bw, bh, format, x, y) == Argb(0, 0, 0, 0)
  {
  }

  predicate Between(lo: Argb, p: Argb, hi: Argb) {
    lo.a <= p.a <= hi.a && lo.r <= p.r <= hi.r && lo.g <= p.g <= hi.g && lo.b <= p.b <= hi.b
  }

  /** Pixel d of n, each `ratio` 256ths of a source pixel wide, overlaps source pixel s. */
  predicate Overlap(d: int, ratio: nat, s: int) {
    d * ratio < (s + 1) * 256 && s * 256 < (d + 1) * ratio
  }

  /** Source pixel (sx, sy), turned clockwise by the rotation, overlaps pixel (dx, dy) of an image whose pixels are
      rx and ry 256ths of a turned source pixel. */
  predicate DrawsOn(f: Frame, rot: Rotation, rx: nat, ry: nat, dx: int, dy: int, sx: int, sy: int) {
    match rot
    case K0 => Overlap(dx, rx, sx) && Overlap(dy, ry, sy)
    case K90 => Overlap(dx, rx, f.height - 1 - sy) && Overlap(dy, ry, sx)
    case K180 => Overlap(dx, rx, f.width - 1 - sx) && Overlap(dy, ry, f.height - 1 - sy)
    case K270 => Overlap(dx, rx, sy) && Overlap(dy, ry, f.width - 1 - sx)
  }

  /** The colours lo and hi enclose every source pixel that (dx, dy) overlaps. */
  ghost predicate Encloses(lo: Argb, hi: Argb, f: Frame, rot: Rotation, rx: nat, ry: nat, dx: int, dy: int)
    requires ValidFrame(f)
  {
    forall sx, sy :: 0 <= sx < f.width && 0 <= sy < f.height && DrawsOn(f, rot, rx, ry, dx, dy, sx, sy) ==>
      Between(lo, f.pixels[sy][sx], hi)
  }

  lemma ScaledBetween(f: Frame, rot: Rotation, dstW: nat, dstH: nat, dx: nat, dy: nat, lo: Argb, hi: Argb)
    requires ValidFrame(f) && dx < dstW <= RotW(f, rot) && dy < dstH <= RotH(f, rot)
    requires Encloses(lo, hi, f, rot, Ratio(RotW(f, rot), dstW), Ratio(RotH(f, rot), dstH), dx, dy)
    ensures Between(lo, ScaledPixel(f, rot, dstW, dstH, dx, dy), hi)
  {
    var b := BoxAt(f, rot, dstW, dstH, dx, dy);
    forall rx, ry | b.Covers(rx, ry)
      ensures Between(lo, b.Sample(rx, ry), hi)
    {
      RotationRoundTrip(f, rot, rx, ry);
      CoversOverlap(dx, Ratio(RotW(f, rot), dstW), rx);
      CoversOverlap(dy, Ratio(RotH(f, rot), dstH), ry);
      var (sx, sy) := SourceOf(f, rot, rx, ry);
      assert DrawsOn(f, rot, Ratio(RotW(f, rot), dstW), Ratio(RotH(f, rot), dstH), dx, dy, sx, sy);
    }
    MeanBetween(b, Alpha, lo.a, hi.a);
    MeanBetween(b, Red, lo.r, hi.r);
    MeanBetween(b, Green, lo.g, hi.g);
    MeanBetween(b, Blue, lo.b, hi.b);
  }

  lemma ShrunkPixel(f: Frame, rot: Rotation, bw: nat, bh: nat, format: CursorFourcc, t: Fit, dx: nat, dy: nat)
    requires ValidFrame(f) && 0 < bw && 0 < bh && NeedsDownscale(RotW(f, rot), RotH(f, rot), bw, bh)
    requires t == FitOf(RotW(f, rot), RotH(f, rot), bw, bh) && dx < t.w && dy < t.h
    ensures t.w <= RotW(f, rot) && t.h <= RotH(f, rot)
    ensures ScannedOut(BlitPixel(f, rot, bw, bh, format, t.xOff + dx, t.yOff + dy), format) ==
            ScaledPixel(f, rot, t.w, t.h, dx, dy)
  {
    FitInside(RotW(f, rot), RotH(f, rot), bw, bh);
    FormatRoundTrip(ScaledPixel(f, rot, t.w, t.h, dx, dy), format);
  }

  /** A frame that is shrunk, w x h once turned, is turned the same way: a pixel of it lies between any two colours
      that enclose the source pixels it overlaps. */
  lemma ShrunkFrameLands(f: Frame, rot: Rotation, bw: nat, bh: nat, format: CursorFourcc, w: nat, h: nat, t: Fit,
      dx: nat, dy: nat, lo: Argb, hi: Argb)
    requires ValidFrame(f) && 0 < bw && 0 < bh
    requires (w, h) == if rot.K90? || rot.K270? then (f.height, f.width) else (f.width, f.height)
    requires (w > bw || h > bh) && t == FitOf(w, h, bw, bh) && dx < t.w && dy < t.h
    requires Encloses(lo, hi, f, rot, Ratio(w, t.w), Ratio(h, t.h), dx, dy)
    ensures Between(lo, ScannedOut(BlitPixel(f, rot, bw, bh, format, t.xOff + dx, t.yOff + dy), format), hi)
  {
    ShrunkPixel(f, rot, bw, bh, format, t, dx, dy);
    ScaledBetween(f, rot, t.w, t.h, dx, dy, lo, hi);
  }

  lemma CoversOverlap(d: nat, ratio: nat, s: int)
    requires StretchOf(d, ratio).First() <= s < StretchOf(d, ratio).Last()
    ensures Overlap(d, ratio, s)
  {
    assert (d + 1) * ratio == d * ratio + ratio;
  }

  method Wipe(dst: array2<Word>)
    modifies dst
    ensures forall y, x :: 0 <= y < dst.Length0 && 0 <= x < dst.Length1 ==> dst[y, x] == CLEAR
  {
    for row := 0 to dst.Length0
      invariant forall y, x :: 0 <= y < row && 0 <= x < dst.Length1 ==> dst[y, x] == CLEAR
    {
      for col := 0 to dst.Length1
        invariant forall y, x :: 0 <= y < dst.Length0 && 0 <= x < dst.Length1 && (y < row || (y == row && x < col)) ==>
                    dst[y, x] == CLEAR
      {
        dst[row, col] := CLEAR;
      }
    }
  }

  /** The 1:1 copy of the rotated frame into the fitted rectangle. */
  method CopyRotated(f: Frame, rot: Rotation, dst: array2<Word>, t: Fit)
    requires ValidFrame(f) && t.w == RotW(f, rot) && t.h == RotH(f, rot)
    requires t.xOff + t.w <= dst.Length1 && t.yOff + t.h <= dst.Length0
    modifies dst
    ensures forall y, x :: 0 <= y < dst.Length0 && 0 <= x < dst.Length1 ==>
              dst[y, x] == if t.Has(x, y) then SampleRotated(f, rot, x - t.xOff, y - t.yOff) else old(dst[y, x])
  {
    for dy := 0 to t.h
      invariant forall y, x :: 0 <= y < dst.Length0 && 0 <= x < dst.Length1 ==>
                  dst[y, x] == if t.Has(x, y) && y < t.yOff + dy then SampleRotated(f, rot, x - t.xOff, y - t.yOff)
                               else old(dst[y, x])
    {
      for dx := 0 to t.w
        invariant forall y, x :: 0 <= y < dst.Length0 && 0 <= x < dst.Length1 ==>
                    dst[y, x] == if t.Has(x, y) && (y < t.yOff + dy || (y == t.yOff + dy && x < t.xOff + dx))
                                 then SampleRotated(f, rot, x - t.xOff, y - t.yOff)
                                 else old(dst[y, x])
      {
        var (sx, sy) := if rot == K0 then (dx, dy) else SourceOf(f, rot, dx, dy);
        dst[dy + t.yOff, dx + t.xOff] := f.pixels[sy][sx];
      }
    }
  }

  method ConvertFitted(dst: array2<Word>, t: Fit, format: CursorFourcc)
    requires t.xOff + t.w <= dst.Length1 && t.yOff + t.h <= dst.Length0
    modifies dst
    ensures forall y, x :: 0 <= y < dst.Length0 && 0 <= x < dst.Length1 ==>
              dst[y, x] == if t.Has(x, y) then FromArgb(old(dst[y, x]), format) else old(dst[y, x])
  {
    for row := t.yOff to t.yOff + t.h
      invariant forall y, x :: 0 <= y < dst.Length0 && 0 <= x < dst.Length1 ==>
                  dst[y, x] == if t.Has(x, y) && y < row then FromArgb(old(dst[y, x]), format) else old(dst[y, x])
    {
      for col := t.xOff to t.xOff + t.w
        invariant forall y, x :: 0 <= y < dst.Length0 && 0 <= x < dst.Length1 ==>
                    dst[y, x] == if t.Has(x, y) && (y < row || (y == row && x < col))
                        then FromArgb(old(dst[y, x]), format)
                                 else old(dst[y, x])
      {
        dst[row, col] := FromArgb(dst[row, col], format);
      }
    }
  }

  /** The blit, given how the frame fits. */
  method BlitFitted(f: Frame, rot: Rotation, dst: array2<Word>, format: CursorFourcc, t: Fit, shrink: bool)
    requires Fits(f, rot, t, shrink) && t.xOff + t.w <= dst.Length1 && t.yOff + t.h <= dst.Length0
    modifies dst
    ensures forall y, x :: 0 <= y < dst.Length0 && 0 <= x < dst.Length1 ==>
              dst[y, x] == PlacedPixel(f, rot, t, shrink, format, x, y)
  {
    Wipe(dst);
    if shrink {
      BoxDownscaleRotated(f, rot, dst, t.xOff, t.yOff, t.w, t.h);
    } else {
      CopyRotated(f, rot, dst, t);
    }
    if format != FARGB8888 {
      ConvertFitted(dst, t, format);
    }
  }

  /** Wipes the buffer, then copies, rotates or downscales the frame into its middle. */
  method BlitFrame(f: Frame, rot: Rotation, dst: array2<Word>, format: CursorFourcc) returns (blitW: nat, blitH: nat)
    requires ValidFrame(f) && 0 < dst.Length0 && 0 < dst.Length1
    modifies dst
    ensures View(dst) == BlitImage(f, rot, dst.Length1, dst.Length0, format)
    ensures (blitW, blitH) == BlitSize(f, rot, dst.Length1, dst.Length0)
  {
    var rotW, rotH := RotW(f, rot), RotH(f, rot);
    var t := FitOf(rotW, rotH, dst.Length1, dst.Length0);
    FitInside(rotW, rotH, dst.Length1, dst.Length0);
    BlitFitted(f, rot, dst, format, t, NeedsDownscale(rotW, rotH, dst.Length1, dst.Length0));
    assert forall y :: 0 <= y < dst.Length0 ==> |BlitRow(f, rot, dst.Length1, dst.Length0, format, y)| == dst.Length1;
    SameImage(View(dst), BlitImage(f, rot, dst.Length1, dst.Length0, format), dst.Length1, dst.Length0);
    blitW, blitH := t.w, t.h;
  }

  // ---- the hotspot ----

  /** C's integer division, which truncates toward zero. */
  function TruncDiv(n: int, d: nat): int
    requires 0 < d
  {
    if n < 0 then -((-n) / d) else n / d
  }

  lemma TruncDivIs(n: int, d: nat)
    requires 0 < d
    ensures var q := TruncDiv(n, d);
            TruncDiv(-n, d) == -q && (n >= 0 ==> 0 <= q && d * q <= n < d * q + d)
  {
    DivBounds(n, d);
    if n >= 0 {
      DivMono(0, n, d);
    }
  }

  /** The rotated hotspot along one axis, scaled the way the blit scaled that axis. */
  function ScaledHot(hot: int, rotSide: nat, blitSide: nat): int
    requires 0 < rotSide
  {
    if blitSide != 0 && blitSide != rotSide then TruncDiv(hot * blitSide, rotSide) else hot
  }

  /** The hotspot in the buffer's own coordinates, after a blit of blitW x blitH. */
  function BufferHotspot(f: Frame, rot: Rotation, blitW: nat, blitH: nat, bw: nat, bh: nat): (int, int)
    requires 0 < f.width && 0 < f.height
  {
    var (rx, ry) := RotatedTo(f, rot, f.xhot, f.yhot);
    var rw, rh := RotW(f, rot), RotH(f, rot);
    (ScaledHot(rx, rw, blitW) + Centred(bw, if blitW != 0 then blitW else rw),
     ScaledHot(ry, rh, blitH) + Centred(bh, if blitH != 0 then blitH else rh))
  }

  ghost predicate HotspotInside(f: Frame) {
    0 <= f.xhot < f.width && 0 <= f.yhot < f.height
  }

  /** The hotspot of a blitted frame. */
  function BlittedHotspot(f: Frame, rot: Rotation, bw: nat, bh: nat): (int, int)
    requires ValidFrame(f)
  {
    var (blitW, blitH) := BlitSize(f, rot, bw, bh);
    BufferHotspot(f, rot, blitW, blitH, bw, bh)
  }

  lemma FittedHotspot(f: Frame, rot: Rotation, bw: nat, bh: nat)
    requires ValidFrame(f) && !NeedsDownscale(RotW(f, rot), RotH(f, rot), bw, bh)
    ensures var (rx, ry) := RotatedTo(f, rot, f.xhot, f.yhot);
            BlittedHotspot(f, rot, bw, bh) == (rx + Centred(bw, RotW(f, rot)), ry + Centred(bh, RotH(f, rot)))
  {
  }

  lemma FittedPixel(f: Frame, rot: Rotation, bw: nat, bh: nat, format: CursorFourcc, rx: nat, ry: nat)
    requires ValidFrame(f) && InRotated(f, rot, rx, ry) && 0 < bw && 0 < bh
    requires !NeedsDownscale(RotW(f, rot), RotH(f, rot), bw, bh)
    ensures BlitPixel(f, rot, bw, bh, format, rx + Centred(bw, RotW(f, rot)), ry + Centred(bh, RotH(f, rot))) ==
            FromArgb(SampleRotated(f, rot, rx, ry), format)
  {
  }

  /** When the frame fits, the plane reads the source's hotspot pixel at the buffer hotspot, whatever the
      rotation, the sizes and the pixel format. */
  lemma HotspotFollowsPixel(f: Frame, rot: Rotation, bw: nat, bh: nat, format: CursorFourcc)
    requires ValidFrame(f) && HotspotInside(f) && 0 < bw && 0 < bh
    requires !NeedsDownscale(RotW(f, rot), RotH(f, rot), bw, bh)
    ensures var (hx, hy) := BlittedHotspot(f, rot, bw, bh);
            && 0 <= hx < bw && 0 <= hy < bh
            && ScannedOut(BlitPixel(f, rot, bw, bh, format, hx, hy), format) == f.pixels[f.yhot][f.xhot]
  {
    var (rx, ry) := RotatedTo(f, rot, f.xhot, f.yhot);
    RotationRoundTrip(f, rot, f.xhot, f.yhot);
    FittedHotspot(f, rot, bw, bh);
    FittedPixel(f, rot, bw, bh, format, rx, ry);
    FormatRoundTrip(f.pixels[f.yhot][f.xhot], format);
  }

  lemma QuotientBelow(n: nat, d: nat, q: nat)
    requires 0 < d && n < d * q
    ensures 0 <= n / d < q
  {
    DivBelow(n, d, q);
  }

  lemma ScaledHotInside(hot: nat, rotSide: nat, blitSide: nat)
    requires hot < rotSide && 0 < blitSide
    ensures 0 <= ScaledHot(hot, rotSide, blitSide) < Max(blitSide, 1) || blitSide == rotSide
    ensures blitSide == rotSide ==> ScaledHot(hot, rotSide, blitSide) == hot
  {
    if blitSide != rotSide {
      var n: nat := hot * blitSide;
      MulStrict(hot, rotSide, blitSide);
      QuotientBelow(n, rotSide, blitSide);
    }
  }

  lemma ScaledHotIs(hot: nat, rotSide: nat, blitSide: nat)
    requires 0 < rotSide && 0 < blitSide
    ensures ScaledHot(hot, rotSide, blitSide) * rotSide <= hot * blitSide <
            ScaledHot(hot, rotSide, blitSide) * rotSide + rotSide
  {
    var n: nat := hot * blitSide;
    DivBounds(n, rotSide);
  }

  /** When the frame is shrunk, the buffer hotspot lies inside the blitted rectangle. */
  lemma HotspotInsideBlit(f: Frame, rot: Rotation, bw: nat, bh: nat)
    requires ValidFrame(f) && HotspotInside(f) && 0 < bw && 0 < bh
    ensures var (hx, hy) := BlittedHotspot(f, rot, bw, bh);
            FitOf(RotW(f, rot), RotH(f, rot), bw, bh).Has(hx, hy)
  {
    var t := FitOf(RotW(f, rot), RotH(f, rot), bw, bh);
    FitInside(RotW(f, rot), RotH(f, rot), bw, bh);
    RotationRoundTrip(f, rot, f.xhot, f.yhot);
    var (rx, ry) := RotatedTo(f, rot, f.xhot, f.yhot);
    ScaledHotInside(rx, RotW(f, rot), t.w);
    ScaledHotInside(ry, RotH(f, rot), t.h);
  }

  /** On an axis whose ratio is exact, the destination pixel under the hotspot draws on the very source
      pixel the hotspot names. */
  lemma HotspotDrawsOnItsPixel(hot: nat, rotSide: nat, blitSide: nat)
    requires hot < rotSide && 0 < blitSide <= rotSide
    requires Ratio(rotSide, blitSide) * blitSide == rotSide * 256
    ensures var d := ScaledHot(hot, rotSide, blitSide);
            0 <= d < blitSide &&
            StretchOf(d, Ratio(rotSide, blitSide)).First() <= hot < StretchOf(d, Ratio(rotSide, blitSide)).Last()
  {
    var ratio, d := Ratio(rotSide, blitSide), ScaledHot(hot, rotSide, blitSide);
    if blitSide == rotSide {
      DivExact(256, rotSide);
    } else {
      ScaledHotInside(hot, rotSide, blitSide);
      DivBounds(hot * blitSide, rotSide);
      ExactRatioBounds(hot, rotSide, blitSide, ratio, d);
    }
  }

  lemma ExactRatioBounds(hot: nat, rotSide: nat, blitSide: nat, ratio: nat, d: nat)
    requires 0 < blitSide && ratio * blitSide == rotSide * 256
    requires rotSide * d <= hot * blitSide < rotSide * d + rotSide
    ensures d * ratio <= hot * 256 < d * ratio + ratio
  {
    assert (d * ratio) * blitSide == 256 * (rotSide * d) by {
      Regroup(d, ratio, blitSide);
      Regroup(d, rotSide, 256);
    }
    assert (d * ratio + ratio) * blitSide == 256 * (rotSide * d) + rotSide * 256;
    if d * ratio > hot * 256 {
      MulMono(hot * 256 + 1, d * ratio, blitSide);
    }
    if hot * 256 >= d * ratio + ratio {
      MulMono(d * ratio + ratio, hot * 256, blitSide);
    }
  }
}
