/** The area-weighted box downscale of a rotated cursor frame, in 24.8 fixed point
    (src/cursor/renderer.cpp). */
module CursorDownscale {
  import opened Arith
  import opened Bytes
  import opened Canvas
  import opened CursorFrame

  // ---- one axis ----

  /** Source pixels per destination pixel, in 1/256ths. */
  function Ratio(rotSide: nat, dstSide: nat): nat
    requires 0 < dstSide
  {
    (rotSide * 256) / dstSide
  }

  /** The preimage of one destination pixel, in 1/256ths of a source pixel. */
  datatype Stretch = Stretch(lo: nat, len: nat) {
    function First(): nat {
      lo / 256
    }

    function Last(): nat {
      (lo + len + 255) / 256
    }

    /** How much of source pixel s lies in the stretch. */
    function Weight(s: int): int {
      Min(lo + len, (s + 1) * 256) - Max(lo, s * 256)
    }
  }

  function StretchOf(d: nat, ratio: nat): Stretch {
    Stretch(d * ratio, ratio)
  }

  /** Every source index the loops visit is inside the rotated image. */
  lemma SamplesInside(d: nat, dstSide: nat, rotSide: nat)
    requires d < dstSide <= rotSide
    ensures var t := StretchOf(d, Ratio(rotSide, dstSide));
            256 <= t.len && t.First() < t.Last() <= rotSide
  {
    var ratio := Ratio(rotSide, dstSide);
    MulMono(dstSide, rotSide, 256);
    DivMono(256 * dstSide, rotSide * 256, dstSide);
    DivExact(256, dstSide);
    DivBounds(rotSide * 256, dstSide);
    MulMono(d + 1, dstSide, ratio);
    assert d * ratio + ratio <= rotSide * 256;
  }

  lemma WeightPositive(t: Stretch, s: int)
    requires 256 <= t.len && t.First() <= s < t.Last()
    ensures 0 < t.Weight(s) <= 256
  {
  }

  /** The weights of the first source pixels of a destination pixel. */
  function AxisSum(t: Stretch, n: nat): int
    requires t.First() <= n
    decreases n
  {
    if n == t.First() then 0 else AxisSum(t, n - 1) + t.Weight(n - 1)
  }

  lemma {:induction false} AxisSumIs(t: Stretch, n: nat)
    requires 256 <= t.len && t.First() <= n <= t.Last()
    ensures AxisSum(t, n) == if n == t.First() then 0 else Min(t.lo + t.len, n * 256) - t.lo
  {
    if n > t.First() {
      AxisSumIs(t, n - 1);
    }
  }

  /** The weights along one axis add up to exactly the ratio. */
  lemma AxisTotal(t: Stretch)
    requires 256 <= t.len
    ensures AxisSum(t, t.Last()) == t.len
  {
    AxisSumIs(t, t.Last());
  }

  /** The weight of source pixel s in the first n destination pixels. */
  function SourceShare(ratio: nat, s: nat, n: nat): int {
    if n == 0 then 0 else SourceShare(ratio, s, n - 1) + Max(0, StretchOf(n - 1, ratio).Weight(s))
  }

  lemma {:induction false} SourceShareIs(ratio: nat, s: nat, n: nat)
    ensures SourceShare(ratio, s, n) == Max(0, Min(n * ratio, (s + 1) * 256) - s * 256)
  {
    if n > 0 {
      SourceShareIs(ratio, s, n - 1);
      assert n * ratio == (n - 1) * ratio + ratio;
    }
  }

  /** Conservation: over the whole destination every source pixel weighs exactly one pixel, but for the
      fraction of a pixel at the far edge that the truncated ratio leaves out. */
  lemma SourceConserved(dstSide: nat, rotSide: nat, s: nat)
    requires 0 < dstSide <= rotSide && s < rotSide
    ensures var share := SourceShare(Ratio(rotSide, dstSide), s, dstSide);
            && 0 <= share <= 256
            && (share == 256 <==> (s + 1) * 256 <= dstSide * Ratio(rotSide, dstSide))
            && dstSide * Ratio(rotSide, dstSide) > rotSide * 256 - dstSide
  {
    SourceShareIs(Ratio(rotSide, dstSide), s, dstSide);
    DivBounds(rotSide * 256, dstSide);
  }

  // ---- the box ----

  /** A colour channel, or a constant standing in for one. */
  datatype Channel = Alpha | Red | Green | Blue | Const(k: int)

  function Chan(p: Argb, ch: Channel): int {
    match ch
    case Alpha => p.a
    case Red => p.r
    case Green => p.g
    case Blue => p.b
    case Const(k) => k
  }

  /** Where one destination pixel draws from: the frame, its rotation, and its stretch of each axis. */
  datatype Box = Box(f: Frame, rot: Rotation, x: Stretch, y: Stretch) {
    ghost predicate Valid() {
      && ValidFrame(f)
      && 256 <= x.len && x.First() < x.Last() <= RotW(f, rot)
      && 256 <= y.len && y.First() < y.Last() <= RotH(f, rot)
    }

    predicate Covers(sx: int, sy: int) {
      x.First() <= sx < x.Last() && y.First() <= sy < y.Last()
    }

    function Sample(sx: int, sy: int): Argb
      requires Valid() && Covers(sx, sy)
    {
      SampleRotated(f, rot, sx, sy)
    }
  }

  function RowSum(b: Box, ch: Channel, sy: nat, n: nat): int
    requires b.Valid() && b.y.First() <= sy < b.y.Last() && b.x.First() <= n <= b.x.Last()
    decreases n
  {
    if n == b.x.First() then 0
    else RowSum(b, ch, sy, n - 1) + b.x.Weight(n - 1) * b.y.Weight(sy) * Chan(b.Sample(n - 1, sy), ch)
  }

  function BoxSum(b: Box, ch: Channel, n: nat): int
    requires b.Valid() && b.y.First() <= n <= b.y.Last()
    decreases n
  {
    if n == b.y.First() then 0 else BoxSum(b, ch, n - 1) + RowSum(b, ch, n - 1, b.x.Last())
  }

  function Total(b: Box, ch: Channel): int
    requires b.Valid()
  {
    BoxSum(b, ch, b.y.Last())
  }

  /** Channel c1 of every sample in the box is at most channel c2. */
  ghost predicate Dominated(b: Box, c1: Channel, c2: Channel)
    requires b.Valid()
  {
    forall sx, sy :: b.Covers(sx, sy) ==> Chan(b.Sample(sx, sy), c1) <= Chan(b.Sample(sx, sy), c2)
  }

  lemma WeighLe(wx: int, wy: int, a: int, b: int)
    requires 0 < wx && 0 < wy && a <= b
    ensures wx * wy * a <= wx * wy * b
  {
    MulMono(1, wx, wy);
    MulMono(a, b, wx * wy);
  }

  lemma {:induction false} RowSumMono(b: Box, c1: Channel, c2: Channel, sy: nat, n: nat)
    requires b.Valid() && b.y.First() <= sy < b.y.Last() && b.x.First() <= n <= b.x.Last()
    requires Dominated(b, c1, c2)
    ensures RowSum(b, c1, sy, n) <= RowSum(b, c2, sy, n)
  {
    if n > b.x.First() {
      RowSumMono(b, c1, c2, sy, n - 1);
      WeightPositive(b.x, n - 1);
      WeightPositive(b.y, sy);
      assert b.Covers(n - 1, sy);
      WeighLe(b.x.Weight(n - 1), b.y.Weight(sy), Chan(b.Sample(n - 1, sy), c1), Chan(b.Sample(n - 1, sy), c2));
    }
  }

  lemma {:induction false} BoxSumMono(b: Box, c1: Channel, c2: Channel, n: nat)
    requires b.Valid() && b.y.First() <= n <= b.y.Last() && Dominated(b, c1, c2)
    ensures BoxSum(b, c1, n) <= BoxSum(b, c2, n)
  {
    if n > b.y.First() {
      BoxSumMono(b, c1, c2, n - 1);
      RowSumMono(b, c1, c2, n - 1, b.x.Last());
    }
  }

  lemma Distribute(k: int, w: int, rest: int, more: int)
    ensures k * w * rest + more * w * k == k * w * (rest + more)
    ensures k * w * rest + k * more * w == k * w * (rest + more)
  {
  }

  lemma {:induction false} RowSumConst(b: Box, k: int, sy: nat, n: nat)
    requires b.Valid() && b.y.First() <= sy < b.y.Last() && b.x.First() <= n <= b.x.Last()
    ensures RowSum(b, Const(k), sy, n) == k * b.y.Weight(sy) * AxisSum(b.x, n)
  {
    if n > b.x.First() {
      RowSumConst(b, k, sy, n - 1);
      Distribute(k, b.y.Weight(sy), AxisSum(b.x, n - 1), b.x.Weight(n - 1));
    }
  }

  lemma {:induction false} BoxSumConst(b: Box, k: int, n: nat)
    requires b.Valid() && b.y.First() <= n <= b.y.Last()
    ensures BoxSum(b, Const(k), n) == k * b.x.len * AxisSum(b.y, n)
  {
    if n > b.y.First() {
      BoxSumConst(b, k, n - 1);
      RowSumConst(b, k, n - 1, b.x.Last());
      AxisTotal(b.x);
      Distribute(k, b.x.len, AxisSum(b.y, n - 1), b.y.Weight(n - 1));
    }
  }

  function Area(b: Box): int {
    b.x.len * b.y.len
  }

  /** The weights of one destination pixel add up to exactly the area of its box. */
  lemma TotalConst(b: Box, k: int)
    requires b.Valid()
    ensures Total(b, Const(k)) == k * Area(b)
  {
    BoxSumConst(b, k, b.y.Last());
    AxisTotal(b.y);
    Regroup(k, b.x.len, b.y.len);
  }

  lemma Regroup(k: int, m: int, n: int)
    ensures k * m * n == k * (m * n)
  {
  }

  function RoundedMean(acc: int, w: int): int
    requires 0 < w
  {
    (acc + w / 2) / w
  }

  /** The rounded mean is the integer nearest to the weighted mean. */
  lemma MeanIsNearest(acc: int, w: int)
    requires 0 < w
    ensures -w <= 2 * (w * RoundedMean(acc, w) - acc) <= w
  {
    DivBounds(acc + w / 2, w);
  }

  lemma RoundedMeanExact(k: int, w: int)
    requires 0 < w
    ensures RoundedMean(k * w, w) == k
  {
    DivIs(k * w + w / 2, w, k);
  }

  lemma AreaPositive(b: Box)
    requires b.Valid()
    ensures 0 < Area(b)
  {
    MulMono(1, b.x.len, b.y.len);
  }

  function Mean(b: Box, ch: Channel): int
    requires b.Valid()
  {
    AreaPositive(b);
    RoundedMean(Total(b, ch), Area(b))
  }

  /** The mean of a channel that never exceeds another never exceeds the other's. */
  lemma MeanMono(b: Box, c1: Channel, c2: Channel)
    requires b.Valid() && Dominated(b, c1, c2)
    ensures Mean(b, c1) <= Mean(b, c2)
  {
    BoxSumMono(b, c1, c2, b.y.Last());
    AreaPositive(b);
    DivMono(Total(b, c1) + Area(b) / 2, Total(b, c2) + Area(b) / 2, Area(b));
  }

  lemma MeanConst(b: Box, k: int)
    requires b.Valid()
    ensures Mean(b, Const(k)) == k
  {
    AreaPositive(b);
    TotalConst(b, k);
    RoundedMeanExact(k, Area(b));
  }

  /** Each channel of a downscaled pixel lies between any bounds on the samples it is drawn from. */
  lemma MeanBetween(b: Box, ch: Channel, lo: int, hi: int)
    requires b.Valid() && Dominated(b, Const(lo), ch) && Dominated(b, ch, Const(hi))
    ensures lo <= Mean(b, ch) <= hi
  {
    MeanMono(b, Const(lo), ch);
    MeanMono(b, ch, Const(hi));
    MeanConst(b, lo);
    MeanConst(b, hi);
  }

  function MeanByte(b: Box, ch: Channel): byte
    requires b.Valid() && !ch.Const?
  {
    MeanBetween(b, ch, 0, 255);
    Mean(b, ch)
  }

  /** One pixel of the downscaled image. */
  function DownscaledPixel(b: Box): Argb
    requires b.Valid()
  {
    Argb(MeanByte(b, Alpha), MeanByte(b, Red), MeanByte(b, Green), MeanByte(b, Blue))
  }

  /** Downscaling keeps a premultiplied image premultiplied. */
  lemma DownscaleKeepsPremultiplied(b: Box)
    requires b.Valid()
    requires forall sx, y :: b.Covers(sx, y) ==> Premultiplied(b.Sample(sx, y))
    ensures Premultiplied(DownscaledPixel(b))
  {
    MeanMono(b, Red, Alpha);
    MeanMono(b, Green, Alpha);
    MeanMono(b, Blue, Alpha);
  }

  /** Downscaling a uniform image gives that colour back. */
  lemma DownscaleFixesUniform(b: Box, p: Argb)
    requires b.Valid()
    requires forall sx, y :: b.Covers(sx, y) ==> b.Sample(sx, y) == p
    ensures DownscaledPixel(b) == p
  {
    MeanBetween(b, Alpha, p.a, p.a);
    MeanBetween(b, Red, p.r, p.r);
    MeanBetween(b, Green, p.g, p.g);
    MeanBetween(b, Blue, p.b, p.b);
  }

  // ---- the loops ----

  function BoxAt(f: Frame, rot: Rotation, dstW: nat, dstH: nat, dx: nat, dy: nat): (b: Box)
    requires ValidFrame(f) && dx < dstW <= RotW(f, rot) && dy < dstH <= RotH(f, rot)
    ensures b.Valid()
  {
    SamplesInside(dx, dstW, RotW(f, rot));
    SamplesInside(dy, dstH, RotH(f, rot));
    Box(f, rot, StretchOf(dx, Ratio(RotW(f, rot), dstW)), StretchOf(dy, Ratio(RotH(f, rot), dstH)))
  }

  /** The five running accumulators. */
  datatype Acc = Acc(a: int, r: int, g: int, b: int, w: int) {
    function Add(weight: int, p: Argb): Acc {
      Acc(a + weight * p.a, r + weight * p.r, g + weight * p.g, b + weight * p.b, w + weight)
    }
  }

  function RowsAcc(b: Box, n: nat): Acc
    requires b.Valid() && b.y.First() <= n <= b.y.Last()
  {
    Acc(BoxSum(b, Alpha, n), BoxSum(b, Red, n), BoxSum(b, Green, n), BoxSum(b, Blue, n), BoxSum(b, Const(1), n))
  }

  /** The accumulators after the rows above sy and the samples left of sx in row sy. */
  function AccAt(b: Box, sy: nat, sx: nat): Acc
    requires b.Valid() && b.y.First() <= sy < b.y.Last() && b.x.First() <= sx <= b.x.Last()
  {
    var rows := RowsAcc(b, sy);
    Acc(rows.a + RowSum(b, Alpha, sy, sx), rows.r + RowSum(b, Red, sy, sx), rows.g + RowSum(b, Green, sy, sx),
        rows.b + RowSum(b, Blue, sy, sx), rows.w + RowSum(b, Const(1), sy, sx))
  }

  lemma RowSumStep(b: Box, ch: Channel, sy: nat, sx: nat)
    requires b.Valid() && b.Covers(sx, sy)
    ensures RowSum(b, ch, sy, sx + 1) ==
            RowSum(b, ch, sy, sx) + (b.x.Weight(sx) * b.y.Weight(sy)) * Chan(b.Sample(sx, sy), ch)
  {
  }

  lemma AccStep(b: Box, sy: nat, sx: nat)
    requires b.Valid() && b.Covers(sx, sy)
    ensures AccAt(b, sy, sx + 1) == AccAt(b, sy, sx).Add(b.x.Weight(sx) * b.y.Weight(sy), b.Sample(sx, sy))
  {
    RowSumStep(b, Alpha, sy, sx);
    RowSumStep(b, Red, sy, sx);
    RowSumStep(b, Green, sy, sx);
    RowSumStep(b, Blue, sy, sx);
    RowSumStep(b, Const(1), sy, sx);
  }

  lemma AccRow(b: Box, sy: nat)
    requires b.Valid() && b.y.First() <= sy < b.y.Last()
    ensures AccAt(b, sy, b.x.First()) == RowsAcc(b, sy) && AccAt(b, sy, b.x.Last()) == RowsAcc(b, sy + 1)
  {
  }

  /** Adds source row sy, from the left edge of the box to the right. */
  method AccumulateRow(b: Box, sy: nat, start: Acc) returns (acc: Acc)
    requires b.Valid() && b.y.First() <= sy < b.y.Last() && start == RowsAcc(b, sy)
    ensures acc == RowsAcc(b, sy + 1)
  {
    var x0, x1 := b.x.lo, b.x.lo + b.x.len;
    var wy := Min(b.y.lo + b.y.len, (sy + 1) * 256) - Max(b.y.lo, sy * 256);
    acc := start;
    AccRow(b, sy);
    for sx := x0 / 256 to (x1 + 255) / 256
      invariant acc == AccAt(b, sy, sx)
    {
      var wx := Min(x1, (sx + 1) * 256) - Max(x0, sx * 256);
      assert wx == b.x.Weight(sx) && wy == b.y.Weight(sy);
      AccStep(b, sy, sx);
      acc := acc.Add(wx * wy, b.Sample(sx, sy));
    }
  }

  /** The weighted channel sums over the box, and the total weight. */
  method Accumulate(b: Box) returns (acc: Acc)
    requires b.Valid()
    ensures acc == Acc(Total(b, Alpha), Total(b, Red), Total(b, Green), Total(b, Blue), Area(b))
  {
    var y0, y1 := b.y.lo, b.y.lo + b.y.len;
    acc := Acc(0, 0, 0, 0, 0);
    for sy := y0 / 256 to (y1 + 255) / 256
      invariant acc == RowsAcc(b, sy)
    {
      acc := AccumulateRow(b, sy, acc);
    }
    TotalConst(b, 1);
  }

  method MeanPixel(b: Box) returns (p: Argb)
    requires b.Valid()
    ensures p == DownscaledPixel(b)
  {
    var acc := Accumulate(b);
    AreaPositive(b);
    ghost var q := DownscaledPixel(b);
    var half := acc.w / 2;
    assert q.a == (acc.a + half) / acc.w && q.r == (acc.r + half) / acc.w;
    assert q.g == (acc.g + half) / acc.w && q.b == (acc.b + half) / acc.w;
    p := Argb((acc.a + half) / acc.w, (acc.r + half) / acc.w, (acc.g + half) / acc.w, (acc.b + half) / acc.w);
  }

  /** Destination pixel (dx, dy) of the downscaled frame. */
  function ScaledPixel(f: Frame, rot: Rotation, dstW: nat, dstH: nat, dx: nat, dy: nat): Argb
    requires ValidFrame(f) && dx < dstW <= RotW(f, rot) && dy < dstH <= RotH(f, rot)
  {
    DownscaledPixel(BoxAt(f, rot, dstW, dstH, dx, dy))
  }

  method ComputePixel(f: Frame, rot: Rotation, dstW: nat, dstH: nat, dx: nat, dy: nat) returns (p: Argb)
    requires ValidFrame(f) && dx < dstW <= RotW(f, rot) && dy < dstH <= RotH(f, rot)
    ensures p == ScaledPixel(f, rot, dstW, dstH, dx, dy)
  {
    p := MeanPixel(BoxAt(f, rot, dstW, dstH, dx, dy));
  }

  /** Writes row dy of the downscaled frame. */
  method DownscaleRow(f: Frame, rot: Rotation, dst: array2<Argb>, xOff: nat, row: nat, dstW: nat, dstH: nat, dy: nat)
    requires ValidFrame(f) && dstW <= RotW(f, rot) && dy < dstH <= RotH(f, rot)
    requires xOff + dstW <= dst.Length1 && row < dst.Length0
    modifies dst
    ensures forall y, x :: 0 <= y < dst.Length0 && 0 <= x < dst.Length1 ==>
              dst[y, x] == if y == row && xOff <= x < xOff + dstW then ScaledPixel(f, rot, dstW, dstH, x - xOff, dy)
                           else old(dst[y, x])
  {
    for dx := 0 to dstW
      invariant forall y, x :: 0 <= y < dst.Length0 && 0 <= x < dst.Length1 ==>
                  dst[y, x] == if y == row && xOff <= x < xOff + dx then ScaledPixel(f, rot, dstW, dstH, x - xOff, dy)
                               else old(dst[y, x])
    {
      var p := ComputePixel(f, rot, dstW, dstH, dx, dy);
      dst[row, xOff + dx] := p;
    }
  }

  /** Writes the downscaled frame into the dstW x dstH rectangle of `dst` at (xOff, yOff). */
  method BoxDownscaleRotated(f: Frame, rot: Rotation, dst: array2<Argb>, xOff: nat, yOff: nat, dstW: nat, dstH: nat)
    requires ValidFrame(f) && dstW <= RotW(f, rot) && dstH <= RotH(f, rot)
    requires xOff + dstW <= dst.Length1 && yOff + dstH <= dst.Length0
    modifies dst
    ensures forall y, x :: 0 <= y < dst.Length0 && 0 <= x < dst.Length1 ==>
              dst[y, x] == if yOff <= y < yOff + dstH && xOff <= x < xOff + dstW
                           then ScaledPixel(f, rot, dstW, dstH, x - xOff, y - yOff)
                           else old(dst[y, x])
  {
    for dy := 0 to dstH
      invariant forall y, x :: 0 <= y < dst.Length0 && 0 <= x < dst.Length1 ==>
                  dst[y, x] == if yOff <= y < yOff + dy && xOff <= x < xOff + dstW
                               then ScaledPixel(f, rot, dstW, dstH, x - xOff, y - yOff)
                               else old(dst[y, x])
    {
      DownscaleRow(f, rot, dst, xOff, yOff + dy, dstW, dstH, dy);
    }
  }
}
