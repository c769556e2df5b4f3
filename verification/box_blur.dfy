/** The three-pass sliding-window box blur of the shadow mask (src/csd/shadow_cache.cpp). */
module BoxBlur {
  import opened Arith
  import opened Bytes
  import opened Grid

  // ---- one line ----

  function Sum(line: seq<byte>, lo: nat, hi: nat): int
    requires lo <= hi <= |line|
    decreases hi
  {
    if hi == lo then 0 else Sum(line, lo, hi - 1) + line[hi - 1]
  }

  /** The window of x is [x - r, x + r], cut to the line. */
  function Lo(x: int, r: nat): nat {
    Max(0, x - r)
  }

  function Hi(x: int, r: nat, n: nat): nat
    requires 0 <= x
  {
    Min(n, x + r + 1)
  }

  /** How many pixels of a line of n lie at most r away from x. */
  function Near(x: nat, r: nat, n: nat): nat
    requires x < n
  {
    1 + Min(x, r) + Min(n - 1 - x, r)
  }

  lemma {:induction false} DropFirst(line: seq<byte>, lo: nat, hi: nat)
    requires lo < hi <= |line|
    ensures Sum(line, lo, hi) == line[lo] + Sum(line, lo + 1, hi)
  {
    if hi > lo + 1 {
      DropFirst(line, lo, hi - 1);
    }
  }

  lemma {:induction false} SumBetween(line: seq<byte>, lo: nat, hi: nat, a: int, b: int)
    requires lo <= hi <= |line| && forall k :: lo <= k < hi ==> a <= line[k] <= b
    ensures a * (hi - lo) <= Sum(line, lo, hi) <= b * (hi - lo)
  {
    if hi > lo {
      SumBetween(line, lo, hi - 1, a, b);
      assert a * (hi - lo) == a * (hi - 1 - lo) + a && b * (hi - lo) == b * (hi - 1 - lo) + b;
    }
  }

  lemma {:induction false} SumMono(p: seq<byte>, q: seq<byte>, lo: nat, hi: nat)
    requires lo <= hi <= |p| == |q| && forall k :: lo <= k < hi ==> p[k] <= q[k]
    ensures Sum(p, lo, hi) <= Sum(q, lo, hi)
  {
    if hi > lo {
      SumMono(p, q, lo, hi - 1);
    }
  }

  /** The average over the window of x, rounded down. */
  function Average(line: seq<byte>, x: nat, r: nat): byte
    requires x < |line|
  {
    AverageBetween(line, x, r, 0, 255);
    Sum(line, Lo(x, r), Hi(x, r, |line|)) / (Hi(x, r, |line|) - Lo(x, r))
  }

  /** The average lies between any bounds on the window's values. */
  lemma AverageBetween(line: seq<byte>, x: nat, r: nat, a: int, b: int)
    requires x < |line| && forall k :: Lo(x, r) <= k < Hi(x, r, |line|) ==> a <= line[k] <= b
    ensures a <= Sum(line, Lo(x, r), Hi(x, r, |line|)) / (Hi(x, r, |line|) - Lo(x, r)) <= b
  {
    var lo, hi := Lo(x, r), Hi(x, r, |line|);
    SumBetween(line, lo, hi, a, b);
    DivExact(a, hi - lo);
    DivExact(b, hi - lo);
    DivMono(a * (hi - lo), Sum(line, lo, hi), hi - lo);
    DivMono(Sum(line, lo, hi), b * (hi - lo), hi - lo);
  }

  lemma AverageMono(p: seq<byte>, q: seq<byte>, x: nat, r: nat)
    requires x < |p| == |q| && forall k :: 0 <= k < |p| ==> p[k] <= q[k]
    ensures Average(p, x, r) <= Average(q, x, r)
  {
    var lo, hi := Lo(x, r), Hi(x, r, |p|);
    SumMono(p, q, lo, hi);
    DivMono(Sum(p, lo, hi), Sum(q, lo, hi), hi - lo);
  }

  lemma {:induction false} SumOfPoint(line: seq<byte>, p: nat, lo: nat, hi: nat)
    requires lo <= hi <= |line| && forall k :: 0 <= k < |line| && k != p ==> line[k] == 0
    ensures Sum(line, lo, hi) == if lo <= p < hi then line[p] else 0
  {
    if hi > lo {
      SumOfPoint(line, p, lo, hi - 1);
    }
  }

  /** A single bright pixel at p is spread evenly over the pixels at most r away from it; each divides by how many
      pixels of the line lie at most r away from itself. */
  lemma PointSpreads(line: seq<byte>, p: nat, x: nat, r: nat)
    requires x < |line| && p < |line| && forall k :: 0 <= k < |line| && k != p ==> line[k] == 0
    ensures Average(line, x, r) == if x - r <= p <= x + r then line[p] / Near(x, r, |line|) else 0
  {
    SumOfPoint(line, p, Lo(x, r), Hi(x, r, |line|));
    assert Near(x, r, |line|) == Hi(x, r, |line|) - Lo(x, r);
  }

  // ---- whole images ----

  type Mask = Image<byte>

  function Column(g: Mask, x: nat): seq<byte>
    requires forall y :: 0 <= y < |g| ==> x < |g[y]|
  {
    seq(|g|, y requires 0 <= y < |g| => g[y][x])
  }

  ghost function BlurH(g: Mask, w: nat, h: nat, r: nat): (b: Mask)
    requires Sized(g, w, h)
    ensures Sized(b, w, h)
    ensures forall y, x :: 0 <= y < h && 0 <= x < w ==> b[y][x] == Average(g[y], x, r)
  {
    seq(h, y requires 0 <= y < h => seq(w, x requires 0 <= x < w => Average(g[y], x, r)))
  }

  ghost function BlurV(g: Mask, w: nat, h: nat, r: nat): (b: Mask)
    requires Sized(g, w, h)
    ensures Sized(b, w, h)
    ensures forall y, x :: 0 <= y < h && 0 <= x < w ==> b[y][x] == Average(Column(g, x), y, r)
  {
    seq(h, y requires 0 <= y < h => seq(w, x requires 0 <= x < w => Average(Column(g, x), y, r)))
  }

  /** One pass spreads a single bright pixel over the square that reaches r pixels from it, horizontally first. */
  lemma {:induction false} PassOfPoint(g: Mask, w: nat, h: nat, r: nat, px: nat, py: nat, x: nat, y: nat)
    requires Sized(g, w, h) && px < w && py < h && x < w && y < h
    requires forall v, u :: 0 <= v < h && 0 <= u < w && (u, v) != (px, py) ==> g[v][u] == 0
    ensures BlurV(BlurH(g, w, h, r), w, h, r)[y][x] ==
            if x - r <= px <= x + r && y - r <= py <= y + r then g[py][px] / Near(x, r, w) / Near(y, r, h) else 0
  {
    var b := BlurH(g, w, h, r);
    forall v | 0 <= v < h
      ensures b[v][x] == if v == py && x - r <= px <= x + r then g[py][px] / Near(x, r, w) else 0
    {
      PointSpreads(g[v], px, x, r);
    }
    PointSpreads(Column(b, x), py, y, r);
  }

  /** n passes, each a horizontal blur and then a vertical one. */
  ghost function Passes(g: Mask, w: nat, h: nat, r: nat, n: nat): (b: Mask)
    requires Sized(g, w, h)
    ensures Sized(b, w, h)
  {
    if n == 0 then g else BlurV(BlurH(Passes(g, w, h, r, n - 1), w, h, r), w, h, r)
  }

  /** The radius of one of three passes: a third of the whole, rounded up. */
  function PerPass(totalRadius: int): (r: nat)
    ensures totalRadius > 0 ==> totalRadius <= 3 * r <= totalRadius + 2
  {
    Max(1, (totalRadius + 2) / 3)
  }

  ghost function Blurred(g: Mask, w: nat, h: nat, totalRadius: int): (b: Mask)
    requires Sized(g, w, h)
    ensures Sized(b, w, h)
  {
    if totalRadius <= 0 || w == 0 || h == 0 then g else Passes(g, w, h, PerPass(totalRadius), 3)
  }

  ghost predicate Within(g: Mask, a: int, b: int) {
    forall y, x :: 0 <= y < |g| && 0 <= x < |g[y]| ==> a <= g[y][x] <= b
  }

  ghost predicate Below(f: Mask, g: Mask, w: nat, h: nat)
    requires Sized(f, w, h) && Sized(g, w, h)
  {
    forall y, x :: 0 <= y < h && 0 <= x < w ==> f[y][x] <= g[y][x]
  }

  lemma BlurHWithin(g: Mask, w: nat, h: nat, r: nat, a: int, b: int)
    requires Sized(g, w, h) && Within(g, a, b)
    ensures Within(BlurH(g, w, h, r), a, b)
  {
    forall y, x | 0 <= y < h && 0 <= x < w
      ensures a <= Average(g[y], x, r) <= b
    {
      AverageBetween(g[y], x, r, a, b);
    }
  }

  lemma BlurVWithin(g: Mask, w: nat, h: nat, r: nat, a: int, b: int)
    requires Sized(g, w, h) && Within(g, a, b)
    ensures Within(BlurV(g, w, h, r), a, b)
  {
    forall y, x | 0 <= y < h && 0 <= x < w
      ensures a <= Average(Column(g, x), y, r) <= b
    {
      AverageBetween(Column(g, x), y, r, a, b);
    }
  }

  lemma PassWithin(g: Mask, w: nat, h: nat, r: nat, a: int, b: int)
    requires Sized(g, w, h) && Within(g, a, b)
    ensures Within(BlurV(BlurH(g, w, h, r), w, h, r), a, b)
  {
    BlurHWithin(g, w, h, r, a, b);
    BlurVWithin(BlurH(g, w, h, r), w, h, r, a, b);
  }

  lemma {:induction false} PassesWithin(g: Mask, w: nat, h: nat, r: nat, n: nat, a: int, b: int)
    requires Sized(g, w, h) && Within(g, a, b)
    ensures Within(Passes(g, w, h, r, n), a, b)
  {
    if n > 0 {
      PassesWithin(g, w, h, r, n - 1, a, b);
      PassWithin(Passes(g, w, h, r, n - 1), w, h, r, a, b);
    }
  }

  /** The blur stays within the input's range; in particular a constant image is a fixed point. */
  lemma BlurStaysWithin(g: Mask, w: nat, h: nat, totalRadius: int, a: int, b: int)
    requires Sized(g, w, h) && Within(g, a, b)
    ensures Within(Blurred(g, w, h, totalRadius), a, b)
    ensures a == b ==> Blurred(g, w, h, totalRadius) == g
  {
    PassesWithin(g, w, h, PerPass(totalRadius), 3, a, b);
    if a == b {
      SameImage(Blurred(g, w, h, totalRadius), g, w, h);
    }
  }

  lemma {:induction false} PassesMono(f: Mask, g: Mask, w: nat, h: nat, r: nat, n: nat)
    requires Sized(f, w, h) && Sized(g, w, h) && Below(f, g, w, h)
    ensures Below(Passes(f, w, h, r, n), Passes(g, w, h, r, n), w, h)
  {
    if n > 0 {
      PassesMono(f, g, w, h, r, n - 1);
      var p, q := Passes(f, w, h, r, n - 1), Passes(g, w, h, r, n - 1);
      var p', q' := BlurH(p, w, h, r), BlurH(q, w, h, r);
      forall y, x | 0 <= y < h && 0 <= x < w
        ensures p'[y][x] <= q'[y][x]
      {
        AverageMono(p[y], q[y], x, r);
      }
      forall y, x | 0 <= y < h && 0 <= x < w
        ensures BlurV(p', w, h, r)[y][x] <= BlurV(q', w, h, r)[y][x]
      {
        AverageMono(Column(p', x), Column(q', x), y, r);
      }
    }
  }

  /** More coverage in, no less coverage out. */
  lemma BlurIsMonotone(f: Mask, g: Mask, w: nat, h: nat, totalRadius: int)
    requires Sized(f, w, h) && Sized(g, w, h) && Below(f, g, w, h)
    ensures Below(Blurred(f, w, h, totalRadius), Blurred(g, w, h, totalRadius), w, h)
  {
    PassesMono(f, g, w, h, PerPass(totalRadius), 3);
  }

  /** Nothing but v in the box of half-width rx and half-height ry around (x, y). */
  ghost predicate Flat(g: Mask, w: nat, h: nat, x: int, y: int, rx: int, ry: int, v: byte)
    requires Sized(g, w, h)
  {
    forall j, i :: 0 <= j < h && 0 <= i < w && x - rx <= i <= x + rx && y - ry <= j <= y + ry ==> g[j][i] == v
  }

  lemma ReachH(g: Mask, w: nat, h: nat, r: nat, x: int, y: int, rx: int, ry: int, v: byte)
    requires Sized(g, w, h) && Flat(g, w, h, x, y, rx + r, ry, v)
    ensures Flat(BlurH(g, w, h, r), w, h, x, y, rx, ry, v)
  {
    forall j, i | 0 <= j < h && 0 <= i < w && x - rx <= i <= x + rx && y - ry <= j <= y + ry
      ensures Average(g[j], i, r) == v
    {
      AverageBetween(g[j], i, r, v, v);
    }
  }

  lemma ReachV(g: Mask, w: nat, h: nat, r: nat, x: int, y: int, rx: int, ry: int, v: byte)
    requires Sized(g, w, h) && Flat(g, w, h, x, y, rx, ry + r, v)
    ensures Flat(BlurV(g, w, h, r), w, h, x, y, rx, ry, v)
  {
    forall j, i | 0 <= j < h && 0 <= i < w && x - rx <= i <= x + rx && y - ry <= j <= y + ry
      ensures Average(Column(g, i), j, r) == v
    {
      AverageBetween(Column(g, i), j, r, v, v);
    }
  }

  lemma PassReach(g: Mask, w: nat, h: nat, r: nat, x: int, y: int, reach: int, v: byte)
    requires Sized(g, w, h) && Flat(g, w, h, x, y, reach + r, reach + r, v)
    ensures Flat(BlurV(BlurH(g, w, h, r), w, h, r), w, h, x, y, reach, reach, v)
  {
    ReachH(g, w, h, r, x, y, reach, reach + r, v);
    ReachV(BlurH(g, w, h, r), w, h, r, x, y, reach, reach, v);
  }

  lemma OneMore(n: nat, r: nat)
    requires n > 0
    ensures n * r == (n - 1) * r + r
  {
  }

  lemma {:induction false} PassesReach(g: Mask, w: nat, h: nat, r: nat, n: nat, x: int, y: int, reach: int, v: byte)
    requires Sized(g, w, h) && Flat(g, w, h, x, y, reach + n * r, reach + n * r, v)
    ensures Flat(Passes(g, w, h, r, n), w, h, x, y, reach, reach, v)
  {
    if n > 0 {
      OneMore(n, r);
      PassesReach(g, w, h, r, n - 1, x, y, reach + r, v);
      PassReach(Passes(g, w, h, r, n - 1), w, h, r, x, y, reach, v);
    }
  }

  /** The halo reaches at most three passes' radius: where the mask is flat that far along both axes, the blurred mask
      is the mask; in particular it is zero farther than that from every covered pixel. */
  lemma HaloIsBounded(g: Mask, w: nat, h: nat, totalRadius: int, x: int, y: int, v: byte)
    requires Sized(g, w, h) && 0 <= x < w && 0 <= y < h && totalRadius > 0
    requires Flat(g, w, h, x, y, 3 * PerPass(totalRadius), 3 * PerPass(totalRadius), v)
    ensures Blurred(g, w, h, totalRadius)[y][x] == v
  {
    PassesReach(g, w, h, PerPass(totalRadius), 3, x, y, 0, v);
  }

  lemma {:induction false} SumBelow(line: seq<byte>, lo: nat, hi: nat, p: nat)
    requires lo <= p < hi <= |line| && line[p] < 255
    ensures Sum(line, lo, hi) < 255 * (hi - lo)
  {
    SumBetween(line, lo, hi - 1, 0, 255);
    if p < hi - 1 {
      SumBelow(line, lo, hi - 1, p);
    }
  }

  lemma AverageBelow(line: seq<byte>, x: nat, r: nat, p: nat)
    requires x < |line| && p < |line| && x - r <= p <= x + r && line[p] < 255
    ensures Average(line, x, r) < 255
  {
    var lo, hi := Lo(x, r), Hi(x, r, |line|);
    SumBelow(line, lo, hi, p);
    DivBelow(Sum(line, lo, hi), hi - lo, 255);
  }

  lemma {:induction false} PassesSoften(g: Mask, w: nat, h: nat, r: nat, n: nat, x: int, y: int, u: int)
    requires Sized(g, w, h) && 0 <= x < w && 0 <= y < h && 0 <= u < w && x - r <= u <= x + r
    requires n > 0 && g[y][u] < 255
    ensures Passes(g, w, h, r, n)[y][x] < 255
  {
    var p, from := Passes(g, w, h, r, n - 1), if n == 1 then u else x;
    if n > 1 {
      PassesSoften(g, w, h, r, n - 1, x, y, u);
    }
    AverageBelow(p[y], x, r, from);
    AverageBelow(Column(BlurH(p, w, h, r), x), y, r, y);
  }

  /** The edge is soft: no pixel with an uncovered one near it in its row stays fully covered. */
  lemma EdgeIsSoft(g: Mask, w: nat, h: nat, totalRadius: int, x: int, y: int, u: int)
    requires Sized(g, w, h) && 0 <= x < w && 0 <= y < h && 0 <= u < w && totalRadius > 0
    requires -totalRadius <= 3 * (x - u) <= totalRadius && g[y][u] < 255
    ensures Blurred(g, w, h, totalRadius)[y][x] < 255
  {
    PassesSoften(g, w, h, PerPass(totalRadius), 3, x, y, u);
  }

  // ---- the loops ----

  method CopyMask(src: array2<byte>, dst: array2<byte>)
    requires src != dst && src.Length0 == dst.Length0 && src.Length1 == dst.Length1
    modifies dst
    ensures forall y, x :: 0 <= y < dst.Length0 && 0 <= x < dst.Length1 ==> dst[y, x] == src[y, x]
  {
    forall y, x | 0 <= y < dst.Length0 && 0 <= x < dst.Length1 {
      dst[y, x] := src[y, x];
    }
  }

  lemma SlideRight(line: seq<byte>, x: nat, r: nat)
    requires x < |line| && 0 < r
    ensures Lo(x + 1, r) <= Hi(x + 1, r, |line|)
    ensures var added := if x + r + 1 < |line| then line[x + r + 1] else 0;
            var dropped := if x - r >= 0 then line[x - r] else 0;
            Sum(line, Lo(x + 1, r), Hi(x + 1, r, |line|)) == Sum(line, Lo(x, r), Hi(x, r, |line|)) + added - dropped
  {
    if x - r >= 0 {
      DropFirst(line, Lo(x, r), Hi(x + 1, r, |line|));
    }
  }

  /** The running sum and count are those of the window of x. */
  ghost predicate IsWindow(line: seq<byte>, x: nat, r: nat, sum: int, count: int) {
    && Lo(x, r) <= Hi(x, r, |line|)
    && count == Hi(x, r, |line|) - Lo(x, r) && sum == Sum(line, Lo(x, r), Hi(x, r, |line|))
  }

  lemma FirstWindow(line: seq<byte>, r: nat, n: nat)
    requires n == Min(|line|, r + 1)
    ensures IsWindow(line, 0, r, Sum(line, 0, n), n)
  {
  }

  lemma WindowAverage(line: seq<byte>, x: nat, r: nat, sum: int, count: int)
    requires IsWindow(line, x, r, sum, count) && x < |line|
    ensures 0 < count && 0 <= sum / count <= 255 && sum / count == Average(line, x, r)
  {
    AverageBetween(line, x, r, 0, 255);
  }

  /** What enters and what leaves as the window moves on. */
  lemma WindowMoves(line: seq<byte>, x: nat, r: nat, sum: int, count: int)
    requires IsWindow(line, x, r, sum, count) && x < |line| && 0 < r
    ensures var enters, leaves := x + r + 1 < |line|, x - r >= 0;
            IsWindow(line, x + 1, r,
                     sum + (if enters then line[x + r + 1] else 0) - (if leaves then line[x - r] else 0),
                     count + (if enters then 1 else 0) - (if leaves then 1 else 0))
  {
    SlideRight(line, x, r);
  }

  /** One row's sliding window: the running sum and count are the window's. */
  method BlurRow(src: array2<byte>, dst: array2<byte>, y: nat, radius: nat)
    requires src != dst && src.Length0 == dst.Length0 && src.Length1 == dst.Length1
    requires y < src.Length0 && 0 < radius
    modifies dst
    ensures forall v, u :: 0 <= v < dst.Length0 && 0 <= u < dst.Length1 ==>
              dst[v, u] == if v == y then Average(View(src)[y], u, radius) else old(dst[v, u])
  {
    var w := dst.Length1;
    ghost var line := View(src)[y];
    var sum, count := 0, 0;
    var x := 0;
    while x <= radius && x < w
      invariant 0 <= x <= Min(w, radius + 1) && count == x && sum == Sum(line, 0, x)
    {
      sum, count, x := sum + src[y, x], count + 1, x + 1;
    }
    FirstWindow(line, radius, x);
    for x := 0 to w
      invariant IsWindow(line, x, radius, sum, count)
      invariant forall v, u :: 0 <= v < dst.Length0 && 0 <= u < w ==>
                  dst[v, u] == if v == y && u < x then Average(line, u, radius) else old(dst[v, u])
    {
      WindowAverage(line, x, radius, sum, count);
      dst[y, x] := sum / count;
      WindowMoves(line, x, radius, sum, count);
      var addX, dropX := x + radius + 1, x - radius;
      if addX < w {
        sum, count := sum + src[y, addX], count + 1;
      }
      if dropX >= 0 {
        sum, count := sum - src[y, dropX], count - 1;
      }
    }
  }

  /** One column's sliding window. */
  method BlurColumn(src: array2<byte>, dst: array2<byte>, x: nat, radius: nat, ghost line: seq<byte>)
    requires src != dst && src.Length0 == dst.Length0 && src.Length1 == dst.Length1
    requires x < src.Length1 && 0 < radius
    requires |line| == src.Length0 && forall k :: 0 <= k < |line| ==> src[k, x] == line[k]
    modifies dst
    ensures forall v, u :: 0 <= v < dst.Length0 && 0 <= u < dst.Length1 ==>
              dst[v, u] == if u == x then Average(line, v, radius) else old(dst[v, u])
  {
    var h := dst.Length0;
    var sum, count := 0, 0;
    var y := 0;
    while y <= radius && y < h
      invariant 0 <= y <= Min(h, radius + 1) && count == y && sum == Sum(line, 0, y)
    {
      sum, count, y := sum + src[y, x], count + 1, y + 1;
    }
    FirstWindow(line, radius, y);
    for y := 0 to h
      invariant IsWindow(line, y, radius, sum, count)
      invariant forall v, u :: 0 <= v < h && 0 <= u < dst.Length1 ==>
                  dst[v, u] == if u == x && v < y then Average(line, v, radius) else old(dst[v, u])
    {
      WindowAverage(line, y, radius, sum, count);
      dst[y, x] := sum / count;
      WindowMoves(line, y, radius, sum, count);
      var addY, dropY := y + radius + 1, y - radius;
      if addY < h {
        sum, count := sum + src[addY, x], count + 1;
      }
      if dropY >= 0 {
        sum, count := sum - src[dropY, x], count - 1;
      }
    }
  }

  method BoxBlurH(src: array2<byte>, dst: array2<byte>, radius: int)
    requires src != dst && src.Length0 == dst.Length0 && src.Length1 == dst.Length1
    modifies dst
    ensures radius <= 0 ==> View(dst) == View(src)
    ensures radius > 0 ==> View(dst) == BlurH(View(src), dst.Length1, dst.Length0, radius)
  {
    var w, h := dst.Length1, dst.Length0;
    if radius <= 0 {
      CopyMask(src, dst);
      SameImage(View(dst), View(src), w, h);
      return;
    }
    for y := 0 to h
      invariant forall v, u :: 0 <= v < y && 0 <= u < w ==> dst[v, u] == Average(View(src)[v], u, radius)
    {
      BlurRow(src, dst, y, radius);
    }
    SameImage(View(dst), BlurH(View(src), w, h, radius), w, h);
  }

  method BoxBlurV(src: array2<byte>, dst: array2<byte>, radius: int)
    requires src != dst && src.Length0 == dst.Length0 && src.Length1 == dst.Length1
    modifies dst
    ensures radius <= 0 ==> View(dst) == View(src)
    ensures radius > 0 ==> View(dst) == BlurV(View(src), dst.Length1, dst.Length0, radius)
  {
    var w, h := dst.Length1, dst.Length0;
    if radius <= 0 {
      CopyMask(src, dst);
      SameImage(View(dst), View(src), w, h);
      return;
    }
    for x := 0 to w
      invariant forall v, u :: 0 <= v < h && 0 <= u < x ==> dst[v, u] == Average(Column(View(src), u), v, radius)
    {
      BlurColumn(src, dst, x, radius, Column(View(src), x));
    }
    SameImage(View(dst), BlurV(View(src), w, h, radius), w, h);
  }

  method Blur3(buf: array2<byte>, totalRadius: int)
    modifies buf
    ensures View(buf) == Blurred(old(View(buf)), buf.Length1, buf.Length0, totalRadius)
  {
    var w, h := buf.Length1, buf.Length0;
    if totalRadius <= 0 || w == 0 || h == 0 {
      return;
    }
    var perPass := PerPass(totalRadius);
    ghost var start := View(buf);
    var scratch := new byte[h, w]((i, j) => 0);
    for pass := 0 to 3
      invariant View(buf) == Passes(start, w, h, perPass, pass)
    {
      BoxBlurH(buf, scratch, perPass);
      BoxBlurV(scratch, buf, perPass);
    }
  }
}
