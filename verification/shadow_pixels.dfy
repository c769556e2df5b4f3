/** Shadow pixels: the rounded panel mask, its tint, and premultiplied blending in byte arithmetic
    (src/csd/shadow_cache.cpp). */
module ShadowPixels {
  import opened Arith
  import opened Bytes
  import opened Grid
  import opened Canvas
  import opened BoxBlur

  // ---- blending ----

  /** `static_cast<std::uint8_t>`. */
  function ToByte(n: int): byte {
    n % 256
  }

  function OverSum(s: byte, d: byte, alpha: byte): int {
    s + (d * (255 - alpha)) / 255
  }

  /** Porter-Duff over, each channel cast to a byte. */
  function SrcOver(s: Argb, d: Argb): Argb {
    Argb(ToByte(OverSum(s.a, d.a, s.a)), ToByte(OverSum(s.r, d.r, s.a)),
         ToByte(OverSum(s.g, d.g, s.a)), ToByte(OverSum(s.b, d.b, s.a)))
  }

  /** None of the four sums is cut by the byte cast. */
  predicate NoOverflow(s: Argb, d: Argb) {
    && OverSum(s.a, d.a, s.a) <= 255 && OverSum(s.r, d.r, s.a) <= 255
    && OverSum(s.g, d.g, s.a) <= 255 && OverSum(s.b, d.b, s.a) <= 255
  }

  lemma OverSumBounds(s: byte, d: byte, alpha: byte)
    ensures s <= OverSum(s, d, alpha) <= s + 255 - alpha
    ensures d == 255 ==> OverSum(s, d, alpha) == s + 255 - alpha
  {
    MulMono(d, 255, 255 - alpha);
    DivMono(d * (255 - alpha), 255 * (255 - alpha), 255);
    DivExact(255 - alpha, 255);
    assert 255 * (255 - alpha) == (255 - alpha) * 255;
  }

  /** Blending never overflows a byte, whatever is below, exactly when the source is premultiplied. */
  lemma OverflowFreeIffPremultiplied(s: Argb)
    ensures Premultiplied(s) <==> forall d: Argb :: NoOverflow(s, d)
  {
    forall d: Argb
      ensures Premultiplied(s) ==> NoOverflow(s, d)
    {
      OverSumBounds(s.a, d.a, s.a);
      OverSumBounds(s.r, d.r, s.a);
      OverSumBounds(s.g, d.g, s.a);
      OverSumBounds(s.b, d.b, s.a);
    }
    if forall d: Argb :: NoOverflow(s, d) {
      assert NoOverflow(s, Argb(255, 255, 255, 255));
      OverSumBounds(s.r, 255, s.a);
      OverSumBounds(s.g, 255, s.a);
      OverSumBounds(s.b, 255, s.a);
    }
  }

  lemma OverSumIsNear(s: byte, d: byte, alpha: byte)
    requires s <= alpha
    ensures 0 <= 255 * s + d * (255 - alpha) - 255 * ToByte(OverSum(s, d, alpha)) < 255
  {
    OverSumBounds(s, d, alpha);
    DivBounds(d * (255 - alpha), 255);
  }

  /** Each channel of a premultiplied pixel over another is their sum, the one below weighted by what the alpha leaves
      of it, cut by less than one. */
  lemma OverIsNear(s: Argb, d: Argb)
    requires Premultiplied(s)
    ensures var o := SrcOver(s, d);
            && 0 <= 255 * s.a + d.a * (255 - s.a) - 255 * o.a < 255
            && 0 <= 255 * s.r + d.r * (255 - s.a) - 255 * o.r < 255
            && 0 <= 255 * s.g + d.g * (255 - s.a) - 255 * o.g < 255
            && 0 <= 255 * s.b + d.b * (255 - s.a) - 255 * o.b < 255
  {
    OverSumIsNear(s.a, d.a, s.a);
    OverSumIsNear(s.r, d.r, s.a);
    OverSumIsNear(s.g, d.g, s.a);
    OverSumIsNear(s.b, d.b, s.a);
  }

  lemma OverChannelBelowAlpha(alpha: byte, sc: byte, dc: byte, da: byte)
    requires sc <= alpha && dc <= da
    ensures ToByte(OverSum(sc, dc, alpha)) <= ToByte(OverSum(alpha, da, alpha))
  {
    OverSumBounds(alpha, da, alpha);
    OverSumBounds(sc, dc, alpha);
    MulMono(dc, da, 255 - alpha);
    DivMono(dc * (255 - alpha), da * (255 - alpha), 255);
  }

  /** Any number of premultiplied blits onto a premultiplied pixel leaves it premultiplied. */
  lemma OverKeepsPremultiplied(s: Argb, d: Argb)
    requires Premultiplied(s) && Premultiplied(d)
    ensures Premultiplied(SrcOver(s, d))
  {
    var o := SrcOver(s, d);
    assert o.r <= o.a by { OverChannelBelowAlpha(s.a, s.r, d.r, d.a); }
    assert o.g <= o.a by { OverChannelBelowAlpha(s.a, s.g, d.g, d.a); }
    assert o.b <= o.a by { OverChannelBelowAlpha(s.a, s.b, d.b, d.a); }
  }

  function OverAll(layers: seq<Argb>, d: Argb): Argb {
    if layers == [] then d else SrcOver(layers[|layers| - 1], OverAll(layers[..|layers| - 1], d))
  }

  lemma {:induction false} AnyStackStaysPremultiplied(layers: seq<Argb>, d: Argb)
    requires Premultiplied(d) && forall i :: 0 <= i < |layers| ==> Premultiplied(layers[i])
    ensures Premultiplied(OverAll(layers, d))
  {
    if layers != [] {
      AnyStackStaysPremultiplied(layers[..|layers| - 1], d);
      OverKeepsPremultiplied(layers[|layers| - 1], OverAll(layers[..|layers| - 1], d));
    }
  }

  // ---- cross-fading ----

  /** How far a fade has got: t, and 1 - t as the float subtraction rounds it. */
  datatype Fade = Fade(t: real, rest: real)

  function Ceiling(v: real): int {
    -(-v).Floor
  }

  /** 256ths are floats, so whichever way it rounds, 1 - t is not moved past one; multiplying by 256 is exact. */
  predicate Rounded(f: Fade) {
    var exact := (1.0 - f.t) * 256.0;
    exact.Floor as real <= f.rest * 256.0 <= Ceiling(exact) as real
  }

  /** The 8-bit weights of a fade. */
  function WeightA(f: Fade): int {
    (f.rest * 256.0).Floor
  }

  function WeightB(f: Fade): int {
    (f.t * 256.0).Floor
  }

  lemma FloorIs(x: real, k: int)
    requires k as real <= x < (k + 1) as real
    ensures x.Floor == k
  {
  }

  lemma CeilingIs(x: real, k: int)
    requires (k - 1) as real < x <= k as real
    ensures Ceiling(x) == k
  {
    FloorIs(-x, -k);
  }

  lemma FloorsSum(u: real, v: real, k: int)
    requires 0 <= k && k as real <= u < (k + 1) as real && u <= 256.0
    requires (256.0 - u).Floor as real <= v <= Ceiling(256.0 - u) as real
    ensures 0 <= v.Floor <= 256 - k && Ceiling(256.0 - u) == 256 - k
    ensures v.Floor == if v == (256 - k) as real then 256 - k else 255 - k
  {
    CeilingIs(256.0 - u, 256 - k);
    if u == k as real {
      FloorIs(256.0 - u, 256 - k);
    } else {
      FloorIs(256.0 - u, 255 - k);
    }
    if v == (256 - k) as real {
      FloorIs(v, 256 - k);
    } else {
      FloorIs(v, 255 - k);
    }
  }

  /** Cutting both weights loses at most one 256th, and nothing exactly when 1 - t was rounded up to a 256th, or
      is one. */
  lemma WeightsSum(f: Fade)
    requires 0.0 <= f.t <= 1.0 && Rounded(f)
    ensures 0 <= WeightA(f) <= 256 && 0 <= WeightB(f) <= 256
    ensures WeightA(f) + WeightB(f) == if f.rest * 256.0 == Ceiling((1.0 - f.t) * 256.0) as real then 256 else 255
  {
    var u, v := f.t * 256.0, f.rest * 256.0;
    assert (1.0 - f.t) * 256.0 == 256.0 - u;
    FloorsSum(u, v, u.Floor);
  }

  function MixChannel(a: byte, b: byte, wa: nat, wb: nat): byte {
    ToByte((a * wa + b * wb + 128) / 256)
  }

  function Mix(a: Argb, b: Argb, wa: nat, wb: nat): Argb {
    Argb(MixChannel(a.a, b.a, wa, wb), MixChannel(a.r, b.r, wa, wb), MixChannel(a.g, b.g, wa, wb),
        MixChannel(a.b, b.b, wa, wb))
  }

  /** m is what a fade that has got to t makes of a and b, up to the cut of the weights and of the mean. */
  predicate Faded(t: real, a: byte, b: byte, m: byte) {
    var exact := (1.0 - t) * a as real + t * b as real;
    exact - (a + b) as real / 256.0 - 0.5 <= m as real <= exact + a as real / 256.0 + 0.5
  }

  lemma CeilingBelow(x: real)
    ensures x.Floor as real > x - 1.0 && Ceiling(x) as real < x + 1.0
  {
  }

  lemma WeightsAreNear(f: Fade)
    requires Rounded(f)
    ensures (1.0 - f.t) * 256.0 - 1.0 < WeightA(f) as real < (1.0 - f.t) * 256.0 + 1.0
    ensures f.t * 256.0 - 1.0 < WeightB(f) as real <= f.t * 256.0
  {
    var e := (1.0 - f.t) * 256.0;
    CeilingBelow(e);
    CeilingBelow(f.t * 256.0);
    assert e.Floor <= WeightA(f) <= Ceiling(e);
  }

  /** A weight between two reals, times a channel. */
  lemma WeighReal(lo: real, w: int, hi: real, c: nat)
    requires lo <= w as real <= hi
    ensures lo * c as real <= (c * w) as real <= hi * c as real
  {
  }

  lemma FadeSums(t: real, a: byte, b: byte, p: int, q: int, m: byte)
    requires ((1.0 - t) * 256.0 - 1.0) * a as real <= p as real <= ((1.0 - t) * 256.0 + 1.0) * a as real
    requires (t * 256.0 - 1.0) * b as real <= q as real <= t * 256.0 * b as real
    requires 256 * m <= p + q + 128 < 256 * m + 256
    ensures Faded(t, a, b, m)
  {
    var u, v := (1.0 - t) * a as real, t * b as real;
    assert 256.0 * u - a as real <= p as real <= 256.0 * u + a as real;
    assert 256.0 * v - b as real <= q as real <= 256.0 * v;
  }

  lemma RoundedByte(sum: int, m: byte)
    requires 0 <= sum / 256 <= 255 && m == ToByte(sum / 256)
    ensures 256 * m <= sum < 256 * m + 256
  {
    DivBounds(sum, 256);
  }

  lemma MixChannelIs(a: byte, b: byte, wa: nat, wb: nat)
    requires wa + wb <= 256
    ensures 256 * MixChannel(a, b, wa, wb) <= a * wa + b * wb + 128 < 256 * MixChannel(a, b, wa, wb) + 256
  {
    MixMono(a, b, a, b, wa, wb);
    RoundedByte(a * wa + b * wb + 128, MixChannel(a, b, wa, wb));
  }

  lemma FadeOfWeights(t: real, a: byte, b: byte, wa: nat, wb: nat)
    requires wa + wb <= 256
    requires (1.0 - t) * 256.0 - 1.0 <= wa as real <= (1.0 - t) * 256.0 + 1.0
    requires t * 256.0 - 1.0 <= wb as real <= t * 256.0
    ensures Faded(t, a, b, MixChannel(a, b, wa, wb))
  {
    MixChannelIs(a, b, wa, wb);
    WeighReal((1.0 - t) * 256.0 - 1.0, wa, (1.0 - t) * 256.0 + 1.0, a);
    WeighReal(t * 256.0 - 1.0, wb, t * 256.0, b);
    FadeSums(t, a, b, a * wa, b * wb, MixChannel(a, b, wa, wb));
  }

  /** A channel faded from a to b is near (1 - t) * a + t * b. */
  lemma FadeIsNear(a: byte, b: byte, f: Fade)
    requires 0.0 <= f.t <= 1.0 && Rounded(f)
    ensures 0 <= WeightA(f) && 0 <= WeightB(f) && Faded(f.t, a, b, MixChannel(a, b, WeightA(f), WeightB(f)))
  {
    WeightsSum(f);
    WeightsAreNear(f);
    FadeOfWeights(f.t, a, b, WeightA(f), WeightB(f));
  }

  lemma MixMono(a: byte, b: byte, a': byte, b': byte, wa: nat, wb: nat)
    requires wa + wb <= 256 && a <= a' && b <= b'
    ensures 0 <= (a * wa + b * wb + 128) / 256 <= (a' * wa + b' * wb + 128) / 256 <= 255
  {
    MulMono(a, a', wa);
    MulMono(b, b', wb);
    MulMono(a', 255, wa);
    MulMono(b', 255, wb);
    MulMono(0, a, wa);
    MulMono(0, b, wb);
  }

  lemma MixChannelMono(a: byte, b: byte, a': byte, b': byte, wa: nat, wb: nat)
    requires wa + wb <= 256 && a <= a' && b <= b'
    ensures MixChannel(a, b, wa, wb) <= MixChannel(a', b', wa, wb)
  {
    MixMono(a, b, a', b', wa, wb);
  }

  /** The fade of two premultiplied pixels is premultiplied. */
  lemma MixKeepsPremultiplied(a: Argb, b: Argb, wa: nat, wb: nat)
    requires Premultiplied(a) && Premultiplied(b) && wa + wb <= 256
    ensures Premultiplied(Mix(a, b, wa, wb))
  {
    var m := Mix(a, b, wa, wb);
    assert m.r <= m.a by { MixChannelMono(a.r, b.r, a.a, b.a, wa, wb); }
    assert m.g <= m.a by { MixChannelMono(a.g, b.g, a.a, b.a, wa, wb); }
    assert m.b <= m.a by { MixChannelMono(a.b, b.b, a.a, b.a, wa, wb); }
  }

  /** Fading a channel into itself gives it back exactly when no weight was lost or it is at most 128; a
      brighter one comes out one step darker. */
  lemma SelfFade(v: byte, wa: nat, wb: nat)
    requires 255 <= wa + wb <= 256
    ensures MixChannel(v, v, wa, wb) == v <==> wa + wb == 256 || v <= 128
    ensures wa + wb == 255 && v > 128 ==> MixChannel(v, v, wa, wb) == v - 1
  {
    assert v * wa + v * wb == v * (wa + wb);
    if wa + wb == 256 {
      assert v * wa + v * wb == v * 256;
    } else {
      assert v * wa + v * wb == v * 255;
    }
  }

  // ---- rendering ----

  datatype Color = Color(r: byte, g: byte, b: byte, a: byte)

  /** The theme fields that shape a shadow. */
  datatype Theme = Theme(cornerRadius: int, shadowExtent: int, shadow: Color)

  datatype Elevation = Blurry | Focused

  datatype ShadowKey = ShadowKey(width: nat, height: nat, elevation: Elevation, themeId: nat)

  predicate InsideRoundedRect(x: int, y: int, rx: int, ry: int, rw: int, rh: int, radius: int) {
    if x < rx || x >= rx + rw || y < ry || y >= ry + rh then false
    else if x >= rx + radius && x < rx + rw - radius then true
    else if y >= ry + radius && y < ry + rh - radius then true
    else
      var cx := if x < rx + radius then rx + radius else rx + rw - 1 - radius;
      var cy := if y < ry + radius then ry + radius else ry + rh - 1 - radius;
      (x - cx) * (x - cx) + (y - cy) * (y - cy) <= radius * radius
  }

  /** Whether the panel, inset by the extent on each side of the patch, covers (x, y). */
  predicate PanelCovers(w: nat, h: nat, theme: Theme, x: int, y: int) {
    var extent := Max(0, theme.shadowExtent);
    var panelW, panelH := Max(0, w - 2 * extent), Max(0, h - 2 * extent);
    panelW > 0 && panelH > 0 &&
    InsideRoundedRect(x, y, extent, extent, panelW, panelH, Min(theme.cornerRadius, Min(panelW / 2, panelH / 2)))
  }

  /** The panel lies inside the patch with the shadow's extent left free on every side. */
  lemma PanelInside(w: nat, h: nat, theme: Theme, x: int, y: int)
    requires theme.shadowExtent >= 0 && PanelCovers(w, h, theme, x, y)
    ensures theme.shadowExtent <= x < w - theme.shadowExtent && theme.shadowExtent <= y < h - theme.shadowExtent
  {
  }

  /** It fills that but for its corners. */
  lemma PanelFills(w: nat, h: nat, theme: Theme, x: int, y: int)
    requires theme.shadowExtent >= 0
    requires theme.shadowExtent <= x < w - theme.shadowExtent && theme.shadowExtent <= y < h - theme.shadowExtent
    requires var inset := theme.shadowExtent + theme.cornerRadius;
             inset <= x < w - inset || inset <= y < h - inset
    ensures PanelCovers(w, h, theme, x, y)
  {
  }

  /** Their outermost pixels are cut as soon as the radius is not 0. */
  lemma CornerIsCut(w: nat, h: nat, theme: Theme)
    requires theme.shadowExtent >= 0 && theme.cornerRadius >= 1
    requires w >= 2 * theme.shadowExtent + 2 && h >= 2 * theme.shadowExtent + 2
    ensures !PanelCovers(w, h, theme, theme.shadowExtent, theme.shadowExtent)
  {
    var e := theme.shadowExtent;
    var r := Min(theme.cornerRadius, Min((w - 2 * e) / 2, (h - 2 * e) / 2));
    SquareOfNegative(r);
    MulMono(1, r, r);
    assert e - (e + r) == -r;
  }

  lemma SquareOfNegative(k: int)
    ensures (-k) * (-k) == k * k
  {
  }

  lemma RoundedMirrors(x: int, y: int, rx: int, ry: int, rw: nat, rh: nat, radius: int)
    requires 2 * radius <= rw && 2 * radius <= rh
    ensures InsideRoundedRect(x, y, rx, ry, rw, rh, radius) ==
            InsideRoundedRect(2 * rx + rw - 1 - x, y, rx, ry, rw, rh, radius)
    ensures InsideRoundedRect(x, y, rx, ry, rw, rh, radius) ==
            InsideRoundedRect(x, 2 * ry + rh - 1 - y, rx, ry, rw, rh, radius)
  {
    var cx := if x < rx + radius then rx + radius else rx + rw - 1 - radius;
    var cy := if y < ry + radius then ry + radius else ry + rh - 1 - radius;
    SquareOfNegative(x - cx);
    SquareOfNegative(y - cy);
  }

  /** It is the same seen from left and right, and from above and below. */
  lemma PanelIsSymmetric(w: nat, h: nat, theme: Theme, x: int, y: int)
    requires theme.shadowExtent >= 0
    ensures PanelCovers(w, h, theme, x, y) == PanelCovers(w, h, theme, w - 1 - x, y)
    ensures PanelCovers(w, h, theme, x, y) == PanelCovers(w, h, theme, x, h - 1 - y)
  {
    var e := theme.shadowExtent;
    if w > 2 * e && h > 2 * e {
      var pw, ph := w - 2 * e, h - 2 * e;
      RoundedMirrors(x, y, e, e, pw, ph, Min(theme.cornerRadius, Min(pw / 2, ph / 2)));
    }
  }

  ghost function PanelMask(w: nat, h: nat, theme: Theme): (m: Mask)
    ensures Sized(m, w, h)
    ensures forall y, x :: 0 <= y < h && 0 <= x < w ==> m[y][x] == if PanelCovers(w, h, theme, x, y) then 255 else 0
  {
    seq(h, y requires 0 <= y < h => seq(w, x requires 0 <= x < w => if PanelCovers(w, h, theme, x, y) then 255 else 0))
  }

  function Intensity(e: Elevation): real {
    if e.Focused? then 1.0 else 0.7
  }

  /** Coverage times the shadow colour's alpha times the elevation's intensity, rounded down. */
  function TintAlpha(m: byte, base: byte, e: Elevation): byte {
    TintInRange(m, base, e);
    ((m as real) / 255.0 * (base as real) * Intensity(e)).Floor
  }

  /** The alpha of a shadow pixel: coverage and the colour's alpha multiplied, all of it for a focused window and
      seven tenths for another, cut by less than one. */
  lemma TintAlphaIs(m: byte, base: byte, e: Elevation)
    ensures var k, a := if e.Focused? then 10 else 7, TintAlpha(m, base, e);
            2550 * a <= m * base * k < 2550 * a + 2550
  {
    var k, a := if e.Focused? then 10 else 7, TintAlpha(m, base, e);
    var v := (m as real) / 255.0 * (base as real) * Intensity(e);
    assert a as real <= v < a as real + 1.0;
    assert v * 2550.0 == (m * base * k) as real;
  }

  /** Its colour is the shadow's, premultiplied by that alpha. */
  lemma TintIs(c: Color, a8: byte)
    ensures var p := Tint(c, a8);
            && p.a == a8 && 0 <= c.r * a8 - 255 * p.r < 255
            && 0 <= c.g * a8 - 255 * p.g < 255 && 0 <= c.b * a8 - 255 * p.b < 255
  {
    DivBounds(c.r * a8, 255);
    DivBounds(c.g * a8, 255);
    DivBounds(c.b * a8, 255);
  }

  lemma TintInRange(m: byte, base: byte, e: Elevation)
    ensures 0 <= ((m as real) / 255.0 * (base as real) * Intensity(e)).Floor < 256
  {
    ByteShare(m);
    ShareOf((m as real) / 255.0, base as real);
    ScaledDown((m as real) / 255.0 * (base as real), Intensity(e));
  }

  lemma ByteShare(m: byte)
    ensures 0.0 <= (m as real) / 255.0 <= 1.0
  {
  }

  /** A share of at most one of a value up to 255 is at most 255. */
  lemma ShareOf(u: real, v: real)
    requires 0.0 <= u <= 1.0 && 0.0 <= v <= 255.0
    ensures 0.0 <= u * v <= 255.0
  {
    var rest := 1.0 - u;
    ProductSign(u, v);
    ProductSign(rest, v);
    assert rest * v == v - u * v;
  }

  lemma ScaledDown(v: real, u: real)
    requires 0.0 <= u <= 1.0 && 0.0 <= v <= 255.0
    ensures 0.0 <= v * u <= 255.0
  {
    ShareOf(u, v);
    assert v * u == u * v;
  }

  lemma ProductSign(u: real, v: real)
    requires 0.0 <= u && 0.0 <= v
    ensures 0.0 <= u * v
  {
  }

  function Tint(c: Color, a8: byte): Argb {
    TintScaled(c.r, a8);
    TintScaled(c.g, a8);
    TintScaled(c.b, a8);
    Argb(a8, (c.r * a8) / 255, (c.g * a8) / 255, (c.b * a8) / 255)
  }

  lemma TintScaled(c: byte, a8: byte)
    ensures 0 <= (c * a8) / 255 <= a8
  {
    MulMono(0, c, a8);
    MulMono(c, 255, a8);
    ScaledBack(c * a8, a8);
  }

  lemma ScaledBack(n: nat, a8: byte)
    requires n <= 255 * a8
    ensures n / 255 <= a8
  {
  }

  /** The shadow patch of a key: the panel mask blurred and tinted. */
  ghost function ShadowImage(key: ShadowKey, theme: Theme): (g: Image<Argb>)
    ensures Sized(g, key.width, key.height)
  {
    var m := Blurred(PanelMask(key.width, key.height, theme), key.width, key.height, Max(0, theme.shadowExtent));
    seq(key.height, y requires 0 <= y < key.height =>
      seq(key.width, x requires 0 <= x < key.width =>
        Tint(theme.shadow, TintAlpha(m[y][x], theme.shadow.a, key.elevation))))
  }

  lemma TintIsPremultiplied(c: Color, a8: byte)
    ensures Premultiplied(Tint(c, a8)) && Tint(c, a8).a == a8
  {
    TintScaled(c.r, a8);
    TintScaled(c.g, a8);
    TintScaled(c.b, a8);
  }

  /** Every pixel of every shadow is premultiplied, so shadows can be blitted and faded in any order. */
  lemma ShadowIsPremultiplied(key: ShadowKey, theme: Theme, x: int, y: int)
    requires 0 <= x < key.width && 0 <= y < key.height
    ensures Premultiplied(ShadowImage(key, theme)[y][x])
  {
    var m := Blurred(PanelMask(key.width, key.height, theme), key.width, key.height, Max(0, theme.shadowExtent));
    TintIsPremultiplied(theme.shadow, TintAlpha(m[y][x], theme.shadow.a, key.elevation));
  }

  /** Away from the panel's edge the shadow is plain: clear where no pixel within the blur's reach is on the panel, and
      the full tint where all of them are. */
  lemma ShadowIsPlain(key: ShadowKey, theme: Theme, x: int, y: int, inside: bool)
    requires 0 <= x < key.width && 0 <= y < key.height && theme.shadowExtent > 0
    requires forall j, i :: 0 <= j < key.height && 0 <= i < key.width
                            && -theme.shadowExtent - 2 <= x - i <= theme.shadowExtent + 2
                            && -theme.shadowExtent - 2 <= y - j <= theme.shadowExtent + 2
                            ==> PanelCovers(key.width, key.height, theme, i, j) == inside
    ensures var p, k := ShadowImage(key, theme)[y][x], if key.elevation.Focused? then 10 else 7;
            if inside then 10 * p.a <= theme.shadow.a * k < 10 * p.a + 10 else p == Argb(0, 0, 0, 0)
  {
    var m := PanelMask(key.width, key.height, theme);
    var v := if inside then 255 else 0;
    HaloIsBounded(m, key.width, key.height, theme.shadowExtent, x, y, v);
    TintAlphaIs(v, theme.shadow.a, key.elevation);
  }

  /** At the panel's edge it is softer: beside an uncovered pixel at most a third of the extent away, a pixel keeps at
      most 254 parts in 255 of the full tint. */
  lemma ShadowSoftens(key: ShadowKey, theme: Theme, x: int, y: int, u: int)
    requires 0 <= x < key.width && 0 <= y < key.height && 0 <= u < key.width && theme.shadowExtent > 0
    requires -theme.shadowExtent <= 3 * (x - u) <= theme.shadowExtent
    requires !PanelCovers(key.width, key.height, theme, u, y)
    ensures var p, k := ShadowImage(key, theme)[y][x], if key.elevation.Focused? then 10 else 7;
            2550 * p.a <= 254 * theme.shadow.a * k
  {
    var m := PanelMask(key.width, key.height, theme);
    EdgeIsSoft(m, key.width, key.height, theme.shadowExtent, x, y, u);
    var v := Blurred(m, key.width, key.height, theme.shadowExtent)[y][x];
    TintAlphaIs(v, theme.shadow.a, key.elevation);
    MulMono(v, 254, theme.shadow.a);
  }

  method RenderShadow(key: ShadowKey, theme: Theme) returns (out: Image<Argb>)
    ensures out == ShadowImage(key, theme)
  {
    var w, h, extent := key.width, key.height, Max(0, theme.shadowExtent);
    var mask := new byte[h, w]((i, j) => 0);
    var panelW, panelH := Max(0, w - 2 * extent), Max(0, h - 2 * extent);
    var radius := Min(theme.cornerRadius, Min(panelW / 2, panelH / 2));
    if panelW > 0 && panelH > 0 {
      for y := 0 to h
        invariant forall v, u :: 0 <= v < h && 0 <= u < w ==>
                    mask[v, u] == if v < y && PanelCovers(w, h, theme, u, v) then 255 else 0
      {
        for x := 0 to w
          invariant forall v, u :: 0 <= v < h && 0 <= u < w ==>
                      mask[v, u] == if (v < y || (v == y && u < x)) && PanelCovers(w, h, theme, u, v) then 255 else 0
        {
          if InsideRoundedRect(x, y, extent, extent, panelW, panelH, radius) {
            mask[y, x] := 255;
          }
        }
      }
    }
    SameImage(View(mask), PanelMask(w, h, theme), w, h);
    Blur3(mask, extent);
    out := TintMask(mask, key, theme);
  }

  method TintMask(mask: array2<byte>, key: ShadowKey, theme: Theme) returns (out: Image<Argb>)
    requires mask.Length0 == key.height && mask.Length1 == key.width
    ensures Sized(out, key.width, key.height)
    ensures forall y, x :: 0 <= y < key.height && 0 <= x < key.width ==>
              out[y][x] == Tint(theme.shadow, TintAlpha(mask[y, x], theme.shadow.a, key.elevation))
    ensures View(mask) == Blurred(PanelMask(key.width, key.height, theme), key.width, key.height,
              Max(0, theme.shadowExtent))
            ==> out == ShadowImage(key, theme)
  {
    out := [];
    for y := 0 to key.height
      invariant |out| == y
      invariant forall v :: 0 <= v < y ==> |out[v]| == key.width
      invariant forall v, u :: 0 <= v < y && 0 <= u < key.width ==>
                  out[v][u] == Tint(theme.shadow, TintAlpha(mask[v, u], theme.shadow.a, key.elevation))
    {
      var row := [];
      for x := 0 to key.width
        invariant |row| == x
        invariant forall u :: 0 <= u < x ==>
                    row[u] == Tint(theme.shadow, TintAlpha(mask[y, u], theme.shadow.a, key.elevation))
      {
        row := row + [Tint(theme.shadow, TintAlpha(mask[y, x], theme.shadow.a, key.elevation))];
      }
      out := out + [row];
    }
    if View(mask) == Blurred(PanelMask(key.width, key.height, theme), key.width, key.height,
        Max(0, theme.shadowExtent)) {
      SameImage(out, ShadowImage(key, theme), key.width, key.height);
    }
  }
}
