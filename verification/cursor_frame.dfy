/** Cursor frames and software rotation (src/cursor/renderer.cpp). */
module CursorFrame {
  import opened Grid
  import opened Canvas

  datatype Rotation = K0 | K90 | K180 | K270

  /** One decoded cursor image with its hotspot. */
  datatype Frame = Frame(width: nat, height: nat, xhot: int, yhot: int, pixels: Image<Argb>)

  ghost predicate ValidFrame(f: Frame) {
    f.width > 0 && f.height > 0 && Sized(f.pixels, f.width, f.height)
  }

  predicate SwapsSides(rot: Rotation) {
    rot.K90? || rot.K270?
  }

  function RotW(f: Frame, rot: Rotation): nat {
    if SwapsSides(rot) then f.height else f.width
  }

  function RotH(f: Frame, rot: Rotation): nat {
    if SwapsSides(rot) then f.width else f.height
  }

  /** The source column and row behind pixel (rx, ry) of the rotated image. */
  function SourceOf(f: Frame, rot: Rotation, rx: int, ry: int): (s: (int, int)) {
    match rot
    case K0 => (rx, ry)
    case K90 => (ry, f.height - 1 - rx)
    case K180 => (f.width - 1 - rx, f.height - 1 - ry)
    case K270 => (f.width - 1 - ry, rx)
  }

  /** Where source pixel (sx, sy) lands in the rotated image. */
  function RotatedTo(f: Frame, rot: Rotation, sx: int, sy: int): (int, int) {
    match rot
    case K0 => (sx, sy)
    case K90 => (f.height - 1 - sy, sx)
    case K180 => (f.width - 1 - sx, f.height - 1 - sy)
    case K270 => (sy, f.width - 1 - sx)
  }

  predicate InRotated(f: Frame, rot: Rotation, rx: int, ry: int) {
    0 <= rx < RotW(f, rot) && 0 <= ry < RotH(f, rot)
  }

  /** Rotation is a bijection between the pixels of the source and of the rotated image. */
  lemma RotationRoundTrip(f: Frame, rot: Rotation, x: int, y: int)
    ensures InRotated(f, rot, x, y) ==>
              var (sx, sy) := SourceOf(f, rot, x, y);
              0 <= sx < f.width && 0 <= sy < f.height && RotatedTo(f, rot, sx, sy) == (x, y)
    ensures 0 <= x < f.width && 0 <= y < f.height ==>
              var (rx, ry) := RotatedTo(f, rot, x, y);
              InRotated(f, rot, rx, ry) && SourceOf(f, rot, rx, ry) == (x, y)
  {
  }

  function SampleRotated(f: Frame, rot: Rotation, rx: int, ry: int): Argb
    requires ValidFrame(f) && InRotated(f, rot, rx, ry)
  {
    var (sx, sy) := SourceOf(f, rot, rx, ry);
    f.pixels[sy][sx]
  }
}
