/** The cursor renderer's ping-pong buffers, commits and session handling on the atomic path
    (src/cursor/renderer.cpp). The kernel is a ghost: which buffer the plane scans out on the current
    fd, where, and with which hardware rotation. Each call that commits is told whether the kernel takes
    the commit. */
module CursorRenderer {
  import opened Arith
  import opened Wrappers
  import opened Grid
  import opened Canvas
  import opened CursorFrame
  import opened CursorBlit

  /** A loaded cursor: its frames and how long each is shown, in milliseconds. */
  datatype Cursor = Cursor(frames: seq<Frame>, delays: seq<nat>) {
    ghost predicate Valid() {
      0 < |frames| == |delays| && forall i :: 0 <= i < |frames| ==> ValidFrame(frames[i])
    }

    function CycleTo(n: nat): nat
      requires n <= |delays|
    {
      if n == 0 then 0 else CycleTo(n - 1) + delays[n - 1]
    }

    predicate Animated() {
      |frames| > 1 && CycleTo(|delays|) > 0
    }

    /** The frame on display `elapsed` milliseconds into the animation. */
    function FrameAt(elapsed: nat): nat
      requires Valid()
    {
      if |frames| == 1 || CycleTo(|delays|) == 0 then 0 else FirstAfter(elapsed % CycleTo(|delays|), 0)
    }

    function FirstAfter(t: nat, i: nat): nat
      requires Valid() && i < |frames|
      decreases |frames| - i
    {
      if t < CycleTo(i + 1) || i + 1 == |frames| then i else FirstAfter(t, i + 1)
    }
  }

  /** Within the cycle, the frame shown is the one whose time slot holds t. */
  lemma {:induction false} FirstAfterHolds(c: Cursor, t: nat, i: nat)
    requires c.Valid() && i < |c.frames| && c.CycleTo(i) <= t < c.CycleTo(|c.delays|)
    ensures c.FirstAfter(t, i) < |c.frames|
    ensures c.CycleTo(c.FirstAfter(t, i)) <= t < c.CycleTo(c.FirstAfter(t, i) + 1)
    decreases |c.frames| - i
  {
    if t >= c.CycleTo(i + 1) && i + 1 != |c.frames| {
      FirstAfterHolds(c, t, i + 1);
    }
  }

  lemma {:induction false} FirstAfterInRange(c: Cursor, t: nat, i: nat)
    requires c.Valid() && i < |c.frames|
    ensures c.FirstAfter(t, i) < |c.frames|
    decreases |c.frames| - i
  {
    if t >= c.CycleTo(i + 1) && i + 1 != |c.frames| {
      FirstAfterInRange(c, t, i + 1);
    }
  }

  /** At any time since it was set, an animated cursor shows the frame whose time slot holds what is left of the time
      after whole cycles; the slots follow each other, each as long as its frame's delay. */
  lemma FrameAtHolds(c: Cursor, elapsed: nat) returns (n: nat, t: nat)
    requires c.Valid() && |c.frames| > 1 && c.CycleTo(|c.delays|) > 0
    ensures elapsed == n * c.CycleTo(|c.delays|) + t && t < c.CycleTo(|c.delays|)
    ensures var i := c.FrameAt(elapsed);
            && i < |c.frames| && c.CycleTo(i) <= t < c.CycleTo(i + 1)
            && c.CycleTo(0) == 0 && c.CycleTo(i + 1) == c.CycleTo(i) + c.delays[i]
  {
    var cycle := c.CycleTo(|c.delays|);
    n, t := elapsed / cycle, elapsed % cycle;
    FirstAfterHolds(c, t, 0);
  }

  /** So the animation repeats with its cycle. */
  lemma FrameRepeats(c: Cursor, elapsed: nat)
    requires c.Valid()
    ensures c.FrameAt(elapsed + c.CycleTo(|c.delays|)) == c.FrameAt(elapsed)
  {
    var cycle := c.CycleTo(|c.delays|);
    if cycle > 0 {
      SameRemainder(elapsed, cycle);
    }
  }

  lemma SameRemainder(n: nat, d: nat)
    requires 0 < d
    ensures (n + d) % d == n % d
  {
    var q := n / d;
    assert n + d == d * (q + 1) + n % d;
    DivIs(n + d, d, q + 1);
  }

  /** A cursor of one frame, or whose delays are all zero, stands still. */
  lemma StaticFrame(c: Cursor, elapsed: nat)
    requires c.Valid() && (|c.frames| == 1 || c.CycleTo(|c.delays|) == 0)
    ensures c.FrameAt(elapsed) == 0
  {
  }

  /** The frame last blitted: which binding and index it is, and the frame itself. */
  datatype LastFrame = LastFrame(binding: nat, index: nat, frame: Frame)

  /** A blitted frame that belongs to the bound cursor is the frame of its index. */
  ghost predicate FrameOf(l: LastFrame, cursor: Option<Cursor>, binding: nat)
    requires cursor.Some? ==> cursor.value.Valid()
  {
    && l.binding <= binding && cursor.Some?
    && (l.binding == binding ==>
          && l.index < |cursor.value.frames| && l.frame == cursor.value.frames[l.index]
          && (!cursor.value.Animated() ==> l.index == 0))
  }

  /** The rotation left to the blit: none when the plane accepts the requested one. */
  function SwPart(rotation: Rotation, planeRotations: Option<set<Rotation>>): Rotation {
    if planeRotations.Some? && rotation in planeRotations.value then K0 else rotation
  }

  /** The rotation written to the plane. */
  function HwPart(rotation: Rotation, planeRotations: Option<set<Rotation>>): Rotation {
    if planeRotations.Some? && rotation in planeRotations.value then rotation else K0
  }

  /** Exactly one of the blit and the plane carries a requested rotation. */
  lemma OneCarriesTheRotation(rotation: Rotation, planeRotations: Option<set<Rotation>>)
    ensures SwPart(rotation, planeRotations) == K0 || HwPart(rotation, planeRotations) == K0
    ensures SwPart(rotation, planeRotations) == rotation || HwPart(rotation, planeRotations) == rotation
    // and it is the plane exactly when its property accepts the rotation
    ensures rotation != K0 ==>
              (HwPart(rotation, planeRotations) == rotation <==>
                 match planeRotations { case None => false case Some(accepted) => rotation in accepted })
  {
  }

  /** The pixels on screen, their top left corner, and how the plane turns them. */
  datatype Picture = Picture(pixels: Image<Word>, at: (int, int), turned: Rotation)

  /** Where the plane goes to put the hotspot under (x, y), after a blit of the given size. */
  function PlaneAt(last: Option<LastFrame>, sw: Rotation, blit: (nat, nat), w: nat, h: nat, x: int, y: int): (int, int)
    requires last.Some? ==> 0 < last.value.frame.width && 0 < last.value.frame.height
  {
    if last.None? then (x, y)
    else
      var (hx, hy) := BufferHotspot(last.value.frame, sw, blit.0, blit.1, w, h);
      (x - hx, y - hy)
  }

  /** When the frame fits and the plane does not turn it, the screen pixel under (x, y) is the frame's
      hotspot pixel. */
  lemma TipUnderPointer(l: LastFrame, sw: Rotation, w: nat, h: nat, format: CursorFourcc, x: int, y: int)
    requires ValidFrame(l.frame) && HotspotInside(l.frame) && 0 < w && 0 < h
    requires !NeedsDownscale(RotW(l.frame, sw), RotH(l.frame, sw), w, h)
    ensures var at := PlaneAt(Some(l), sw, BlitSize(l.frame, sw, w, h), w, h, x, y);
            && 0 <= x - at.0 < w && 0 <= y - at.1 < h
            && ScannedOut(BlitPixel(l.frame, sw, w, h, format, x - at.0, y - at.1), format) ==
               l.frame.pixels[l.frame.yhot][l.frame.xhot]
  {
    HotspotFollowsPixel(l.frame, sw, w, h, format);
  }

  /** Shrunk or not, the pointer is over the blitted frame, as far along it as the hotspot, which a clockwise turn by
      the rotation puts at (hx, hy) of a frame of tw x th, is along the frame. */
  lemma TipIsProportional(l: LastFrame, sw: Rotation, w: nat, h: nat, tw: nat, th: nat, hx: nat, hy: nat,
                          x: int, y: int)
    requires ValidFrame(l.frame) && HotspotInside(l.frame) && 0 < w && 0 < h
    requires (tw, th) ==
             if sw.K90? || sw.K270? then (l.frame.height, l.frame.width) else (l.frame.width, l.frame.height)
    requires (hx, hy) == match sw
                         case K0 => (l.frame.xhot, l.frame.yhot)
                         case K90 => (l.frame.height - 1 - l.frame.yhot, l.frame.xhot)
                         case K180 => (l.frame.width - 1 - l.frame.xhot, l.frame.height - 1 - l.frame.yhot)
                         case K270 => (l.frame.yhot, l.frame.width - 1 - l.frame.xhot)
    ensures var t := FitOf(tw, th, w, h);
            var at := PlaneAt(Some(l), sw, BlitSize(l.frame, sw, w, h), w, h, x, y);
            var px, py := x - at.0 - t.xOff, y - at.1 - t.yOff;
            && 0 <= px < t.w && 0 <= py < t.h
            && px * tw <= hx * t.w < px * tw + tw && py * th <= hy * t.h < py * th + th
  {
    var t := FitOf(tw, th, w, h);
    HotspotInsideBlit(l.frame, sw, w, h);
    FitInside(tw, th, w, h);
    ScaledHotIs(hx, tw, t.w);
    ScaledHotIs(hy, th, t.h);
  }

  class Renderer {
    const width: nat
    const height: nat
    const format: CursorFourcc
    var buffers: seq<Image<Word>>              // the two ping-pong buffers' contents
    var hasBuffers: bool
    var activeIdx: nat
    var dirtyBack: bool
    var rotation: Rotation
    var planeRotations: Option<set<Rotation>>  // what the plane's rotation property accepts, if it has one
    var cursor: Option<Cursor>
    var binding: nat
    var animStart: nat
    var lastFrame: Option<LastFrame>
    var lastBlit: (nat, nat)
    var firstCommitNeeded: bool
    var visible: bool
    var paused: bool
    var last: (int, int)
    ghost var scanout: Option<nat>       // the buffer the plane shows; None while the plane is off
    ghost var scanoutRotation: Rotation  // the hardware rotation it was committed with
    ghost var scanoutAt: (int, int)      // and the position of its top left corner
    ghost var torn: bool                 // whether a blit has ever written the buffer on screen

    function EffectiveSwRotation(): Rotation
      reads this`rotation, this`planeRotations
    {
      SwPart(rotation, planeRotations)
    }

    function HwRotation(): Rotation
      reads this`rotation, this`planeRotations
    {
      HwPart(rotation, planeRotations)
    }

    /** The buffer the next commit publishes. */
    function CommitIdx(): nat
      requires activeIdx < 2
      reads this`activeIdx, this`dirtyBack
    {
      if dirtyBack then 1 - activeIdx else activeIdx
    }

    ghost predicate Shaped()
      reads this`buffers, this`activeIdx, this`scanout, this`lastFrame
    {
      && 0 < width && 0 < height && activeIdx < 2 && |buffers| == 2
      && (scanout.Some? ==> scanout.value < 2)
      && (lastFrame.Some? ==> ValidFrame(lastFrame.value.frame))
    }

    /** What holds in every state. */
    ghost predicate Valid()
      reads this
    {
      && Shaped()
      && (cursor.Some? ==> cursor.value.Valid())
      && (lastFrame.Some? ==> FrameOf(lastFrame.value, cursor, binding))
      && (hasBuffers && cursor.Some? ==> lastFrame.Some? && lastFrame.value.binding == binding)
    }

    /** The next commit publishes the last blitted frame at the current rotation, pixel for pixel. */
    ghost predicate Ready()
      requires Shaped()
      reads this`buffers, this`activeIdx, this`dirtyBack, this`scanout, this`lastFrame, this`lastBlit, this`rotation,
              this`planeRotations
    {
      lastFrame.Some? ==>
        && buffers[CommitIdx()] == BlitImage(lastFrame.value.frame, EffectiveSwRotation(), width, height, format)
        && lastBlit == BlitSize(lastFrame.value.frame, EffectiveSwRotation(), width, height)
    }

    /** A blit, which writes the back buffer, cannot touch the buffer being scanned out. */
    ghost predicate SafeToBlit()
      reads this`scanout, this`activeIdx
    {
      scanout != Some(1 - activeIdx)
    }

    /** A plane that is off will be enabled by the next commit. */
    ghost predicate Remembered()
      reads this`scanout, this`firstCommitNeeded
    {
      scanout.None? ==> firstCommitNeeded
    }

    ghost predicate Healthy()
      requires Shaped()
      reads this
    {
      hasBuffers && Ready() && SafeToBlit() && Remembered()
    }

    /** The last blitted frame is the one due at `now`. */
    ghost predicate Due(now: nat)
      requires (cursor.Some? ==> cursor.value.Valid()) && animStart <= now
      reads this`cursor, this`lastFrame, this`binding, this`animStart
    {
      && cursor.Some? && lastFrame.Some? && lastFrame.value.binding == binding
      && lastFrame.value.index == cursor.value.FrameAt(now - animStart)
    }

    /** What is on screen. */
    ghost function Screen(): Option<Picture>
      requires Shaped()
      reads this`buffers, this`activeIdx, this`scanout, this`lastFrame, this`scanoutAt, this`scanoutRotation
    {
      if scanout.None? then None else Some(Picture(buffers[scanout.value], scanoutAt, scanoutRotation))
    }

    /** The picture a commit at (x, y) should put on screen: the last blitted frame at the current rotation. */
    ghost function CursorPicture(x: int, y: int): Picture
      requires Shaped() && lastFrame.Some?
      reads this`buffers, this`activeIdx, this`scanout, this`lastFrame, this`lastBlit, this`rotation,
              this`planeRotations
    {
      Picture(BlitImage(lastFrame.value.frame, EffectiveSwRotation(), width, height, format),
              PlaneAt(lastFrame, EffectiveSwRotation(), lastBlit, width, height, x, y), HwRotation())
    }

    ghost predicate Live()
      reads this`cursor, this`visible, this`paused
    {
      cursor.Some? && visible && !paused
    }

    constructor (w: nat, h: nat, f: CursorFourcc, r: Rotation, accepted: Option<set<Rotation>>)
      requires 0 < w && 0 < h
      ensures Valid() && Healthy() && Screen() == None && cursor == None && visible && !paused && animStart == 0
      ensures !dirtyBack && !torn
    {
      width, height, format := w, h, f;
      buffers := [Blank(w, h), Blank(w, h)];
      hasBuffers, activeIdx, dirtyBack := true, 0, false;
      rotation, planeRotations := r, accepted;
      cursor, binding, animStart, lastFrame, lastBlit := None, 0, 0, None, (0, 0);
      firstCommitNeeded, visible, paused, last := true, true, false, (0, 0);
      scanout, scanoutRotation, scanoutAt, torn := None, K0, (0, 0), false;
    }

    /** Blits a frame of the bound cursor into the back buffer; the active one keeps its pixels. */
    method Blit(l: LastFrame)
      requires 0 < width && 0 < height && activeIdx < 2 && |buffers| == 2 && ValidFrame(l.frame)
      modifies this`buffers, this`lastFrame, this`lastBlit, this`dirtyBack, this`torn
      ensures |buffers| == 2 && buffers[activeIdx] == old(buffers[activeIdx])
      ensures torn == (old(torn) || (hasBuffers && !SafeToBlit()))
      ensures if hasBuffers then
                && lastFrame == Some(l) && dirtyBack
                && buffers[1 - activeIdx] == BlitImage(l.frame, EffectiveSwRotation(), width, height, format)
                && lastBlit == BlitSize(l.frame, EffectiveSwRotation(), width, height)
              else
                unchanged(this)
    {
      if !hasBuffers {
        return;
      }
      var back := new Word[height, width];
      var w, h := BlitFrame(l.frame, EffectiveSwRotation(), back, format);
      var image := ToImage(back);
      torn := torn || scanout == Some(1 - activeIdx);
      buffers := buffers[1 - activeIdx := image];
      lastFrame, lastBlit, dirtyBack := Some(l), (w, h), true;
    }

    /** Commits the plane; `kernel` says whether staging and the commit would succeed. Without buffers
        there is no framebuffer to commit. */
    method CommitPosition(x: int, y: int, kernel: bool) returns (ok: bool)
      requires Valid()
      modifies this`activeIdx, this`dirtyBack, this`firstCommitNeeded, this`scanout, this`scanoutRotation,
               this`scanoutAt
      ensures Valid() && (ok <==> kernel && hasBuffers)
      // a failed commit changes nothing
      ensures !ok ==> unchanged(this)
      // a successful one shows the last blitted frame at the current rotation, its hotspot under (x, y)
      ensures Ready() == old(Ready())
      ensures ok ==> !dirtyBack && !firstCommitNeeded && scanout == Some(activeIdx) && activeIdx == old(CommitIdx())
      ensures ok && Ready() && lastFrame.Some? ==> Screen() == Some(CursorPicture(x, y))
      // and repairs whatever failed before it
      ensures ok && Ready() ==> Healthy()
    {
      if !kernel || !hasBuffers {
        return false;
      }
      Land(x, y);
      ok := true;
    }

    /** A commit that the kernel takes. */
    method Land(x: int, y: int)
      requires Valid() && hasBuffers
      modifies this`activeIdx, this`dirtyBack, this`firstCommitNeeded, this`scanout, this`scanoutRotation,
               this`scanoutAt
      ensures Valid() && Ready() == old(Ready())
      ensures !dirtyBack && !firstCommitNeeded && scanout == Some(activeIdx) && activeIdx == old(CommitIdx())
      ensures Ready() && lastFrame.Some? ==> Screen() == Some(CursorPicture(x, y))
    {
      scanout, scanoutRotation := Some(CommitIdx()), HwRotation();
      scanoutAt := PlaneAt(lastFrame, EffectiveSwRotation(), lastBlit, width, height, x, y);
      firstCommitNeeded := false;
      if dirtyBack {
        activeIdx, dirtyBack := 1 - activeIdx, false;
      }
    }

    /** Starts a cursor and blits its first frame. */
    method Bind(c: Cursor, now: nat)
      requires Valid() && c.Valid()
      modifies this`cursor, this`animStart, this`binding, this`buffers, this`lastFrame, this`lastBlit, this`dirtyBack,
               this`torn
      ensures Valid() && cursor == Some(c) && animStart == now
      ensures torn == (old(torn) || (hasBuffers && !SafeToBlit()))
      ensures hasBuffers ==> Ready() && dirtyBack && lastFrame.Some? && lastFrame.value.index == 0
                             && lastFrame.value.frame == c.frames[0]
      ensures buffers[activeIdx] == old(buffers[activeIdx])
    {
      cursor, animStart, binding := Some(c), now, binding + 1;
      Blit(LastFrame(binding, 0, c.frames[0]));
    }

    /** Binds a cursor and blits its first frame. */
    method SetCursor(c: Option<Cursor>, now: nat) returns (ok: bool)
      requires Valid() && (c.Some? ==> c.value.Valid())
      modifies this`cursor, this`animStart, this`binding, this`firstCommitNeeded, this`buffers,
               this`lastFrame, this`lastBlit, this`dirtyBack, this`torn
      ensures Valid() && ok == c.Some?
      ensures !ok ==> unchanged(this)
      ensures torn == (old(torn) || (ok && hasBuffers && !SafeToBlit()))
      ensures ok ==> cursor == c && animStart == now && firstCommitNeeded
      ensures ok && hasBuffers ==> Ready() && dirtyBack && lastFrame.Some? && lastFrame.value.index == 0
                                   && lastFrame.value.frame == c.value.frames[0]
      // so, with buffers, only a blit that was not safe leaves something wrong
      ensures ok ==> (Healthy() <==> hasBuffers && SafeToBlit())
      ensures SafeToBlit() ==> Screen() == old(Screen())
    {
      if c.None? {
        return false;
      }
      Bind(c.value, now);
      firstCommitNeeded := true;
      ok := true;
    }

    /** Blits the frame that is due at `now`, if it is not the one already blitted. */
    method Advance(now: nat) returns (reblit: bool)
      requires Valid() && animStart <= now
      modifies this`buffers, this`lastFrame, this`lastBlit, this`torn, this`dirtyBack
      ensures Valid()
      ensures reblit <==> cursor.Some? && cursor.value.Animated() && !old(Due(now))
      ensures !reblit || !hasBuffers ==> unchanged(this)
      ensures hasBuffers && cursor.Some? ==> Due(now)
      ensures hasBuffers ==> dirtyBack == (old(dirtyBack) || reblit)
      ensures (hasBuffers && reblit) || old(Ready()) ==> Ready()
      ensures buffers[activeIdx] == old(buffers[activeIdx]) && (SafeToBlit() ==> Screen() == old(Screen()))
      ensures torn == (old(torn) || (hasBuffers && reblit && !SafeToBlit()))
    {
      if cursor.None? || !cursor.value.Animated() {
        return false;
      }
      var c := cursor.value;
      var i := c.FrameAt(now - animStart);
      FrameAtInRange(c, now - animStart);
      if lastFrame.Some? && lastFrame.value.binding == binding && lastFrame.value.index == i {
        return false;
      }
      Blit(LastFrame(binding, i, c.frames[i]));
      reblit := true;
    }

    /** Commits at (x, y) with the frame that is due. */
    method CommitDueFrame(x: int, y: int, now: nat, kernel: bool) returns (ok: bool)
      requires Valid() && animStart <= now && cursor.Some?
      modifies this`buffers, this`lastFrame, this`lastBlit, this`torn, this`dirtyBack, this`activeIdx,
               this`firstCommitNeeded, this`scanout, this`scanoutRotation, this`scanoutAt
      ensures Valid() && (ok <==> kernel && hasBuffers)
      ensures hasBuffers ==> Due(now)
      ensures old(Ready()) ==> Ready()
      ensures ok ==> scanout == Some(activeIdx) && !dirtyBack && !firstCommitNeeded
      ensures ok && Ready() ==> Healthy() && Screen() == Some(CursorPicture(x, y))
      ensures !ok && old(SafeToBlit()) ==> Screen() == old(Screen())
      ensures !ok ==>
                activeIdx == old(activeIdx) && scanout == old(scanout) && firstCommitNeeded == old(firstCommitNeeded)
      ensures old(SafeToBlit()) ==> torn == old(torn)
    {
      var _ := Advance(now);
      ok := CommitPosition(x, y, kernel);
    }

    /** Commits at the last position. */
    method CommitInPlace(kernel: bool) returns (ok: bool)
      requires Valid() && cursor.Some? && (hasBuffers ==> Ready())
      modifies this`activeIdx, this`dirtyBack, this`firstCommitNeeded, this`scanout, this`scanoutRotation,
               this`scanoutAt
      ensures Valid() && (ok <==> kernel && hasBuffers) && (!ok ==> unchanged(this))
      ensures ok ==> scanout == Some(activeIdx) && Healthy() && Screen() == Some(CursorPicture(last.0, last.1))
    {
      ok := CommitPosition(last.0, last.1, kernel);
    }

    /** Commits at the last position if the cursor is live. */
    method CommitIfLive(kernel: bool) returns (ok: bool)
      requires Valid()
      modifies this`activeIdx, this`dirtyBack, this`firstCommitNeeded, this`scanout, this`scanoutRotation,
               this`scanoutAt
      ensures Valid() && (ok <==> Live() ==> kernel && hasBuffers)
      ensures Ready() == old(Ready())
      ensures Live() && ok ==> scanout == Some(activeIdx) && !dirtyBack && !firstCommitNeeded
      ensures Live() && ok && Ready() ==> Healthy() && Screen() == Some(CursorPicture(last.0, last.1))
      ensures !Live() || !ok ==> unchanged(this)
    {
      if cursor.Some? && visible && !paused {
        ok := CommitPosition(last.0, last.1, kernel);
      } else {
        ok := true;
      }
    }

    /** Moves the pointer; while the cursor is live this commits, with the frame that is due. */
    method MoveTo(x: int, y: int, now: nat, kernel: bool) returns (ok: bool)
      requires Valid() && animStart <= now
      modifies this`last, this`buffers, this`lastFrame, this`lastBlit, this`torn, this`dirtyBack, this`activeIdx,
               this`firstCommitNeeded,
               this`scanout, this`scanoutRotation, this`scanoutAt
      ensures Valid() && (ok <==> cursor.Some? && (Live() ==> kernel && hasBuffers))
      ensures last == if cursor.Some? then (x, y) else old(last)
      ensures Live() && hasBuffers ==> Due(now)
      ensures old(Ready()) ==> Ready()
      ensures Live() && ok ==> scanout == Some(activeIdx) && !dirtyBack && !firstCommitNeeded
      ensures Live() && ok && Ready() ==> Healthy() && Screen() == Some(CursorPicture(x, y))
      ensures !(Live() && ok) && old(SafeToBlit()) ==> Screen() == old(Screen())
      ensures !Live() ==> lastFrame == old(lastFrame) && buffers == old(buffers) && dirtyBack == old(dirtyBack)
      ensures !(Live() && ok) ==>
                activeIdx == old(activeIdx) && scanout == old(scanout) && firstCommitNeeded == old(firstCommitNeeded)
      ensures old(SafeToBlit()) ==> torn == old(torn)
    {
      if cursor.None? {
        return false;
      }
      last := (x, y);
      if paused || !visible {
        return true;
      }
      ok := CommitDueFrame(x, y, now, kernel);
    }

    /** Drives the animation; commits only when a frame changed. */
    method Tick(now: nat, kernel: bool) returns (ok: bool, reblit: bool)
      requires Valid() && animStart <= now
      modifies this`buffers, this`lastFrame, this`lastBlit, this`torn, this`dirtyBack, this`activeIdx,
               this`firstCommitNeeded, this`scanout, this`scanoutRotation, this`scanoutAt
      ensures Valid()
      ensures var changed := Live() && cursor.value.Animated() && !old(Due(now));
              && (ok <==> cursor.Some? && (changed ==> kernel && hasBuffers))
              && (reblit <==> changed && ok)
      ensures Live() && hasBuffers ==> Due(now)
      ensures reblit ==> Healthy() && Screen() == Some(CursorPicture(last.0, last.1))
      ensures !reblit && old(SafeToBlit()) ==> Screen() == old(Screen())
      ensures !reblit ==>
                activeIdx == old(activeIdx) && scanout == old(scanout) && firstCommitNeeded == old(firstCommitNeeded)
      ensures old(Ready()) ==> Ready()
      ensures old(SafeToBlit()) ==> torn == old(torn)
    {
      if cursor.None? {
        return false, false;
      }
      if paused || !visible {
        return true, false;
      }
      ok, reblit := CommitIfChanged(now, kernel);
    }

    /** Commits at the last position if another frame is due. */
    method CommitIfChanged(now: nat, kernel: bool) returns (ok: bool, reblit: bool)
      requires Valid() && animStart <= now && cursor.Some?
      modifies this`buffers, this`lastFrame, this`lastBlit, this`torn, this`dirtyBack, this`activeIdx,
               this`firstCommitNeeded, this`scanout, this`scanoutRotation, this`scanoutAt
      ensures Valid()
      ensures var changed := cursor.value.Animated() && !old(Due(now));
              (ok <==> changed ==> kernel && hasBuffers) && (reblit <==> changed && ok)
      ensures hasBuffers ==> Due(now)
      ensures reblit ==> Healthy() && Screen() == Some(CursorPicture(last.0, last.1))
      ensures !reblit && old(SafeToBlit()) ==> Screen() == old(Screen())
      ensures !reblit ==>
                activeIdx == old(activeIdx) && scanout == old(scanout) && firstCommitNeeded == old(firstCommitNeeded)
      ensures old(Ready()) ==> Ready()
      ensures old(SafeToBlit()) ==> torn == old(torn)
    {
      var advanced := Advance(now);
      ok, reblit := CommitAdvanced(advanced, kernel);
    }

    /** Commits at the last position if a frame was blitted. */
    method CommitAdvanced(advanced: bool, kernel: bool) returns (ok: bool, reblit: bool)
      requires Valid() && cursor.Some? && (advanced && hasBuffers ==> Ready())
      modifies this`activeIdx, this`dirtyBack, this`firstCommitNeeded, this`scanout, this`scanoutRotation,
               this`scanoutAt
      ensures Valid() && (ok <==> advanced ==> kernel && hasBuffers) && (reblit <==> advanced && ok)
      ensures !reblit ==> unchanged(this)
      ensures reblit ==> Healthy() && Screen() == Some(CursorPicture(last.0, last.1))
    {
      if !advanced {
        return true, false;
      }
      ok := CommitInPlace(kernel);
      reblit := ok;
    }

    method Hide(kernel: bool) returns (ok: bool)
      requires Valid()
      modifies this`visible, this`scanout, this`firstCommitNeeded
      ensures Valid() && !visible && (ok <==> !old(visible) || paused || kernel)
      ensures Ready() == old(Ready())
      ensures if old(visible) && !paused && ok then Screen() == None && firstCommitNeeded && SafeToBlit()
              else Screen() == old(Screen()) && firstCommitNeeded == old(firstCommitNeeded) && scanout == old(scanout)
    {
      if !visible {
        return true;
      }
      visible := false;
      if paused {
        return true;
      }
      if !kernel {
        return false;
      }
      scanout, firstCommitNeeded := None, true;
      ok := true;
    }

    method Show(kernel: bool) returns (ok: bool)
      requires Valid()
      modifies this`visible, this`activeIdx, this`dirtyBack, this`firstCommitNeeded, this`scanout,
               this`scanoutRotation, this`scanoutAt
      ensures Valid() && visible
      ensures ok <==> !old(visible) && Live() ==> kernel && hasBuffers
      ensures Ready() == old(Ready())
      ensures !old(visible) && Live() && ok ==> scanout == Some(activeIdx) && !dirtyBack && !firstCommitNeeded
      ensures !old(visible) && Live() && ok && Ready() ==> Healthy() && Screen() == Some(CursorPicture(last.0, last.1))
      ensures old(visible) || !Live() || !ok ==>
                && Screen() == old(Screen()) && activeIdx == old(activeIdx) && scanout == old(scanout)
                && firstCommitNeeded == old(firstCommitNeeded) && dirtyBack == old(dirtyBack)
    {
      if visible {
        return true;
      }
      visible := true;
      ok := CommitIfLive(kernel);
    }

    /** Takes on a rotation, and blits again if the old one or the new one is the blit's to carry. */
    method Rotate(r: Rotation)
      requires Valid()
      modifies this`rotation, this`buffers, this`lastFrame, this`lastBlit, this`torn, this`dirtyBack
      ensures Valid() && rotation == r && lastFrame == old(lastFrame) && buffers[activeIdx] == old(buffers[activeIdx])
      ensures hasBuffers && old(Ready()) ==> Ready()
      ensures old(SafeToBlit()) ==> torn == old(torn)
    {
      var oldEff := EffectiveSwRotation();
      rotation := r;
      var newEff := EffectiveSwRotation();
      if (oldEff != K0 || newEff != K0) && lastFrame.Some? {
        Blit(lastFrame.value);
      }
    }

    method SetRotation(r: Rotation, kernel: bool) returns (ok: bool)
      requires Valid()
      modifies this`rotation, this`buffers, this`lastFrame, this`lastBlit, this`torn, this`dirtyBack, this`activeIdx,
               this`firstCommitNeeded, this`scanout, this`scanoutRotation, this`scanoutAt
      ensures Valid() && rotation == r && lastFrame == old(lastFrame)
      ensures ok <==> r != old(rotation) && Live() ==> kernel && hasBuffers
      ensures hasBuffers && old(Ready()) ==> Ready()
      ensures r != old(rotation) && Live() && ok ==> scanout == Some(activeIdx) && !dirtyBack && !firstCommitNeeded
      ensures r != old(rotation) && Live() && ok && Ready() ==>
                Healthy() && Screen() == Some(CursorPicture(last.0, last.1))
      ensures (r == old(rotation) || !Live() || !ok) && old(SafeToBlit()) ==> Screen() == old(Screen())
      ensures r == old(rotation) || !Live() || !ok ==>
                activeIdx == old(activeIdx) && scanout == old(scanout) && firstCommitNeeded == old(firstCommitNeeded)
      ensures old(SafeToBlit()) ==> torn == old(torn)
    {
      if rotation == r {
        return true;
      }
      Rotate(r);
      ok := CommitIfLive(kernel);
    }

    method SessionPaused()
      requires Valid()
      modifies this`paused
      ensures Valid() && paused && Screen() == old(Screen()) && Ready() == old(Ready())
    {
      paused := true;
    }

    /** Moves to a fresh fd: the plane is off, and the buffers are new and blank. A buffer that was never
        allocated has no size to ask for, so allocating fails. */
    method Reallocate(allocOk: bool) returns (ok: bool)
      requires Valid()
      modifies this`buffers, this`hasBuffers, this`activeIdx, this`dirtyBack, this`scanout
      ensures Valid() && scanout == None && !dirtyBack && activeIdx == 0
      ensures ok == hasBuffers == (old(hasBuffers) && allocOk)
      ensures ok ==> buffers == [Blank(width, height), Blank(width, height)]
    {
      var sized := hasBuffers;
      hasBuffers, scanout := false, None;
      activeIdx, dirtyBack := 0, false;
      if !sized || !allocOk {
        return false;
      }
      buffers, hasBuffers := [Blank(width, height), Blank(width, height)], true;
      ok := true;
    }

    /** Blits the frame that is due, whatever was blitted last. */
    method BlitDue(now: nat)
      requires Valid() && hasBuffers && cursor.Some? && animStart <= now
      modifies this`buffers, this`lastFrame, this`lastBlit, this`torn, this`dirtyBack
      ensures Valid() && Ready() && Due(now) && torn == (old(torn) || !SafeToBlit())
    {
      var c := cursor.value;
      var i := if c.Animated() then c.FrameAt(now - animStart) else 0;
      FrameAtInRange(c, now - animStart);
      Blit(LastFrame(binding, i, c.frames[i]));
    }

    /** Takes on the new plane's properties and blits the frame that is due. */
    method Reinstall(accepted: Option<set<Rotation>>, now: nat)
      requires Valid() && hasBuffers && scanout.None? && animStart <= now
      modifies this`planeRotations, this`paused, this`firstCommitNeeded, this`buffers, this`lastFrame,
               this`lastBlit, this`torn, this`dirtyBack
      ensures Valid() && !paused && firstCommitNeeded && planeRotations == accepted
      ensures cursor.Some? ==> Healthy() && Due(now)
      ensures cursor.None? ==> lastFrame == old(lastFrame)
      ensures torn == old(torn)
    {
      planeRotations, paused, firstCommitNeeded := accepted, false, true;
      if cursor.Some? {
        BlitDue(now);
      }
    }

    /** Shows the due frame on the new plane if the cursor is live. */
    method Reappear(accepted: Option<set<Rotation>>, now: nat, kernel: bool) returns (ok: bool)
      requires Valid() && hasBuffers && scanout.None? && animStart <= now
      modifies this`buffers, this`activeIdx, this`torn, this`dirtyBack, this`planeRotations, this`paused,
               this`firstCommitNeeded, this`lastFrame, this`lastBlit, this`scanout, this`scanoutRotation, this`scanoutAt
      ensures Valid() && !paused && planeRotations == accepted && torn == old(torn)
      ensures (ok <==> Live() ==> kernel) && (cursor.Some? ==> Healthy() && Due(now))
      ensures cursor.None? ==> lastFrame == old(lastFrame) && activeIdx == old(activeIdx) && firstCommitNeeded
      ensures Screen() == if Live() && ok then Some(CursorPicture(last.0, last.1)) else None
    {
      Reinstall(accepted, now);
      ok := CommitIfLive(kernel);
    }

    /** A fresh fd. `allocOk` and `propsOk` say whether allocating the buffers and caching the plane's
        properties succeed. */
    method SessionResumed(fdOk: bool, allocOk: bool, propsOk: bool, accepted: Option<set<Rotation>>, now: nat,
                          kernel: bool)
      returns (ok: bool)
      requires Valid() && animStart <= now
      modifies this`buffers, this`hasBuffers, this`activeIdx, this`torn, this`dirtyBack, this`planeRotations,
               this`paused, this`firstCommitNeeded,
               this`lastFrame, this`lastBlit, this`scanout, this`scanoutRotation, this`scanoutAt
      ensures Valid()
      ensures !fdOk ==> !ok && unchanged(this)
      // the new fd shows the due frame at once if the cursor is live, and nothing otherwise
      ensures var installed := fdOk && old(hasBuffers) && allocOk && propsOk;
              && (ok <==> installed && (Live() ==> kernel))
              && (installed ==> !paused && planeRotations == accepted && Healthy() && (cursor.Some? ==> Due(now)))
              && (installed ==> Screen() == if Live() && ok then Some(CursorPicture(last.0, last.1)) else None)
              // a resume that gets no further leaves a paused session paused, the plane off, and that unremembered
              && (fdOk && !installed ==>
                   Screen() == None && paused == old(paused) && firstCommitNeeded == old(firstCommitNeeded)
                                         && hasBuffers == (old(hasBuffers) && allocOk))
      // once an allocation has failed the buffers have no size to ask for, and no later resume succeeds
      ensures fdOk && !allocOk ==> !hasBuffers
      ensures !old(hasBuffers) ==> !ok && !hasBuffers
      ensures torn == old(torn)
    {
      if !fdOk {
        return false;
      }
      var realloc := Reallocate(allocOk);
      if !realloc || !propsOk {
        return false;
      }
      ok := Reappear(accepted, now, kernel);
    }

    /** What staging does to the bookkeeping when the caller's commit then fails: the buffers swap all the same. */
    method SwapOnly()
      requires Valid()
      modifies this`activeIdx, this`dirtyBack, this`firstCommitNeeded
      ensures Valid() && Ready() == old(Ready()) && Screen() == old(Screen())
      ensures !dirtyBack && !firstCommitNeeded && activeIdx == old(CommitIdx())
    {
      firstCommitNeeded := false;
      if dirtyBack {
        activeIdx, dirtyBack := 1 - activeIdx, false;
      }
    }

    /** Caller-commit mode: stages the cursor into the caller's request. `staged` says whether staging
        succeeds, `committed` whether the caller's commit then does. */
    method Stage(x: int, y: int, now: nat, staged: bool, committed: bool)
      returns (ok: bool, reblit: bool, firstCommit: bool)
      requires Valid() && animStart <= now
      modifies this`last, this`buffers, this`lastFrame, this`lastBlit, this`torn, this`dirtyBack, this`activeIdx,
               this`firstCommitNeeded,
               this`scanout, this`scanoutRotation, this`scanoutAt
      ensures Valid() && (ok <==> cursor.Some? && staged && hasBuffers)
      ensures reblit <==> cursor.Some? && cursor.value.Animated() && !old(Due(now))
      ensures last == if cursor.Some? then (x, y) else old(last)
      ensures ok ==> firstCommit == old(firstCommitNeeded) && !firstCommitNeeded && !dirtyBack && Due(now)
      ensures old(Ready()) ==> Ready()
      // a commit that lands shows the due frame and repairs whatever failed before it
      ensures ok && committed && Ready() ==> Healthy() && Screen() == Some(CursorPicture(x, y))
      ensures ok && committed ==> scanout == Some(activeIdx)
      ensures !(ok && committed) ==> scanout == old(scanout) && (old(SafeToBlit()) ==> Screen() == old(Screen()))
      // otherwise the buffers are swapped although the screen is not: the next blit is safe exactly when the
      // buffer that was active is not on screen, or, if there was nothing to swap, when it was safe before
      ensures ok && !committed ==>
                (SafeToBlit() <==>
                   if old(dirtyBack) || reblit then scanout != Some(old(activeIdx)) else old(SafeToBlit()))
      // and a plane that is off is forgotten
      ensures ok && !committed ==> (Remembered() <==> scanout.Some?)
      ensures ok && !committed ==> activeIdx == if old(dirtyBack) || reblit then 1 - old(activeIdx) else old(activeIdx)
      ensures !ok ==> activeIdx == old(activeIdx) && firstCommitNeeded == old(firstCommitNeeded)
      ensures old(SafeToBlit()) ==> torn == old(torn)
    {
      if cursor.None? {
        return false, false, false;
      }
      last := (x, y);
      ok, reblit, firstCommit := StageDueFrame(x, y, now, staged, committed);
    }

    /** Stages the frame that is due. */
    method StageDueFrame(x: int, y: int, now: nat, staged: bool, committed: bool)
      returns (ok: bool, reblit: bool, firstCommit: bool)
      requires Valid() && animStart <= now && cursor.Some?
      modifies this`buffers, this`lastFrame, this`lastBlit, this`torn, this`dirtyBack, this`activeIdx,
               this`firstCommitNeeded, this`scanout, this`scanoutRotation, this`scanoutAt
      ensures Valid() && (ok <==> staged && hasBuffers)
      ensures reblit <==> cursor.value.Animated() && !old(Due(now))
      ensures ok ==> firstCommit == old(firstCommitNeeded) && !firstCommitNeeded && !dirtyBack && Due(now)
      ensures old(Ready()) ==> Ready()
      ensures ok && committed && Ready() ==> Healthy() && Screen() == Some(CursorPicture(x, y))
      ensures ok && committed ==> scanout == Some(activeIdx)
      ensures !(ok && committed) ==> scanout == old(scanout) && (old(SafeToBlit()) ==> Screen() == old(Screen()))
      ensures ok && !committed ==>
                && (SafeToBlit() <==>
                      if old(dirtyBack) || reblit then scanout != Some(old(activeIdx)) else old(SafeToBlit()))
                && (Remembered() <==> scanout.Some?)
      ensures ok && !committed ==> activeIdx == if old(dirtyBack) || reblit then 1 - old(activeIdx) else old(activeIdx)
      ensures !ok ==> activeIdx == old(activeIdx) && firstCommitNeeded == old(firstCommitNeeded)
      ensures old(SafeToBlit()) ==> torn == old(torn)
    {
      reblit := Advance(now);
      ok, firstCommit := StageFrame(x, y, staged, committed);
    }

    /** The staging itself. */
    method StageFrame(x: int, y: int, staged: bool, committed: bool) returns (ok: bool, firstCommit: bool)
      requires Valid() && cursor.Some?
      modifies this`activeIdx, this`dirtyBack, this`firstCommitNeeded, this`scanout, this`scanoutRotation,
               this`scanoutAt
      ensures Valid() && (ok <==> staged && hasBuffers) && Ready() == old(Ready())
      ensures ok ==> firstCommit == old(firstCommitNeeded) && !firstCommitNeeded
      ensures ok ==> !dirtyBack && activeIdx == old(CommitIdx())
      ensures ok && committed && Ready() ==> Healthy() && Screen() == Some(CursorPicture(x, y))
      ensures ok && committed ==> scanout == Some(activeIdx)
      ensures !(ok && committed) ==> scanout == old(scanout) && Screen() == old(Screen())
      ensures ok && !committed ==>
                && (SafeToBlit() <==> if old(dirtyBack) then scanout != Some(old(activeIdx)) else old(SafeToBlit()))
                && (Remembered() <==> scanout.Some?)
      ensures !ok ==> activeIdx == old(activeIdx) && dirtyBack == old(dirtyBack)
      ensures !ok ==> firstCommitNeeded == old(firstCommitNeeded)
    {
      if !staged || !hasBuffers {
        return false, false;
      }
      firstCommit := firstCommitNeeded;
      if committed {
        Land(x, y);
      } else {
        SwapOnly();
      }
      ok := true;
    }
  }

  /** A cursor is on screen. */
  method ShowFirst(w: nat, h: nat, f: CursorFourcc, c: Cursor) returns (r: Renderer)
    requires 0 < w && 0 < h && c.Valid()
    ensures fresh(r) && r.Valid() && r.Healthy() && r.Live() && r.scanout == Some(r.activeIdx)
  {
    r := new Renderer(w, h, f, K0, None);
    var _ := r.SetCursor(Some(c), 0);
    var _ := r.MoveTo(0, 0, 0, true);
  }

  /** How a renderer gets into a state where the next blit tears: a cursor is on screen, another one is set, and
      the caller's commit of it fails. */
  method UnsafeAfterFailedStage(w: nat, h: nat, f: CursorFourcc, c: Cursor, d: Cursor) returns (r: Renderer)
    requires 0 < w && 0 < h && c.Valid() && d.Valid()
    ensures fresh(r) && r.Valid() && r.hasBuffers && r.Ready() && r.Live() && !r.SafeToBlit()
  {
    r := ShowAndSet(w, h, f, c, d);
    var _, _, _ := r.Stage(0, 0, 0, true, false);
  }

  /** And there it does: setting a cursor writes the buffer on screen. */
  method TornAfterFailedStage(w: nat, h: nat, f: CursorFourcc, c: Cursor, d: Cursor) returns (r: Renderer)
    requires 0 < w && 0 < h && c.Valid() && d.Valid()
    ensures fresh(r) && r.Valid() && r.torn
  {
    r := UnsafeAfterFailedStage(w, h, f, c, d);
    var _ := r.SetCursor(Some(c), r.animStart);
  }

  method ShowAndSet(w: nat, h: nat, f: CursorFourcc, c: Cursor, d: Cursor) returns (r: Renderer)
    requires 0 < w && 0 < h && c.Valid() && d.Valid()
    ensures fresh(r) && r.Valid() && r.hasBuffers && r.Ready() && r.Live() && r.animStart == 0
    ensures r.dirtyBack && r.scanout == Some(r.activeIdx)
  {
    r := ShowFirst(w, h, f, c);
    var _ := r.SetCursor(Some(d), 0);
  }

  /** Even then the next commit that lands shows the due frame and puts everything right. */
  method RepairedByNextCommit(r: Renderer, x: int, y: int, now: nat) returns (ok: bool)
    requires r.Valid() && r.hasBuffers && r.Ready() && r.Live() && r.animStart <= now
    modifies r
    ensures ok && r.Valid() && r.animStart == old(r.animStart) && r.Healthy() && r.Due(now)
              && r.Screen() == Some(r.CursorPicture(x, y))
  {
    ok := r.MoveTo(x, y, now, true);
  }

  lemma FrameAtInRange(c: Cursor, elapsed: nat)
    requires c.Valid()
    ensures c.FrameAt(elapsed) < |c.frames|
  {
    if |c.frames| > 1 && c.CycleTo(|c.delays|) != 0 {
      FirstAfterInRange(c, elapsed % c.CycleTo(|c.delays|), 0);
    }
  }

  /** The picture that landed commits put on screen has the hotspot pixel of a frame that fits under the pointer, unless
      the plane turns it. */
  lemma PictureShowsTip(r: Renderer, x: int, y: int)
    requires r.Shaped() && r.Ready() && r.lastFrame.Some? && HotspotInside(r.lastFrame.value.frame)
    requires var f, sw := r.lastFrame.value.frame, r.EffectiveSwRotation();
             !NeedsDownscale(RotW(f, sw), RotH(f, sw), r.width, r.height)
    ensures var p, f := r.CursorPicture(x, y), r.lastFrame.value.frame;
            && Sized(p.pixels, r.width, r.height) && 0 <= x - p.at.0 < r.width && 0 <= y - p.at.1 < r.height
            && ScannedOut(p.pixels[y - p.at.1][x - p.at.0], r.format) == f.pixels[f.yhot][f.xhot]
  {
    TipUnderPointer(r.lastFrame.value, r.EffectiveSwRotation(), r.width, r.height, r.format, x, y);
  }

  function Blank(w: nat, h: nat): Image<Word> {
    seq(h, _ => seq(w, _ => CLEAR))
  }
}
