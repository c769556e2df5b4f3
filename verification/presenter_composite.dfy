/** The KMS composite presenter: incremental redraws into a double-buffered canvas
    (src/csd/presenter_composite.cpp). */
module CompositePresenter {
  import opened Wrappers
  import opened Grid
  import opened Damage
  import opened Canvas
  import opened Decorations
  import opened FbPresenter

  // ---- a frame as a relation, for any canvas that flushes at least what the frame redrew ----

  datatype Config = Config(w: nat, h: nat, fourcc: Fourcc, background: Option<Image<Argb>>)

  ghost predicate ValidConfig(c: Config) {
    c.background.Some? ==> Sized(c.background.value, c.w, c.h)
  }

  /** The bottom layer: the opaque backdrop, or transparent black. */
  function Base(c: Config, x: int, y: int): Argb
    requires ValidConfig(c) && OnCanvas(x, y, c.w, c.h)
  {
    if c.background.Some? then Prepared(Xrgb8888, c.background.value[y][x]) else CLEAR
  }

  /** The shadow, the buffer on screen, the other one, and what the last successful frame left behind. */
  datatype Screen = Screen(shadow: Image<Argb>, front: Image<Scanout>, other: Image<Scanout>,
                           prev: seq<SurfaceRef>, prevDamage: DamageRect)

  ghost predicate ValidScreen(c: Config, s: Screen) {
    && ValidConfig(c) && WellFormedRefs(s.prev)
    && Sized(s.shadow, c.w, c.h) && Sized(s.front, c.w, c.h) && Sized(s.other, c.w, c.h)
  }

  function Region(c: Config, s: Screen, refs: seq<SurfaceRef>): DamageRect {
    UnionRect(DamageOf(Slots(s.prev), Slots(refs), c.w, c.h), s.prevDamage)
  }

  /** A successful frame. The buffer that was off screen is flushed and shown; outside the redrawn region
      the flush may copy a pixel or leave it alone. */
  ghost predicate Step(c: Config, s: Screen, refs: seq<SurfaceRef>, t: Screen) {
    && ValidScreen(c, s) && ValidScreen(c, t) && t.prev == refs
    && t.prevDamage == DamageOf(Slots(s.prev), Slots(refs), c.w, c.h)
    && t.other == s.front
    && forall y, x :: 0 <= y < c.h && 0 <= x < c.w ==>
         if Region(c, s, refs).Has(x, y)
         then t.shadow[y][x] == FullPixel(Base(c, x, y), refs, x, y)
              && t.front[y][x] == ConvertPixel(t.shadow[y][x], c.fourcc)
         else t.shadow[y][x] == s.shadow[y][x]
              && (t.front[y][x] == s.other[y][x] || t.front[y][x] == ConvertPixel(t.shadow[y][x], c.fourcc))
  }

  /** The screen shows the full recomposite of `refs`, pixel for pixel. */
  ghost predicate Shows(c: Config, s: Screen, refs: seq<SurfaceRef>)
    requires ValidScreen(c, s) && WellFormedRefs(refs)
  {
    forall y, x :: 0 <= y < c.h && 0 <= x < c.w ==>
      s.shadow[y][x] == FullPixel(Base(c, x, y), refs, x, y) && s.front[y][x] == ConvertPixel(s.shadow[y][x], c.fourcc)
  }

  /** The buffer two frames old lags by the last frame's damage, and by nothing else. */
  ghost predicate Invariant(c: Config, s: Screen)
    requires ValidScreen(c, s)
  {
    s.prev != [] ==>
      && Shows(c, s, s.prev)
      && forall y, x :: 0 <= y < c.h && 0 <= x < c.w && !s.prevDamage.Has(x, y) ==>
           s.other[y][x] == ConvertPixel(s.shadow[y][x], c.fourcc)
  }

  lemma StepKeepsInvariant(c: Config, s: Screen, refs: seq<SurfaceRef>, t: Screen)
    requires Step(c, s, refs, t) && Invariant(c, s) && Coherent(s.prev, refs)
    ensures Shows(c, t, refs) && Invariant(c, t)
  {
    var dmg := DamageOf(Slots(s.prev), Slots(refs), c.w, c.h);
    forall y, x | 0 <= y < c.h && 0 <= x < c.w
      ensures t.shadow[y][x] == FullPixel(Base(c, x, y), refs, x, y)
      ensures t.front[y][x] == ConvertPixel(t.shadow[y][x], c.fourcc)
      ensures refs != [] && !dmg.Has(x, y) ==> t.other[y][x] == ConvertPixel(t.shadow[y][x], c.fourcc)
    {
      if !dmg.Has(x, y) {
        OutsideDamage(Base(c, x, y), s.prev, refs, c.w, c.h, x, y);
      }
    }
  }

  /** A run: every frame is a step from the screen before it. */
  ghost predicate Run(c: Config, screens: seq<Screen>, frames: seq<seq<SurfaceRef>>) {
    && |screens| == |frames| + 1
    && forall k :: 0 <= k < |frames| ==> Step(c, screens[k], frames[k], screens[k + 1])
  }

  /** Over every run from a fresh presenter, whatever the two buffers and the shadow held at the start,
      each frame shows exactly what compositing it from scratch would have shown. */
  lemma {:induction false} RunShowsEveryFrame(c: Config, screens: seq<Screen>, frames: seq<seq<SurfaceRef>>, k: nat)
    requires Run(c, screens, frames) && screens[0].prev == []
    requires forall i :: 0 < i < |frames| ==> Coherent(frames[i - 1], frames[i])
    requires k < |frames|
    ensures Step(c, screens[k], frames[k], screens[k + 1])
    ensures Shows(c, screens[k + 1], frames[k]) && Invariant(c, screens[k + 1])
  {
    assert Step(c, screens[k], frames[k], screens[k + 1]);
    if k == 0 {
      assert DamageOf(Slots([]), Slots(frames[0]), c.w, c.h) == DamageRect(0, 0, c.w, c.h);
    } else {
      RunShowsEveryFrame(c, screens, frames, k - 1);
      assert Coherent(frames[k - 1], frames[k]);
    }
    StepKeepsInvariant(c, screens[k], frames[k], screens[k + 1]);
  }

  // ---- when a frame is right ----

  /** Outside the rectangle r, both frames composite to the same pixels. */
  ghost predicate SameOff(c: Config, r: DamageRect, prev: seq<SurfaceRef>, refs: seq<SurfaceRef>)
    requires ValidConfig(c) && WellFormedRefs(prev) && WellFormedRefs(refs)
  {
    forall y, x :: 0 <= y < c.h && 0 <= x < c.w && !r.Has(x, y) ==>
      FullPixel(Base(c, x, y), prev, x, y) == FullPixel(Base(c, x, y), refs, x, y)
  }

  /** After a frame that was right, the next one is right if and only if what it does not redraw composites
      as it did before. */
  lemma FrameIsRightIff(c: Config, s: Screen, refs: seq<SurfaceRef>, t: Screen)
    requires Step(c, s, refs, t) && Invariant(c, s) && s.prev != []
    ensures Shows(c, t, refs) <==> SameOff(c, Region(c, s, refs), s.prev, refs)
  {
    forall y, x | 0 <= y < c.h && 0 <= x < c.w
      ensures t.front[y][x] == ConvertPixel(t.shadow[y][x], c.fourcc)
      ensures !Region(c, s, refs).Has(x, y) ==> t.shadow[y][x] == FullPixel(Base(c, x, y), s.prev, x, y)
    {
    }
  }

  /** Coherent frames meet that condition: what a caller has to see to is that equal slots show one surface. */
  lemma CoherentIsSameOff(c: Config, s: Screen, refs: seq<SurfaceRef>)
    requires ValidScreen(c, s) && WellFormedRefs(refs) && Coherent(s.prev, refs)
    ensures SameOff(c, Region(c, s, refs), s.prev, refs)
  {
    forall y, x | 0 <= y < c.h && 0 <= x < c.w && !Region(c, s, refs).Has(x, y)
      ensures FullPixel(Base(c, x, y), s.prev, x, y) == FullPixel(Base(c, x, y), refs, x, y)
    {
      OutsideDamage(Base(c, x, y), s.prev, refs, c.w, c.h, x, y);
    }
  }

  // ---- successful and failed frames of this presenter ----

  /** The screen, and whether an odd number of frames failed since the last success. */
  datatype Book = Book(screen: Screen, outOfTurn: bool)

  /** `front` is `shadow` converted pixel by pixel. */
  ghost predicate AllConverted(shadow: Image<Argb>, front: Image<Scanout>, w: nat, h: nat, fourcc: Fourcc)
    requires Sized(shadow, w, h) && Sized(front, w, h)
  {
    forall y, x :: 0 <= y < h && 0 <= x < w ==> front[y][x] == ConvertPixel(shadow[y][x], fourcc)
  }

  /** Inside the region, the base with the first n decorations of `refs`; outside, the pixels of `before`. */
  ghost predicate Redrawn(c: Config, region: DamageRect, refs: seq<SurfaceRef>, n: nat, before: Image<Argb>,
      after: Image<Argb>)
    requires ValidConfig(c) && WellFormedRefs(refs) && n <= |refs| && Sized(before, c.w, c.h) && Sized(after, c.w, c.h)
  {
    forall y, x :: 0 <= y < c.h && 0 <= x < c.w ==>
      after[y][x] == if region.Has(x, y) then Recomposite(Base(c, x, y), refs, n, x, y) else before[y][x]
  }

  /** A successful frame redraws its region and flushes the whole shadow, into the buffer that is off
      screen if the buffers are in turn and into the one on screen otherwise. */
  ghost predicate GoodFrame(c: Config, s: Book, refs: seq<SurfaceRef>, t: Book) {
    && ValidScreen(c, s.screen) && ValidScreen(c, t.screen) && t.screen.prev == refs && !t.outOfTurn
    && t.screen.prevDamage == DamageOf(Slots(s.screen.prev), Slots(refs), c.w, c.h)
    && t.screen.other == (if s.outOfTurn then s.screen.other else s.screen.front)
    && AllConverted(t.screen.shadow, t.screen.front, c.w, c.h, c.fourcc)
    && Redrawn(c, Region(c, s.screen, refs), refs, |refs|, s.screen.shadow, t.screen.shadow)
  }

  /** A frame that fails at slot j has cleared its region and blended only the slots below j, and has put the
      buffers out of turn, but the slots and damage the next frame is diffed against are still those of the
      last successful frame. */
  ghost predicate BadFrame(c: Config, s: Book, refs: seq<SurfaceRef>, j: nat, t: Book) {
    && ValidScreen(c, s.screen) && WellFormedRefs(refs) && j < |refs|
    && t == Book(s.screen.(shadow := t.screen.shadow), !s.outOfTurn) && Sized(t.screen.shadow, c.w, c.h)
    && Redrawn(c, Region(c, s.screen, refs), refs, j, s.screen.shadow, t.screen.shadow)
  }

  /** With the buffers in turn, a successful frame is a step of the run theorem above. */
  lemma GoodFrameIsStep(c: Config, s: Book, refs: seq<SurfaceRef>, t: Book)
    requires GoodFrame(c, s, refs, t) && !s.outOfTurn
    ensures Step(c, s.screen, refs, t.screen)
  {
  }

  /** Whatever came before, a successful frame shows in its final colours every canvas pixel of a decoration that
      came, went, moved, was resized or was painted anew. */
  lemma ChangedWindowShows(c: Config, s: Book, refs: seq<SurfaceRef>, t: Book, i: nat, x: int, y: int)
    requires GoodFrame(c, s, refs, t) && i < |refs| == |s.screen.prev| && OnCanvas(x, y, c.w, c.h)
    requires var p, r := s.screen.prev[i], refs[i];
             p.surface.Some? != r.surface.Some? ||
             (p.surface.Some? && r.surface.Some? &&
              (p.x != r.x || p.y != r.y || p.surface.value.width != r.surface.value.width
               || p.surface.value.height != r.surface.value.height || p.surface.value.gen != r.surface.value.gen))
    requires Reaches(s.screen.prev[i], x, y) || Reaches(refs[i], x, y)
    ensures t.screen.front[y][x] == ConvertPixel(FullPixel(Base(c, x, y), refs, x, y), c.fourcc)
  {
    ChangeIsDamaged(s.screen.prev, refs, i, c.w, c.h, x, y);
    assert Region(c, s.screen, refs).Has(x, y);
  }

  /** Where no decoration lies, a correct frame shows the opaque backdrop, or nothing if there is none. */
  lemma BackdropShows(c: Config, refs: seq<SurfaceRef>, x: int, y: int)
    requires ValidConfig(c) && WellFormedRefs(refs) && OnCanvas(x, y, c.w, c.h)
    requires forall j :: 0 <= j < |refs| ==> !Reaches(refs[j], x, y)
    ensures FullPixel(Base(c, x, y), refs, x, y) ==
            match c.background { case None => Argb(0, 0, 0, 0) case Some(b) => b[y][x].(a := 255) }
  {
    UncoveredShowsBase(Base(c, x, y), refs, |refs|, x, y);
  }

  /** After a right frame, a failed one and a successful one, the screen shows the shadow, and a pixel of that
      is right if and only if the successful frame redrew it, or the failed frame never touched it, or what
      the failed frame had drawn there so far happens to be what belongs there. */
  lemma RecoveryIsExact(c: Config, s: Book, bad: seq<SurfaceRef>, j: nat, t: Book, refs: seq<SurfaceRef>, u: Book,
      x: int, y: int)
    requires BadFrame(c, s, bad, j, t) && GoodFrame(c, t, refs, u)
    requires s.screen.prev != [] && Coherent(s.screen.prev, refs) && OnCanvas(x, y, c.w, c.h)
    requires s.screen.shadow[y][x] == FullPixel(Base(c, x, y), s.screen.prev, x, y)
    ensures u.screen.front[y][x] == ConvertPixel(u.screen.shadow[y][x], c.fourcc)
    ensures u.screen.shadow[y][x] == FullPixel(Base(c, x, y), refs, x, y) <==>
            Region(c, s.screen, refs).Has(x, y) || !Region(c, s.screen, bad).Has(x, y) ||
            Recomposite(Base(c, x, y), bad, j, x, y) == FullPixel(Base(c, x, y), s.screen.prev, x, y)
  {
    if !Region(c, s.screen, refs).Has(x, y) {
      OutsideDamage(Base(c, x, y), s.screen.prev, refs, c.w, c.h, x, y);
    }
  }

  /** A frame compared with itself has no damage. */
  lemma {:induction false} SelfHull(slots: seq<DamageSlot>, n: nat)
    requires n <= |slots|
    ensures Hull(slots, slots, n) == NO_BOUNDS
  {
    if n > 0 {
      SelfHull(slots, n - 1);
    }
  }

  /** A redraw of the whole canvas that fails at its first decoration, and then the last good frame again: that
      finds no damage of its own, so the screen goes back to the bare backdrop wherever the good frame before
      had no damage. */
  lemma FailedFrameErases(c: Config, s: Book, bad: seq<SurfaceRef>, t: Book, u: Book, x: int, y: int)
    requires BadFrame(c, s, bad, 0, t) && GoodFrame(c, t, s.screen.prev, u) && s.screen.prev != []
    requires Region(c, s.screen, bad) == DamageRect(0, 0, c.w, c.h) && OnCanvas(x, y, c.w, c.h)
    ensures u.screen.prevDamage == NO_DAMAGE
    ensures u.screen.front[y][x] ==
            ConvertPixel(if s.screen.prevDamage.Has(x, y) then FullPixel(Base(c, x, y), s.screen.prev, x, y)
                         else Base(c, x, y), c.fourcc)
  {
    SelfHull(Slots(s.screen.prev), |s.screen.prev|);
    assert Recomposite(Base(c, x, y), bad, 0, x, y) == Base(c, x, y);
  }

  /** Showing an unchanged desktop again, any number of times, repairs nothing. */
  lemma {:induction false} RepeatsRepairNothing(c: Config, books: seq<Book>, refs: seq<SurfaceRef>, k: nat)
    requires k < |books| && refs != [] && books[0].screen.prev == refs && books[0].screen.prevDamage == NO_DAMAGE
    requires ValidScreen(c, books[0].screen)
    requires AllConverted(books[0].screen.shadow, books[0].screen.front, c.w, c.h, c.fourcc)
    requires forall i :: 0 <= i < k ==> GoodFrame(c, books[i], refs, books[i + 1])
    ensures ValidScreen(c, books[k].screen) && books[k].screen.prev == refs && books[k].screen.prevDamage == NO_DAMAGE
    ensures forall y, x :: 0 <= y < c.h && 0 <= x < c.w ==> books[k].screen.front[y][x] == books[0].screen.front[y][x]
    ensures forall y, x :: 0 <= y < c.h && 0 <= x < c.w ==> books[k].screen.shadow[y][x] == books[0].screen.shadow[y][x]
  {
    if k > 0 {
      RepeatsRepairNothing(c, books, refs, k - 1);
      assert GoodFrame(c, books[k - 1], refs, books[k]);
      SelfHull(Slots(refs), |refs|);
    }
  }

  lemma OneSlotDamage(p: SurfaceRef, r: SurfaceRef, w: nat, h: nat)
    ensures DamageOf(Slots([p]), Slots([r]), w, h) ==
            ClampToCanvas(if Changed(SlotOf(p), SlotOf(r)) then AddSlot(AddSlot(NO_BOUNDS, SlotOf(p)), SlotOf(r))
                          else NO_BOUNDS, w, h)
  {
    assert Hull(Slots([p]), Slots([r]), 0) == NO_BOUNDS;
  }

  lemma OneWindow(raw: Argb)
    ensures var ref := SurfaceRef(Some(Source(1, 1, Xrgb8888, 0, [[raw]])), 0, 0);
            WellFormedRefs([ref]) && FullPixel(CLEAR, [ref], 0, 0) == raw.(a := 255)
  {
    var ref := SurfaceRef(Some(Source(1, 1, Xrgb8888, 0, [[raw]])), 0, 0);
    assert Recomposite(CLEAR, [ref], 0, 0, 0) == CLEAR;
  }

  lemma ResizeSlots(a: DamageSlot, b: DamageSlot, w: nat, h: nat)
    requires a == DamageSlot(true, 0, 0, 1, 1, 0) && b == DamageSlot(true, 0, 0, 2, 1, 1) && w == h == 1
    ensures Changed(a, b) && ClampToCanvas(AddSlot(AddSlot(NO_BOUNDS, a), b), w, h) == DamageRect(0, 0, 1, 1)
  {
  }

  lemma ResizeDamage(small: SurfaceRef, large: SurfaceRef, w: nat, h: nat)
    requires SlotOf(small) == DamageSlot(true, 0, 0, 1, 1, 0) && SlotOf(large) == DamageSlot(true, 0, 0, 2, 1, 1)
    requires w == h == 1
    ensures DamageOf(Slots([small]), Slots([large]), w, h) == DamageRect(0, 0, 1, 1)
  {
    OneSlotDamage(small, large, w, h);
    ResizeSlots(SlotOf(small), SlotOf(large), w, h);
  }

  lemma WideWindow(raw: Argb)
    ensures WellFormedRefs([SurfaceRef(Some(Source(2, 1, Xrgb8888, 1, [[raw, raw]])), 0, 0)])
  {
    var pixels := [[raw, raw]];
    assert |pixels| == 1 && |pixels[0]| == 2;
    assert WellFormed(Source(2, 1, Xrgb8888, 1, pixels));
  }

  /** A one-pixel desktop with an opaque window, and the same window resized. */
  lemma ResizedWindow() returns (c: Config, s: Screen, bad: seq<SurfaceRef>)
    ensures c.w == c.h == 1 && c.background.None? && ValidScreen(c, s) && WellFormedRefs(bad) && bad != []
    ensures s.prev != [] && s.other == s.front && s.prevDamage == NO_DAMAGE
    ensures Region(c, s, bad) == DamageRect(0, 0, 1, 1) && c.fourcc == ARGB8888
    ensures s.shadow[0][0] == FullPixel(CLEAR, s.prev, 0, 0) == Argb(255, 255, 0, 0)
    ensures s.front[0][0] == ConvertPixel(s.shadow[0][0], c.fourcc)
  {
    var raw, red := Argb(0, 255, 0, 0), Argb(255, 255, 0, 0);
    var small := SurfaceRef(Some(Source(1, 1, Xrgb8888, 0, [[raw]])), 0, 0);
    var large := SurfaceRef(Some(Source(2, 1, Xrgb8888, 1, [[raw, raw]])), 0, 0);
    c, bad := Config(1, 1, ARGB8888, None), [large];
    var out := [[ConvertPixel(red, ARGB8888)]];
    s := Screen([[red]], out, out, [small], NO_DAMAGE);
    OneWindow(raw);
    WideWindow(raw);
    assert ValidScreen(c, s) && WellFormedRefs(bad);
    ResizeDamage(small, large, c.w, c.h);
    assert UnionRect(DamageRect(0, 0, 1, 1), NO_DAMAGE) == DamageRect(0, 0, 1, 1);
  }

  /** For instance: a window is on screen; it is resized and that frame fails; it gets its old size back, and
      the screen no longer shows it. */
  lemma FailedResizeErasesWindow() returns (c: Config, s: Book, bad: seq<SurfaceRef>, t: Book, u: Book)
    ensures BadFrame(c, s, bad, 0, t) && GoodFrame(c, t, s.screen.prev, u)
    ensures Invariant(c, s.screen) && !s.outOfTurn && s.screen.prev != []
    ensures c.w == c.h == 1 && s.screen.front[0][0] != u.screen.front[0][0] == ConvertPixel(CLEAR, c.fourcc)
  {
    var shown: Screen;
    c, shown, bad := ResizedWindow();
    s := Book(shown, false);
    var blank := [[CLEAR]];
    t := Book(shown.(shadow := blank), true);
    u := Book(Screen(blank, [[ConvertPixel(CLEAR, c.fourcc)]], shown.other, shown.prev, NO_DAMAGE), false);
    assert Recomposite(CLEAR, bad, 0, 0, 0) == CLEAR;
    assert BadFrame(c, s, bad, 0, t);
    SelfHull(Slots(shown.prev), |shown.prev|);
    assert DamageOf(Slots(shown.prev), Slots(shown.prev), c.w, c.h) == NO_DAMAGE;
    assert GoodFrame(c, t, shown.prev, u);
  }

  lemma TwinWindows(a: Argb, b: Argb)
    requires b.a == 255
    ensures var refs := [Window(a), Window(b)];
            WellFormedRefs(refs) && FullPixel(CLEAR, refs, 0, 0) == b
  {
    var refs := [Window(a), Window(b)];
    assert refs[1] == Window(b) && WellFormed(Window(a).surface.value) && WellFormed(Window(b).surface.value);
    assert FullPixel(CLEAR, refs, 0, 0) == Contribution(refs[1], 0, 0, Recomposite(CLEAR, refs, 1, 0, 0));
  }

  /** A one-pixel window. */
  function Window(p: Argb): SurfaceRef {
    SurfaceRef(Some(Source(1, 1, Argb8888, 0, [[p]])), 0, 0)
  }

  /** Two windows of one size, place and generation that swap their places in the stack look unchanged to the
      diff, and the screen goes on showing the one that is now below. */
  lemma SwappedTwinsGoUnseen() returns (c: Config, s: Book, refs: seq<SurfaceRef>, t: Book)
    ensures GoodFrame(c, s, refs, t) && Invariant(c, s.screen) && !s.outOfTurn
    ensures |s.screen.prev| == 2 && refs == [s.screen.prev[1], s.screen.prev[0]] && Slots(refs) == Slots(s.screen.prev)
    ensures c.w == c.h == 1 && t.screen.front[0][0] != ConvertPixel(FullPixel(Base(c, 0, 0), refs, 0, 0), c.fourcc)
  {
    var red, blue := Argb(255, 255, 0, 0), Argb(255, 0, 0, 255);
    c := Config(1, 1, ARGB8888, None);
    var prev := [Window(red), Window(blue)];
    refs := [Window(blue), Window(red)];
    var out := [[ConvertPixel(blue, ARGB8888)]];
    s := Book(Screen([[blue]], out, out, prev, NO_DAMAGE), false);
    t := Book(Screen([[blue]], out, out, refs, NO_DAMAGE), false);
    TwinWindows(red, blue);
    TwinWindows(blue, red);
    assert ValidScreen(c, s.screen) && ValidScreen(c, t.screen);
    SelfHull(Slots(prev), 2);
    assert Slots(refs) == Slots(prev);
    assert DamageOf(Slots(prev), Slots(refs), c.w, c.h) == NO_DAMAGE;
    assert GoodFrame(c, s, refs, t);
  }

  // ---- runs that mix successful and failed frames ----

  /** One call of apply: the slots it was given, and the slot whose mapping failed, if one did. */
  datatype Frame = Frame(refs: seq<SurfaceRef>, failedAt: Option<nat>)

  /** How many of its decorations a frame blends. */
  function Blended(f: Frame): nat {
    if f.failedAt.Some? then f.failedAt.value else |f.refs|
  }

  ghost predicate WellFormedFrames(frames: seq<Frame>) {
    forall i :: 0 <= i < |frames| ==> WellFormedRefs(frames[i].refs) && Blended(frames[i]) <= |frames[i].refs|
  }

  ghost predicate BookStep(c: Config, s: Book, f: Frame, t: Book) {
    match f.failedAt
    case None => GoodFrame(c, s, f.refs, t)
    case Some(j) => BadFrame(c, s, f.refs, j, t)
  }

  /** A run of a fresh presenter, whatever its buffers and shadow held. */
  ghost predicate BookRun(c: Config, books: seq<Book>, frames: seq<Frame>) {
    && |books| == |frames| + 1 && WellFormedFrames(frames) && ValidScreen(c, books[0].screen)
    && books[0].screen.prev == [] && books[0].screen.prevDamage == NO_DAMAGE && !books[0].outOfTurn
    && forall k :: 0 <= k < |frames| ==> BookStep(c, books[k], frames[k], books[k + 1])
  }

  /** The last successful one of the first k frames. */
  function LastGood(frames: seq<Frame>, k: nat): seq<SurfaceRef>
    requires k <= |frames|
  {
    if k == 0 then [] else if frames[k - 1].failedAt.None? then frames[k - 1].refs else LastGood(frames, k - 1)
  }

  /** And its damage. */
  function LastDamage(c: Config, frames: seq<Frame>, k: nat): DamageRect
    requires k <= |frames|
  {
    if k == 0 then NO_DAMAGE
    else if frames[k - 1].failedAt.None?
    then DamageOf(Slots(LastGood(frames, k - 1)), Slots(frames[k - 1].refs), c.w, c.h)
    else LastDamage(c, frames, k - 1)
  }

  /** What frame k redraws. */
  function RegionAt(c: Config, frames: seq<Frame>, k: nat): DamageRect
    requires k < |frames|
  {
    UnionRect(DamageOf(Slots(LastGood(frames, k)), Slots(frames[k].refs), c.w, c.h), LastDamage(c, frames, k))
  }

  /** The colour of a pixel after k frames: what the last of them that redrew it left there, whether or not it
      got through. */
  ghost function Drawn(c: Config, start: Image<Argb>, frames: seq<Frame>, k: nat, x: int, y: int): Argb
    requires ValidConfig(c) && WellFormedFrames(frames) && k <= |frames| && Sized(start, c.w, c.h)
               && OnCanvas(x, y, c.w, c.h)
  {
    if k == 0 then start[y][x]
    else if RegionAt(c, frames, k - 1).Has(x, y) then
      Recomposite(Base(c, x, y), frames[k - 1].refs, Blended(frames[k - 1]), x, y)
    else Drawn(c, start, frames, k - 1, x, y)
  }

  /** What the presenter remembers is the last good frame and its damage. */
  lemma {:induction false} RunRemembers(c: Config, books: seq<Book>, frames: seq<Frame>, k: nat)
    requires BookRun(c, books, frames) && k <= |frames|
    ensures ValidScreen(c, books[k].screen)
    ensures books[k].screen.prev == LastGood(frames, k) && books[k].screen.prevDamage == LastDamage(c, frames, k)
  {
    if k > 0 {
      RunRemembers(c, books, frames, k - 1);
      assert BookStep(c, books[k - 1], frames[k - 1], books[k]);
    }
  }

  lemma StepDraws(c: Config, s: Book, f: Frame, t: Book, x: int, y: int)
    requires BookStep(c, s, f, t) && ValidScreen(c, s.screen) && Blended(f) <= |f.refs| && WellFormedRefs(f.refs)
    requires OnCanvas(x, y, c.w, c.h)
    ensures ValidScreen(c, t.screen)
    ensures t.screen.shadow[y][x] ==
            if Region(c, s.screen, f.refs).Has(x, y) then Recomposite(Base(c, x, y), f.refs, Blended(f), x, y)
            else s.screen.shadow[y][x]
  {
  }

  /** Over every run, failures included and with any frames at all, the shadow is exactly what was last drawn,
      and a successful frame puts exactly that on screen. */
  lemma {:induction false} RunIsExact(c: Config, books: seq<Book>, frames: seq<Frame>, k: nat)
    requires BookRun(c, books, frames) && k <= |frames|
    ensures ValidScreen(c, books[k].screen)
    ensures forall y, x :: 0 <= y < c.h && 0 <= x < c.w ==>
              books[k].screen.shadow[y][x] == Drawn(c, books[0].screen.shadow, frames, k, x, y)
    ensures k > 0 && frames[k - 1].failedAt.None? ==>
              AllConverted(books[k].screen.shadow, books[k].screen.front, c.w, c.h, c.fourcc)
  {
    if k > 0 {
      RunIsExact(c, books, frames, k - 1);
      RunRemembers(c, books, frames, k - 1);
      RunRemembers(c, books, frames, k);
      assert BookStep(c, books[k - 1], frames[k - 1], books[k]);
      forall y, x | 0 <= y < c.h && 0 <= x < c.w
        ensures books[k].screen.shadow[y][x] == Drawn(c, books[0].screen.shadow, frames, k, x, y)
      {
        StepDraws(c, books[k - 1], frames[k - 1], books[k], x, y);
      }
    }
  }

  /** So frame k, if it succeeds, is shown right if and only if every pixel's last redraw left there what the
      frame composites to. */
  lemma RunIsRightIff(c: Config, books: seq<Book>, frames: seq<Frame>, k: nat)
    requires BookRun(c, books, frames) && k < |frames| && frames[k].failedAt.None?
    ensures ValidScreen(c, books[k + 1].screen)
    ensures Shows(c, books[k + 1].screen, frames[k].refs) <==>
            forall y, x :: 0 <= y < c.h && 0 <= x < c.w ==>
              Drawn(c, books[0].screen.shadow, frames, k + 1, x, y) == FullPixel(Base(c, x, y), frames[k].refs, x, y)
  {
    RunIsExact(c, books, frames, k + 1);
  }

  /** The number of the last of the first k frames that redrew the pixel, counted from 1; 0 if none did. */
  function LastTouch(c: Config, frames: seq<Frame>, k: nat, x: int, y: int): (i: nat)
    requires k <= |frames|
    ensures i <= k
  {
    if k == 0 then 0 else if RegionAt(c, frames, k - 1).Has(x, y) then k else LastTouch(c, frames, k - 1, x, y)
  }

  /** Each successful frame is coherent with the successful one before it. */
  ghost predicate CoherentRun(frames: seq<Frame>) {
    forall k :: 0 <= k < |frames| && frames[k].failedAt.None? ==> Coherent(LastGood(frames, k), frames[k].refs)
  }

  /** A frame touched a pixel last and failed. */
  predicate LostTo(c: Config, frames: seq<Frame>, k: nat, x: int, y: int)
    requires k <= |frames|
  {
    var i := LastTouch(c, frames, k, x, y);
    i > 0 && frames[i - 1].failedAt.Some?
  }

  lemma {:induction false} LastGoodWellFormed(frames: seq<Frame>, k: nat)
    requires WellFormedFrames(frames) && k <= |frames|
    ensures WellFormedRefs(LastGood(frames, k))
  {
    if k > 0 {
      LastGoodWellFormed(frames, k - 1);
    }
  }

  /** In a coherent run, a pixel that a failed frame touched last holds what that frame had drawn there so far,
      and every other one holds the full recomposite of the last good frame. */
  lemma {:induction false} DrawnIs(c: Config, start: Image<Argb>, frames: seq<Frame>, k: nat, x: int, y: int)
    requires ValidConfig(c) && WellFormedFrames(frames) && CoherentRun(frames) && k <= |frames|
    requires Sized(start, c.w, c.h) && OnCanvas(x, y, c.w, c.h) && LastGood(frames, k) != []
    ensures WellFormedRefs(LastGood(frames, k))
    ensures var i := LastTouch(c, frames, k, x, y);
            Drawn(c, start, frames, k, x, y) ==
            if LostTo(c, frames, k, x, y)
            then Recomposite(Base(c, x, y), frames[i - 1].refs, frames[i - 1].failedAt.value, x, y)
            else FullPixel(Base(c, x, y), LastGood(frames, k), x, y)
  {
    LastGoodWellFormed(frames, k);
    LastGoodWellFormed(frames, k - 1);
    if RegionAt(c, frames, k - 1).Has(x, y) {
      assert LastTouch(c, frames, k, x, y) == k;
    } else {
      NotFirst(c, frames, k, x, y);
      DrawnIs(c, start, frames, k - 1, x, y);
      assert LastTouch(c, frames, k, x, y) == LastTouch(c, frames, k - 1, x, y);
    }
  }

  /** A frame that leaves a pixel alone is not the first good one, and composites it as the good one before. */
  lemma NotFirst(c: Config, frames: seq<Frame>, k: nat, x: int, y: int)
    requires ValidConfig(c) && WellFormedFrames(frames) && CoherentRun(frames) && 0 < k <= |frames|
               && OnCanvas(x, y, c.w, c.h)
    requires WellFormedRefs(LastGood(frames, k)) && WellFormedRefs(LastGood(frames, k - 1))
    requires LastGood(frames, k) != [] && !RegionAt(c, frames, k - 1).Has(x, y)
    ensures LastGood(frames, k - 1) != []
    ensures FullPixel(Base(c, x, y), LastGood(frames, k), x, y)
              == FullPixel(Base(c, x, y), LastGood(frames, k - 1), x, y)
  {
    if frames[k - 1].failedAt.None? {
      OutsideDamage(Base(c, x, y), LastGood(frames, k - 1), frames[k - 1].refs, c.w, c.h, x, y);
    }
  }

  /** Over every coherent run, failures included, a successful frame puts on screen, at every pixel, its full
      recomposite, unless a failed frame was the last to touch the pixel: then what that frame had drawn. */
  lemma RunWithFailures(c: Config, books: seq<Book>, frames: seq<Frame>, k: nat, x: int, y: int)
    requires BookRun(c, books, frames) && CoherentRun(frames) && k < |frames| && frames[k].failedAt.None?
    requires frames[k].refs != [] && OnCanvas(x, y, c.w, c.h)
    ensures ValidScreen(c, books[k + 1].screen)
    ensures var i := LastTouch(c, frames, k + 1, x, y);
            books[k + 1].screen.front[y][x] ==
            ConvertPixel(if LostTo(c, frames, k + 1, x, y)
                         then Recomposite(Base(c, x, y), frames[i - 1].refs, frames[i - 1].failedAt.value, x, y)
                         else FullPixel(Base(c, x, y), frames[k].refs, x, y), c.fourcc)
  {
    RunIsExact(c, books, frames, k + 1);
    DrawnIs(c, books[0].screen.shadow, frames, k + 1, x, y);
  }

  /** Failed frames among the first k since the last success. */
  function FailuresSince(frames: seq<Frame>, k: nat): nat
    requires k <= |frames|
  {
    if k == 0 || frames[k - 1].failedAt.None? then 0 else FailuresSince(frames, k - 1) + 1
  }

  predicate Odd(n: nat) {
    n % 2 == 1
  }

  lemma TurnStep(c: Config, s: Book, f: Frame, t: Book)
    requires BookStep(c, s, f, t)
    ensures t.outOfTurn <==> f.failedAt.Some? && !s.outOfTurn
  {
  }

  lemma {:induction false} ParityFollows(books: seq<Book>, frames: seq<Frame>, k: nat)
    requires |books| == |frames| + 1 && k <= |frames| && !books[0].outOfTurn
    requires forall i :: 0 <= i < k ==> (books[i + 1].outOfTurn <==> frames[i].failedAt.Some? && !books[i].outOfTurn)
    ensures books[k].outOfTurn <==> Odd(FailuresSince(frames, k))
  {
    if k > 0 {
      ParityFollows(books, frames, k - 1);
    }
  }

  /** The buffers are out of turn exactly after an odd number of failures, and a success puts them in turn. */
  lemma OutOfTurnIsParity(c: Config, books: seq<Book>, frames: seq<Frame>, k: nat)
    requires BookRun(c, books, frames) && k <= |frames|
    ensures books[k].outOfTurn <==> Odd(FailuresSince(frames, k))
  {
    forall i | 0 <= i < k
      ensures books[i + 1].outOfTurn <==> frames[i].failedAt.Some? && !books[i].outOfTurn
    {
      TurnStep(c, books[i], frames[i], books[i + 1]);
    }
    ParityFollows(books, frames, k);
  }

  // ---- the presenter ----

  lemma DamageInCanvas(prev: seq<DamageSlot>, cur: seq<DamageSlot>, w: nat, h: nat)
    ensures InCanvas(DamageOf(prev, cur, w, h), w, h)
  {
  }

  ghost predicate Covers(r: DamageRect, w: nat, h: nat) {
    forall x, y :: OnCanvas(x, y, w, h) ==> r.Has(x, y)
  }

  /** Slot j is the first that overlaps the region and cannot be mapped. */
  ghost predicate FirstUnmapped(refs: seq<SurfaceRef>, mapOk: seq<bool>, region: DamageRect, j: nat)
    requires |mapOk| == |refs|
  {
    && j < |refs| && Overlaps(refs[j], region) && !mapOk[j]
    && forall i :: 0 <= i < j && Overlaps(refs[i], region) ==> mapOk[i]
  }

  /** A decoration that does not overlap the region contributes nothing to its pixels. */
  lemma MissesRegion(ref: SurfaceRef, region: DamageRect, w: nat, h: nat, x: int, y: int, below: Argb)
    requires (ref.surface.Some? ==> WellFormed(ref.surface.value)) && !Overlaps(ref, region)
    requires InCanvas(region, w, h) && OnCanvas(x, y, w, h) && region.Has(x, y)
    ensures Contribution(ref, x, y, below) == below
  {
    if ref.surface.Some? {
      ClippedBlend(ref, region, w, h, x, y, below);
    }
  }

  class CompositePresenter {
    const canvas: CompositeCanvas
    const background: Option<Image<Argb>>
    var prevSlots: seq<DamageSlot>
    var prevDamage: DamageRect
    ghost var prevRefs: seq<SurfaceRef>   // the slots of the last successful apply
    ghost var onScreen: nat               // the buffer it flushed
    ghost var outOfTurn: bool             // whether an odd number of applies failed since

    ghost function Cfg(): Config {
      Config(canvas.width, canvas.height, canvas.fourcc, background)
    }

    ghost predicate Structured()
      reads this, canvas
    {
      && canvas.Valid() && ValidConfig(Cfg())
      && prevSlots == Slots(prevRefs) && WellFormedRefs(prevRefs)
      && InCanvas(prevDamage, canvas.width, canvas.height)
      && (prevSlots != [] ==> Covers(canvas.currentDirty, canvas.width, canvas.height))
    }

    /** Between calls, the back buffer has swapped once per apply, whether or not that apply flushed it. */
    ghost predicate Valid()
      reads this, canvas
    {
      Structured() && onScreen < 2 && canvas.backIndex == if outOfTurn then 1 - onScreen else onScreen
    }

    /** The presenter as a value. */
    ghost function Abs(): (s: Book)
      requires Structured() && onScreen < 2
      reads this, canvas, canvas.shadow, canvas.buffer0, canvas.buffer1
      ensures ValidScreen(Cfg(), s.screen)
    {
      Book(Screen(View(canvas.shadow), View(canvas.Buffer(onScreen)), View(canvas.Buffer(1 - onScreen)),
                  prevRefs, prevDamage),
           outOfTurn)
    }

    constructor (w: nat, h: nat, f: Fourcc, backdrop: Option<Image<Argb>>)
      requires backdrop.Some? ==> Sized(backdrop.value, w, h)
      ensures Valid() && prevRefs == [] && prevDamage == NO_DAMAGE && !outOfTurn
      ensures Cfg() == Config(w, h, f, backdrop)
      ensures fresh(canvas) && fresh(canvas.shadow) && fresh(canvas.buffer0) && fresh(canvas.buffer1)
    {
      canvas := new CompositeCanvas(w, h, f);
      background := backdrop;
      prevSlots, prevDamage, prevRefs := [], NO_DAMAGE, [];
      onScreen, outOfTurn := 1, false;
    }

    /** Blends the part of slot `ref` that lies in the region. */
    method BlendRef(ref: SurfaceRef, region: DamageRect)
      requires Structured() && ref.surface.Some? && WellFormed(ref.surface.value)
      requires InCanvas(region, canvas.width, canvas.height) && Overlaps(ref, region)
      modifies canvas`currentDirty, canvas.shadow
      ensures canvas.Valid()
      ensures forall x, y :: old(canvas.currentDirty).Has(x, y) ==> canvas.currentDirty.Has(x, y)
      ensures forall y, x :: 0 <= y < canvas.height && 0 <= x < canvas.width ==>
                canvas.shadow[y, x] == if region.Has(x, y) then Contribution(ref, x, y, old(canvas.shadow[y, x]))
                                       else old(canvas.shadow[y, x])
    {
      var s := ref.surface.value;
      var d := IntersectRect(ref.x, ref.y, s.width, s.height, region);
      forall y, x | 0 <= y < canvas.height && 0 <= x < canvas.width
        ensures BlendedAt(s, DamageRect(d.x - ref.x, d.y - ref.y, d.w, d.h), d, canvas.width, canvas.height, x, y,
                  canvas.shadow[y, x]) ==
                if region.Has(x, y) then Contribution(ref, x, y, canvas.shadow[y, x]) else canvas.shadow[y, x]
      {
        ClippedBlend(ref, region, canvas.width, canvas.height, x, y, canvas.shadow[y, x]);
      }
      canvas.Blend(s, DamageRect(d.x - ref.x, d.y - ref.y, d.w, d.h), d);
    }

    /** Clears the region and lays down the backdrop. */
    method PaintBase(region: DamageRect)
      requires Structured() && InCanvas(region, canvas.width, canvas.height) && !region.Empty()
      modifies canvas`currentDirty, canvas.shadow
      ensures canvas.Valid()
      ensures forall x, y :: old(canvas.currentDirty).Has(x, y) || region.Has(x, y) ==> canvas.currentDirty.Has(x, y)
      ensures forall y, x :: 0 <= y < canvas.height && 0 <= x < canvas.width ==>
                canvas.shadow[y, x] == if region.Has(x, y) then Base(Cfg(), x, y) else old(canvas.shadow[y, x])
    {
      canvas.ClearRect(region);
      if background.Some? {
        BlendBackdrop(region);
      }
    }

    /** Blends the opaque backdrop over the region. */
    method BlendBackdrop(region: DamageRect)
      requires Structured() && background.Some?
      requires InCanvas(region, canvas.width, canvas.height) && !region.Empty()
      modifies canvas`currentDirty, canvas.shadow
      ensures canvas.Valid()
      ensures forall x, y :: old(canvas.currentDirty).Has(x, y) || region.Has(x, y) ==> canvas.currentDirty.Has(x, y)
      ensures forall y, x :: 0 <= y < canvas.height && 0 <= x < canvas.width ==>
                canvas.shadow[y, x] == if region.Has(x, y) then Base(Cfg(), x, y) else old(canvas.shadow[y, x])
    {
      var bg := Source(canvas.width, canvas.height, Xrgb8888, 0, background.value);
      var whole := SurfaceRef(Some(bg), 0, 0);
      var d := IntersectRect(0, 0, bg.width, bg.height, region);
      assert d == region by {
        assert region.Has(region.x, region.y) && region.Has(region.x + region.w - 1, region.y + region.h - 1);
      }
      forall y, x | 0 <= y < canvas.height && 0 <= x < canvas.width
        ensures BlendedAt(bg, region, region, canvas.width, canvas.height, x, y, canvas.shadow[y, x]) ==
                if region.Has(x, y) then Base(Cfg(), x, y) else canvas.shadow[y, x]
      {
        ClippedBlend(whole, region, canvas.width, canvas.height, x, y, canvas.shadow[y, x]);
      }
      canvas.Blend(bg, region, region);
    }

    /** Redraws the region from this frame's slots. On a mapping failure at slot j only the slots below j
        have been blended. */
    method Redraw(refs: seq<SurfaceRef>, mapOk: seq<bool>, region: DamageRect) returns (j: nat)
      requires Structured() && WellFormedRefs(refs) && |mapOk| == |refs|
      requires InCanvas(region, canvas.width, canvas.height) && !region.Empty()
      modifies canvas`currentDirty, canvas.shadow
      ensures canvas.Valid() && j <= |refs|
      ensures forall i :: 0 <= i < j && Overlaps(refs[i], region) ==> mapOk[i]
      ensures j < |refs| ==> Overlaps(refs[j], region) && !mapOk[j]
      ensures forall x, y :: old(canvas.currentDirty).Has(x, y) || region.Has(x, y) ==> canvas.currentDirty.Has(x, y)
      ensures forall y, x :: 0 <= y < canvas.height && 0 <= x < canvas.width ==>
                canvas.shadow[y, x] == if region.Has(x, y) then Recomposite(Base(Cfg(), x, y), refs, j, x, y)
                                       else old(canvas.shadow[y, x])
    {
      PaintBase(region);
      j := 0;
      while j < |refs|
        invariant canvas.Valid() && j <= |refs|
        invariant forall i :: 0 <= i < j && Overlaps(refs[i], region) ==> mapOk[i]
        invariant forall x, y :: old(canvas.currentDirty).Has(x, y) || region.Has(x, y) ==>
                    canvas.currentDirty.Has(x, y)
        invariant forall y, x :: 0 <= y < canvas.height && 0 <= x < canvas.width ==>
                    canvas.shadow[y, x] == if region.Has(x, y) then Recomposite(Base(Cfg(), x, y), refs, j, x, y)
                                           else old(canvas.shadow[y, x])
      {
        if Overlaps(refs[j], region) {
          if !mapOk[j] {
            return;
          }
          BlendRef(refs[j], region);
        } else {
          forall y, x | 0 <= y < canvas.height && 0 <= x < canvas.width && region.Has(x, y)
            ensures Contribution(refs[j], x, y, canvas.shadow[y, x]) == canvas.shadow[y, x]
          {
            MissesRegion(refs[j], region, canvas.width, canvas.height, x, y, canvas.shadow[y, x]);
          }
        }
        j := j + 1;
      }
    }

    /** Redraws the region, or records that this frame failed half way through it, at slot `failedAt`. */
    method Paint(refs: seq<SurfaceRef>, mapOk: seq<bool>, region: DamageRect) returns (ok: bool, ghost failedAt: nat)
      requires Structured() && onScreen < 2 && canvas.backIndex == if outOfTurn then onScreen else 1 - onScreen
      requires WellFormedRefs(refs) && |mapOk| == |refs| && InCanvas(region, canvas.width, canvas.height)
      requires region == UnionRect(DamageOf(prevSlots, Slots(refs), canvas.width, canvas.height), prevDamage)
      modifies this`outOfTurn, canvas`currentDirty, canvas.shadow
      ensures Structured() && failedAt <= |refs| && (ok <==> failedAt == |refs|)
      ensures outOfTurn == if ok then old(outOfTurn) else !old(outOfTurn)
      ensures ok ==> Covers(canvas.currentDirty, canvas.width, canvas.height)
      ensures ok ==> forall i :: 0 <= i < |refs| && Overlaps(refs[i], region) ==> mapOk[i]
      ensures !ok ==> FirstUnmapped(refs, mapOk, region, failedAt)
      ensures Redrawn(Cfg(), region, refs, failedAt, old(View(canvas.shadow)), View(canvas.shadow))
    {
      failedAt := |refs|;
      if !region.Empty() {
        var j := Redraw(refs, mapOk, region);
        if j < |refs| {
          outOfTurn, failedAt := !outOfTurn, j;
          return false, j;
        }
      }
      ok := true;
    }

    /** Flushes the whole shadow into the back buffer; the other buffer keeps its picture. */
    method FlushAll()
      requires canvas.Valid() && Covers(canvas.currentDirty, canvas.width, canvas.height)
      modifies canvas`prevFlush0, canvas`prevFlush1, canvas.Buffer(canvas.backIndex)
      ensures canvas.Valid() && View(canvas.shadow) == old(View(canvas.shadow))
      ensures View(canvas.Buffer(1 - canvas.backIndex)) == old(View(canvas.Buffer(1 - canvas.backIndex)))
      ensures AllConverted(View(canvas.shadow), View(canvas.Buffer(canvas.backIndex)), canvas.width, canvas.height,
                canvas.fourcc)
    {
      canvas.Flush();
    }

    /** Flushes the redrawn shadow and records the frame. */
    method Publish(refs: seq<SurfaceRef>, cur: seq<DamageSlot>, dmg: DamageRect, ghost before: Book)
      requires Structured() && WellFormedRefs(refs) && cur == Slots(refs)
      requires onScreen < 2 && canvas.backIndex == if outOfTurn then onScreen else 1 - onScreen
      requires InCanvas(dmg, canvas.width, canvas.height) && Covers(canvas.currentDirty, canvas.width, canvas.height)
      requires before == Abs().(screen := Abs().screen.(shadow := before.screen.shadow))
                 && ValidScreen(Cfg(), before.screen)
      requires dmg == DamageOf(prevSlots, cur, canvas.width, canvas.height)
      requires Redrawn(Cfg(), Region(Cfg(), before.screen, refs), refs, |refs|, before.screen.shadow,
                 View(canvas.shadow))
      modifies this, canvas`prevFlush0, canvas`prevFlush1, canvas.Buffer(canvas.backIndex)
      ensures Valid() && GoodFrame(Cfg(), before, refs, Abs()) && onScreen == canvas.backIndex == old(canvas.backIndex)
    {
      var back := canvas.backIndex;
      ghost var c, shadow := Cfg(), View(canvas.shadow);
      ghost var kept := View(canvas.Buffer(1 - back));
      FlushAll();
      ghost var front := View(canvas.Buffer(back));
      prevSlots, prevDamage := cur, dmg;
      prevRefs, onScreen, outOfTurn := refs, back, false;
      assert Cfg() == c && Abs() == Book(Screen(shadow, front, kept, refs, dmg), false);
    }

    /** `mapOk[i]` says whether mapping slot i's pixels would succeed. The frame fails exactly when a decoration
        that overlaps what it redraws cannot be mapped, and then at the first of those. */
    method Apply(refs: seq<SurfaceRef>, mapOk: seq<bool>) returns (ok: bool, ghost failedAt: nat)
      requires Valid() && WellFormedRefs(refs) && |mapOk| == |refs|
      modifies this, canvas, canvas.shadow, canvas.buffer0, canvas.buffer1
      ensures Valid()
      ensures var region := Region(Cfg(), old(Abs()).screen, refs);
              && (ok <==> forall i :: 0 <= i < |refs| && Overlaps(refs[i], region) ==> mapOk[i])
              && (!ok ==> FirstUnmapped(refs, mapOk, region, failedAt))
      ensures ok ==> GoodFrame(Cfg(), old(Abs()), refs, Abs())
      ensures !ok ==> BadFrame(Cfg(), old(Abs()), refs, failedAt, Abs())
      // out of turn, the flush goes into the very buffer that is on screen
      ensures onScreen == if ok && !old(outOfTurn) then 1 - old(onScreen) else old(onScreen)
    {
      ghost var before := Abs();
      canvas.BeginFrame();
      var cur := SnapshotSlots(refs);
      var dmg := ComputeDamage(prevSlots, cur, canvas.width, canvas.height);
      DamageInCanvas(prevSlots, cur, canvas.width, canvas.height);
      ok, failedAt := Paint(refs, mapOk, UnionRect(dmg, prevDamage));
      if ok {
        Publish(refs, cur, dmg, before);
      }
    }
  }
}
