# drm-cxx in Dafny

A Dafny 4.11 model of the parts of drm-cxx that do real work between the ioctls, with proofs of what they
promise. Run `dafny verify dfyconfig.toml` in this directory to check everything.

The system is a C++ library for Linux display hardware. The parts modelled here:

- **Damage-tracked compositing** (`damage.dfy`, `canvas.dfy`, `decorations.dfy`, `presenter_fb.dfy`,
  `presenter_composite.dfy`). A presenter diffs the window decorations of a frame against the last frame, takes
  a bounding rectangle, and redraws only that of a persistent shadow, which is converted into a framebuffer or
  into one of two alternating scanout buffers. Main results: over every run of coherent frames, each frame shows
  pixel for pixel what compositing it from scratch would have shown; and over every run at all, failed frames
  and incoherent ones included, exactly what each pixel of the screen holds.
- **The cursor renderer** (`cursor_frame.dfy`, `cursor_downscale.dfy`, `cursor_blit.dfy`, `cursor_renderer.dfy`,
  `cursor_runs.dfy`). Rotation, the area-weighted fixed-point downscale, the fit arithmetic, the hotspot, and the
  ping-pong buffer machine behind set, move, tick, hide, show, rotate, stage, pause and resume. Main result: over
  every run of these calls, whatever commits fail, exactly when a blit can write the buffer on screen.
- **The shadow cache** (`box_blur.dfy`, `shadow_pixels.dfy`, `recency.dfy`, `shadow_cache.dfy`). The sliding-window
  blur equals the direct window average; premultiplied blending never overflows, over any run of blits and fades;
  and as long as every fade finds both its entries, each call of any run writes exactly the pixels that rendering
  everything afresh would write.
- **The format and modifier table** (`bytes.dfy`, `pair_order.dfy`, `format_table.dfy`). Decoding a bitmask blob,
  and a sorted, grouped index that answers exactly like set membership.
- **The cursor theme resolver** (`cursor_theme.dfy`, `cursor_theme_search.dfy`). A memoized breadth-first search
  over a possibly cyclic inheritance graph finds a nearest provider.
- **Ownership machines** (`overlay_reservation.dfy`, `hdr_metadata.dfy`, `focus_stack.dfy`). Overlay planes leased
  to CRTCs, kernel blobs that move from handle to handle and are destroyed at most once, and the focus stack of
  the demo shell.
- **A token search** (`token_search.dfy`) that skips ahead by the whole name after a match that is no token.

`arith.dfy`, `grid.dfy`, `seqs.dfy` and `wrappers.dfy` hold what several modules share. Code that the source
writes as objects and loops is a class or a method here, proved against a function of the old state; the results
over whole runs are lemmas about those functions.

## What the proofs found

- `CompositeCanvas` documents that a flush clears the dirty rectangle (`src/scene/composite_canvas.hpp:309`); the
  code does not, so after the first frame every flush copies the whole shadow. The model follows the code; the
  run theorem `CompositePresenter.RunShowsEveryFrame` holds for any flush that copies at least what was redrawn.
- When a decoration cannot be mapped, `CompositePresenter::apply` returns with its region half redrawn while the
  slots it will be diffed against stay those of the last good frame. The next good frame puts all of that on
  screen: `RecoveryIsExact` says which of its pixels are right, `FailedFrameErases` and `FailedResizeErasesWindow`
  show a screen that loses its window this way, and `RepeatsRepairNothing` that showing the same desktop again
  does not bring it back. `RunWithFailures` gives every pixel of every good frame of a run. The framebuffer
  presenter maps first, and a failed frame there changes nothing.
- A failed frame has also swapped the buffers without a flush. After an odd number of failures
  (`OutOfTurnIsParity`) the next good frame is flushed into the very buffer that is on screen
  (`CompositePresenter.Apply`).
- A `DamageSlot` does not say which surface it shows, so two windows of the same size, place and generation that
  swap slots look unchanged, and the screen goes on showing the one that is now below (`SwappedTwinsGoUnseen`).
  After a right frame, the next one is right if and only if what it does not redraw composites as it did
  before (`FrameIsRightIff`); a caller meets that condition when the frames are `Coherent`, that is, when in each
  slot surfaces of equal place, size and generation are one surface (`CoherentIsSameOff`).
- Staging a cursor swaps the buffers before the caller's commit. When that commit fails, the next blit is safe
  exactly when the buffer that was active is not on screen (`Renderer.Stage`), and a state where it is not can be
  reached and does tear (`TornAfterFailedStage`). The next commit that lands puts everything right
  (`RepairedByNextCommit`). Over whole runs, a blit is unsafe if and only if the plane is on and an odd number of
  swaps since the last commit that landed were for staged commits that did not (`UnsafeExactlyWhen`,
  `PlayIsExact`); when every staged commit lands, nothing ever tears, whatever else fails (`PlayIsSafe`).
- A session resume that fails to allocate leaves buffers of size 0 x 0, and every later resume asks for that
  size again, so none succeeds (`Renderer.SessionResumed`).
- The header of the format table takes a modifier's bit b for fourcc offset + b. The code adds in 32 bits, and an
  offset near 2^32 wraps round to the first fourccs. `TableIsExactIff` says when that changes the table.
- Cross-fading a shadow with itself changes it: a channel above 128 gets one step darker when the two 8-bit
  weights add up to 255 (`SelfFade`), and they add up to 256 only when 1 - t, as the subtraction rounds it, is a
  whole number of 256ths and not below the exact value (`WeightsSum`). With a capacity of one and two keys, the fade's first entry is evicted before it is read
  (`FetchBoth`); what it then reads is gone, and the run theorem of the cache is for runs without such a fade
  (`RunWritesAfresh`).
- Within a theme the alias class decides the order, not the requested name, and the header's last resort, the
  first theme on the search path, is only tried as part of the sweep in discovery order.
- The token search answers correctly for every list exactly when the name does not repeat itself after a space
  (`SearchIsRightIff`), in particular for names without spaces. On an empty name the cursor stays where it is
  (`EmptyNameStays`), so the loop never ends on a list that is not empty and does not start with a space, and it
  ends on everything else (`EndsExactlyWhen`).
- A plane reservation that fails loses the CRTC's own old lease, and one for no planes keeps it although it
  answers with an empty list (`ReserveTouchesOwnLease`).

## Model

| member | source | states |
|---|---|---|
| Damage.ComputeDamage | src/csd/damage.cpp:43-82 | the loop computes the clamped bounding box `DamageOf` about which the lemmas below speak |
| Damage.DamageCovers | src/csd/damage.cpp:43-82 | the damage stays on the canvas and misses no canvas pixel under the old or new footprint of a changed slot |
| Damage.DamageLeast | src/csd/damage.cpp:25-39 | the damage is inside every box that encloses the changed footprints, so it is the least one |
| Damage.IntersectRect | src/csd/damage.cpp:84-96 | exactly the pixels of both rectangles; empty exactly when there are none |
| Damage.UnionRect | src/csd/damage.cpp:98-112 | contains both rectangles |
| Damage.UnionLeast | src/csd/damage.cpp:98-112 | and lies inside every rectangle that contains both |
| Canvas.ClipAxis | src/scene/composite_canvas.cpp:131-180 | the clipped spans are non-empty and inside target and source; a patch inside both comes through unscaled |
| Canvas.ClipIsExact | src/scene/composite_canvas.cpp:131-180 | each span is the intersection of the patch with its buffer, and the clip fails exactly when one of them is empty |
| Canvas.MapInSpan | src/scene/composite_canvas.cpp:186-193 | every nearest-neighbour index is inside the span, and the identity when nothing is scaled |
| Canvas.MapIsProportional | src/scene/composite_canvas.cpp:186-193 | the index is the proportional position, rounded down |
| Canvas.BlendInto | src/scene/composite_canvas.cpp:671-831 | each target pixel becomes the blend of its mapped source pixel over what was there, and no other changes |
| Canvas.BlendIsNear | src/scene/composite_canvas.cpp:99-116 | every channel of a premultiplied pixel blended is the exact source-over mix p + d * (255 - alpha) / 255 to the nearest whole number |
| Canvas.ClearInto | src/scene/composite_canvas.cpp:618-656 | exactly the pixels of the rectangle on the target become transparent black |
| Canvas.CompositeCanvas.BeginFrame | src/scene/composite_canvas.cpp:491-493 | the buffers swap and nothing else changes |
| Canvas.CompositeCanvas.ClearRect | src/scene/composite_canvas.cpp:658-669 | clears the shadow rectangle and adds it to the dirty one |
| Canvas.CompositeCanvas.Blend | src/scene/composite_canvas.cpp:833-848 | blends into the shadow and adds the destination rectangle to the dirty one |
| Canvas.CompositeCanvas.Flush | src/scene/composite_canvas.cpp:590-616 | the back buffer gets the converted shadow on the dirty rectangle united with the one this buffer last flushed, and keeps its pixels elsewhere |
| Canvas.ConvertedWord | src/scene/composite_canvas.cpp:430-455 | a converted pixel, read as a little-endian word, lists the channels from the top bits down as the format is named; 565 keeps the top 5, 6 and 5 bits |
| Decorations.SnapshotSlots | src/csd/presenter_composite.cpp:175-188 | the loop computes `Slots`, one per surface, about which the two rows below speak |
| Decorations.ChangeIsDamaged | src/csd/presenter_composite.cpp:175-191 | a surface that appears, vanishes, moves, is resized or gets a new content generation damages every canvas pixel that it covered or covers |
| Decorations.RepaintIsDamaged | src/csd/damage.cpp:56-61 | in particular a window painted anew in place is redrawn whole |
| Decorations.UntouchedPixel | src/csd/damage.cpp:52-68 | a pixel outside all changed footprints has the same stack of contributions in both frames |
| Decorations.OutsideDamage | src/csd/damage.cpp:43-82 | a canvas pixel outside the computed damage has the same full recomposite in both frames, which is what makes incremental redraw right |
| Decorations.ClippedBlend | src/csd/presenter_composite.cpp:218-241 | blending a decoration clipped to a region contributes it inside the region and nothing outside |
| Decorations.UncoveredShowsBase | src/csd/presenter_composite.cpp:194-241 | a recomposite shows the bottom layer where no decoration lies |
| Decorations.TopmostShows | src/csd/presenter_composite.cpp:218-241 | and of several decorations over a pixel only the last one, where it is opaque |
| Decorations.TopmostMixes | src/csd/presenter_composite.cpp:218-241 | where the last one is translucent, its premultiplied colour mixed with what lies below in the proportion of its alpha |
| FbPresenter.BlendItem | src/csd/presenter_fb.cpp:75-90 | one item, clipped to the damage, is blended over the damaged pixels only |
| FbPresenter.ConvertRows | src/csd/presenter_fb.cpp:92-100 | exactly the damaged scanlines of the framebuffer become the converted shadow rows |
| FbPresenter.ComposeIntoFramebuffer | src/csd/presenter_fb.cpp:61-101 | damaged shadow pixels become the full recomposite of the items, the damaged scanlines their conversion, and nothing else changes |
| FbPresenter.OverlapsIs | src/csd/presenter_fb.cpp:178-199 | a slot has to be mapped exactly when it covers a damaged pixel |
| FbPresenter.CollectItems | src/csd/presenter_fb.cpp:178-210 | fails exactly when a decoration overlapping the damage cannot be mapped; the items left out do not change the damaged pixels |
| FbPresenter.FramebufferPresenter.Apply | src/csd/presenter_fb.cpp:151-217 | a failed frame changes nothing; a successful one makes every damaged pixel its full recomposite and its converted value in the framebuffer, touches only damaged pixels and scanlines and, from a correct state, leaves shadow and framebuffer equal to the full recomposite exactly when the two frames agree off the damage, which coherent ones do |
| CompositePresenter.StepKeepsInvariant | src/csd/presenter_composite.cpp:166-257 | a successful frame shows the full recomposite, and the other buffer then lags by this frame's damage only |
| CompositePresenter.RunShowsEveryFrame | src/csd/presenter_composite.cpp:166-257 | over every run from a fresh presenter, whatever the buffers held, every frame's scanned-out buffer equals the full recomposite although only damage united with last damage was redrawn |
| CompositePresenter.FrameIsRightIff | src/csd/presenter_composite.cpp:166-257 | after a right frame, the next one is right if and only if the pixels it does not redraw have the same full recomposite in both frames |
| CompositePresenter.CoherentIsSameOff | src/csd/damage.cpp:52-68 | frames in which equal place, size and generation in one slot mean one surface meet that condition |
| CompositePresenter.RecoveryIsExact | src/csd/presenter_composite.cpp:194-252 | after a right, a failed and a good call the screen shows the shadow, and a pixel is right if and only if the good call redrew it, the failed one never touched it, or what the failed one had drawn there happens to be right |
| CompositePresenter.FailedFrameErases | src/csd/presenter_composite.cpp:194-252 | a whole-canvas redraw that fails at its first decoration, followed by the last good frame again: the screen shows the bare backdrop wherever that frame had no damage |
| CompositePresenter.FailedResizeErasesWindow | src/csd/presenter_composite.cpp:194-252 | a concrete desktop, failed call and good call after which the screen no longer shows the window |
| CompositePresenter.RepeatsRepairNothing | src/csd/presenter_composite.cpp:166-257 | showing an undamaged desktop again any number of times leaves every pixel of screen and shadow as it is, right or wrong |
| CompositePresenter.SwappedTwinsGoUnseen | src/csd/damage.cpp:56-61 | two windows with equal slots swap places in the stack, and a successful call leaves the one now below on screen |
| CompositePresenter.GoodFrameIsStep | src/csd/presenter_composite.cpp:166-257 | a successful call with the buffers in turn is a step of the run theorem |
| CompositePresenter.RunIsExact | src/csd/presenter_composite.cpp:166-257 | over every run of calls, failed ones and incoherent frames included, each shadow pixel is what the last call that redrew it left there, and a success puts exactly that on screen |
| CompositePresenter.RunIsRightIff | src/csd/presenter_composite.cpp:166-257 | so a success shows its full recomposite if and only if the last redraw of every pixel left what the frame composites to |
| CompositePresenter.DrawnIs | src/csd/presenter_composite.cpp:166-257 | in a coherent run, a pixel last touched by a failed call holds what that call had drawn so far, and every other one the full recomposite of the last good frame |
| CompositePresenter.RunWithFailures | src/csd/presenter_composite.cpp:166-257 | over every coherent run with failures, each success puts on screen, pixel for pixel, its full recomposite, or what the failed call that touched the pixel last had drawn |
| CompositePresenter.OutOfTurnIsParity | src/csd/presenter_composite.cpp:166-168 | the buffers are out of turn exactly after an odd number of failures since the last success |
| CompositePresenter.CompositePresenter.Redraw | src/csd/presenter_composite.cpp:194-243 | the region holds the backdrop and the decorations in order, all of them or those below the first that cannot be mapped |
| CompositePresenter.CompositePresenter.Apply | src/csd/presenter_composite.cpp:166-257 | fails exactly when a decoration that covers a pixel of the redrawn region cannot be mapped, at the first of those, as a bad frame; otherwise it is a good frame; out of turn it flushes into the buffer on screen |
| CompositePresenter.ChangedWindowShows | src/csd/presenter_composite.cpp:175-249 | after any good frame, from whatever state, every pixel that a changed window covered or covers is on screen as the full recomposite has it, also when only the generation changed |
| CompositePresenter.BackdropShows | src/csd/presenter_composite.cpp:194-217 | where no decoration lies the recomposite is the opaque backdrop, or transparent black without one |
| CursorFrame.RotationRoundTrip | src/cursor/renderer.cpp:97-120 | rotation is a bijection between source pixels and rotated pixels, each way |
| CursorBlit.FittedFrameLands | src/cursor/renderer.cpp:97-120 | which way round it goes: in a frame that fits, source pixel (sx, sy) is scanned out, from the centred corner, at (sx, sy), (height-1-sy, sx), (width-1-sx, height-1-sy) and (sy, width-1-sx) for 0, 90, 180 and 270 degrees |
| CursorBlit.AroundIsBlank | src/cursor/renderer.cpp:503-513 | and the buffer around it is transparent |
| CursorDownscale.SamplesInside | src/cursor/renderer.cpp:143-153 | every source index the loops visit is inside the rotated image |
| CursorDownscale.AxisTotal | src/cursor/renderer.cpp:161-173 | the weights along an axis add up to exactly the ratio |
| CursorDownscale.SourceConserved | src/cursor/renderer.cpp:140-157 | over the whole destination each source pixel weighs one pixel, but for the fraction at the far edge that the truncated ratio drops |
| CursorDownscale.TotalConst | src/cursor/renderer.cpp:155-182 | the weights of a destination pixel add up to exactly fx*fy |
| CursorDownscale.MeanIsNearest | src/cursor/renderer.cpp:184-188 | each channel is the integer nearest to the weighted mean |
| CursorDownscale.MeanBetween | src/cursor/renderer.cpp:184-188 | each channel lies between any bounds on the samples |
| CursorDownscale.DownscaleKeepsPremultiplied | src/cursor/renderer.cpp:136-193 | channel at most alpha in, channel at most alpha out |
| CursorDownscale.DownscaleFixesUniform | src/cursor/renderer.cpp:136-193 | a uniform image is a fixed point |
| CursorDownscale.AccumulateRow | src/cursor/renderer.cpp:161-182 | the inner loop adds exactly one row's weighted samples to the five accumulators |
| CursorDownscale.Accumulate | src/cursor/renderer.cpp:155-182 | the loops compute the four weighted sums and the area |
| CursorDownscale.BoxDownscaleRotated | src/cursor/renderer.cpp:136-193 | the four loops write the downscaled pixel everywhere in the target rectangle and nothing outside |
| CursorBlit.FitInside | src/cursor/renderer.cpp:532-560 | the fitted frame is not empty, never larger than the rotated frame on an axis, and with its offset inside the buffer |
| CursorBlit.LimitingAxisFills | src/cursor/renderer.cpp:540-557 | the limiting axis fills the buffer exactly, for sides up to 32768 (cursors load at most 512) |
| CursorBlit.OtherAxisProportional | src/cursor/renderer.cpp:540-557 | the other axis stays within one pixel of its proportional size |
| CursorBlit.ShrinkKeepsProportions | src/cursor/renderer.cpp:532-557 | a frame that must shrink fills one axis and keeps its proportions within one pixel on the other |
| CursorBlit.ShrunkFrameLands | src/cursor/renderer.cpp:532-631 | each pixel of a shrunk frame lies, channel by channel, between the darkest and the brightest source pixel of those whose rotated place its box overlaps |
| CursorBlit.FormatRoundTrip | src/cursor/cursor_format.hpp:46-61 | what the plane reads back from a converted word is the original colour, in all four formats |
| CursorBlit.ConvertedValue | src/cursor/cursor_format.hpp:46-61 | the converted word lists the channels from the top bits down as the format is named |
| CursorBlit.BlitFrame | src/cursor/renderer.cpp:489-631 | the whole buffer becomes what `BlitPixel` says, the function that the two landing rows and the format rows speak about |
| CursorBlit.HotspotFollowsPixel | src/cursor/renderer.cpp:671-730 | without a downscale the buffer pixel at the buffer hotspot is the source's hotspot pixel, for all rotations, sizes and formats |
| CursorBlit.HotspotInsideBlit | src/cursor/renderer.cpp:671-730 | with a downscale the buffer hotspot lies inside the blitted rectangle |
| CursorBlit.HotspotDrawsOnItsPixel | src/cursor/renderer.cpp:709-720 | on an axis with an exact ratio, the pixel under the hotspot draws on the source's hotspot pixel |
| CursorBlit.ScaledHotIs | src/cursor/renderer.cpp:709-714 | on a shrunk axis the hotspot is the proportional one, rounded down |
| CursorBlit.TruncDivIs | src/cursor/renderer.cpp:709-714 | the division that scales it truncates toward zero |
| CursorRenderer.FirstAfterHolds | src/cursor/cursor.cpp:189-205 | the walk from the first frame on stops at the one whose time slot holds a time within the cycle |
| CursorRenderer.FrameAtHolds | src/cursor/cursor.cpp:189-205 | for every elapsed time of an animated cursor: it is some whole number of cycles and a rest, and the frame shown is the one whose time slot holds the rest |
| CursorRenderer.FrameRepeats | src/cursor/cursor.cpp:189-205 | one cycle later the same frame is shown |
| CursorRenderer.StaticFrame | src/cursor/cursor.cpp:189-195 | a cursor of one frame or without delays shows its first frame always |
| CursorRenderer.OneCarriesTheRotation | src/cursor/renderer.cpp:654-669 | exactly one of the blit and the plane carries a requested rotation: the plane exactly when its property accepts it |
| CursorRenderer.TipUnderPointer | src/cursor/renderer.cpp:646-652 | when the frame fits and the blit carries the rotation, the screen pixel under the pointer is the frame's hotspot pixel |
| CursorRenderer.TipIsProportional | src/cursor/renderer.cpp:671-730 | shrunk or not, the pointer is over the blitted frame, as far along each axis as the rotated hotspot is along the frame, rounded down |
| CursorRenderer.PictureShowsTip | src/cursor/renderer.cpp:646-652 | so the picture of a landed commit has the hotspot pixel of a frame that fits under the pointer |
| CursorRenderer.Renderer.Blit | src/cursor/renderer.cpp:489-631 | the back buffer becomes the fitted, rotated, converted frame and is marked dirty; the active buffer keeps its pixels; without buffers nothing changes |
| CursorRenderer.Renderer.CommitPosition | src/cursor/renderer.cpp:900-946 | a successful commit shows exactly the last blitted frame at the current rotation, swaps, and repairs what failed before; a failed one changes nothing |
| CursorRenderer.Renderer.SetCursor | src/cursor/renderer.cpp:1232-1252 | the first frame is blitted into the back buffer and the next commit is a full one; what is on screen stays if blitting is safe; no cursor is refused with nothing changed at all |
| CursorRenderer.Renderer.Advance | src/cursor/renderer.cpp:633-644 | blits exactly when the cursor is animated and the last blitted frame is not the one due now; afterwards it is |
| CursorRenderer.Renderer.MoveTo | src/cursor/renderer.cpp:1262-1277 | a live cursor ends up at the new position with the frame due now, or the screen is unchanged |
| CursorRenderer.Renderer.Tick | src/cursor/renderer.cpp:1283-1298 | commits exactly when another frame is due, by the rule of `FrameAtHolds`, and then shows that frame at the last position |
| CursorRenderer.Renderer.Hide | src/cursor/renderer.cpp:1349-1392 | a successful hide takes the plane off and demands a full commit next; a failed one leaves it on screen |
| CursorRenderer.Renderer.Show | src/cursor/renderer.cpp:1394-1403 | a hidden live cursor is committed again at the last position, with cursor, frame and position kept |
| CursorRenderer.Renderer.SetRotation | src/cursor/renderer.cpp:1485-1524 | the same frame is blitted anew whenever the old or the new rotation is the blit's to carry, so the commit shows it at the new rotation |
| CursorRenderer.Renderer.SessionResumed | src/cursor/renderer.cpp:1413-1463 | succeeds exactly when every step does; a refused fd changes nothing; the new fd shows the due frame, or nothing; once buffers are lost no later resume succeeds |
| CursorRenderer.Renderer.Stage | src/cursor/renderer.cpp:1305-1343 | stages the due frame and swaps whatever becomes of the commit; a commit that lands shows it and repairs the state; after one that fails the next blit is safe exactly when the buffer active before is not on screen, or nothing was swapped and it was safe before |
| CursorRenderer.UnsafeAfterFailedStage | src/cursor/renderer.cpp:1330-1342 | from a fresh renderer: a cursor on screen, another one set, and a failed caller commit lead to a state in which a blit would write the buffer on screen |
| CursorRenderer.TornAfterFailedStage | src/cursor/renderer.cpp:1330-1342 | and there setting a cursor does write it |
| CursorRenderer.RepairedByNextCommit | src/cursor/renderer.cpp:1262-1277 | and from any such state the next commit that lands shows the due frame and restores everything |
| CursorRuns.Step | src/cursor/renderer.cpp:1232-1524 | every call of the renderer is one of five events of the plane; only a call that finds the back buffer on screen can write it, and a commit that lands shows the last blitted frame at the last position; all but staged commits land only when a cursor is set, shown and not paused, and each call leaves it shown and paused as its name says |
| CursorRuns.StepMove | src/cursor/renderer.cpp:1262-1277 | a move lands exactly when a cursor is set, shown and not paused, with kernel and buffers willing |
| CursorRuns.UnsafeExactlyWhen | src/cursor/renderer.cpp:1330-1342 | over any run of events: the next blit writes the buffer on screen if and only if the plane is on and an odd number of swaps since the last commit that landed were for staged commits that did not |
| CursorRuns.NeverTorn | src/cursor/renderer.cpp:491-631 | until a call finds that state, no blit has written the buffer on screen |
| CursorRuns.RunIsHealthy | src/cursor/renderer.cpp:1413-1463 | while the last new fd was installed, the next commit publishes the last blitted frame; and the renderer is as good as new unless a failed staged commit left the back buffer on screen or the plane off and forgotten |
| CursorRuns.ScreenIsLastLanded | src/cursor/renderer.cpp:900-946 | between commits the screen goes on showing exactly what the last one that landed was to show, or nothing once the plane is off |
| CursorRuns.PlayIsExact | src/cursor/renderer.cpp:1232-1524 | so for every sequence of calls on a new renderer, with any of them failing |
| CursorRuns.PlayIsSafe | src/cursor/renderer.cpp:1232-1524 | when every staged commit lands, no blit of the run has written the buffer on screen, and unless the last new fd failed to get buffers or properties the renderer ends up as good as new |
| BoxBlur.AverageBetween | src/csd/shadow_cache.cpp:112-125 | the window average lies between any bounds on the window |
| BoxBlur.PointSpreads | src/csd/shadow_cache.cpp:102-126 | a single bright pixel is spread over exactly the pixels at most r away, each getting its value divided by the number of pixels that near |
| BoxBlur.PassOfPoint | src/csd/shadow_cache.cpp:161-171 | and one pass spreads it over the square, horizontally first |
| BoxBlur.BlurRow | src/csd/shadow_cache.cpp:102-126 | the running sum and count of a row give floor(sum/count) over the clipped window at every pixel |
| BoxBlur.BlurColumn | src/csd/shadow_cache.cpp:135-155 | the same down a column |
| BoxBlur.BoxBlurH | src/csd/shadow_cache.cpp:96-127 | the horizontal pass is the direct window average of every pixel; radius 0 copies |
| BoxBlur.BoxBlurV | src/csd/shadow_cache.cpp:129-156 | the vertical pass is the direct window average of every pixel |
| BoxBlur.Blur3 | src/csd/shadow_cache.cpp:161-171 | three passes of radius ceil(r/3), or nothing |
| BoxBlur.BlurStaysWithin | src/csd/shadow_cache.cpp:161-171 | the blur stays within the input's range, so constant images are fixed |
| BoxBlur.BlurIsMonotone | src/csd/shadow_cache.cpp:161-171 | more coverage in, no less coverage out |
| BoxBlur.HaloIsBounded | src/csd/shadow_cache.cpp:161-171 | where the mask is flat for three passes' radius along both axes the blur leaves it alone; so it is zero farther than that from every covered pixel |
| BoxBlur.EdgeIsSoft | src/csd/shadow_cache.cpp:161-171 | no pixel stays fully covered that has another one less than fully covered at most a third of the radius away in its row |
| BoxBlur.PerPass | src/csd/shadow_cache.cpp:165 | three passes together reach the total radius and at most two pixels farther |
| ShadowPixels.OverflowFreeIffPremultiplied | src/csd/shadow_cache.cpp:344-354 | no byte cast of a blend cuts anything, whatever is below, if and only if the source is premultiplied |
| ShadowPixels.OverKeepsPremultiplied | src/csd/shadow_cache.cpp:344-354 | a premultiplied pixel over a premultiplied one is premultiplied |
| ShadowPixels.AnyStackStaysPremultiplied | src/csd/shadow_cache.cpp:344-354 | so is any number of blits in any order |
| ShadowPixels.OverIsNear | src/csd/shadow_cache.cpp:344-354 | every channel of a blend of a premultiplied pixel is the exact mix s + d * (255 - alpha) / 255, less than one below it |
| ShadowPixels.WeightsSum | src/csd/shadow_cache.cpp:456-457 | the two weights add up to 255 or 256, and to 256 exactly when 1 - t was rounded up to a whole 256th or is one; the next row says which of them is whose |
| ShadowPixels.FadeIsNear | src/csd/shadow_cache.cpp:456-476 | a channel faded from a to b is near (1 - t) * a + t * b: at most a half and a 256th of a above, at most a half and a 256th of a + b below |
| ShadowPixels.MixKeepsPremultiplied | src/csd/shadow_cache.cpp:464-476 | the fade of two premultiplied pixels is premultiplied |
| ShadowPixels.SelfFade | src/csd/shadow_cache.cpp:468-475 | fading a channel into itself gives it back exactly when no weight is lost or it is at most 128 |
| ShadowPixels.ShadowIsPremultiplied | src/csd/shadow_cache.cpp:211-236 | every pixel of every rendered shadow is premultiplied |
| ShadowPixels.PanelIsSymmetric | src/csd/shadow_cache.cpp:64-84 | the panel is the same mirrored left to right and top to bottom |
| ShadowPixels.PanelInside | src/csd/shadow_cache.cpp:186-205 | it leaves the shadow's extent free on every side |
| ShadowPixels.PanelFills | src/csd/shadow_cache.cpp:64-84 | and covers the whole rest, up to squares of the corner radius in the corners |
| ShadowPixels.CornerIsCut | src/csd/shadow_cache.cpp:75-83 | whose outermost pixel it never covers, for a radius of at least one |
| ShadowPixels.TintAlphaIs | src/csd/shadow_cache.cpp:215-222 | a shadow pixel's alpha is coverage times the colour's alpha, all of it for a focused window and seven tenths for another, cut by less than one |
| ShadowPixels.TintIs | src/csd/shadow_cache.cpp:223-234 | its colour is the shadow's, channel by channel, premultiplied by that alpha |
| ShadowPixels.ShadowIsPlain | src/csd/shadow_cache.cpp:184-237 | clear where no pixel within the blur's reach is on the panel, the full tint where all of them are |
| ShadowPixels.ShadowSoftens | src/csd/shadow_cache.cpp:207-234 | and less than the full tint beside an uncovered pixel |
| ShadowPixels.RenderShadow | src/csd/shadow_cache.cpp:184-237 | the rendered patch is the blurred and tinted panel mask |
| Recency.LookUpKeys | src/csd/shadow_cache.cpp:366-383 | a lookup brings its key to the front, keeps keys distinct and keeps the capacity |
| Recency.LookUpNodes | src/csd/shadow_cache.cpp:366-383 | and no entry changes its pixels |
| Recency.FirstSurvives | src/csd/shadow_cache.cpp:422-445 | the entry fetched first is still listed after the second fetch exactly when there is room for both |
| ShadowCache.CacheHoldsMostRecent | src/csd/shadow_cache.cpp:358-383 | after any run of lookups and clears the list is the most recently used distinct keys, in order, up to the capacity: eviction takes the least recent |
| ShadowCache.RunIsTransparent | src/csd/shadow_cache.cpp:358-481 | over any run of lookups in which a key stands for one theme, every entry holds what rendering afresh would give |
| ShadowCache.WrittenIsFresh | src/csd/shadow_cache.cpp:358-481 | while a key stands for one theme, what a blit, a clear or a fade that finds both its entries writes through the cache is what it would write with every shadow rendered afresh |
| ShadowCache.RunWritesAfresh | src/csd/shadow_cache.cpp:358-481 | so over any run of calls, whatever their keys and targets, every call writes those pixels, as long as no fade so far has evicted its own first entry (capacity one and two keys) |
| ShadowCache.WrittenStaysPremultiplied | src/csd/shadow_cache.cpp:358-481 | a blit or fade into a target whose pixels are all premultiplied leaves them all premultiplied, whatever themes the keys stood for |
| ShadowCache.RunStaysPremultiplied | src/csd/shadow_cache.cpp:358-481 | so does any number of blits, fades and clears into one target |
| ShadowCache.BlitLands | src/csd/shadow_cache.cpp:385-395 | drawn afresh, a blit blends the shadow over the target's top left and leaves the rest |
| ShadowCache.FadeEnds | src/csd/shadow_cache.cpp:409-415 | a fade at or before its start is a blit of the first shadow, at or after its end one of the second |
| ShadowCache.FadeMixes | src/csd/shadow_cache.cpp:450-478 | in between, every pixel is blended with one whose channels are near (1 - t) times the first shadow's plus t times the second's |
| ShadowCache.Cache.Fetch | src/csd/shadow_cache.cpp:422-442 | list and index stay one and the same set of distinct entries, and the list is what all lookups so far make of an empty one |
| ShadowCache.Cache.EvictOverflow | src/csd/shadow_cache.cpp:433-436 | exactly the entries past the capacity leave the list and the index |
| ShadowCache.Cache.BlitInto | src/csd/shadow_cache.cpp:358-396 | the target becomes what `Written` says of all lookups so far: the cached patch blended over it, clipped to both; refused on an empty target or key, with nothing changed |
| ShadowCache.Cache.FetchBoth | src/csd/shadow_cache.cpp:422-445 | two lookups in order; the first entry is still cached exactly with a capacity of two or equal keys |
| ShadowCache.Cache.BlitCrossFade | src/csd/shadow_cache.cpp:398-481 | the same for a fade that finds both its entries, ending in what `FadeEnds` and `FadeMixes` describe; refused on unequal sizes with nothing changed |
| PairOrder.SortIs | src/fmt/format_mod.cpp:147-150 | sorting by (fourcc, modifier) keeps every pair as often as it was |
| PairOrder.UniqueIs | src/fmt/format_mod.cpp:147-150 | dropping repeats leaves a strictly ascending list of the same pairs |
| PairOrder.BinarySearch | src/fmt/format_mod.cpp:183-185 | the binary search answers exactly membership |
| FormatTable.HeaderFitsIsInside | src/fmt/format_mod.cpp:97-105 | the division-form header check passes exactly when both arrays lie inside the blob |
| FormatTable.HeaderIs | src/fmt/format_mod.cpp:88-105 | in the blob's bytes: counts and offsets are the little-endian words at 8, 12, 16 and 20, and the check passes exactly when four bytes for each fourcc and 24 for each record fit |
| FormatTable.RecordIs | src/fmt/format_mod.cpp:112-129 | in the blob's bytes: bit b of a record is bit b % 8 of its byte b / 8, and pairs the modifier in its last eight bytes with the fourcc b places after the number at its byte 8; the code takes that sum modulo 2^32 |
| Bytes.LittleBit | src/fmt/format_mod.cpp:117 | bit k of a little-endian number is bit k % 8 of its byte k / 8 |
| FormatTable.BitIsExactUnlessItWraps | src/fmt/format_mod.cpp:120-127 | one mask bit decodes as the format means if and only if its 32-bit index does not wrap round to a fourcc |
| FormatTable.BlobPairsAre | src/fmt/format_mod.cpp:112-130 | the pushed pairs are exactly those of the set bits with an index in range |
| FormatTable.FromBlob | src/fmt/format_mod.cpp:88-134 | the table of any byte string is exactly its decoded pairs, or empty when the header check fails; every read is inside the blob |
| FormatTable.TableIsExactIff | src/fmt/format_mod.cpp:112-130 | the table is exactly what the blob advertises if and only if every wrapping index repeats an advertised pair |
| FormatTable.WrapExample | src/fmt/format_mod.cpp:120-127 | a 52-byte blob whose wrapping index puts a pair into the table that it does not advertise |
| FormatTable.GroupOf | src/fmt/format_mod.cpp:153-163 | every index of the modifier list lies in one of the groups: they partition it |
| FormatTable.CutIntoRuns | src/fmt/format_mod.cpp:153-163 | the two loops cut the sorted pairs into non-empty runs with ascending fourccs |
| FormatTable.RunIsAll | src/fmt/format_mod.cpp:187-194 | the run of a fourcc lists exactly its modifiers, strictly ascending |
| FormatTable.Table.BuildIndex | src/fmt/format_mod.cpp:147-164 | the index holds the same set of pairs, sorted, once each and grouped |
| FormatTable.Table.Supports | src/fmt/format_mod.cpp:183-185 | true exactly for the pairs of the table |
| FormatTable.Table.ModifiersFor | src/fmt/format_mod.cpp:187-194 | strictly ascending, and exactly the modifiers paired with the fourcc |
| FormatTable.FromPairs | src/fmt/format_mod.cpp:136-145 | the table of any list holds exactly its pairs |
| FormatTable.SameSetSameTable | src/fmt/format_mod.cpp:147-150 | order and repetition of the input do not matter |
| CursorTheme.DiscoveredIs | src/cursor/theme.cpp:337-368 | one record per theme name: all its directories in search order, and the first non-empty Inherits list |
| CursorTheme.DirsExactly | src/cursor/theme.cpp:337-354 | the directories of a theme are exactly those of its name that hold cursors, an index.theme or a cursor.theme |
| CursorTheme.InheritsComeFrom | src/cursor/theme.cpp:360-368 | the list comes from the first directory that has one, there from cursor.theme unless that has none |
| CursorTheme.FileInIs | src/cursor/theme.cpp:433-448 | the first directory that has any alias, and there the first alias of the class |
| CursorTheme.BfsAndMatch | src/cursor/theme.cpp:460-485 | the queue loop computes the walk the lemmas speak about, and ends on every graph |
| CursorTheme.SweepIndex | src/cursor/theme.cpp:509-528 | the loop over the rest of the index computes the sweep |
| CursorTheme.Theme.ResolveName | src/cursor/theme.cpp:384-529 | answers from the memo or by a fresh search, the one of `RootsInOrder`, and remembers it; a malformed name is refused before the memo |
| CursorThemeSearch.AliasesAre | src/cursor/theme.cpp:143-153 | the aliases are the first class that lists the name, or the name alone |
| CursorThemeSearch.HeadIsNearest | src/cursor/theme.cpp:462-484 | whatever is k steps away is visited already or the head of the queue is no deeper than k |
| CursorThemeSearch.BfsFinds | src/cursor/theme.cpp:462-484 | the walk ends at a provider at least inheritance distance, or has visited everything reachable and none provides |
| CursorThemeSearch.BfsChain | src/cursor/theme.cpp:462-470 | the chain lists the visited themes once each |
| CursorThemeSearch.SweepFinds | src/cursor/theme.cpp:509-528 | the sweep finds the first provider in discovery order |
| CursorThemeSearch.ResolveIsRight | src/cursor/theme.cpp:414-529 | for any graph: a nearest provider from the start theme, else a nearest one from "default", else the first indexed one; which theme that start is the next row says |
| CursorThemeSearch.RootsInOrder | src/cursor/theme.cpp:416-529 | the caller's theme if it names one, otherwise the environment's, otherwise "default": with a provider reachable from there the answer is a nearest one; else a nearest one from "default"; else the first indexed provider, or none |
| CursorThemeSearch.RefusedExactly | src/cursor/theme.cpp:396-400 | exactly the empty name, ".", ".." and names with a slash or backslash are invalid |
| CursorThemeSearch.ProvidesExactly | src/cursor/theme.cpp:433-448 | an indexed theme provides a cursor exactly when one of its directories holds one of the aliases |
| CursorThemeSearch.ParentsExactly | src/cursor/theme.cpp:469-484 | and inherits from exactly the themes on its list |
| CursorThemeSearch.FailsExactlyWhenNowhere | src/cursor/theme.cpp:460-529 | it fails exactly when no directory of any indexed theme has any alias |
| CursorThemeSearch.ResolveReports | src/cursor/theme.cpp:469-482 | the reported file is the theme's, and the chain has no repetition and ends at the theme |
| CursorThemeSearch.MemoIsTransparent | src/cursor/theme.cpp:402-414 | while files and environment stay, every memoized answer is the one a fresh search gives |
| OverlayReservation.CandidatesAre | src/csd/overlay_reservation.cpp:54-84 | the candidates are exactly the eligible planes not taken, none twice |
| OverlayReservation.ReserveTakesLowest | src/csd/overlay_reservation.cpp:45-100 | a reservation succeeds exactly when enough eligible planes are free after dropping the own old lease, and takes the lowest by (zpos, id) in order |
| OverlayReservation.FreeIs | src/csd/overlay_reservation.cpp:45-84 | a plane is free for a request exactly when it is an overlay plane that scans the format out of linear memory, names the CRTC, is not excluded, is held by no other CRTC and reaches the floor, which without a zpos it does only if there is none |
| OverlayReservation.RankIs | src/csd/overlay_reservation.cpp:84-90 | the lower zpos comes first, none counting as 0, then the lower id |
| OverlayReservation.ReserveTouchesOwnLease | src/csd/overlay_reservation.cpp:36-100 | the other CRTCs keep their leases; a failure loses the own one; a request for none keeps it |
| OverlayReservation.RunIsConsistent | src/csd/overlay_reservation.cpp:34-111 | after any run the taken planes are the disjoint union of the leases: no plane is held twice |
| OverlayReservation.Reservation.Reserve | src/csd/overlay_reservation.cpp:34-100 | the method computes the answer and the leases the lemmas speak about; without a registry it refuses and changes nothing |
| OverlayReservation.Reservation.Release | src/csd/overlay_reservation.cpp:102-111 | exactly the CRTC's planes become free; idempotent |
| HdrMetadata.Handle.MovedFrom | src/display/hdr_metadata.cpp:99-104 | the new handle holds the blob and the old one is empty |
| HdrMetadata.Handle.Assign | src/display/hdr_metadata.cpp:106-117 | the kernel destroys what the target held if that was live, the source is emptied, and self-assignment does nothing |
| HdrMetadata.Handle.Reset | src/display/hdr_metadata.cpp:119-126 | one destroy call for a live reference, none for an empty one |
| HdrMetadata.Handle.Forget | src/display/hdr_metadata.cpp:134-138 | the reference is dropped without a call |
| HdrMetadata.Cache.SetWithFactory | src/display/hdr_metadata_cache.cpp:26-60 | the new state and answer; the factory is asked exactly on a miss; moving the handles about makes no destroy call |
| HdrMetadata.Cache.AcknowledgeCommitted | src/display/hdr_metadata_cache.cpp:62-64 | exactly the waiting blobs are destroyed, with one kernel call for each live one |
| HdrMetadata.Cache.Flush | src/display/hdr_metadata_cache.cpp:77-83 | the waiting and the cached blobs are destroyed, each once, with one kernel call for each live one |
| HdrMetadata.Cache.ClearForSessionLoss | src/display/hdr_metadata_cache.cpp:66-75 | they are forgotten instead, and the kernel is not called |
| HdrMetadata.RunConserves | src/display/hdr_metadata_cache.cpp:26-83 | in every run each blob made is in exactly one place |
| HdrMetadata.OnePlace | src/display/hdr_metadata_cache.cpp:26-83 | for one blob: cached, waiting, destroyed and forgotten add up to exactly once |
| HdrMetadata.ClosedOnce | src/display/hdr_metadata_cache.cpp:26-83 | over any run the kernel gets at most one destroy call for a blob, and gets it exactly when the blob is live and was destroyed: never for one that is cached, waits or was forgotten |
| HdrMetadata.ReplacedSurvives | src/display/hdr_metadata_cache.cpp:26-60 | over any run of sets and clears nothing is destroyed or forgotten and what waits goes on waiting |
| HdrMetadata.ReplacedWaits | src/display/hdr_metadata_cache.cpp:30-64 | exactly the replaced blob joins the waiting list; over any later sets and clears it waits there undestroyed, until one acknowledge or flush destroys it |
| HdrMetadata.SetIsRemembered | src/display/hdr_metadata_cache.cpp:26-60 | the answered id is the cached one, under the new hash; the same metadata again is a hit, and without an entry for it the outcome is the factory's; a failure changes nothing, other CRTCs keep their entries |
| HdrMetadata.NothingLeft | src/display/hdr_metadata_cache.cpp:66-83 | after a flush every blob made is destroyed or forgotten; after a session loss nothing is left to destroy |
| FocusStack.FocusKeeps | examples/mdi_demo/shell.cpp:345-356 | moving the focus leaves only the top focused and keeps ids and z-order |
| FocusStack.SpawnKeeps | examples/mdi_demo/shell.cpp:59-105 | a spawn within the budget puts its document on top and keeps the invariant |
| FocusStack.SpawnsOnScreen | examples/mdi_demo/shell.cpp:79-91 | new documents fit on a screen that can hold the first one, start at (80, 80) and, while they fit, follow each other at 48 pixels |
| FocusStack.CloseKeeps | examples/mdi_demo/shell.cpp:107-133 | a close removes the top of the z-order; renumbering keeps the others in place |
| FocusStack.CycleOrder | examples/mdi_demo/shell.cpp:135-151 | a cycle puts the top of the z-order at the bottom |
| FocusStack.CyclingRestores | examples/mdi_demo/shell.cpp:135-151 | as many cycles as documents restore the stack and every document up to its repaint mark |
| FocusStack.HitIsTopmost | examples/mdi_demo/shell.cpp:181-223 | the hit is the topmost document whose panel is under the point; none exactly when no panel is |
| FocusStack.PanelIs | src/csd/renderer.cpp:323-337 | the panel is the document without its shadow on all four sides |
| FocusStack.ButtonsAre | src/csd/renderer.cpp:328-349 | of the points on the panel, the title bar has a square of 15 pixels for each button in its middle row: from the right edge close at 17, minimize at 37, maximize at 57; below the bar is the body |
| FocusStack.PressKeeps | examples/mdi_demo/shell.cpp:225-263 | a press raises the document under the point, or closes it on its close button, and leaves the others in order |
| FocusStack.DragFollowsPointer | examples/mdi_demo/shell.cpp:252-279 | a document grabbed by its title bar moves by exactly as much as the pointer, and no other moves |
| FocusStack.FocusChangeRepaints | examples/mdi_demo/shell.cpp:345-356 | whatever the shell does, a document whose focus it changes is marked for a repaint, and no mark is lost |
| FocusStack.StepKeeps | examples/mdi_demo/shell.cpp:59-283 | every operation keeps: the stack is a permutation of the documents, only its top is focused, the budget holds |
| FocusStack.Run | examples/mdi_demo/shell.cpp:59-283 | so it holds after any sequence of spawns, closes, cycles, presses, releases and drags |
| FocusStack.Shell.SetFocus | examples/mdi_demo/shell.cpp:345-356 | the loop focuses one document and marks exactly those whose focus changed |
| FocusStack.Shell.SpawnDocument | examples/mdi_demo/shell.cpp:59-105 | the whole new state; succeeds exactly below the budget with a surface |
| FocusStack.Shell.CloseFocused | examples/mdi_demo/shell.cpp:107-133 | the whole new state of a close |
| FocusStack.Shell.CycleFocus | examples/mdi_demo/shell.cpp:135-151 | the whole new state of a cycle |
| FocusStack.Shell.HitTest | examples/mdi_demo/shell.cpp:181-223 | the loop down the stack finds the hit of `HitIsTopmost` |
| FocusStack.Shell.OnPointerPress | examples/mdi_demo/shell.cpp:225-263 | the whole new state of a press; true exactly when the stack changed |
| TokenSearch.ExtensionPresent | src/core/egl_loader.cpp:156-175 | false for a null list or name; otherwise, on every input on which the loop ends, the answer of `Search`, and true for an empty name |
| TokenSearch.EndsExactlyWhen | src/core/egl_loader.cpp:162-174 | some number of turns of the loop brings an answer if and only if the name is not empty or the list is empty or starts with a space, which is what `ExtensionPresent` asks of its caller |
| TokenSearch.EmptyNameStays | src/core/egl_loader.cpp:162-173 | one turn on an empty name leaves the cursor where it is, unless it returns |
| TokenSearch.SearchFinds | src/core/egl_loader.cpp:162-174 | for a name that does not repeat itself the skip loses no delimited occurrence |
| TokenSearch.SearchMisses | src/core/egl_loader.cpp:173 | for any name that does, a list in which the search misses it |
| TokenSearch.SearchIsRightIff | src/core/egl_loader.cpp:156-175 | the search is right for every list if and only if the name does not repeat itself after a space |
| TokenSearch.SpacelessNameIsFound | src/core/egl_loader.cpp:156-175 | a non-empty name without spaces is found exactly when it is one of the space-delimited tokens |

## Left out

- Bytes of pixel rows: images are rectangles of pixels; strides, padding, alignment guards and the overflow guards of the extents are not modelled, nor is the 32-bit range of coordinates and sizes.
- Canvas extras: tone mapping and plane alpha (the presenters never set them), the NEON rows, the lazily allocated shadow, the unused `clear`, and pausing and resuming the canvas.
- The kernel side: ioctls, property writes, buffer allocation and event handling are inputs that may succeed or fail.
- ShadowPixels.RenderShadow: the tint alpha is computed over the reals, where the source truncates float products, so a pixel's alpha may differ by one step; that the pixel is premultiplied does not depend on it (`TintIsPremultiplied`).
- ShadowCache.Cache.BlitCrossFade: says nothing about the pixels when the second lookup evicts the first entry (capacity one and two keys), since the source then reads an entry that is gone; and it takes 1 - t as the float subtraction gives it, asking only that it stays between the neighbouring 256ths.
- CompositePresenter.CompositePresenter.Apply: a property write that fails after the flush leaves the frame recorded but not requested (`src/csd/presenter_composite.cpp:251-256`); that failure is not modelled.
- CursorRenderer.PlaneAt: the clip of an overlay plane at the top and left edges of the screen (`src/cursor/renderer.cpp:821-828`) is not modelled; the position is the unclipped one, as a cursor plane gets it.
- Hash collisions: a shadow key's theme id stands for one theme (`RunIsTransparent` assumes it of the run), HDR metadata is represented by its hash, and serializing the metadata is not modelled.
- The legacy cursor path, which has one buffer and no rotation, and the z position and size probing of the plane.
- Opaque hardware rotation: that the plane turns the picture as the blit would is not stated.
- Object identity in two places: cache nodes are values in the list and the index that hold them, and the shell's documents are values in a sequence; aliasing of those is not captured.
- The alias classes of the cursor resolver, the search path with the error when it holds no theme at all, and the parsing of index files: they are inputs.
- The cached per-CRTC plane lists of the plane registry, and how a plane's linear formats are decided: the registry's present contents are an input of each reservation.
- The moves of waiting handles when their vector grows, and the order in which a flush visits the cached ones.
- Repainting, hover, animation and titles in the demo shell, and what a drag moves after another document was closed.
- Layer scenes, the plane allocator, Blend2D painting, fonts, theme files, image encoders and device discovery.
