/** Runs of the cursor renderer: any mix of its calls, with any of their commits failing (src/cursor/renderer.cpp). */
module CursorRuns {
  import opened Wrappers
  import opened CursorBlit
  import opened CursorFrame
  import opened CursorRenderer

  // ---- what a call comes to ----

  /** Which buffer is on screen: none, the active one, or the back buffer, which the next blit would write. */
  datatype Where = Off | Front | Back

  /** What a call does to the plane. `Unseen` is a staged commit that the caller then fails to land: the screen does
      not change, but the buffers swap if there was something to publish. `Resumed` takes over a new fd; it is
      installed if the buffers and the plane's properties are there, and landed if it commits as well. */
  datatype Event = Landed | Hidden | Resumed(installed: bool, landed: bool) | Unseen(swapped: bool) | Kept

  function Next(s: Where, e: Event): Where {
    match e
    case Landed => Front
    case Hidden => Off
    case Resumed(_, landed) => if landed then Front else Off
    case Unseen(swapped) => if !swapped then s else if s == Front then Back else if s == Back then Front else Off
    case Kept => s
  }

  /** A renderer as the runs below see it. `filled` says that the next commit publishes the last blitted frame,
      `remembered` that a plane that is off will be enabled by it; `want` is the picture it would show. */
  datatype Snap = Snap(place: Where, filled: bool, remembered: bool, torn: bool, screen: Option<Picture>,
      want: Option<Picture>)

  ghost predicate Healthy(s: Snap) {
    s.filled && s.remembered && s.place != Back
  }

  ghost predicate Lands(e: Event) {
    e.Landed? || (e.Resumed? && e.installed && e.landed)
  }

  /** One call. Only one that finds the back buffer on screen can write what is shown; a commit that lands shows
      what it was to show. */
  ghost predicate Follows(s: Snap, e: Event, t: Snap) {
    && t.place == Next(s.place, e)
    && (s.place != Back ==> t.torn == s.torn)
    && (t.screen.None? <==> t.place == Off)
    && (if e.Resumed? then e.installed ==> t.filled && t.remembered else s.filled ==> t.filled)
    && (e.Hidden? || (e.Kept? && s.remembered) ==> t.remembered)
    && (t.place != Off ==> t.remembered)
    && ((e.Kept? || e.Unseen?) && s.place != Back ==> t.screen == s.screen)
    && (Lands(e) && t.filled ==> t.screen == t.want)
  }

  ghost function Of(r: Renderer): Snap
    requires r.Valid()
    reads r
  {
    Snap(if r.scanout.None? then Off else if r.scanout == Some(r.activeIdx) then Front else Back,
         r.hasBuffers && r.Ready(), r.Remembered(), r.torn, r.Screen(),
         if r.lastFrame.None? then None else Some(r.CursorPicture(r.last.0, r.last.1)))
  }

  datatype Op = Set(c: Option<Cursor>) | Move(x: int, y: int) | Animate | Hide | Show | Turn(rotation: Rotation) | Pause
              | Resume(fdOk: bool, allocOk: bool, propsOk: bool, accepted: Option<set<Rotation>>)
              | StageAt(sx: int, sy: int, staged: bool, committed: bool)

  /** A call, when it is made, and whether the kernel would take its commit. */
  datatype Call = Call(op: Op, now: nat, kernel: bool)

  /** The call resumes the session on a new fd. */
  predicate NewFd(c: Call) {
    c.op.Resume? && c.op.fdOk
  }

  /** The call stages the cursor into a request that the caller then fails to commit. */
  predicate FailsToLand(c: Call) {
    c.op.StageAt? && c.op.staged && !c.op.committed
  }

  ghost predicate ValidOp(op: Op) {
    op.Set? && op.c.Some? ==> op.c.value.Valid()
  }

  method StepSet(r: Renderer, cursor: Option<Cursor>, now: nat) returns (ghost e: Event)
    requires r.Valid() && r.animStart <= now && (cursor.Some? ==> cursor.value.Valid())
    modifies r
    ensures r.Valid() && r.animStart <= now && e.Kept? && Follows(old(Of(r)), e, Of(r))
    ensures r.hasBuffers == old(r.hasBuffers)
    ensures r.visible == old(r.visible) && r.paused == old(r.paused)
  {
    var _ := r.SetCursor(cursor, now);
    e := Kept;
  }

  method StepMove(r: Renderer, x: int, y: int, now: nat, kernel: bool) returns (ghost e: Event)
    requires r.Valid() && r.animStart <= now
    modifies r
    ensures r.Valid() && r.animStart == old(r.animStart) && (e.Landed? || e.Kept?) && Follows(old(Of(r)), e, Of(r))
    ensures r.hasBuffers == old(r.hasBuffers)
    ensures e.Landed? <==> old(r.cursor.Some? && r.visible && !r.paused) && kernel && r.hasBuffers
    ensures r.visible == old(r.visible) && r.paused == old(r.paused)
  {
    var ok := r.MoveTo(x, y, now, kernel);
    e := if ok && r.Live() then Landed else Kept;
  }

  method StepAnimate(r: Renderer, now: nat, kernel: bool) returns (ghost e: Event)
    requires r.Valid() && r.animStart <= now
    modifies r
    ensures r.Valid() && r.animStart == old(r.animStart) && (e.Landed? || e.Kept?) && Follows(old(Of(r)), e, Of(r))
    ensures r.hasBuffers == old(r.hasBuffers)
    ensures r.visible == old(r.visible) && r.paused == old(r.paused)
    ensures e.Landed? ==> r.cursor.Some? && r.visible && !r.paused
  {
    var _, reblit := r.Tick(now, kernel);
    e := if reblit then Landed else Kept;
  }

  method StepPause(r: Renderer) returns (ghost e: Event)
    requires r.Valid()
    modifies r
    ensures r.Valid() && r.animStart == old(r.animStart) && e.Kept? && Follows(old(Of(r)), e, Of(r))
    ensures r.hasBuffers == old(r.hasBuffers)
    ensures r.visible == old(r.visible) && r.paused == true
  {
    r.SessionPaused();
    e := Kept;
  }

  method StepHide(r: Renderer, kernel: bool) returns (ghost e: Event)
    requires r.Valid()
    modifies r
    ensures r.Valid() && r.animStart == old(r.animStart) && (e.Hidden? || e.Kept?) && Follows(old(Of(r)), e, Of(r))
    ensures r.hasBuffers == old(r.hasBuffers)
    ensures r.visible == false && r.paused == old(r.paused)
  {
    ghost var shown := r.visible && !r.paused;
    var ok := r.Hide(kernel);
    e := if shown && ok then Hidden else Kept;
  }

  method StepShow(r: Renderer, kernel: bool) returns (ghost e: Event)
    requires r.Valid()
    modifies r
    ensures r.Valid() && r.animStart == old(r.animStart) && (e.Landed? || e.Kept?) && Follows(old(Of(r)), e, Of(r))
    ensures r.hasBuffers == old(r.hasBuffers)
    ensures r.visible == true && r.paused == old(r.paused)
    ensures e.Landed? ==> r.cursor.Some? && r.visible && !r.paused
  {
    ghost var hidden := !r.visible;
    var ok := r.Show(kernel);
    e := if hidden && r.Live() && ok then Landed else Kept;
  }

  method StepTurn(r: Renderer, rotation: Rotation, kernel: bool) returns (ghost e: Event)
    requires r.Valid()
    modifies r
    ensures r.Valid() && r.animStart == old(r.animStart) && (e.Landed? || e.Kept?) && Follows(old(Of(r)), e, Of(r))
    ensures r.hasBuffers == old(r.hasBuffers)
    ensures r.visible == old(r.visible) && r.paused == old(r.paused)
    ensures e.Landed? ==> r.cursor.Some? && r.visible && !r.paused
  {
    ghost var turned := rotation != r.rotation;
    var ok := r.SetRotation(rotation, kernel);
    e := if turned && r.Live() && ok then Landed else Kept;
  }

  method StepResume(r: Renderer, c: Call) returns (ghost e: Event)
    requires r.Valid() && r.animStart <= c.now && c.op.Resume?
    modifies r
    ensures r.Valid() && r.animStart == old(r.animStart) && Follows(old(Of(r)), e, Of(r))
    ensures if c.op.fdOk then e.Resumed? && (e.installed <==> old(r.hasBuffers) && c.op.allocOk && c.op.propsOk)
              else e.Kept?
    ensures r.hasBuffers == (old(r.hasBuffers) && (c.op.fdOk ==> c.op.allocOk))
    ensures r.visible == old(r.visible) && r.paused == (old(r.paused) && !(e.Resumed? && e.installed))
    ensures e.Resumed? && e.landed ==> r.cursor.Some? && r.visible && !r.paused
  {
    ghost var installed := r.hasBuffers && c.op.allocOk && c.op.propsOk;
    var ok := r.SessionResumed(c.op.fdOk, c.op.allocOk, c.op.propsOk, c.op.accepted, c.now, c.kernel);
    e := if c.op.fdOk then Resumed(installed, installed && ok && r.Live()) else Kept;
  }

  method StepStage(r: Renderer, c: Call) returns (ghost e: Event)
    requires r.Valid() && r.animStart <= c.now && c.op.StageAt?
    modifies r
    ensures r.Valid() && r.animStart == old(r.animStart) && Follows(old(Of(r)), e, Of(r))
    ensures e.Landed? || e.Unseen? || e.Kept?
    ensures e.Unseen? ==> c.op.staged && !c.op.committed
    ensures r.hasBuffers == old(r.hasBuffers)
    ensures r.visible == old(r.visible) && r.paused == old(r.paused)
  {
    ghost var dirty := r.dirtyBack;
    var ok, reblit, _ := r.Stage(c.op.sx, c.op.sy, c.now, c.op.staged, c.op.committed);
    if !ok {
      e := Kept;
    } else if c.op.committed {
      e := Landed;
    } else {
      e := Unseen(dirty || reblit);
    }
  }

  /** One call, whatever it is. */
  method Step(r: Renderer, c: Call) returns (ghost e: Event)
    requires r.Valid() && r.animStart <= c.now && ValidOp(c.op)
    modifies r
    ensures r.Valid() && r.animStart <= c.now && Follows(old(Of(r)), e, Of(r))
    ensures e.Unseen? ==> FailsToLand(c)
    ensures e.Resumed? <==> NewFd(c)
    ensures e.Resumed? ==> (e.installed <==> old(r.hasBuffers) && c.op.allocOk && c.op.propsOk)
    ensures r.hasBuffers == (old(r.hasBuffers) && (NewFd(c) ==> c.op.allocOk))
    // only a staged commit shows a cursor that is hidden, or on a paused session
    ensures !c.op.StageAt? && (e.Landed? || (e.Resumed? && e.landed)) ==> r.cursor.Some? && r.visible && !r.paused
    ensures r.visible == if c.op.Hide? then false else if c.op.Show? then true else old(r.visible)
    ensures r.paused == if c.op.Pause? then true else old(r.paused) && !(e.Resumed? && e.installed)
  {
    match c.op
    case Set(cursor) => e := StepSet(r, cursor, c.now);
    case Move(x, y) => e := StepMove(r, x, y, c.now, c.kernel);
    case Animate => e := StepAnimate(r, c.now, c.kernel);
    case Hide => e := StepHide(r, c.kernel);
    case Show => e := StepShow(r, c.kernel);
    case Turn(rotation) => e := StepTurn(r, rotation, c.kernel);
    case Pause => e := StepPause(r);
    case Resume(_, _, _, _) => e := StepResume(r, c);
    case StageAt(_, _, _, _) => e := StepStage(r, c);
  }

  // ---- runs of events ----

  /** Where a run that starts with the plane off has got to after its first k events. */
  function After(es: seq<Event>, k: nat): Where
    requires k <= |es|
  {
    if k == 0 then Off else Next(After(es, k - 1), es[k - 1])
  }

  predicate Odd(n: nat) {
    n % 2 == 1
  }

  /** The event sets what is on screen, whatever was there before. */
  predicate Anchors(e: Event) {
    e.Landed? || e.Hidden? || e.Resumed?
  }

  /** The number of the last such event among the first k, counted from 1; 0 if there is none. */
  function LastAnchor(es: seq<Event>, k: nat): (i: nat)
    requires k <= |es|
    ensures i <= k && (i > 0 ==> Anchors(es[i - 1])) && forall j :: i <= j < k ==> !Anchors(es[j])
  {
    if k == 0 then 0 else if Anchors(es[k - 1]) then k else LastAnchor(es, k - 1)
  }

  /** It put the plane on. */
  predicate IsOn(es: seq<Event>, k: nat)
    requires k <= |es|
  {
    var i := LastAnchor(es, k);
    i > 0 && (es[i - 1].Landed? || (es[i - 1].Resumed? && es[i - 1].landed))
  }

  /** Swaps for commits that did not land, since that event. */
  function UnseenSwaps(es: seq<Event>, k: nat): nat
    requires k <= |es|
  {
    if k == 0 || Anchors(es[k - 1]) then 0 else UnseenSwaps(es, k - 1) + if es[k - 1] == Unseen(true) then 1 else 0
  }

  /** The next blit writes the buffer on screen if and only if the plane is on and the buffers have swapped an odd
      number of times, since the last commit that landed, for commits that did not. */
  lemma {:induction false} UnsafeExactlyWhen(es: seq<Event>, k: nat)
    requires k <= |es|
    ensures After(es, k) == Off <==> !IsOn(es, k)
    ensures After(es, k) == Back <==> IsOn(es, k) && Odd(UnseenSwaps(es, k))
  {
    if k > 0 {
      UnsafeExactlyWhen(es, k - 1);
    }
  }

  /** Without such a commit it never does. */
  lemma {:induction false} AllSeenIsSafe(es: seq<Event>, k: nat)
    requires k <= |es| && forall i :: 0 <= i < k ==> !es[i].Unseen?
    ensures After(es, k) != Back
  {
    if k > 0 {
      AllSeenIsSafe(es, k - 1);
    }
  }

  /** Every call of a run follows from the one before. */
  ghost predicate Follow(snaps: seq<Snap>, es: seq<Event>) {
    && |snaps| == |es| + 1
    && snaps[0].place == Off && snaps[0].screen == None && !snaps[0].torn && snaps[0].filled && snaps[0].remembered
    && forall k :: 0 <= k < |es| ==> Follows(snaps[k], es[k], snaps[k + 1])
  }

  lemma {:induction false} PlaceIs(snaps: seq<Snap>, es: seq<Event>, k: nat)
    requires Follow(snaps, es) && k <= |es|
    ensures snaps[k].place == After(es, k)
  {
    if k > 0 {
      PlaceIs(snaps, es, k - 1);
      assert Follows(snaps[k - 1], es[k - 1], snaps[k]);
    }
  }

  /** No blit has written the buffer on screen, unless some call found the back buffer there. */
  lemma {:induction false} NeverTorn(snaps: seq<Snap>, es: seq<Event>, k: nat)
    requires Follow(snaps, es) && k <= |es| && forall i :: 0 <= i < k ==> After(es, i) != Back
    ensures !snaps[k].torn
  {
    if k > 0 {
      NeverTorn(snaps, es, k - 1);
      PlaceIs(snaps, es, k - 1);
      assert Follows(snaps[k - 1], es[k - 1], snaps[k]);
    }
  }

  /** The last new fd, if there was one, was installed. */
  predicate Installed(es: seq<Event>, k: nat)
    requires k <= |es|
  {
    k == 0 || if es[k - 1].Resumed? then es[k - 1].installed else Installed(es, k - 1)
  }

  /** No staged commit failed to land while the plane was off since it was last known to be off. */
  predicate Known(es: seq<Event>, k: nat)
    requires k <= |es|
  {
    k == 0 || Anchors(es[k - 1]) || (if es[k - 1].Unseen? then After(es, k) != Off else Known(es, k - 1))
  }

  /** While the last new fd was installed, the next commit publishes the last blitted frame; and the renderer is as
      good as new unless a failed staged commit has left the back buffer on screen or the plane off and forgotten. */
  lemma {:induction false} RunIsHealthy(snaps: seq<Snap>, es: seq<Event>, k: nat)
    requires Follow(snaps, es) && k <= |es| && Installed(es, k)
    ensures snaps[k].filled
    ensures Known(es, k) && After(es, k) != Back ==> Healthy(snaps[k])
  {
    PlaceIs(snaps, es, k);
    if k > 0 {
      assert Follows(snaps[k - 1], es[k - 1], snaps[k]);
      if !es[k - 1].Resumed? {
        RunIsHealthy(snaps, es, k - 1);
        PlaceIs(snaps, es, k - 1);
      }
    }
  }

  /** Until a call finds the back buffer on screen, the screen shows what the last commit that landed was to show,
      and nothing if the plane has been taken off since. */
  lemma {:induction false} ScreenIsLastLanded(snaps: seq<Snap>, es: seq<Event>, k: nat)
    requires Follow(snaps, es) && k <= |es| && forall i :: LastAnchor(es, k) <= i < k ==> After(es, i) != Back
    ensures var i := LastAnchor(es, k);
            if !IsOn(es, k) then snaps[k].screen == None
            else snaps[k].screen == snaps[i].screen && (Installed(es, i) ==> snaps[k].screen == snaps[i].want)
  {
    if k > 0 {
      assert Follows(snaps[k - 1], es[k - 1], snaps[k]);
      PlaceIs(snaps, es, k);
      PlaceIs(snaps, es, k - 1);
      UnsafeExactlyWhen(es, k);
      if Anchors(es[k - 1]) {
        if Installed(es, k) {
          RunIsHealthy(snaps, es, k);
        }
      } else {
        ScreenIsLastLanded(snaps, es, k - 1);
      }
    }
  }

  lemma FollowIsExact(snaps: seq<Snap>, es: seq<Event>)
    requires Follow(snaps, es)
    ensures snaps[|es|].place == Back <==> IsOn(es, |es|) && Odd(UnseenSwaps(es, |es|))
    ensures (forall i :: 0 <= i < |es| ==> !(IsOn(es, i) && Odd(UnseenSwaps(es, i)))) ==> !snaps[|es|].torn
  {
    PlaceIs(snaps, es, |es|);
    UnsafeExactlyWhen(es, |es|);
    if forall i :: 0 <= i < |es| ==> !(IsOn(es, i) && Odd(UnseenSwaps(es, i))) {
      forall i | 0 <= i < |es|
        ensures After(es, i) != Back
      {
        UnsafeExactlyWhen(es, i);
      }
      NeverTorn(snaps, es, |es|);
    }
  }

  // ---- runs of the renderer ----

  ghost predicate ValidCalls(calls: seq<Call>) {
    && (forall i :: 0 <= i < |calls| ==> ValidOp(calls[i].op))
    && (forall i, j :: 0 <= i < j < |calls| ==> calls[i].now <= calls[j].now)
  }

  /** No new fd failed to allocate the buffers: after one that did, none has a size to ask for. */
  predicate Buffered(calls: seq<Call>, k: nat)
    requires k <= |calls|
  {
    k == 0 || (Buffered(calls, k - 1) && (NewFd(calls[k - 1]) ==> calls[k - 1].op.allocOk))
  }

  /** The last new fd, if there was one, got its buffers and its plane's properties. */
  predicate WellResumed(calls: seq<Call>, k: nat)
    requires k <= |calls|
  {
    k == 0 || if NewFd(calls[k - 1]) then Buffered(calls, k) && calls[k - 1].op.propsOk else WellResumed(calls, k - 1)
  }

  /** What a call has to do with its event. */
  predicate Matches(calls: seq<Call>, es: seq<Event>, k: nat)
    requires k < |calls| == |es|
  {
    && (es[k].Unseen? ==> FailsToLand(calls[k])) && (es[k].Resumed? <==> NewFd(calls[k]))
    && (es[k].Resumed? ==> (es[k].installed <==> Buffered(calls, k + 1) && calls[k].op.propsOk))
  }

  /** Makes the calls one after the other on a new renderer. */
  method Play(w: nat, h: nat, f: CursorFourcc, rotation: Rotation, accepted: Option<set<Rotation>>, calls: seq<Call>)
    returns (r: Renderer, ghost es: seq<Event>, ghost snaps: seq<Snap>)
    requires 0 < w && 0 < h && ValidCalls(calls)
    ensures fresh(r) && r.Valid() && |es| == |calls| && Follow(snaps, es) && snaps[|es|] == Of(r)
    ensures if calls == [] then r.animStart == 0 else r.animStart <= calls[|calls| - 1].now
    ensures r.hasBuffers == Buffered(calls, |calls|) && forall k :: 0 <= k < |es| ==> Matches(calls, es, k)
    decreases |calls|
  {
    if calls == [] {
      r := new Renderer(w, h, f, rotation, accepted);
      es, snaps := [], [Of(r)];
    } else {
      var n := |calls| - 1;
      ghost var before: seq<Event>;
      r, before, snaps := Play(w, h, f, rotation, accepted, calls[..n]);
      ghost var e := Step(r, calls[n]);
      es, snaps := before + [e], snaps + [Of(r)];
      MatchesMore(calls, before, e);
    }
  }

  lemma {:induction false} SameBuffered(calls: seq<Call>, n: nat, k: nat)
    requires k <= n <= |calls|
    ensures Buffered(calls[..n], k) == Buffered(calls, k)
  {
    if k > 0 {
      SameBuffered(calls, n, k - 1);
    }
  }

  lemma MatchesMore(calls: seq<Call>, before: seq<Event>, e: Event)
    requires |calls| == |before| + 1 && forall k :: 0 <= k < |before| ==> Matches(calls[..|before|], before, k)
    ensures Buffered(calls[..|before|], |before|) == Buffered(calls, |before|)
    ensures forall k :: 0 <= k < |before| ==> Matches(calls, before + [e], k)
  {
    forall k | 0 <= k < |before|
      ensures Matches(calls, before + [e], k)
    {
      assert Matches(calls[..|before|], before, k);
      SameBuffered(calls, |before|, k + 1);
    }
    SameBuffered(calls, |before|, |before|);
  }

  lemma {:induction false} InstalledIs(calls: seq<Call>, es: seq<Event>, k: nat)
    requires k <= |calls| == |es| && forall i :: 0 <= i < |es| ==> Matches(calls, es, i)
    ensures Installed(es, k) == WellResumed(calls, k)
  {
    if k > 0 {
      InstalledIs(calls, es, k - 1);
      assert Matches(calls, es, k - 1);
    }
  }

  lemma UnseenFail(calls: seq<Call>, es: seq<Event>)
    requires |calls| == |es| && forall i :: 0 <= i < |es| ==> Matches(calls, es, i)
    ensures forall k :: 0 <= k < |es| && es[k].Unseen? ==> FailsToLand(calls[k])
  {
    forall k | 0 <= k < |es| && es[k].Unseen?
      ensures FailsToLand(calls[k])
    {
      assert Matches(calls, es, k);
    }
  }

  lemma {:induction false} AllKnown(es: seq<Event>, k: nat)
    requires k <= |es| && forall i :: 0 <= i < k ==> !es[i].Unseen?
    ensures Known(es, k)
  {
    if k > 0 {
      AllKnown(es, k - 1);
    }
  }

  /** Over every run of calls, with any commits failing: the next blit writes the buffer on screen if and only if the
      plane is on and an odd number of swaps were for staged commits that did not land, since the last that did;
      and until a call finds that state, nothing has been torn. */
  method PlayIsExact(w: nat, h: nat, f: CursorFourcc, rotation: Rotation, accepted: Option<set<Rotation>>,
      calls: seq<Call>)
    returns (r: Renderer, ghost es: seq<Event>)
    requires 0 < w && 0 < h && ValidCalls(calls)
    ensures fresh(r) && r.Valid() && |es| == |calls|
    ensures forall k :: 0 <= k < |es| && es[k].Unseen? ==> FailsToLand(calls[k])
    ensures !r.SafeToBlit() <==> IsOn(es, |es|) && Odd(UnseenSwaps(es, |es|))
    ensures (forall i :: 0 <= i < |es| ==> !(IsOn(es, i) && Odd(UnseenSwaps(es, i)))) ==> !r.torn
  {
    ghost var snaps: seq<Snap>;
    r, es, snaps := Play(w, h, f, rotation, accepted, calls);
    FollowIsExact(snaps, es);
    UnseenFail(calls, es);
    assert !r.SafeToBlit() <==> snaps[|es|].place == Back;
  }

  /** So when every staged commit lands, no blit ever writes the buffer on screen; and unless the last new fd failed
      to get its buffers or its plane's properties, the renderer ends up as good as new. */
  method PlayIsSafe(w: nat, h: nat, f: CursorFourcc, rotation: Rotation, accepted: Option<set<Rotation>>,
      calls: seq<Call>)
    returns (r: Renderer)
    requires 0 < w && 0 < h && ValidCalls(calls) && forall k :: 0 <= k < |calls| ==> !FailsToLand(calls[k])
    ensures fresh(r) && r.Valid() && r.SafeToBlit() && !r.torn
    ensures WellResumed(calls, |calls|) ==> r.Healthy()
  {
    ghost var es, snaps;
    r, es, snaps := Play(w, h, f, rotation, accepted, calls);
    UnseenFail(calls, es);
    forall i | 0 <= i <= |es|
      ensures After(es, i) != Back
    {
      AllSeenIsSafe(es, i);
    }
    PlaceIs(snaps, es, |es|);
    NeverTorn(snaps, es, |es|);
    AllKnown(es, |es|);
    InstalledIs(calls, es, |es|);
    if Installed(es, |es|) {
      RunIsHealthy(snaps, es, |es|);
    }
  }
}
