/** The document shell of the demo (examples/mdi_demo/shell.cpp): documents in creation order, and a stack of
    their indices from bottom to top whose last entry has the focus. */
module FocusStack {
  import opened Wrappers
  import opened Seqs

  // ---- documents and their geometry ----

  datatype Doc = Doc(id: nat, x: int, y: int, width: nat, height: nat, focused: bool, dirty: bool)

  datatype Theme = Theme(shadowExtent: int, titleBarHeight: int)

  /** The interactive parts of a decoration, in its own coordinates. */
  datatype Geometry = Geometry(panelX: int, panelY: int, panelW: int, panelH: int, titleBarHeight: int,
                               buttonRadius: int, buttonCy: int, closeCx: int, minimizeCx: int, maximizeCx: int)

  const BUTTON_RADIUS := 7
  const BUTTON_GAP := 6
  const BUTTON_RIGHT_PAD := 10

  function AtLeast0(v: int): nat {
    if v < 0 then 0 else v
  }

  function DecorationGeometry(t: Theme, w: nat, h: nat): Geometry {
    var extent := AtLeast0(t.shadowExtent);
    var panelW, bar := AtLeast0(w - 2 * extent), AtLeast0(t.titleBarHeight);
    var closeCx := extent + panelW - BUTTON_RIGHT_PAD - BUTTON_RADIUS;
    var step := 2 * BUTTON_RADIUS + BUTTON_GAP;
    Geometry(extent, extent, panelW, AtLeast0(h - 2 * extent), bar, BUTTON_RADIUS, extent + bar / 2,
             closeCx, closeCx - step, closeCx - 2 * step)
  }

  datatype Zone = ButtonClose | ButtonMinimize | ButtonMaximize | TitleBar | Body

  datatype Hit = Hit(doc: nat, x: int, y: int, zone: Zone)

  predicate InButton(lx: int, ly: int, cx: int, cy: int, r: int) {
    -r <= lx - cx <= r && -r <= ly - cy <= r
  }

  function ZoneAt(g: Geometry, lx: int, ly: int): Zone {
    if ly < g.panelY + g.titleBarHeight then
      if InButton(lx, ly, g.closeCx, g.buttonCy, g.buttonRadius) then ButtonClose
      else if InButton(lx, ly, g.minimizeCx, g.buttonCy, g.buttonRadius) then ButtonMinimize
      else if InButton(lx, ly, g.maximizeCx, g.buttonCy, g.buttonRadius) then ButtonMaximize
      else TitleBar
    else Body
  }

  /** The point is on the document's panel; its shadow does not count. */
  predicate OnPanel(t: Theme, d: Doc, px: int, py: int) {
    var lx, ly, g := px - d.x, py - d.y, DecorationGeometry(t, d.width, d.height);
    && 0 <= lx < d.width && 0 <= ly < d.height
    && g.panelX <= lx < g.panelX + g.panelW && g.panelY <= ly < g.panelY + g.panelH
  }

  function HitOf(t: Theme, docs: seq<Doc>, i: nat, px: int, py: int): Hit
    requires i < |docs|
  {
    var d := docs[i];
    Hit(i, px - d.x, py - d.y, ZoneAt(DecorationGeometry(t, d.width, d.height), px - d.x, py - d.y))
  }

  // ---- the shell as a state ----

  datatype Drag = Drag(active: bool, doc: nat, dx: int, dy: int)

  datatype Desk = Desk(docs: seq<Doc>, stack: seq<nat>, nextId: nat, budget: nat, drag: Drag)

  ghost predicate Within(stack: seq<nat>, n: nat) {
    forall k :: 0 <= k < |stack| ==> stack[k] < n
  }

  /** The stack is a permutation of the indices below n. */
  ghost predicate IndicesOf(stack: seq<nat>, n: nat) {
    |stack| == n && Distinct(stack) && Within(stack, n)
  }

  /** Ids are given in creation order. */
  ghost predicate IdsAscend(docs: seq<Doc>, nextId: nat) {
    && (forall i, j :: 0 <= i < j < |docs| ==> docs[i].id < docs[j].id)
    && (forall i :: 0 <= i < |docs| ==> docs[i].id < nextId)
  }

  ghost predicate OnlyFocused(docs: seq<Doc>, stack: seq<nat>) {
    forall i :: 0 <= i < |docs| ==> (docs[i].focused <==> stack != [] && i == stack[|stack| - 1])
  }

  /** The stack lists every document once, only its top is focused, and the budget holds. */
  ghost predicate Sound(d: Desk) {
    && IndicesOf(d.stack, |d.docs|) && IdsAscend(d.docs, d.nextId)
    && OnlyFocused(d.docs, d.stack) && |d.docs| <= d.budget
  }

  /** The ids from bottom to top. */
  ghost function ZOrder(docs: seq<Doc>, stack: seq<nat>): (ids: seq<nat>)
    requires Within(stack, |docs|)
    ensures |ids| == |stack| && forall k :: 0 <= k < |stack| ==> ids[k] == docs[stack[k]].id
  {
    seq(|stack|, k requires 0 <= k < |stack| => docs[stack[k]].id)
  }

  /** Focus goes to one document; those whose focus changes need a repaint. */
  function Focus(d: Doc, on: bool): Doc {
    d.(focused := on, dirty := d.dirty || d.focused != on)
  }

  function MarkFocused(docs: seq<Doc>, top: nat): (r: seq<Doc>)
    ensures |r| == |docs| && forall i :: 0 <= i < |docs| ==> r[i] == Focus(docs[i], i == top)
  {
    seq(|docs|, i requires 0 <= i < |docs| => Focus(docs[i], i == top))
  }

  const DEFAULT_W := 600
  const DEFAULT_H := 360
  const STAGGER := 48
  const FIRST := 80

  /** The document a spawn makes: staggered, and back at the start when it would leave the screen. */
  function NewDoc(id: nat, step: nat, fbW: int, fbH: int): Doc {
    var x, y := FIRST + step * STAGGER, FIRST + step * STAGGER;
    Doc(id, if x + DEFAULT_W > fbW then FIRST else x, if y + DEFAULT_H > fbH then FIRST else y,
        DEFAULT_W, DEFAULT_H, false, true)
  }

  /** A spawn succeeds when the budget allows it and the surface is created. */
  function Spawned(d: Desk, fbW: int, fbH: int, created: bool): Desk {
    if |d.docs| >= d.budget || !created then d
    else
      var docs := d.docs + [NewDoc(d.nextId, |d.docs|, fbW, fbH)];
      d.(docs := MarkFocused(docs, |d.docs|), stack := d.stack + [|d.docs|], nextId := d.nextId + 1)
  }

  /** An index after the erasure of entry `gone`. */
  function Shift(e: nat, gone: nat): nat {
    if e > gone then e - 1 else e
  }

  /** The stack without `gone`, renumbered. */
  function Reindexed(stack: seq<nat>, gone: nat): seq<nat> {
    if stack == [] then []
    else
      var e := stack[|stack| - 1];
      Reindexed(stack[..|stack| - 1], gone) + if e == gone then [] else [Shift(e, gone)]
  }

  /** The focus on the top of the stack, if there is one. */
  function TopFocused(docs: seq<Doc>, stack: seq<nat>): seq<Doc> {
    if stack == [] then docs else MarkFocused(docs, stack[|stack| - 1])
  }

  function Erased(docs: seq<Doc>, gone: nat): seq<Doc>
    requires gone < |docs|
  {
    docs[..gone] + docs[gone + 1..]
  }

  function Closed(d: Desk): Desk {
    if d.stack == [] || d.stack[|d.stack| - 1] >= |d.docs| then d
    else
      var gone := d.stack[|d.stack| - 1];
      var stack := Reindexed(d.stack, gone);
      d.(docs := TopFocused(Erased(d.docs, gone), stack), stack := stack)
  }

  /** The focus goes from one document to another, and the first needs a repaint. */
  function Handed(docs: seq<Doc>, front: nat, top: nat): seq<Doc>
    requires front < |docs|
  {
    var marked := MarkFocused(docs, top);
    marked[front := marked[front].(focused := false, dirty := true)]
  }

  /** The top goes to the bottom. */
  function Cycled(d: Desk): Desk {
    if |d.stack| < 2 || d.stack[|d.stack| - 1] >= |d.docs| then d
    else
      var n := |d.stack| - 1;
      d.(docs := Handed(d.docs, d.stack[n], d.stack[n - 1]), stack := [d.stack[n]] + d.stack[..n])
  }

  /** The stack without any entry `i`. */
  function Removed(stack: seq<nat>, i: nat): seq<nat> {
    if stack == [] then []
    else (if stack[0] == i then [] else [stack[0]]) + Removed(stack[1..], i)
  }

  function Raised(d: Desk, i: nat): Desk {
    if d.stack != [] && d.stack[|d.stack| - 1] == i then d
    else d.(stack := Removed(d.stack, i) + [i], docs := MarkFocused(d.docs, i))
  }

  /** The topmost document under the point among the lowest n of the stack. */
  ghost function HitFrom(t: Theme, docs: seq<Doc>, stack: seq<nat>, n: nat, px: int, py: int): Option<Hit>
    requires n <= |stack| && Within(stack, |docs|)
  {
    if n == 0 then None
    else if OnPanel(t, docs[stack[n - 1]], px, py) then Some(HitOf(t, docs, stack[n - 1], px, py))
    else HitFrom(t, docs, stack, n - 1, px, py)
  }

  /** What a press does once its document is on top. */
  function Acted(d: Desk, hit: Hit): Desk {
    match hit.zone
    case ButtonClose => Closed(d)
    case TitleBar => d.(drag := Drag(true, hit.doc, hit.x, hit.y))
    case _ => d
  }

  ghost function Pressed(t: Theme, d: Desk, px: int, py: int): Desk
    requires Within(d.stack, |d.docs|)
  {
    match HitFrom(t, d.docs, d.stack, |d.stack|, px, py)
    case None => d
    case Some(hit) => Acted(Raised(d, hit.doc), hit)
  }

  /** A motion moves the dragged document. */
  function Moved(d: Desk, px: int, py: int): Desk {
    if d.drag.active && d.drag.doc < |d.docs| then
      d.(docs := d.docs[d.drag.doc := d.docs[d.drag.doc].(x := px - d.drag.dx, y := py - d.drag.dy)])
    else d
  }

  // ---- the shell object ----

  class Shell {
    const theme: Theme
    const budget: nat
    var docs: seq<Doc>
    var stack: seq<nat>
    var nextId: nat
    var dragging: bool
    var dragDoc: nat
    var dragDx: int
    var dragDy: int

    function Now(): Desk
      reads this
    {
      Desk(docs, stack, nextId, budget, Drag(dragging, dragDoc, dragDx, dragDy))
    }

    ghost predicate Valid()
      reads this
    {
      Sound(Now())
    }

    constructor (t: Theme, planeBudget: nat)
      ensures Valid() && Now() == Desk([], [], 1, planeBudget, Drag(false, 0, 0, 0)) && theme == t
    {
      theme, budget := t, planeBudget;
      docs, stack, nextId := [], [], 1;
      dragging, dragDoc, dragDx, dragDy := false, 0, 0, 0;
    }

    /** Gives the focus to one document. */
    method SetFocus(top: nat)
      modifies `docs
      ensures docs == MarkFocused(old(docs), top)
    {
      for i := 0 to |docs|
        invariant |docs| == |old(docs)|
        invariant forall k :: 0 <= k < |docs| ==>
                    docs[k] == if k < i then Focus(old(docs)[k], k == top) else old(docs)[k]
      {
        var isTop := i == top;
        if docs[i].focused != isTop {
          docs := docs[i := docs[i].(focused := isTop, dirty := true)];
        }
      }
    }

    method SpawnDocument(fbW: int, fbH: int, created: bool) returns (ok: bool)
      requires Valid()
      modifies this
      ensures Valid() && Now() == Spawned(old(Now()), fbW, fbH, created)
      ensures ok <==> |old(docs)| < budget && created
    {
      SpawnKeeps(Now(), fbW, fbH, created);
      if |docs| >= budget || !created {
        return false;
      }
      docs := docs + [NewDoc(nextId, |docs|, fbW, fbH)];
      nextId := nextId + 1;
      stack := stack + [|docs| - 1];
      SetFocus(|docs| - 1);
      ok := true;
    }

    method CloseFocused()
      requires Valid()
      modifies this
      ensures Valid() && Now() == Closed(old(Now()))
    {
      CloseKeeps(Now());
      if stack != [] {
        DropTop();
      }
    }

    /** Erases the top document, renumbers the stack and focuses the new top. */
    method DropTop()
      requires stack != [] && stack[|stack| - 1] < |docs|
      modifies `docs, `stack
      ensures Now() == Closed(old(Now()))
    {
      var gone := stack[|stack| - 1];
      docs := docs[..gone] + docs[gone + 1..];
      stack := Renumber(stack, gone);
      if stack != [] {
        SetFocus(stack[|stack| - 1]);
      }
    }

    method CycleFocus()
      requires Valid()
      modifies this
      ensures Valid() && Now() == Cycled(old(Now()))
    {
      CycleKeeps(Now());
      if |stack| >= 2 {
        SendTopDown();
      }
    }

    method SendTopDown()
      requires |stack| >= 2 && stack[|stack| - 1] < |docs|
      modifies `docs, `stack
      ensures Now() == Cycled(old(Now()))
    {
      var front := stack[|stack| - 1];
      stack := [front] + stack[..|stack| - 1];
      SetFocus(stack[|stack| - 1]);
      docs := docs[front := docs[front].(focused := false, dirty := true)];
    }

    /** The topmost document whose panel is under the point. */
    method HitTest(px: int, py: int) returns (hit: Option<Hit>)
      requires Valid()
      ensures hit == HitFrom(theme, docs, stack, |stack|, px, py)
    {
      var n := |stack|;
      while n > 0
        invariant 0 <= n <= |stack|
        invariant HitFrom(theme, docs, stack, n, px, py) == HitFrom(theme, docs, stack, |stack|, px, py)
      {
        if OnPanel(theme, docs[stack[n - 1]], px, py) {
          return Some(HitOf(theme, docs, stack[n - 1], px, py));
        }
        n := n - 1;
      }
      hit := None;
    }

    method OnPointerPress(px: int, py: int) returns (changed: bool)
      requires Valid()
      modifies this
      ensures Valid() && Now() == Pressed(theme, old(Now()), px, py)
      ensures changed <==> stack != old(stack)
    {
      PressKeeps(theme, Now(), px, py);
      var hit := HitTest(px, py);
      if hit.None? {
        return false;
      }
      RaiseKeeps(Now(), hit.value.doc);
      ActLength(Raised(Now(), hit.value.doc), hit.value);
      changed := PressOn(hit.value);
    }

    method PressOn(hit: Hit) returns (changed: bool)
      requires hit.doc < |docs|
      modifies `docs, `stack, `dragging, `dragDoc, `dragDx, `dragDy
      ensures Now() == Acted(Raised(old(Now()), hit.doc), hit)
      ensures changed <==> hit.zone == ButtonClose || old(stack) == [] || old(stack)[|old(stack)| - 1] != hit.doc
      ensures !changed ==> docs == old(docs) && stack == old(stack)
    {
      changed := Raise(hit.doc);
      match hit.zone
      case ButtonClose =>
        DropTop();
        changed := true;
      case TitleBar =>
        dragging, dragDoc, dragDx, dragDy := true, hit.doc, hit.x, hit.y;
      case _ =>
    }

    /** Brings a document to the top unless it is there. */
    method Raise(i: nat) returns (changed: bool)
      modifies `docs, `stack
      ensures Now() == Raised(old(Now()), i)
      ensures changed <==> old(stack) == [] || old(stack)[|old(stack)| - 1] != i
    {
      changed := stack == [] || stack[|stack| - 1] != i;
      if changed {
        stack := Removed(stack, i) + [i];
        SetFocus(i);
      }
    }

    method OnPointerRelease()
      requires Valid()
      modifies `dragging
      ensures Valid() && Now() == old(Now()).(drag := old(Now()).drag.(active := false))
    {
      dragging := false;
    }

    /** The part of a pointer motion that drags. */
    method OnPointerMotion(px: int, py: int)
      requires Valid()
      modifies `docs
      ensures Valid() && Now() == Moved(old(Now()), px, py)
    {
      if dragging && dragDoc < |docs| {
        docs := docs[dragDoc := docs[dragDoc].(x := px - dragDx, y := py - dragDy)];
      }
    }
  }

  /** The loop that rewrites the stack. */
  method Renumber(stack: seq<nat>, gone: nat) returns (more: seq<nat>)
    ensures more == Reindexed(stack, gone)
  {
    more := [];
    for i := 0 to |stack|
      invariant more == Reindexed(stack[..i], gone)
    {
      assert stack[..i + 1][..i] == stack[..i];
      if stack[i] != gone {
        more := more + [if stack[i] > gone then stack[i] - 1 else stack[i]];
      }
    }
    assert stack[..|stack|] == stack;
  }

  // ---- what every step keeps ----

  /** Moving the focus keeps the ids and the z-order, and leaves only the top focused. */
  lemma FocusKeeps(docs: seq<Doc>, stack: seq<nat>, nextId: nat)
    requires IndicesOf(stack, |docs|) && IdsAscend(docs, nextId)
    ensures var marked := TopFocused(docs, stack);
            && |marked| == |docs| && IdsAscend(marked, nextId) && OnlyFocused(marked, stack)
            && ZOrder(marked, stack) == ZOrder(docs, stack)
  {
  }

  lemma PushIndices(stack: seq<nat>)
    requires IndicesOf(stack, |stack|)
    ensures IndicesOf(stack + [|stack|], |stack| + 1)
  {
  }

  lemma PushDoc(docs: seq<Doc>, stack: seq<nat>, doc: Doc)
    requires IndicesOf(stack, |docs|) && IdsAscend(docs, doc.id)
    ensures IdsAscend(docs + [doc], doc.id + 1) && Within(stack + [|docs|], |docs| + 1)
    ensures ZOrder(docs + [doc], stack + [|docs|]) == ZOrder(docs, stack) + [doc.id]
  {
  }

  /** A spawned document is on top. */
  lemma SpawnKeeps(d: Desk, fbW: int, fbH: int, created: bool)
    requires Sound(d)
    ensures Sound(Spawned(d, fbW, fbH, created))
    ensures var t := Spawned(d, fbW, fbH, created);
            ZOrder(t.docs, t.stack) ==
            ZOrder(d.docs, d.stack) + if |d.docs| < d.budget && created then [d.nextId] else []
  {
    if |d.docs| < d.budget && created {
      var doc := NewDoc(d.nextId, |d.docs|, fbW, fbH);
      PushIndices(d.stack);
      PushDoc(d.docs, d.stack, doc);
      FocusKeeps(d.docs + [doc], d.stack + [|d.docs|], d.nextId + 1);
    } else {
      assert ZOrder(d.docs, d.stack) + [] == ZOrder(d.docs, d.stack);
    }
  }

  /** Entries other than the erased one keep their order, shifted. */
  lemma {:induction false} ReindexedIs(stack: seq<nat>, gone: nat)
    requires gone !in stack
    ensures |Reindexed(stack, gone)| == |stack|
    ensures forall k :: 0 <= k < |stack| ==> Reindexed(stack, gone)[k] == Shift(stack[k], gone)
  {
    if stack != [] {
      ReindexedIs(stack[..|stack| - 1], gone);
    }
  }

  lemma ReindexTop(stack: seq<nat>, n: nat)
    requires IndicesOf(stack, n) && n > 0
    ensures var r := Reindexed(stack, stack[n - 1]);
            && IndicesOf(r, n - 1)
            && forall k :: 0 <= k < n - 1 ==> stack[k] != stack[n - 1] && r[k] == Shift(stack[k], stack[n - 1])
  {
    var gone, below := stack[n - 1], stack[..n - 1];
    assert gone !in below;
    ReindexedIs(below, gone);
    assert Reindexed(stack, gone) == Reindexed(below, gone);
    assert forall k :: 0 <= k < n - 1 ==> below[k] == stack[k] && stack[k] != gone;
  }

  lemma EraseDoc(docs: seq<Doc>, gone: nat, nextId: nat)
    requires gone < |docs| && IdsAscend(docs, nextId)
    ensures |Erased(docs, gone)| == |docs| - 1 && IdsAscend(Erased(docs, gone), nextId)
    ensures forall e: nat :: e < |docs| && e != gone ==> Erased(docs, gone)[Shift(e, gone)] == docs[e]
  {
  }

  lemma CloseIndices(docs: seq<Doc>, stack: seq<nat>, nextId: nat)
    requires IndicesOf(stack, |docs|) && IdsAscend(docs, nextId) && stack != []
    ensures var gone := stack[|stack| - 1];
            && IndicesOf(Reindexed(stack, gone), |docs| - 1)
            && |Erased(docs, gone)| == |docs| - 1 && IdsAscend(Erased(docs, gone), nextId)
  {
    ReindexTop(stack, |stack|);
    EraseDoc(docs, stack[|stack| - 1], nextId);
  }

  /** The k-th document of the stack is still the k-th. */
  lemma CloseOrderAt(docs: seq<Doc>, stack: seq<nat>, k: nat)
    requires IndicesOf(stack, |docs|) && k < |stack| - 1
    ensures var gone := stack[|stack| - 1];
            && |Reindexed(stack, gone)| == |stack| - 1
            && Reindexed(stack, gone)[k] < |Erased(docs, gone)|
            && Erased(docs, gone)[Reindexed(stack, gone)[k]] == docs[stack[k]]
  {
    ReindexTop(stack, |stack|);
  }

  lemma CloseOrder(docs: seq<Doc>, stack: seq<nat>)
    requires IndicesOf(stack, |docs|) && stack != []
    requires var gone := stack[|stack| - 1]; Within(Reindexed(stack, gone), |Erased(docs, gone)|)
    ensures var gone := stack[|stack| - 1];
            ZOrder(Erased(docs, gone), Reindexed(stack, gone)) == ZOrder(docs, stack)[..|stack| - 1]
  {
    ReindexTop(stack, |stack|);
    forall k: nat | k < |stack| - 1
      ensures var gone := stack[|stack| - 1];
              ZOrder(Erased(docs, gone), Reindexed(stack, gone))[k] == ZOrder(docs, stack)[k]
    {
      CloseOrderAt(docs, stack, k);
    }
  }

  /** Closing removes the top of the z-order and keeps the others as they lie. */
  lemma CloseKeeps(d: Desk)
    requires Sound(d)
    ensures Sound(Closed(d))
    ensures var t := Closed(d);
            ZOrder(t.docs, t.stack) == if d.stack == [] then [] else ZOrder(d.docs, d.stack)[..|d.stack| - 1]
  {
    if d.stack != [] {
      var gone := d.stack[|d.stack| - 1];
      CloseIndices(d.docs, d.stack, d.nextId);
      CloseOrder(d.docs, d.stack);
      FocusKeeps(Erased(d.docs, gone), Reindexed(d.stack, gone), d.nextId);
    }
  }

  /** s with its last entry first. */
  function Up<T>(s: seq<T>): seq<T>
    requires s != []
  {
    [s[|s| - 1]] + s[..|s| - 1]
  }

  lemma RotateOrder(docs: seq<Doc>, stack: seq<nat>)
    requires IndicesOf(stack, |docs|) && stack != []
    ensures IndicesOf(Up(stack), |docs|) && ZOrder(docs, Up(stack)) == Up(ZOrder(docs, stack))
  {
  }

  lemma HandKeeps(docs: seq<Doc>, stack: seq<nat>, nextId: nat)
    requires IndicesOf(stack, |docs|) && IdsAscend(docs, nextId) && |stack| >= 2
    ensures var handed := Handed(docs, stack[|stack| - 1], stack[|stack| - 2]);
            && SameDocs(handed, docs) && IdsAscend(handed, nextId) && OnlyFocused(handed, Up(stack))
  {
    assert stack[|stack| - 1] != stack[|stack| - 2];
  }

  lemma SameOrder(a: seq<Doc>, b: seq<Doc>, stack: seq<nat>)
    requires SameDocs(a, b) && Within(stack, |b|)
    ensures ZOrder(a, stack) == ZOrder(b, stack)
  {
    assert forall i :: 0 <= i < |a| ==> a[i].id == b[i].id;
  }

  lemma UpIndices(stack: seq<nat>, n: nat)
    requires IndicesOf(stack, n) && stack != []
    ensures IndicesOf(Up(stack), n)
  {
  }

  lemma ShortCycle(d: Desk)
    requires Sound(d) && |d.stack| < 2
    ensures Cycled(d) == d && (d.stack != [] ==> Up(d.stack) == d.stack)
  {
  }

  lemma CycleKeeps(d: Desk)
    requires Sound(d)
    ensures Sound(Cycled(d)) && SameDocs(Cycled(d).docs, d.docs)
    ensures d.stack != [] ==> Cycled(d).stack == Up(d.stack)
  {
    if |d.stack| >= 2 {
      UpIndices(d.stack, |d.docs|);
      HandKeeps(d.docs, d.stack, d.nextId);
      var n := |d.stack| - 1;
      assert Cycled(d) == d.(docs := Handed(d.docs, d.stack[n], d.stack[n - 1]), stack := Up(d.stack));
    } else {
      ShortCycle(d);
    }
  }

  /** Cycling puts the top of the z-order at the bottom. */
  lemma CycleOrder(d: Desk)
    requires Sound(d) && d.stack != []
    ensures Within(Cycled(d).stack, |Cycled(d).docs|)
    ensures ZOrder(Cycled(d).docs, Cycled(d).stack) == Up(ZOrder(d.docs, d.stack))
  {
    CycleKeeps(d);
    RotateOrder(d.docs, d.stack);
    SameOrder(Cycled(d).docs, d.docs, Up(d.stack));
  }

  /** The same documents, up to focus and repaint marks. */
  ghost predicate SameDocs(a: seq<Doc>, b: seq<Doc>) {
    |a| == |b| && forall i :: 0 <= i < |a| ==> a[i].(focused := b[i].focused, dirty := b[i].dirty) == b[i]
  }

  /** Of distinct indices there is one to remove at most. */
  lemma {:induction false} RemovedIs(stack: seq<nat>, i: nat)
    requires Distinct(stack)
    ensures Removed(stack, i) == Without(stack, i)
  {
    if stack != [] {
      RemovedIs(stack[1..], i);
      if stack[0] == i {
        assert i !in stack[1..];
        WithoutPrefix(stack[1..], i, |stack| - 1);
        assert stack[1..][..|stack| - 1] == stack[1..];
      }
    }
  }

  /** Taking an index out of the stack takes its id out of the z-order. */
  lemma {:induction false} OrderWithout(docs: seq<Doc>, stack: seq<nat>, i: nat)
    requires i < |docs| && Within(stack, |docs|)
    requires forall j, k :: 0 <= j < k < |docs| ==> docs[j].id != docs[k].id
    ensures Within(Without(stack, i), |docs|)
    ensures ZOrder(docs, Without(stack, i)) == Without(ZOrder(docs, stack), docs[i].id)
  {
    if stack != [] {
      OrderWithout(docs, stack[1..], i);
      assert ZOrder(docs, stack)[1..] == ZOrder(docs, stack[1..]);
      if stack[0] != i {
        assert ZOrder(docs, [stack[0]] + Without(stack[1..], i)) ==
               [docs[stack[0]].id] + ZOrder(docs, Without(stack[1..], i));
      }
    }
  }

  lemma DropLargest(stack: seq<nat>, last: nat)
    requires Distinct(stack) && Within(stack, last + 1)
    ensures var w := Without(stack, last);
            Distinct(w) && Within(w, last) && |w| == if last in stack then |stack| - 1 else |stack|
    ensures forall x :: x in Without(stack, last) ==> x in stack
  {
    var w := Without(stack, last);
    WithoutIs(stack, last);
    forall k | 0 <= k < |w|
      ensures w[k] < last
    {
      assert w[k] in stack && w[k] != last;
    }
  }

  /** Every index below the length is somewhere in a list of that many distinct ones. */
  lemma {:induction false} AllListed(stack: seq<nat>, n: nat, i: nat)
    requires IndicesOf(stack, n) && i < n
    ensures i in stack
    decreases n
  {
    var last: nat := n - 1;
    DropLargest(stack, last);
    if last in stack {
      if i != last {
        AllListed(Without(stack, last), last, i);
      }
    } else {
      TooMany(Without(stack, last), last);
    }
  }

  lemma {:induction false} HeadWithin(stack: seq<nat>, n: nat)
    requires Within(stack, n)
    ensures stack == [] || stack[0] < n
  {
  }

  /** No n + 1 distinct indices are all below n. */
  lemma {:induction false} TooMany(stack: seq<nat>, n: nat)
    requires Distinct(stack) && Within(stack, n)
    ensures |stack| <= n
    decreases n
  {
    if n == 0 {
      HeadWithin(stack, n);
    } else {
      var last: nat := n - 1;
      DropLargest(stack, last);
      TooMany(Without(stack, last), last);
    }
  }

  lemma RaiseOrder(docs: seq<Doc>, stack: seq<nat>, i: nat, nextId: nat)
    requires IndicesOf(stack, |docs|) && IdsAscend(docs, nextId) && i < |docs|
    ensures IndicesOf(Removed(stack, i) + [i], |docs|)
    ensures ZOrder(docs, Removed(stack, i) + [i]) == Without(ZOrder(docs, stack), docs[i].id) + [docs[i].id]
  {
    AllListed(stack, |docs|, i);
    RemovedIs(stack, i);
    WithoutIs(stack, i);
    OrderWithout(docs, stack, i);
    assert forall k :: 0 <= k < |Without(stack, i)| ==> Without(stack, i)[k] in Without(stack, i);
  }

  lemma {:induction false} RemoveTop(stack: seq<nat>)
    requires Distinct(stack) && stack != []
    ensures Removed(stack, stack[|stack| - 1]) + [stack[|stack| - 1]] == stack
  {
    if |stack| > 1 {
      RemoveTop(stack[1..]);
    }
  }

  /** Raising a document moves it to the top of the z-order and leaves the others as they lie. */
  lemma RaiseKeeps(d: Desk, i: nat)
    requires Sound(d) && i < |d.docs|
    ensures Sound(Raised(d, i)) && Raised(d, i).stack != [] && Raised(d, i).stack[|Raised(d, i).stack| - 1] == i
    ensures var t := Raised(d, i);
            ZOrder(t.docs, t.stack) == Without(ZOrder(d.docs, d.stack), d.docs[i].id) + [d.docs[i].id]
  {
    RaiseOrder(d.docs, d.stack, i, d.nextId);
    if d.stack[|d.stack| - 1] == i {
      RemoveTop(d.stack);
    } else {
      FocusKeeps(d.docs, Removed(d.stack, i) + [i], d.nextId);
    }
  }

  /** The hit is the topmost document whose panel is under the point; there is none when no panel is. */
  lemma {:induction false} HitIsTopmost(t: Theme, docs: seq<Doc>, stack: seq<nat>, n: nat, px: int, py: int)
    returns (k: nat)
    requires n <= |stack| && Within(stack, |docs|)
    ensures match HitFrom(t, docs, stack, n, px, py)
            case None => forall m :: 0 <= m < n ==> !OnPanel(t, docs[stack[m]], px, py)
            case Some(hit) =>
              && k < n && hit == HitOf(t, docs, stack[k], px, py) && OnPanel(t, docs[stack[k]], px, py)
              && forall m :: k < m < n ==> !OnPanel(t, docs[stack[m]], px, py)
  {
    k := 0;
    if n > 0 {
      if OnPanel(t, docs[stack[n - 1]], px, py) {
        k := n - 1;
      } else {
        k := HitIsTopmost(t, docs, stack, n - 1, px, py);
      }
    }
  }

  lemma ActKeeps(d: Desk, hit: Hit)
    requires Sound(d) && d.stack != []
    ensures Sound(Acted(d, hit))
    ensures var e, z := Acted(d, hit), ZOrder(d.docs, d.stack);
            ZOrder(e.docs, e.stack) == if hit.zone == ButtonClose then z[..|z| - 1] else z
  {
    match hit.zone
    case ButtonClose => CloseKeeps(d);
    case _ => assert Acted(d, hit) == d.(drag := Acted(d, hit).drag);
  }

  lemma DropLast(rest: seq<nat>, id: nat)
    ensures (rest + [id])[..|rest + [id]| - 1] == rest + []
  {
  }

  lemma PressedKeeps(d: Desk, hit: Hit)
    requires Sound(d) && hit.doc < |d.docs|
    ensures var e, z := Acted(Raised(d, hit.doc), hit), ZOrder(d.docs, d.stack);
            && Sound(e)
            && ZOrder(e.docs, e.stack) ==
                 Without(z, d.docs[hit.doc].id) + if hit.zone == ButtonClose then [] else [d.docs[hit.doc].id]
  {
    RaiseKeeps(d, hit.doc);
    ActKeeps(Raised(d, hit.doc), hit);
    DropLast(Without(ZOrder(d.docs, d.stack), d.docs[hit.doc].id), d.docs[hit.doc].id);
  }

  /** A press brings the document under the point to the top, or closes it when on its close button. */
  lemma PressKeeps(t: Theme, d: Desk, px: int, py: int)
    requires Sound(d)
    ensures Sound(Pressed(t, d, px, py))
    ensures var e, z := Pressed(t, d, px, py), ZOrder(d.docs, d.stack);
            match HitFrom(t, d.docs, d.stack, |d.stack|, px, py)
            case None => e == d
            case Some(hit) =>
              && hit.doc < |d.docs|
              && ZOrder(e.docs, e.stack) ==
                   Without(z, d.docs[hit.doc].id) + if hit.zone == ButtonClose then [] else [d.docs[hit.doc].id]
  {
    var k := HitIsTopmost(t, d.docs, d.stack, |d.stack|, px, py);
    var found := HitFrom(t, d.docs, d.stack, |d.stack|, px, py);
    if found.Some? {
      PressedKeeps(d, found.value);
    }
  }

  lemma ActLength(d: Desk, hit: Hit)
    requires IndicesOf(d.stack, |d.docs|) && d.stack != []
    ensures |Acted(d, hit).stack| == if hit.zone == ButtonClose then |d.stack| - 1 else |d.stack|
    ensures hit.zone != ButtonClose ==> Acted(d, hit).stack == d.stack
  {
    if hit.zone == ButtonClose {
      ReindexTop(d.stack, |d.stack|);
    }
  }

  // ---- where a press lands ----

  /** The panel is the document without its shadow, on all four sides. */
  lemma PanelIs(t: Theme, d: Doc, px: int, py: int)
    ensures var lx, ly, shadow := px - d.x, py - d.y, if t.shadowExtent < 0 then 0 else t.shadowExtent;
            OnPanel(t, d, px, py) <==> shadow <= lx < d.width - shadow && shadow <= ly < d.height - shadow
  {
  }

  /** On the panel: the title bar is its topmost rows, with a square of 15 pixels for each button in the bar's middle
      row; going left from the panel's right edge, close is at 17 pixels, minimize at 37 and maximize at 57. */
  lemma ButtonsAre(t: Theme, docs: seq<Doc>, i: nat, px: int, py: int)
    requires i < |docs| && OnPanel(t, docs[i], px, py)
    ensures var d, shadow := docs[i], if t.shadowExtent < 0 then 0 else t.shadowExtent;
            var bar := if t.titleBarHeight < 0 then 0 else t.titleBarHeight;
            var fromRight, fromTop := d.x + d.width - shadow - px, py - (d.y + shadow);
            var inBar, zone := fromTop < bar, HitOf(t, docs, i, px, py).zone;
            var inRow := inBar && bar / 2 - 7 <= fromTop <= bar / 2 + 7;
            && (zone == ButtonClose <==> inRow && 10 <= fromRight <= 24)
            && (zone == ButtonMinimize <==> inRow && 30 <= fromRight <= 44)
            && (zone == ButtonMaximize <==> inRow && 50 <= fromRight <= 64)
            && (zone == Body <==> !inBar)
  {
    var d := docs[i];
    var g := DecorationGeometry(t, d.width, d.height);
    assert g.closeCx == g.panelX + g.panelW - 17;
  }

  /** New documents fit on the screen if one of them can, the first is at (80, 80), and one that fits without
      starting over is 48 pixels right of and below the one before. */
  lemma SpawnsOnScreen(id: nat, step: nat, fbW: int, fbH: int)
    ensures var d := NewDoc(id, step, fbW, fbH);
            && (fbW >= 80 + d.width ==> 80 <= d.x <= fbW - d.width)
            && (fbH >= 80 + d.height ==> 80 <= d.y <= fbH - d.height)
            && (step == 0 ==> d.x == 80 && d.y == 80)
            && (step > 0 && 80 + 48 * step + d.width <= fbW ==> d.x == NewDoc(id, step - 1, fbW, fbH).x + 48)
            && (step > 0 && 80 + 48 * step + d.height <= fbH ==> d.y == NewDoc(id, step - 1, fbW, fbH).y + 48)
  {
  }

  // ---- runs ----

  datatype Op = Spawn(fbW: int, fbH: int, created: bool) | Close | Cycle | Press(px: int, py: int) | Release
              | Motion(mx: int, my: int)

  ghost function Step(t: Theme, d: Desk, op: Op): Desk
    requires Within(d.stack, |d.docs|)
  {
    match op
    case Spawn(w, h, created) => Spawned(d, w, h, created)
    case Close => Closed(d)
    case Cycle => Cycled(d)
    case Press(x, y) => Pressed(t, d, x, y)
    case Release => d.(drag := d.drag.(active := false))
    case Motion(x, y) => Moved(d, x, y)
  }

  lemma StepKeeps(t: Theme, d: Desk, op: Op)
    requires Sound(d)
    ensures Sound(Step(t, d, op))
  {
    var e := Step(t, d, op);
    match op
    case Spawn(w, h, created) => SpawnKeeps(d, w, h, created);
    case Close => CloseKeeps(d);
    case Cycle => CycleKeeps(d);
    case Press(x, y) => PressKeeps(t, d, x, y);
    case Release => assert Sound(e);
    case Motion(x, y) => MoveKeeps(d, x, y);
  }

  lemma StepKeepsBudget(t: Theme, d: Desk, op: Op)
    requires Within(d.stack, |d.docs|)
    ensures Step(t, d, op).budget == d.budget
  {
  }

  /** Documents of both lists, found by their ids: a repaint mark stays, and a changed focus sets it. */
  ghost predicate Repainted(a: seq<Doc>, b: seq<Doc>) {
    forall i, j :: 0 <= i < |a| && 0 <= j < |b| && a[i].id == b[j].id ==>
      (a[i].dirty || a[i].focused != b[j].focused ==> b[j].dirty)
  }

  lemma MarkRepaints(docs: seq<Doc>, top: nat, nextId: nat)
    requires IdsAscend(docs, nextId)
    ensures Repainted(docs, MarkFocused(docs, top)) && IdsAscend(MarkFocused(docs, top), nextId)
  {
  }

  lemma ClosedFrom(d: Desk, j: nat) returns (i: nat)
    requires Sound(d) && j < |Closed(d).docs|
    ensures i < |d.docs| && Closed(d).docs[j].id == d.docs[i].id
    ensures Closed(d).docs[j].dirty <==> d.docs[i].dirty || Closed(d).docs[j].focused != d.docs[i].focused
  {
    if d.stack == [] {
      i := j;
    } else {
      var gone := d.stack[|d.stack| - 1];
      i := if j < gone then j else j + 1;
      assert Erased(d.docs, gone)[j] == d.docs[i];
    }
  }

  lemma CloseRepaints(d: Desk)
    requires Sound(d)
    ensures Repainted(d.docs, Closed(d).docs)
  {
    forall i, j | 0 <= i < |d.docs| && 0 <= j < |Closed(d).docs| && d.docs[i].id == Closed(d).docs[j].id
      ensures d.docs[i].dirty || d.docs[i].focused != Closed(d).docs[j].focused ==> Closed(d).docs[j].dirty
    {
      var k := ClosedFrom(d, j);
      assert k == i;
    }
  }

  lemma RaiseThenClose(d: Desk, at: nat)
    requires Sound(d) && Sound(Raised(d, at)) && Repainted(d.docs, Raised(d, at).docs)
    ensures Repainted(d.docs, Closed(Raised(d, at)).docs)
  {
    var r, e := Raised(d, at), Closed(Raised(d, at));
    CloseRepaints(r);
    forall i, j | 0 <= i < |d.docs| && 0 <= j < |e.docs| && d.docs[i].id == e.docs[j].id
      ensures d.docs[i].dirty || d.docs[i].focused != e.docs[j].focused ==> e.docs[j].dirty
    {
      var k := ClosedFrom(r, j);
      assert r.docs[k].id == d.docs[i].id && r.docs[i].id == d.docs[i].id;
    }
  }

  lemma RaiseRepaints(d: Desk, at: nat)
    requires Sound(d) && at < |d.docs|
    ensures Sound(Raised(d, at)) && Repainted(d.docs, Raised(d, at).docs)
  {
    RaiseKeeps(d, at);
    MarkRepaints(d.docs, at, d.nextId);
  }

  lemma PressRepaints(d: Desk, hit: Hit)
    requires Sound(d) && hit.doc < |d.docs|
    ensures Repainted(d.docs, Acted(Raised(d, hit.doc), hit).docs)
  {
    RaiseRepaints(d, hit.doc);
    if hit.zone == ButtonClose {
      RaiseThenClose(d, hit.doc);
    }
  }

  /** Whatever the shell does, a document whose focus it changes is marked for a repaint, and no mark is lost. */
  lemma FocusChangeRepaints(t: Theme, d: Desk, op: Op)
    requires Sound(d)
    ensures Repainted(d.docs, Step(t, d, op).docs)
  {
    match op
    case Spawn(w, h, created) =>
      if |d.docs| < d.budget && created {
        var doc := NewDoc(d.nextId, |d.docs|, w, h);
        MarkRepaints(d.docs + [doc], |d.docs|, d.nextId + 1);
        assert forall i :: 0 <= i < |d.docs| ==> (d.docs + [doc])[i] == d.docs[i];
      }
    case Close => CloseRepaints(d);
    case Cycle =>
    case Press(x, y) =>
      var k := HitIsTopmost(t, d.docs, d.stack, |d.stack|, x, y);
      var found := HitFrom(t, d.docs, d.stack, |d.stack|, x, y);
      if found.Some? {
        PressRepaints(d, found.value);
      }
    case _ =>
  }

  lemma MoveKeeps(d: Desk, px: int, py: int)
    requires Sound(d)
    ensures Sound(Moved(d, px, py))
  {
  }

  ghost function Run(t: Theme, budget: nat, ops: seq<Op>): (d: Desk)
    ensures Sound(d) && d.budget == budget
  {
    if ops == [] then Desk([], [], 1, budget, Drag(false, 0, 0, 0))
    else
      var before := Run(t, budget, ops[..|ops| - 1]);
      StepKeeps(t, before, ops[|ops| - 1]);
      StepKeepsBudget(t, before, ops[|ops| - 1]);
      Step(t, before, ops[|ops| - 1])
  }

  function CycledTimes(d: Desk, n: nat): Desk {
    if n == 0 then d else Cycled(CycledTimes(d, n - 1))
  }

  function UpTimes<T>(s: seq<T>, n: nat): (r: seq<T>)
    ensures |r| == |s|
  {
    if n == 0 || s == [] then s else Up(UpTimes(s, n - 1))
  }

  lemma {:induction false} UpTimesAll<T>(s: seq<T>, n: nat)
    requires n <= |s|
    ensures UpTimes(s, n) == s[|s| - n..] + s[..|s| - n]
  {
    if n > 0 {
      UpTimesAll(s, n - 1);
    }
  }

  lemma {:induction false} CyclesKeep(d: Desk, n: nat)
    requires Sound(d)
    ensures var e := CycledTimes(d, n);
            Sound(e) && SameDocs(e.docs, d.docs) && e.stack == UpTimes(d.stack, n)
  {
    if n > 0 {
      CyclesKeep(d, n - 1);
      CycleKeeps(CycledTimes(d, n - 1));
      SameDocsTwice(CycledTimes(d, n).docs, CycledTimes(d, n - 1).docs, d.docs);
    }
  }

  lemma SameDocsTwice(a: seq<Doc>, b: seq<Doc>, c: seq<Doc>)
    requires SameDocs(a, b) && SameDocs(b, c)
    ensures SameDocs(a, c)
  {
  }

  /** As many cycles as there are documents restore the stack, and every document up to its repaint mark. */
  lemma CyclingRestores(d: Desk)
    requires Sound(d)
    ensures var e := CycledTimes(d, |d.docs|);
            && e.stack == d.stack && |e.docs| == |d.docs|
            && forall i :: 0 <= i < |d.docs| ==> e.docs[i].(dirty := d.docs[i].dirty) == d.docs[i]
  {
    CyclesKeep(d, |d.docs|);
    UpTimesAll(d.stack, |d.docs|);
  }

  /** A document grabbed by its title bar follows the pointer: it moves by as much as the pointer did. */
  lemma DragFollowsPointer(t: Theme, d: Desk, px: int, py: int, qx: int, qy: int)
    requires Sound(d)
    ensures match HitFrom(t, d.docs, d.stack, |d.stack|, px, py)
            case None => true
            case Some(hit) =>
              hit.zone == TitleBar ==>
                var e := Moved(Pressed(t, d, px, py), qx, qy);
                && hit.doc < |d.docs| == |e.docs|
                && e.docs[hit.doc].x == d.docs[hit.doc].x + (qx - px)
                && e.docs[hit.doc].y == d.docs[hit.doc].y + (qy - py)
                && forall i :: 0 <= i < |d.docs| && i != hit.doc ==>
                     e.docs[i].x == d.docs[i].x && e.docs[i].y == d.docs[i].y
  {
    var k := HitIsTopmost(t, d.docs, d.stack, |d.stack|, px, py);
  }
}
