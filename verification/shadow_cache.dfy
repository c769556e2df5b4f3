/** The shadow cache: a most-recently-used list with an index into it (src/csd/shadow_cache.cpp). */
module ShadowCache {
  import opened Arith
  import opened Grid
  import opened Canvas
  import opened ShadowPixels
  import opened Recency
  import opened Seqs

  /** A list node: a key and its rendered shadow. */
  type CacheEntry = Node<ShadowKey, Image<Argb>>

  /** Every entry's pixels have its key's size. */
  ghost predicate KeySized(order: seq<CacheEntry>) {
    forall e :: e in order ==> Sized(e.value, e.key.width, e.key.height)
  }

  // ---- runs ----

  datatype Op = Use(key: ShadowKey, theme: Theme) | Clear

  /** The list after a run that starts with an empty cache. */
  ghost function After(ops: seq<Op>, capacity: nat): seq<CacheEntry> {
    if ops == [] then []
    else match ops[|ops| - 1]
      case Clear => []
      case Use(key, theme) => LookUp(After(ops[..|ops| - 1], capacity), key, ShadowImage(key, theme), capacity)
  }

  /** The keys used since the last clear, by how recently: what a cache without a limit would hold. */
  ghost function Recent(ops: seq<Op>): seq<ShadowKey> {
    if ops == [] then []
    else match ops[|ops| - 1]
      case Clear => []
      case Use(key, _) => [key] + Without(Recent(ops[..|ops| - 1]), key)
  }

  lemma {:induction false} RecentIsDistinct(ops: seq<Op>)
    ensures Distinct(Recent(ops))
  {
    if ops != [] && ops[|ops| - 1].Use? {
      RecentIsDistinct(ops[..|ops| - 1]);
      WithoutIs(Recent(ops[..|ops| - 1]), ops[|ops| - 1].key);
    }
  }

  /** After any run the cache holds exactly the most recently used distinct keys, in that order, up to its
      capacity: eviction always takes the least recent. */
  lemma {:induction false} CacheHoldsMostRecent(ops: seq<Op>, capacity: nat)
    requires capacity > 0
    ensures KeysOf(After(ops, capacity)) == Recent(ops)[..Min(capacity, |Recent(ops)|)]
    ensures |After(ops, capacity)| <= capacity && Distinct(KeysOf(After(ops, capacity)))
  {
    if ops != [] {
      var before := ops[..|ops| - 1];
      CacheHoldsMostRecent(before, capacity);
      match ops[|ops| - 1]
      case Clear =>
      case Use(key, theme) =>
        RecentIsDistinct(before);
        TouchPrefix(Recent(before), key, capacity);
        LookUpKeys(After(before, capacity), key, ShadowImage(key, theme), capacity);
    }
  }

  /** Over any run in which a key always stands for the same theme, every entry, and in particular the one
      just looked up, holds what rendering it afresh would give. */
  lemma {:induction false} RunIsTransparent(ops: seq<Op>, capacity: nat, themeOf: ShadowKey -> Theme)
    requires capacity > 0
    requires forall i :: 0 <= i < |ops| && ops[i].Use? ==> ops[i].theme == themeOf(ops[i].key)
    ensures forall e :: e in After(ops, capacity) ==> e.value == ShadowImage(e.key, themeOf(e.key))
    ensures ops != [] && ops[|ops| - 1].Use? ==>
              var e := After(ops, capacity);
              e != [] && e[0] == Node(ops[|ops| - 1].key, ShadowImage(ops[|ops| - 1].key, ops[|ops| - 1].theme))
  {
    if ops != [] {
      var before := ops[..|ops| - 1];
      RunIsTransparent(before, capacity, themeOf);
      CacheHoldsMostRecent(before, capacity);
      match ops[|ops| - 1]
      case Clear =>
      case Use(key, theme) =>
        LookUpNodes(After(before, capacity), key, ShadowImage(key, theme), capacity);
    }
  }

  /** A key always stands for one theme. */
  ghost predicate OneThemePerKey(ops: seq<Op>) {
    forall i, j :: 0 <= i < |ops| && 0 <= j < |ops| && ops[i].Use? && ops[j].Use? && ops[i].key == ops[j].key ==>
      ops[i].theme == ops[j].theme
  }

  const PLAIN := Theme(0, 0, Color(0, 0, 0, 0))

  /** The theme of a key's first use. */
  function ThemeOf(ops: seq<Op>, key: ShadowKey): Theme {
    if ops == [] then PLAIN
    else if ops[0].Use? && ops[0].key == key then ops[0].theme
    else ThemeOf(ops[1..], key)
  }

  lemma {:induction false} ThemeOfIs(ops: seq<Op>, i: nat)
    requires OneThemePerKey(ops) && i < |ops| && ops[i].Use?
    ensures ThemeOf(ops, ops[i].key) == ops[i].theme
  {
    if !(ops[0].Use? && ops[0].key == ops[i].key) {
      ThemeOfIs(ops[1..], i - 1);
    }
  }

  /** The pixels of the entry looked up last. */
  ghost function Served(ops: seq<Op>, capacity: nat): Image<Argb> {
    var order := After(ops, capacity);
    if order == [] then [] else order[0].value
  }

  lemma ServedIsFresh(ops: seq<Op>, capacity: nat)
    requires capacity > 0 && OneThemePerKey(ops) && ops != [] && ops[|ops| - 1].Use?
    ensures Served(ops, capacity) == ShadowImage(ops[|ops| - 1].key, ops[|ops| - 1].theme)
  {
    var themeOf := (k: ShadowKey) => ThemeOf(ops, k);
    forall i | 0 <= i < |ops| && ops[i].Use?
      ensures ops[i].theme == themeOf(ops[i].key)
    {
      ThemeOfIs(ops, i);
    }
    RunIsTransparent(ops, capacity, themeOf);
  }

  // ---- what calls write ----

  /** A call of the cache. */
  datatype Call = Blit(key: ShadowKey, theme: Theme)
                | CrossFade(keyA: ShadowKey, keyB: ShadowKey, fadeTheme: Theme, fade: Fade)
                | Reset

  predicate HasPixels(key: ShadowKey) {
    key.width > 0 && key.height > 0
  }

  /** A blit into a target of this size is not refused. */
  predicate Accepted(call: Call, w: nat, h: nat) {
    match call
    case Blit(key, _) => w > 0 && h > 0 && HasPixels(key)
    case CrossFade(a, b, _, _) => w > 0 && h > 0 && HasPixels(a) && a.width == b.width && a.height == b.height
    case Reset => true
  }

  /** The lookups a call makes. */
  function Lookups(call: Call, w: nat, h: nat): seq<Op> {
    if !Accepted(call, w, h) then []
    else match call
      case Blit(key, theme) => [Use(key, theme)]
      case CrossFade(a, b, theme, f) =>
        if f.t <= 0.0 then [Use(a, theme)] else if f.t >= 1.0 then [Use(b, theme)] else [Use(a, theme), Use(b, theme)]
      case Reset => [Clear]
  }

  /** The entry of keyA outlives the lookup of keyB. */
  predicate RoomForBoth(keyA: ShadowKey, keyB: ShadowKey, capacity: nat) {
    capacity >= 2 || keyA == keyB
  }

  /** Every entry the call reads is still there when it is read: a fade between the end points reads the first one
      after the second lookup. */
  predicate Readable(call: Call, w: nat, h: nat, capacity: nat) {
    Accepted(call, w, h) && call.CrossFade? && 0.0 < call.fade.t < 1.0 ==> RoomForBoth(call.keyA, call.keyB, capacity)
  }

  /** What a call writes over the target d, after the lookups `before`. */
  ghost function Written(before: seq<Op>, call: Call, d: Image<Argb>, w: nat, h: nat, capacity: nat): Image<Argb>
    requires Readable(call, w, h, capacity)
  {
    if !Accepted(call, w, h) then d
    else match call
      case Reset => d
      case Blit(key, theme) => Over(Served(before + [Use(key, theme)], capacity), d)
      case CrossFade(a, b, theme, f) =>
        if f.t <= 0.0 then Over(Served(before + [Use(a, theme)], capacity), d)
        else if f.t >= 1.0 then Over(Served(before + [Use(b, theme)], capacity), d)
        else MixedOver(Served(before + [Use(a, theme)], capacity),
                       Served(before + [Use(a, theme)] + [Use(b, theme)], capacity), f, d)
  }

  /** What it would write if every shadow were rendered afresh. */
  ghost function Afresh(call: Call, d: Image<Argb>, w: nat, h: nat): Image<Argb> {
    if !Accepted(call, w, h) then d
    else match call
      case Reset => d
      case Blit(key, theme) => Over(ShadowImage(key, theme), d)
      case CrossFade(a, b, theme, f) =>
        if f.t <= 0.0 then Over(ShadowImage(a, theme), d)
        else if f.t >= 1.0 then Over(ShadowImage(b, theme), d)
        else MixedOver(ShadowImage(a, theme), ShadowImage(b, theme), f, d)
  }

  lemma PrefixOneTheme(ops: seq<Op>, more: seq<Op>)
    requires OneThemePerKey(ops + more)
    ensures OneThemePerKey(ops)
  {
    assert forall i :: 0 <= i < |ops| ==> (ops + more)[i] == ops[i];
  }

  /** While a key stands for one theme, no call that reads only entries still there shows that there is a cache. */
  lemma WrittenIsFresh(before: seq<Op>, call: Call, d: Image<Argb>, w: nat, h: nat, capacity: nat)
    requires capacity > 0 && OneThemePerKey(before + Lookups(call, w, h)) && Readable(call, w, h, capacity)
    ensures Written(before, call, d, w, h, capacity) == Afresh(call, d, w, h)
  {
    var after := before + Lookups(call, w, h);
    if Accepted(call, w, h) && !call.Reset? {
      if call.CrossFade? && 0.0 < call.fade.t < 1.0 {
        var mid := before + [Use(call.keyA, call.fadeTheme)];
        assert after == mid + [Use(call.keyB, call.fadeTheme)];
        PrefixOneTheme(mid, [Use(call.keyB, call.fadeTheme)]);
        ServedIsFresh(mid, capacity);
      }
      ServedIsFresh(after, capacity);
    }
  }

  /** A call and the target it is given. */
  datatype Painted = Painted(call: Call, target: Image<Argb>, w: nat, h: nat)

  /** The lookups of the first k calls of a run. */
  function History(run: seq<Painted>, k: nat): seq<Op>
    requires k <= |run|
  {
    if k == 0 then [] else History(run, k - 1) + Lookups(run[k - 1].call, run[k - 1].w, run[k - 1].h)
  }

  lemma {:induction false} HistoryPrefix(run: seq<Painted>, k: nat, n: nat)
    requires k <= n <= |run| && OneThemePerKey(History(run, n))
    ensures OneThemePerKey(History(run, k))
    decreases n
  {
    if k < n {
      PrefixOneTheme(History(run, n - 1), Lookups(run[n - 1].call, run[n - 1].w, run[n - 1].h));
      HistoryPrefix(run, k, n - 1);
    }
  }

  /** Over any run of blits, cross-fades and clears, of any keys into any targets, each call writes exactly the
      pixels that rendering everything afresh would have written, as long as no fade so far has read an entry that
      it had evicted itself. */
  lemma {:induction false} RunWritesAfresh(run: seq<Painted>, k: nat, capacity: nat)
    requires capacity > 0 && k < |run| && OneThemePerKey(History(run, |run|))
    requires forall i :: 0 <= i <= k ==> Readable(run[i].call, run[i].w, run[i].h, capacity)
    ensures var p := run[k];
            Written(History(run, k), p.call, p.target, p.w, p.h, capacity) == Afresh(p.call, p.target, p.w, p.h)
  {
    var p, before := run[k], History(run, k);
    assert OneThemePerKey(before + Lookups(p.call, p.w, p.h)) by {
      HistoryPrefix(run, k + 1, |run|);
    }
    WrittenIsFresh(before, p.call, p.target, p.w, p.h, capacity);
  }

  // ---- premultiplied targets ----

  ghost predicate AllPremultiplied(image: Image<Argb>) {
    forall y, x :: 0 <= y < |image| && 0 <= x < |image[y]| ==> Premultiplied(image[y][x])
  }

  lemma ShadowAllPremultiplied(key: ShadowKey, theme: Theme)
    ensures AllPremultiplied(ShadowImage(key, theme))
  {
    var image := ShadowImage(key, theme);
    forall y, x | 0 <= y < |image| && 0 <= x < |image[y]|
      ensures Premultiplied(image[y][x])
    {
      ShadowIsPremultiplied(key, theme, x, y);
    }
  }

  /** Whatever themes its keys stood for, a cache holds rendered shadows only. */
  lemma {:induction false} EntriesPremultiplied(ops: seq<Op>, capacity: nat)
    requires capacity > 0
    ensures forall e :: e in After(ops, capacity) ==> AllPremultiplied(e.value)
  {
    if ops != [] {
      var before := ops[..|ops| - 1];
      EntriesPremultiplied(before, capacity);
      match ops[|ops| - 1]
      case Clear =>
      case Use(key, theme) =>
        ShadowAllPremultiplied(key, theme);
        LookUpNodes(After(before, capacity), key, ShadowImage(key, theme), capacity);
    }
  }

  lemma ServedPremultiplied(ops: seq<Op>, capacity: nat)
    requires capacity > 0
    ensures AllPremultiplied(Served(ops, capacity))
  {
    EntriesPremultiplied(ops, capacity);
    if After(ops, capacity) != [] {
      assert After(ops, capacity)[0] in After(ops, capacity);
    }
  }

  lemma OverAllPremultiplied(g: Image<Argb>, d: Image<Argb>)
    requires AllPremultiplied(g) && AllPremultiplied(d)
    ensures AllPremultiplied(Over(g, d))
  {
    forall y, x | 0 <= y < |d| && 0 <= x < |d[y]|
      ensures Premultiplied(PaintedOver(g, y, x, d[y][x]))
    {
      if y < |g| && x < |g[y]| {
        OverKeepsPremultiplied(g[y][x], d[y][x]);
      }
    }
  }

  lemma MixAllPremultiplied(a: Image<Argb>, b: Image<Argb>, wa: nat, wb: nat)
    requires AllPremultiplied(a) && AllPremultiplied(b) && wa + wb <= 256
    ensures AllPremultiplied(MixedImage(a, b, wa, wb))
  {
    forall y, x | 0 <= y < |a| && 0 <= x < |a[y]|
      ensures Premultiplied(MixedPixel(a, b, wa, wb, y, x))
    {
      if y < |b| && x < |b[y]| {
        MixKeepsPremultiplied(a[y][x], b[y][x], wa, wb);
      }
    }
  }

  /** A fade's 1 - t is what a float subtraction can give. */
  ghost predicate RoundedCall(call: Call) {
    call.CrossFade? && 0.0 < call.fade.t < 1.0 ==> Rounded(call.fade)
  }

  /** Every call leaves a premultiplied target premultiplied. */
  lemma WrittenStaysPremultiplied(before: seq<Op>, call: Call, d: Image<Argb>, w: nat, h: nat, capacity: nat)
    requires capacity > 0 && Readable(call, w, h, capacity) && RoundedCall(call) && AllPremultiplied(d)
    ensures AllPremultiplied(Written(before, call, d, w, h, capacity))
  {
    if Accepted(call, w, h) {
      match call
      case Reset =>
      case Blit(key, theme) =>
        ServedPremultiplied(before + [Use(key, theme)], capacity);
        OverAllPremultiplied(Served(before + [Use(key, theme)], capacity), d);
      case CrossFade(a, b, theme, f) =>
        var one := if f.t >= 1.0 then before + [Use(b, theme)] else before + [Use(a, theme)];
        var two := before + [Use(a, theme)] + [Use(b, theme)];
        ServedPremultiplied(one, capacity);
        if f.t <= 0.0 || f.t >= 1.0 {
          OverAllPremultiplied(Served(one, capacity), d);
        } else {
          ServedPremultiplied(two, capacity);
          WeightsSum(f);
          MixAllPremultiplied(Served(one, capacity), Served(two, capacity), WeightA(f), WeightB(f));
          OverAllPremultiplied(MixedImage(Served(one, capacity), Served(two, capacity), WeightA(f), WeightB(f)), d);
        }
    }
  }

  /** The lookups of the first k calls into a target of one size. */
  function LookupsOf(calls: seq<Call>, k: nat, w: nat, h: nat): seq<Op>
    requires k <= |calls|
  {
    if k == 0 then [] else LookupsOf(calls, k - 1, w, h) + Lookups(calls[k - 1], w, h)
  }

  /** The target after the first k calls. */
  ghost function TargetAfter(start: Image<Argb>, calls: seq<Call>, k: nat, w: nat, h: nat, capacity: nat): Image<Argb>
    requires k <= |calls| && forall i :: 0 <= i < k ==> Readable(calls[i], w, h, capacity)
  {
    if k == 0 then start
    else
      Written(LookupsOf(calls, k - 1, w, h), calls[k - 1], TargetAfter(start, calls, k - 1, w, h, capacity), w, h,
          capacity)
  }

  /** However many blits, fades and clears one target goes through, with keys that may change their theme: if all
      its pixels are premultiplied at first, all of them are at the end. */
  lemma {:induction false} RunStaysPremultiplied(start: Image<Argb>, calls: seq<Call>, k: nat, w: nat, h: nat,
      capacity: nat)
    requires capacity > 0 && k <= |calls| && AllPremultiplied(start)
    requires forall i :: 0 <= i < k ==> Readable(calls[i], w, h, capacity) && RoundedCall(calls[i])
    ensures AllPremultiplied(TargetAfter(start, calls, k, w, h, capacity))
  {
    if k > 0 {
      RunStaysPremultiplied(start, calls, k - 1, w, h, capacity);
      WrittenStaysPremultiplied(LookupsOf(calls, k - 1, w, h), calls[k - 1],
                                TargetAfter(start, calls, k - 1, w, h, capacity), w, h, capacity);
    }
  }

  // ---- what a fade shows ----

  /** A fade at its start is the first shadow, at its end the second. */
  lemma FadeEnds(keyA: ShadowKey, keyB: ShadowKey, theme: Theme, f: Fade, d: Image<Argb>, w: nat, h: nat)
    requires Accepted(CrossFade(keyA, keyB, theme, f), w, h)
    ensures f.t <= 0.0 ==> Afresh(CrossFade(keyA, keyB, theme, f), d, w, h) == Afresh(Blit(keyA, theme), d, w, h)
    ensures f.t >= 1.0 ==> Afresh(CrossFade(keyA, keyB, theme, f), d, w, h) == Afresh(Blit(keyB, theme), d, w, h)
  {
  }

  /** A blit blends the shadow's patch over the target's top left and leaves the rest. */
  lemma BlitLands(key: ShadowKey, theme: Theme, d: Image<Argb>, w: nat, h: nat, y: nat, x: nat)
    requires w > 0 && h > 0 && key.width > 0 && key.height > 0 && y < |d| && x < |d[y]|
    ensures var out := Afresh(Blit(key, theme), d, w, h);
            && |out| == |d| && |out[y]| == |d[y]|
            && (y < key.height && x < key.width ==> out[y][x] == SrcOver(ShadowImage(key, theme)[y][x], d[y][x]))
            && (y >= key.height || x >= key.width ==> out[y][x] == d[y][x])
  {
  }

  /** In between, every pixel of the target under the two patches is blended with a pixel m whose channels are near
      (1 - t) times those of the first shadow's pixel plus t times those of the second's. */
  lemma FadeMixes(keyA: ShadowKey, keyB: ShadowKey, theme: Theme, f: Fade, d: Image<Argb>, w: nat, h: nat,
                  y: nat, x: nat)
    returns (m: Argb)
    requires Accepted(CrossFade(keyA, keyB, theme, f), w, h) && 0.0 < f.t < 1.0 && Rounded(f)
    requires y < |d| && x < |d[y]| && y < keyA.height && x < keyA.width
    ensures var a, b := ShadowImage(keyA, theme)[y][x], ShadowImage(keyB, theme)[y][x];
            Premultiplied(m) && Faded(f.t, a.a, b.a, m.a) && Faded(f.t, a.r, b.r, m.r)
            && Faded(f.t, a.g, b.g, m.g) && Faded(f.t, a.b, b.b, m.b)
    ensures var out := Afresh(CrossFade(keyA, keyB, theme, f), d, w, h);
            |out| == |d| && |out[y]| == |d[y]| && out[y][x] == SrcOver(m, d[y][x])
  {
    var a, b := ShadowImage(keyA, theme), ShadowImage(keyB, theme);
    WeightsSum(f);
    m := Mix(a[y][x], b[y][x], WeightA(f), WeightB(f));
    FadedPixel(a[y][x], b[y][x], f);
    ShadowIsPremultiplied(keyA, theme, x, y);
    ShadowIsPremultiplied(keyB, theme, x, y);
    MixKeepsPremultiplied(a[y][x], b[y][x], WeightA(f), WeightB(f));
    MixedOverAt(a, b, f, d, y, x);
  }

  lemma FadedPixel(a: Argb, b: Argb, f: Fade)
    requires 0.0 <= f.t <= 1.0 && Rounded(f)
    ensures 0 <= WeightA(f) && 0 <= WeightB(f)
    ensures var m := Mix(a, b, WeightA(f), WeightB(f));
            && Faded(f.t, a.a, b.a, m.a) && Faded(f.t, a.r, b.r, m.r)
            && Faded(f.t, a.g, b.g, m.g) && Faded(f.t, a.b, b.b, m.b)
  {
    FadeIsNear(a.a, b.a, f);
    FadeIsNear(a.r, b.r, f);
    FadeIsNear(a.g, b.g, f);
    FadeIsNear(a.b, b.b, f);
  }

  lemma MixedOverAt(a: Image<Argb>, b: Image<Argb>, f: Fade, d: Image<Argb>, y: nat, x: nat)
    requires y < |a| && x < |a[y]| && y < |b| && x < |b[y]| && y < |d| && x < |d[y]|
    requires 0 <= WeightA(f) && 0 <= WeightB(f)
    ensures var out := MixedOver(a, b, f, d);
            |out| == |d| && |out[y]| == |d[y]|
            && out[y][x] == SrcOver(Mix(a[y][x], b[y][x], WeightA(f), WeightB(f)), d[y][x])
  {
    var g := MixedImage(a, b, WeightA(f), WeightB(f));
    assert g[y][x] == MixedPixel(a, b, WeightA(f), WeightB(f), y, x);
  }

  // ---- the cache object ----

  const DEFAULT_CAPACITY := 8

  class Cache {
    const capacity: nat
    var order: seq<CacheEntry>             // front is the most recently used
    var index: map<ShadowKey, CacheEntry>
    ghost var history: seq<Op>             // every lookup so far

    /** The list and the index agree. */
    ghost predicate Kept()
      reads this`order, this`index
    {
      0 < capacity && |order| <= capacity && Indexed(order, index) && KeySized(order)
    }

    /** And they are what the lookups so far make of an empty cache. */
    ghost predicate Valid()
      reads this
    {
      Kept() && order == After(history, capacity)
    }

    constructor (cap: nat)
      ensures Valid() && history == [] && capacity == if cap == 0 then DEFAULT_CAPACITY else cap
    {
      capacity := if cap == 0 then DEFAULT_CAPACITY else cap;
      order, index, history := [], map[], [];
    }

    method Clear()
      requires Valid()
      modifies this
      ensures Valid() && order == [] && history == old(history) + Lookups(Reset, 0, 0)
    {
      order, index, history := [], map[], history + [Op.Clear];
    }

    predicate Contains(key: ShadowKey)
      reads this
    {
      key in index
    }

    /** Takes the last entry off the list and out of the index. */
    method EvictLast()
      requires Indexed(order, index) && KeySized(order) && order != []
      modifies `order, `index
      ensures Indexed(order, index) && KeySized(order) && order == old(order)[..|old(order)| - 1]
    {
      EvictKeepsIndexed(order, index);
      var last := order[|order| - 1];
      order, index := order[..|order| - 1], index - {last.key};
    }

    /** Evicts from the back until the list fits. */
    method EvictOverflow()
      requires 0 < capacity && Indexed(order, index) && KeySized(order)
      modifies `order, `index
      ensures Kept() && order == old(order)[..Min(capacity, |old(order)|)]
    {
      ghost var all := order;
      while |order| > capacity
        invariant Indexed(order, index) && KeySized(order) && Trimmed(order, capacity) == Trimmed(all, capacity)
        decreases |order|
      {
        EvictLast();
      }
      TrimmedIs(all, capacity);
    }

    /** Renders `key`, which is not cached, and puts it first. */
    method Insert(key: ShadowKey, theme: Theme) returns (e: CacheEntry)
      requires Kept() && key !in index
      modifies `order, `index
      ensures Kept() && key !in KeysOf(old(order)) && e == Node(key, ShadowImage(key, theme))
      ensures order == ([e] + old(order))[..Min(capacity, |old(order)| + 1)]
    {
      var pixels := RenderShadow(key, theme);
      e := Node(key, pixels);
      PushKeepsIndexed(order, index, e);
      order, index := [e] + order, index[key := e];
      EvictOverflow();
    }

    /** Splices the entry of `key` to the front of the list. */
    method MoveToFront(key: ShadowKey) returns (e: CacheEntry)
      requires Kept() && key in index
      modifies `order
      ensures Kept() && key in KeysOf(old(order)) && e == NodeOf(old(order), key)
      ensures order == [e] + Cut(old(order), key) && Sized(e.value, key.width, key.height)
    {
      SpliceKeepsIndexed(order, index, key);
      CutIs(order, key);
      e := index[key];
      order := [e] + Cut(order, key);
    }

    method Find(key: ShadowKey, theme: Theme) returns (e: CacheEntry)
      requires Kept()
      modifies `order, `index
      ensures Kept() && order == LookUp(old(order), key, ShadowImage(key, theme), capacity)
      ensures 0 < |order| && e == order[0] && e.key == key && Sized(e.value, key.width, key.height)
    {
      if key !in index {
        e := Insert(key, theme);
      } else {
        e := MoveToFront(key);
      }
    }

    /** Looks `key` up, rendering its shadow on a miss. */
    method Fetch(key: ShadowKey, theme: Theme) returns (e: CacheEntry)
      requires Valid()
      modifies this
      ensures Valid() && order == LookUp(old(order), key, ShadowImage(key, theme), capacity)
      ensures history == old(history) + [Use(key, theme)]
      ensures 0 < |order| && e == order[0] && e.key == key && Sized(e.value, key.width, key.height)
    {
      e := Find(key, theme);
      history := history + [Use(key, theme)];
    }

    /** Blits the shadow of `key` over `dst`, clipped to both. */
    method BlitInto(key: ShadowKey, theme: Theme, dst: array2<Argb>) returns (ok: bool)
      requires Valid()
      modifies this, dst
      ensures Valid() && (ok <==> Accepted(Blit(key, theme), dst.Length1, dst.Length0))
      ensures history == old(history) + Lookups(Blit(key, theme), dst.Length1, dst.Length0)
      ensures View(dst) == Written(old(history), Blit(key, theme), old(View(dst)), dst.Length1, dst.Length0, capacity)
    {
      if dst.Length1 == 0 || dst.Length0 == 0 || key.width == 0 || key.height == 0 {
        assert history == history + [];
        return false;
      }
      var e := Fetch(key, theme);
      PaintOver(e.value, dst, key.width, key.height);
      ok := true;
    }

    /** Looks both keys up, the second after the first. */
    method FetchBoth(keyA: ShadowKey, keyB: ShadowKey, theme: Theme) returns (a: CacheEntry, b: CacheEntry)
      requires Valid()
      modifies this
      ensures Valid() && history == old(history) + [Use(keyA, theme)] + [Use(keyB, theme)]
      ensures Sized(a.value, keyA.width, keyA.height) && Sized(b.value, keyB.width, keyB.height)
      ensures a.value == Served(old(history) + [Use(keyA, theme)], capacity) && b.value == Served(history, capacity)
      ensures keyA in index <==> RoomForBoth(keyA, keyB, capacity)
    {
      a := Fetch(keyA, theme);
      ghost var mid := order;
      b := Fetch(keyB, theme);
      FirstSurvives(mid, keyA, keyB, ShadowImage(keyB, theme), capacity);
      assert keyA in index <==> keyA in KeysOf(order);
    }

    /** The fade between its end points. */
    method FadeBetween(keyA: ShadowKey, keyB: ShadowKey, theme: Theme, dst: array2<Argb>, f: Fade)
      requires Valid() && keyA.width == keyB.width && keyA.height == keyB.height && 0.0 < f.t < 1.0 && Rounded(f)
      modifies this, dst
      ensures Valid() && history == old(history) + [Use(keyA, theme), Use(keyB, theme)]
      ensures RoomForBoth(keyA, keyB, capacity) ==>
                View(dst) == MixedOver(Served(old(history) + [Use(keyA, theme)], capacity),
                                       Served(old(history) + [Use(keyA, theme)] + [Use(keyB, theme)], capacity),
                                       f, old(View(dst)))
      ensures keyA in index <==> RoomForBoth(keyA, keyB, capacity)
    {
      var a, b := FetchBoth(keyA, keyB, theme);
      FadeOver(a.value, b.value, dst, f, keyA.width, keyA.height);
      assert [Use(keyA, theme), Use(keyB, theme)] == [Use(keyA, theme)] + [Use(keyB, theme)];
    }

    /** Cross-fades two shadows of one size over `dst`. Between the end points the first entry has to outlive the
        second lookup; when it does not, it is read after it is gone, and nothing is said of the pixels. */
    method BlitCrossFade(keyA: ShadowKey, keyB: ShadowKey, theme: Theme, dst: array2<Argb>, f: Fade) returns (ok: bool)
      requires Valid() && (0.0 < f.t < 1.0 ==> Rounded(f))
      modifies this, dst
      ensures var call := CrossFade(keyA, keyB, theme, f);
              && Valid() && (ok <==> Accepted(call, dst.Length1, dst.Length0))
              && history == old(history) + Lookups(call, dst.Length1, dst.Length0)
              && (Readable(call, dst.Length1, dst.Length0, capacity) ==>
                    View(dst) == Written(old(history), call, old(View(dst)), dst.Length1, dst.Length0, capacity))
      ensures ok && 0.0 < f.t < 1.0 ==> (keyA in index <==> RoomForBoth(keyA, keyB, capacity))
    {
      if dst.Length1 == 0 || dst.Length0 == 0 || keyA.width == 0 || keyA.height == 0
         || keyA.width != keyB.width || keyA.height != keyB.height {
        assert history == history + [];
        return false;
      }
      if f.t <= 0.0 {
        ok := BlitInto(keyA, theme, dst);
        return;
      }
      if f.t >= 1.0 {
        ok := BlitInto(keyB, theme, dst);
        return;
      }
      FadeBetween(keyA, keyB, theme, dst, f);
      ok := true;
    }
  }

  /** Mixes two patches and blends the result over `dst`. */
  method FadeOver(a: Image<Argb>, b: Image<Argb>, dst: array2<Argb>, f: Fade, w: nat, h: nat)
    requires Sized(a, w, h) && Sized(b, w, h) && 0.0 < f.t < 1.0 && Rounded(f)
    modifies dst
    ensures View(dst) == MixedOver(a, b, f, old(View(dst)))
  {
    WeightsSum(f);
    var mixed := MixImages(a, b, WeightA(f), WeightB(f), w, h);
    PaintOver(mixed, dst, w, h);
  }

  function PaintedOver(g: Image<Argb>, y: nat, x: nat, below: Argb): Argb {
    if y < |g| && x < |g[y]| then SrcOver(g[y][x], below) else below
  }

  /** The patch g blended over the top left of the image d. */
  ghost function Over(g: Image<Argb>, d: Image<Argb>): Image<Argb> {
    seq(|d|, y requires 0 <= y < |d| => seq(|d[y]|, x requires 0 <= x < |d[y]| => PaintedOver(g, y, x, d[y][x])))
  }

  function MixedPixel(a: Image<Argb>, b: Image<Argb>, wa: nat, wb: nat, y: nat, x: nat): Argb
    requires y < |a| && x < |a[y]|
  {
    if y < |b| && x < |b[y]| then Mix(a[y][x], b[y][x], wa, wb) else a[y][x]
  }

  /** Two patches of one size mixed with the given weights. */
  ghost function MixedImage(a: Image<Argb>, b: Image<Argb>, wa: nat, wb: nat): Image<Argb> {
    seq(|a|, y requires 0 <= y < |a| => seq(|a[y]|, x requires 0 <= x < |a[y]| => MixedPixel(a, b, wa, wb, y, x)))
  }

  /** The mix of two patches blended over the top left of the image d. */
  ghost function MixedOver(a: Image<Argb>, b: Image<Argb>, f: Fade, d: Image<Argb>): Image<Argb> {
    Over(MixedImage(a, b, Max(0, WeightA(f)), Max(0, WeightB(f))), d)
  }

  /** Blends a patch over the top left of `dst`, row by row. */
  method PaintOver(g: Image<Argb>, dst: array2<Argb>, w: nat, h: nat)
    requires Sized(g, w, h)
    modifies dst
    ensures View(dst) == Over(g, old(View(dst)))
  {
    var copyW, copyH := Min(dst.Length1, w), Min(dst.Length0, h);
    for y := 0 to copyH
      invariant forall v, u :: 0 <= v < dst.Length0 && 0 <= u < dst.Length1 ==>
                  dst[v, u] == if v < y then PaintedOver(g, v, u, old(dst[v, u])) else old(dst[v, u])
    {
      SrcOverRow(g[y], dst, y, copyW);
    }
    SameImage(View(dst), Over(g, old(View(dst))), dst.Length1, dst.Length0);
  }

  /** Blends the first `pixels` pixels of a row over row y of `dst`. */
  method SrcOverRow(src: seq<Argb>, dst: array2<Argb>, y: nat, pixels: nat)
    requires y < dst.Length0 && pixels <= |src| && pixels <= dst.Length1
    modifies dst
    ensures forall v, u :: 0 <= v < dst.Length0 && 0 <= u < dst.Length1 ==>
              dst[v, u] == if v == y && u < pixels then SrcOver(src[u], old(dst[v, u])) else old(dst[v, u])
  {
    for x := 0 to pixels
      invariant forall v, u :: 0 <= v < dst.Length0 && 0 <= u < dst.Length1 ==>
                  dst[v, u] == if v == y && u < x then SrcOver(src[u], old(dst[v, u])) else old(dst[v, u])
    {
      dst[y, x] := SrcOver(src[x], dst[y, x]);
    }
  }

  method MixImages(a: Image<Argb>, b: Image<Argb>, wa: nat, wb: nat, w: nat, h: nat) returns (m: Image<Argb>)
    requires Sized(a, w, h) && Sized(b, w, h)
    ensures m == MixedImage(a, b, wa, wb) && Sized(m, w, h)
  {
    m := [];
    for y := 0 to h
      invariant |m| == y && forall v :: 0 <= v < y ==> |m[v]| == w
      invariant forall v, u :: 0 <= v < y && 0 <= u < w ==> m[v][u] == Mix(a[v][u], b[v][u], wa, wb)
    {
      var scratch := [];
      for x := 0 to w
        invariant |scratch| == x && forall u :: 0 <= u < x ==> scratch[u] == Mix(a[y][u], b[y][u], wa, wb)
      {
        scratch := scratch + [Mix(a[y][x], b[y][x], wa, wb)];
      }
      m := m + [scratch];
    }
    SameImage(m, MixedImage(a, b, wa, wb), w, h);
  }
}
