/** What the cursor theme search finds (src/cursor/theme.cpp): a nearest provider, over any Inherits graph. */
module CursorThemeSearch {
  import opened Wrappers
  import opened Seqs
  import opened CursorTheme

  /** x is reached from root by k inheritance steps. */
  ghost predicate Walk(themes: seq<Record>, root: string, x: string, k: nat)
    decreases k
  {
    if k == 0 then x == root
    else exists y :: Walk(themes, root, y, k - 1) && x in Parents(themes, y)
  }

  ghost predicate Provides(w: World, aliases: seq<string>, theme: string) {
    Offer(w, theme, aliases).Some?
  }

  /** No theme of the set provides the cursor. */
  ghost predicate NoneProvides(w: World, aliases: seq<string>, names: set<string>) {
    forall y :: y in names ==> !Provides(w, aliases, y)
  }

  /** The set holds everything its members inherit. */
  ghost predicate Closed(themes: seq<Record>, names: set<string>) {
    forall y, p :: y in names && p in Parents(themes, y) ==> p in names
  }

  /** `theme` provides the cursor, d steps from root, and no provider is nearer. */
  ghost predicate Nearest(w: World, aliases: seq<string>, root: string, theme: string, d: nat) {
    && Provides(w, aliases, theme) && Walk(w.themes, root, theme, d)
    && forall u, k: nat :: Walk(w.themes, root, u, k) && Provides(w, aliases, u) ==> d <= k
  }

  // ---- the invariant of the walk: ds holds the depth of each queue entry ----

  ghost predicate Queued(queue: seq<string>, ds: seq<nat>, p: string, k: nat)
    requires |ds| == |queue|
  {
    exists j :: 0 <= j < |queue| && queue[j] == p && ds[j] <= k
  }

  /** Depths never fall along the queue and span at most one level. */
  ghost predicate Levels(ds: seq<nat>) {
    forall i, j :: 0 <= i < j < |ds| ==> ds[i] <= ds[j] <= ds[i] + 1
  }

  /** What a visited theme k steps away inherits is visited, or queued at depth k + 1 at most. */
  ghost predicate ParentsKnown(themes: seq<Record>, root: string, queue: seq<string>, ds: seq<nat>,
      visited: set<string>)
    requires |ds| == |queue|
  {
    forall y, p, k: nat :: y in visited && Walk(themes, root, y, k) && p in Parents(themes, y) ==>
      p in visited || Queued(queue, ds, p, k + 1)
  }

  ghost predicate Frontier(themes: seq<Record>, root: string, queue: seq<string>, ds: seq<nat>, visited: set<string>) {
    && |ds| == |queue| && Levels(ds)
    && (forall j :: 0 <= j < |queue| ==> Walk(themes, root, queue[j], ds[j]))
    && (root in visited || Queued(queue, ds, root, 0))
    && ParentsKnown(themes, root, queue, ds, visited)
    && (forall y, p :: y in visited && p in Parents(themes, y) ==> p in visited || p in queue)
  }

  lemma WalkBack(themes: seq<Record>, root: string, x: string, k: nat) returns (y: string)
    requires k > 0 && Walk(themes, root, x, k)
    ensures Walk(themes, root, y, k - 1) && x in Parents(themes, y)
  {
    y :| Walk(themes, root, y, k - 1) && x in Parents(themes, y);
  }

  lemma HeadIsLeast(queue: seq<string>, ds: seq<nat>, p: string, k: nat)
    requires |ds| == |queue| && Levels(ds) && Queued(queue, ds, p, k)
    ensures |ds| > 0 && ds[0] <= k
  {
  }

  /** A theme k steps away is visited, or the head of the queue is no deeper than k. */
  lemma {:induction false} HeadIsNearest(themes: seq<Record>, root: string, queue: seq<string>, ds: seq<nat>,
                                         visited: set<string>, x: string, k: nat)
    requires |ds| == |queue| && Levels(ds) && (root in visited || Queued(queue, ds, root, 0))
    requires ParentsKnown(themes, root, queue, ds, visited) && Walk(themes, root, x, k)
    ensures x in visited || (|ds| > 0 && ds[0] <= k)
    decreases k
  {
    if k == 0 {
      if root !in visited {
        HeadIsLeast(queue, ds, root, 0);
      }
    } else {
      var y := WalkBack(themes, root, x, k);
      HeadIsNearest(themes, root, queue, ds, visited, y, k - 1);
      if y in visited && x !in visited {
        HeadIsLeast(queue, ds, x, k - 1 + 1);
      }
    }
  }

  /** The depths when the head is dropped and n entries one level deeper than it are appended. */
  ghost function Deeper(ds: seq<nat>, n: nat): (e: seq<nat>)
    requires ds != []
    ensures |e| == |ds| - 1 + n
    ensures forall i :: 0 <= i < |ds| - 1 ==> e[i] == ds[i + 1]
    ensures forall i :: |ds| - 1 <= i < |e| ==> e[i] == ds[0] + 1
  {
    ds[1..] + seq(n, _ => ds[0] + 1)
  }

  /** A head that was visited before is dropped. */
  lemma SkipKeepsFrontier(themes: seq<Record>, root: string, queue: seq<string>, ds: seq<nat>, visited: set<string>)
    requires Frontier(themes, root, queue, ds, visited) && queue != [] && queue[0] in visited
    ensures Frontier(themes, root, queue[1..], ds[1..], visited)
  {
    QueueShift(queue, ds, [], 0);
    assert queue[1..] + [] == queue[1..] && Deeper(ds, 0) == ds[1..];
  }

  /** What is queued behind the head, or appended one level deeper, is queued once the head is dropped. */
  lemma ShiftQueued(queue: seq<string>, ds: seq<nat>, more: seq<string>, n: nat, p: string, k: nat)
    requires |ds| == |queue| && queue != [] && n == |more|
    ensures var q, e := queue[1..] + more, Deeper(ds, n);
            && |q| == |e|
            && (Queued(queue, ds, p, k) && p != queue[0] ==> Queued(q, e, p, k))
            && (p in more && ds[0] + 1 <= k ==> Queued(q, e, p, k))
  {
    var q, e := queue[1..] + more, Deeper(ds, n);
    if Queued(queue, ds, p, k) && p != queue[0] {
      var j :| 0 <= j < |queue| && queue[j] == p && ds[j] <= k;
      assert q[j - 1] == p && e[j - 1] == ds[j];
    }
    if p in more && ds[0] + 1 <= k {
      var j :| 0 <= j < |more| && more[j] == p;
      assert q[|queue| - 1 + j] == p && e[|queue| - 1 + j] == ds[0] + 1;
    }
  }

  lemma ShiftLevels(ds: seq<nat>, n: nat)
    requires ds != [] && Levels(ds)
    ensures Levels(Deeper(ds, n))
  {
    var e := Deeper(ds, n);
    forall i, j | 0 <= i < j < |e|
      ensures e[i] <= e[j] <= e[i] + 1
    {
      assert i < |ds| - 1 ==> e[i] == ds[i + 1];
      assert j < |ds| - 1 ==> e[j] == ds[j + 1];
    }
  }

  /** Dropping the head and appending entries one level deeper keeps every other queued theme. */
  lemma QueueShift(queue: seq<string>, ds: seq<nat>, more: seq<string>, n: nat)
    requires |ds| == |queue| && queue != [] && n == |more|
    ensures var q, e := queue[1..] + more, Deeper(ds, n);
            && |q| == |e|
            && (forall p, k: nat :: Queued(queue, ds, p, k) && p != queue[0] ==> Queued(q, e, p, k))
            && (forall p, k: nat :: p in more && ds[0] + 1 <= k ==> Queued(q, e, p, k))
            && (forall p :: p in queue && p != queue[0] ==> p in q)
            && (Levels(ds) ==> Levels(e))
  {
    forall p, k: nat
      ensures var q, e := queue[1..] + more, Deeper(ds, n);
              && (Queued(queue, ds, p, k) && p != queue[0] ==> Queued(q, e, p, k))
              && (p in more && ds[0] + 1 <= k ==> Queued(q, e, p, k))
    {
      ShiftQueued(queue, ds, more, n, p, k);
    }
    forall p | p in queue && p != queue[0]
      ensures p in queue[1..] + more
    {
      var j :| 0 <= j < |queue| && queue[j] == p;
      assert (queue[1..] + more)[j - 1] == p;
    }
    if Levels(ds) {
      ShiftLevels(ds, n);
    }
  }

  /** The queue after visiting its head, and its depths. */
  ghost function NextQueue(themes: seq<Record>, queue: seq<string>): seq<string>
    requires queue != []
  {
    queue[1..] + Parents(themes, queue[0])
  }

  ghost function NextDepths(themes: seq<Record>, queue: seq<string>, ds: seq<nat>): seq<nat>
    requires queue != [] && |ds| == |queue|
  {
    Deeper(ds, |Parents(themes, queue[0])|)
  }

  lemma NextAreWalks(themes: seq<Record>, root: string, queue: seq<string>, ds: seq<nat>)
    requires queue != [] && |ds| == |queue| && forall j :: 0 <= j < |queue| ==> Walk(themes, root, queue[j], ds[j])
    ensures var q, e := NextQueue(themes, queue), NextDepths(themes, queue, ds);
            |q| == |e| && forall j :: 0 <= j < |q| ==> Walk(themes, root, q[j], e[j])
  {
    var q, e := NextQueue(themes, queue), NextDepths(themes, queue, ds);
    forall j | 0 <= j < |q|
      ensures Walk(themes, root, q[j], e[j])
    {
      if j >= |queue| - 1 {
        assert Walk(themes, root, queue[0], ds[0]) && q[j] in Parents(themes, queue[0]) && e[j] == ds[0] + 1;
      } else {
        assert q[j] == queue[j + 1] && e[j] == ds[j + 1];
      }
    }
  }

  /** Visiting a head that does not provide the cursor. */
  lemma VisitKeepsFrontier(themes: seq<Record>, root: string, queue: seq<string>, ds: seq<nat>, visited: set<string>)
    requires Frontier(themes, root, queue, ds, visited) && queue != [] && queue[0] !in visited
    ensures |NextDepths(themes, queue, ds)| == |NextQueue(themes, queue)|
    ensures Frontier(themes, root, NextQueue(themes, queue), NextDepths(themes, queue, ds), visited + {queue[0]})
  {
    var cur, more := queue[0], Parents(themes, queue[0]);
    QueueShift(queue, ds, more, |more|);
    NextAreWalks(themes, root, queue, ds);
    forall k: nat | Walk(themes, root, cur, k)
      ensures ds[0] <= k
    {
      HeadIsNearest(themes, root, queue, ds, visited, cur, k);
    }
  }

  /** From any frontier of themes that do not provide the cursor, the walk ends at a nearest provider, or visits
      everything reachable and finds none. */
  lemma {:induction false} BfsFinds(w: World, aliases: seq<string>, root: string, queue: seq<string>, ds: seq<nat>,
                                    visited: set<string>, chain: seq<string>) returns (d: nat)
    requires Frontier(w.themes, root, queue, ds, visited) && NoneProvides(w, aliases, visited)
    ensures var r := Bfs(w, aliases, queue, visited, chain);
            match r.hit
            case Some(res) => Nearest(w, aliases, root, res.theme, d)
            case None =>
              && root in r.visited && visited <= r.visited && Closed(w.themes, r.visited)
              && NoneProvides(w, aliases, r.visited)
    decreases IndexedNames(w.themes) - visited, |queue|
  {
    d := 0;
    if queue != [] {
      var cur := queue[0];
      if cur in visited {
        SkipKeepsFrontier(w.themes, root, queue, ds, visited);
        d := BfsFinds(w, aliases, root, queue[1..], ds[1..], visited, chain);
      } else if Offer(w, cur, aliases).Some? {
        d := ds[0];
        forall u, k: nat | Walk(w.themes, root, u, k) && Provides(w, aliases, u)
          ensures d <= k
        {
          HeadIsNearest(w.themes, root, queue, ds, visited, u, k);
        }
      } else {
        VisitKeepsFrontier(w.themes, root, queue, ds, visited);
        assert IndexedNames(w.themes) - (visited + {cur}) <= IndexedNames(w.themes) - visited;
        if Has(w.themes, cur) {
          VisitShrinks(w.themes, visited, cur);
        } else {
          assert NextQueue(w.themes, queue) == queue[1..];
        }
        d := BfsFinds(w, aliases, root, NextQueue(w.themes, queue), NextDepths(w.themes, queue, ds), visited + {cur},
            chain + [cur]);
      }
    }
  }

  /** The chain is the visited themes, each once; a hit ends it. */
  lemma {:induction false} BfsChain(w: World, aliases: seq<string>, queue: seq<string>, visited: set<string>,
      chain: seq<string>)
    requires Distinct(chain) && forall x :: x in chain <==> x in visited
    ensures var r := Bfs(w, aliases, queue, visited, chain);
            && Distinct(r.chain) && (forall x :: x in r.chain <==> x in r.visited)
            && (r.hit.Some? ==>
                  r.chain != [] && r.hit.value.chain == r.chain && r.chain[|r.chain| - 1] == r.hit.value.theme)
    decreases IndexedNames(w.themes) - visited, |queue|
  {
    if queue != [] {
      var cur := queue[0];
      if cur in visited {
        BfsChain(w, aliases, queue[1..], visited, chain);
      } else if Offer(w, cur, aliases).None? {
        assert IndexedNames(w.themes) - (visited + {cur}) <= IndexedNames(w.themes) - visited;
        if Has(w.themes, cur) {
          VisitShrinks(w.themes, visited, cur);
          BfsChain(w, aliases, queue[1..] + Parents(w.themes, cur), visited + {cur}, chain + [cur]);
        } else {
          BfsChain(w, aliases, queue[1..], visited + {cur}, chain + [cur]);
        }
      }
    }
  }

  // ---- the whole search ----

  /** Whoever is reached from a member of a closed set is in it. */
  lemma {:induction false} ClosedHoldsReached(themes: seq<Record>, names: set<string>, root: string, x: string, k: nat)
    requires Closed(themes, names) && root in names && Walk(themes, root, x, k)
    ensures x in names
    decreases k
  {
    if k > 0 {
      var y :| Walk(themes, root, y, k - 1) && x in Parents(themes, y);
      ClosedHoldsReached(themes, names, root, y, k - 1);
    }
  }

  /** Some provider is reached from root. */
  ghost predicate Served(w: World, aliases: seq<string>, root: string) {
    exists u, k: nat :: Walk(w.themes, root, u, k) && Provides(w, aliases, u)
  }

  lemma NotServed(w: World, aliases: seq<string>, root: string, names: set<string>)
    requires root in names && Closed(w.themes, names) && NoneProvides(w, aliases, names)
    ensures !Served(w, aliases, root)
  {
    forall u, k: nat | Walk(w.themes, root, u, k)
      ensures !Provides(w, aliases, u)
    {
      ClosedHoldsReached(w.themes, names, root, u, k);
    }
  }

  /** A walk from a root that was not visited before: nearest provider, or none reached. */
  lemma WalkFinds(w: World, aliases: seq<string>, root: string, visited: set<string>, chain: seq<string>)
    returns (d: nat)
    requires root !in visited && Closed(w.themes, visited) && NoneProvides(w, aliases, visited)
    ensures var r := Bfs(w, aliases, [root], visited, chain);
            && (r.hit.Some? <==> Served(w, aliases, root))
            && (r.hit.Some? ==> Nearest(w, aliases, root, r.hit.value.theme, d))
            && (r.hit.None? ==> root in r.visited && visited <= r.visited && Closed(w.themes, r.visited)
                                && NoneProvides(w, aliases, r.visited))
  {
    assert [root][0] == root && [0][0] == 0;
    assert Queued([root], [0], root, 0);
    assert Frontier(w.themes, root, [root], [0], visited);
    d := BfsFinds(w, aliases, root, [root], [0], visited, chain);
    var r := Bfs(w, aliases, [root], visited, chain);
    if r.hit.None? {
      NotServed(w, aliases, root, r.visited);
    }
  }

  /** `theme` is the first indexed theme that provides the cursor. */
  ghost predicate FirstIndexed(w: World, aliases: seq<string>, theme: string, j: nat) {
    j < |w.themes| && w.themes[j].name == theme && Provides(w, aliases, theme) && NoneBefore(w, aliases, j)
  }

  lemma OfferOfIndexed(w: World, aliases: seq<string>, i: nat)
    requires NamesDistinct(w.themes) && i < |w.themes|
    ensures Offer(w, w.themes[i].name, aliases) == FileIn(w, w.themes[i].dirs, aliases)
  {
    assert Find(w.themes, w.themes[i].name) == i;
  }

  ghost predicate NoneBefore(w: World, aliases: seq<string>, i: nat)
    requires i <= |w.themes|
  {
    forall k :: 0 <= k < i ==> !Provides(w, aliases, w.themes[k].name)
  }

  ghost predicate NoneInChain(w: World, aliases: seq<string>, chain: seq<string>) {
    forall x :: x in chain ==> !Provides(w, aliases, x)
  }

  lemma NoneHere(w: World, aliases: seq<string>, i: nat, chain: seq<string>)
    requires NamesDistinct(w.themes) && i < |w.themes| && NoneInChain(w, aliases, chain) && NoneBefore(w, aliases, i)
    requires w.themes[i].name in chain || FileIn(w, w.themes[i].dirs, aliases).None?
    ensures NoneBefore(w, aliases, i + 1) && NoneInChain(w, aliases, chain + [w.themes[i].name])
  {
    OfferOfIndexed(w, aliases, i);
  }

  /** The sweep finds the first provider in discovery order. */
  lemma {:induction false} SweepFinds(w: World, aliases: seq<string>, i: nat, chain: seq<string>) returns (j: nat)
    requires NamesDistinct(w.themes) && i <= |w.themes| && NoneInChain(w, aliases, chain) && NoneBefore(w, aliases, i)
    ensures var r := Sweep(w, aliases, i, chain);
            if r.Ok? then FirstIndexed(w, aliases, r.value.theme, j)
            else r == Err(NoSuchFile) && NoneBefore(w, aliases, |w.themes|)
    decreases |w.themes| - i
  {
    j := i;
    if i < |w.themes| {
      var r := w.themes[i];
      if r.name in chain {
        NoneHere(w, aliases, i, chain);
        j := SweepFinds(w, aliases, i + 1, chain);
      } else if FileIn(w, r.dirs, aliases).None? {
        NoneHere(w, aliases, i, chain);
        j := SweepFinds(w, aliases, i + 1, chain + [r.name]);
      } else {
        OfferOfIndexed(w, aliases, i);
      }
    }
  }

  /** The answer to a well-formed name, over any Inherits graph, cycles and all: a provider nearest to the start
      theme if one is reached from it; else one nearest to "default"; else the first indexed provider; and a
      failure exactly when no indexed theme provides the cursor. */
  ghost predicate RightAnswer(w: World, aliases: seq<string>, start: string, r: Result<Resolution, Error>, d: nat) {
    match r
    case Ok(res) =>
      if Served(w, aliases, start) then Nearest(w, aliases, start, res.theme, d)
      else if Served(w, aliases, "default") then Nearest(w, aliases, "default", res.theme, d)
      else FirstIndexed(w, aliases, res.theme, d)
    case Err(e) => e == NoSuchFile && NoneBefore(w, aliases, |w.themes|)
  }

  lemma ResolveIsRight(w: World, name: string, preferred: string) returns (d: nat)
    requires NamesDistinct(w.themes) && !BadName(name)
    ensures RightAnswer(w, Aliases(w.classes, name), Start(w, preferred), Resolve(w, name, preferred), d)
  {
    var aliases, start := Aliases(w.classes, name), Start(w, preferred);
    d := WalkFinds(w, aliases, start, {}, []);
    var named := Bfs(w, aliases, [start], {}, []);
    BfsChain(w, aliases, [start], {}, []);
    if named.hit.None? {
      if start != "default" && "default" !in named.visited {
        d := WalkFinds(w, aliases, "default", named.visited, named.chain);
        var bridged := Bfs(w, aliases, ["default"], named.visited, named.chain);
        BfsChain(w, aliases, ["default"], named.visited, named.chain);
        if bridged.hit.None? {
          d := SweepFinds(w, aliases, 0, bridged.chain);
        }
      } else {
        NotServed(w, aliases, "default", named.visited);
        d := SweepFinds(w, aliases, 0, named.chain);
      }
    }
  }

  /** The search starts from the caller's theme; without one, from the environment's; without that, from "default".
      Let root be that theme. A provider reached from it is the answer, a nearest one; failing that a nearest one to
      "default"; failing that the first in discovery order. */
  lemma RootsInOrder(w: World, name: string, preferred: string, root: string) returns (d: nat)
    requires NamesDistinct(w.themes)
    requires name != "" && name != "." && name != ".." && '/' !in name && '\\' !in name
    requires || (preferred != "" && root == preferred)
             || (preferred == "" && w.env != "" && root == w.env)
             || (preferred == "" && w.env == "" && root == "default")
    ensures var aliases, r := Aliases(w.classes, name), Resolve(w, name, preferred);
            && (Served(w, aliases, root) ==> r.Ok? && Nearest(w, aliases, root, r.value.theme, d))
            && (!Served(w, aliases, root) && Served(w, aliases, "default") ==>
                  r.Ok? && Nearest(w, aliases, "default", r.value.theme, d))
            && (!Served(w, aliases, root) && !Served(w, aliases, "default") ==>
                  if r.Ok? then FirstIndexed(w, aliases, r.value.theme, d)
                  else r == Err(NoSuchFile) && NoneBefore(w, aliases, |w.themes|))
  {
    d := ResolveIsRight(w, name, preferred);
    if Resolve(w, name, preferred).Err? {
      ServedIsIndexed(w, Aliases(w.classes, name), root);
      ServedIsIndexed(w, Aliases(w.classes, name), "default");
    }
  }

  /** What serves a root is an indexed theme. */
  lemma ServedIsIndexed(w: World, aliases: seq<string>, root: string)
    ensures Served(w, aliases, root) ==> !NoneBefore(w, aliases, |w.themes|)
  {
    if Served(w, aliases, root) {
      var u, k: nat :| Walk(w.themes, root, u, k) && Provides(w, aliases, u);
      assert w.themes[Find(w.themes, u)].name == u;
    }
  }

  /** A name that is empty, "." or "..", or has a separator in it is refused, and no other is. */
  lemma RefusedExactly(w: World, name: string, preferred: string)
    ensures Resolve(w, name, preferred) == Err(InvalidArgument) <==>
            name == "" || name == "." || name == ".." || '/' in name || '\\' in name
  {
    SweepErrs(w, Aliases(w.classes, name), 0, Bfs(w, Aliases(w.classes, name), [Start(w, preferred)], {}, []).chain);
    var named := Bfs(w, Aliases(w.classes, name), [Start(w, preferred)], {}, []);
    SweepErrs(w, Aliases(w.classes, name), 0,
              Bfs(w, Aliases(w.classes, name), ["default"], named.visited, named.chain).chain);
  }

  lemma {:induction false} SweepErrs(w: World, aliases: seq<string>, i: nat, chain: seq<string>)
    requires i <= |w.themes|
    ensures Sweep(w, aliases, i, chain) != Err(InvalidArgument)
    decreases |w.themes| - i
  {
    if i < |w.themes| {
      var r := w.themes[i];
      SweepErrs(w, aliases, i + 1, chain);
      SweepErrs(w, aliases, i + 1, chain + [r.name]);
    }
  }

  /** A theme provides a cursor exactly when one of its directories has a file of one of the aliases. */
  lemma ProvidesExactly(w: World, aliases: seq<string>, i: nat)
    requires NamesDistinct(w.themes) && i < |w.themes|
    ensures Provides(w, aliases, w.themes[i].name) <==>
            exists dir, a :: dir in w.themes[i].dirs && a in aliases && w.onDisk(dir, a)
  {
    OfferOfIndexed(w, aliases, i);
  }

  /** And its parents are the themes of its own Inherits list. */
  lemma ParentsExactly(themes: seq<Record>, i: nat, p: string)
    requires NamesDistinct(themes) && i < |themes|
    ensures p in Parents(themes, themes[i].name) <==> p in themes[i].inherits
  {
    assert Find(themes, themes[i].name) == i;
  }

  /** It fails exactly when no directory of any indexed theme has any of the names. */
  lemma FailsExactlyWhenNowhere(w: World, name: string, preferred: string)
    requires NamesDistinct(w.themes) && !BadName(name)
    ensures Resolve(w, name, preferred).Err? <==>
            forall r, dir, a :: r in w.themes && dir in r.dirs && a in Aliases(w.classes, name) ==> !w.onDisk(dir, a)
  {
    var aliases := Aliases(w.classes, name);
    var d := ResolveIsRight(w, name, preferred);
    forall i | 0 <= i < |w.themes|
      ensures Provides(w, aliases, w.themes[i].name) <==>
              exists dir, a :: dir in w.themes[i].dirs && a in aliases && w.onDisk(dir, a)
    {
      OfferOfIndexed(w, aliases, i);
    }
    var r := Resolve(w, name, preferred);
    if r.Ok? {
      var t := w.themes[Find(w.themes, r.value.theme)];
      assert t in w.themes;
      assert Provides(w, aliases, r.value.theme);
    }
  }

  lemma {:induction false} SweepChain(w: World, aliases: seq<string>, i: nat, chain: seq<string>)
    requires NamesDistinct(w.themes) && i <= |w.themes| && Distinct(chain)
    ensures Sweep(w, aliases, i, chain).Ok? ==> WellReported(w, aliases, Sweep(w, aliases, i, chain).value)
    decreases |w.themes| - i
  {
    if i < |w.themes| {
      var r := w.themes[i];
      OfferOfIndexed(w, aliases, i);
      SweepChain(w, aliases, i + 1, if r.name in chain then chain else chain + [r.name]);
    }
  }

  /** The report names the file of the theme, and a chain without repetition that ends at the theme. */
  ghost predicate WellReported(w: World, aliases: seq<string>, res: Resolution) {
    && Offer(w, res.theme, aliases) == Some((res.dir, res.file))
    && Distinct(res.chain) && res.chain != [] && res.chain[|res.chain| - 1] == res.theme
  }

  lemma {:induction false} BfsReports(w: World, aliases: seq<string>, queue: seq<string>, visited: set<string>,
      chain: seq<string>)
    ensures var r := Bfs(w, aliases, queue, visited, chain);
            r.hit.Some? ==> Offer(w, r.hit.value.theme, aliases) == Some((r.hit.value.dir, r.hit.value.file))
    decreases IndexedNames(w.themes) - visited, |queue|
  {
    if queue != [] {
      var cur := queue[0];
      if cur in visited {
        BfsReports(w, aliases, queue[1..], visited, chain);
      } else if Offer(w, cur, aliases).None? {
        assert IndexedNames(w.themes) - (visited + {cur}) <= IndexedNames(w.themes) - visited;
        if Has(w.themes, cur) {
          VisitShrinks(w.themes, visited, cur);
          BfsReports(w, aliases, queue[1..] + Parents(w.themes, cur), visited + {cur}, chain + [cur]);
        } else {
          BfsReports(w, aliases, queue[1..], visited + {cur}, chain + [cur]);
        }
      }
    }
  }

  /** Every answer is well reported: each theme is looked into at most once. */
  lemma ResolveReports(w: World, name: string, preferred: string)
    requires NamesDistinct(w.themes) && Resolve(w, name, preferred).Ok?
    ensures WellReported(w, Aliases(w.classes, name), Resolve(w, name, preferred).value)
  {
    var aliases, start := Aliases(w.classes, name), Start(w, preferred);
    var named := Bfs(w, aliases, [start], {}, []);
    BfsChain(w, aliases, [start], {}, []);
    BfsReports(w, aliases, [start], {}, []);
    if named.hit.None? {
      if start != "default" && "default" !in named.visited {
        BfsChain(w, aliases, ["default"], named.visited, named.chain);
        BfsReports(w, aliases, ["default"], named.visited, named.chain);
        SweepChain(w, aliases, 0, Bfs(w, aliases, ["default"], named.visited, named.chain).chain);
      } else {
        SweepChain(w, aliases, 0, named.chain);
      }
    }
  }

  /** Aliases: the first class that lists the name, in its own order; the name alone if none does. */
  lemma {:induction false} AliasesAre(classes: seq<seq<string>>, name: string) returns (c: nat)
    ensures c <= |classes| && forall i :: 0 <= i < c ==> name !in classes[i]
    ensures if c < |classes| then name in classes[c] && Aliases(classes, name) == classes[c]
            else Aliases(classes, name) == [name]
  {
    if classes == [] || name in classes[0] {
      c := 0;
    } else {
      c := AliasesAre(classes[1..], name);
      c := c + 1;
    }
  }

  // ---- the memo ----

  /** The memo after a run of lookups that starts empty. */
  ghost function MemoAfter(w: World, asked: seq<(string, string)>): Memo {
    if asked == [] then map[]
    else
      var last := asked[|asked| - 1];
      Remembered(MemoAfter(w, asked[..|asked| - 1]), w, last.0, last.1)
  }

  /** While the files and the environment stay as they are, every answer is the one a fresh search gives. */
  lemma {:induction false} MemoIsTransparent(w: World, asked: seq<(string, string)>, name: string, preferred: string)
    ensures Memoized(MemoAfter(w, asked), w, name, preferred) == Resolve(w, name, preferred)
    ensures forall k :: k in MemoAfter(w, asked) ==> !BadName(k.0) && k in asked
  {
    if asked != [] {
      var before, last := asked[..|asked| - 1], asked[|asked| - 1];
      MemoIsTransparent(w, before, name, preferred);
      MemoIsTransparent(w, before, last.0, last.1);
    }
  }
}
