/** The cursor theme resolver (src/cursor/theme.cpp): a breadth-first search over the Inherits graph with two
    fallbacks and a memo. */
module CursorTheme {
  import opened Wrappers

  // ---- the index of themes ----

  /** A theme: its name, the directories that provide it, first one first, and the themes it inherits. */
  datatype Record = Record(name: string, dirs: seq<string>, inherits: seq<string>)

  /** The position of a theme in the index, or the length of the index. */
  function Find(themes: seq<Record>, name: string): (i: nat)
    ensures i <= |themes| && (i < |themes| ==> themes[i].name == name)
    ensures forall j :: 0 <= j < i ==> themes[j].name != name
  {
    if themes == [] then 0
    else if themes[0].name == name then 0
    else
      assert forall j :: 1 <= j < |themes| ==> themes[j] == themes[1..][j - 1];
      1 + Find(themes[1..], name)
  }

  predicate Has(themes: seq<Record>, name: string) {
    Find(themes, name) < |themes|
  }

  /** The themes that a theme inherits; a theme that is not indexed inherits nothing. */
  function Parents(themes: seq<Record>, name: string): seq<string> {
    if Has(themes, name) then themes[Find(themes, name)].inherits else []
  }

  ghost predicate NamesDistinct(themes: seq<Record>) {
    forall i, j :: 0 <= i < j < |themes| ==> themes[i].name != themes[j].name
  }

  /** A directory found on the search path, with what it holds. */
  datatype Entry = Entry(name: string, dir: string, hasCursors: bool, hasIndex: bool, hasCursorTheme: bool,
                         indexInherits: seq<string>, cursorInherits: seq<string>)

  predicate IsTheme(e: Entry) {
    (e.hasCursors || e.hasIndex || e.hasCursorTheme) && e.name != ""
  }

  /** The Inherits list of a directory: the one of cursor.theme unless that is empty. */
  function InheritsOf(e: Entry): seq<string> {
    if e.hasCursorTheme && e.cursorInherits != [] then e.cursorInherits
    else if e.hasIndex then e.indexInherits
    else []
  }

  /** One directory is added to the index. */
  function Register(themes: seq<Record>, e: Entry): seq<Record> {
    if !IsTheme(e) then themes
    else
      var i := Find(themes, e.name);
      if i == |themes| then themes + [Record(e.name, [e.dir], InheritsOf(e))]
      else
        var r := themes[i];
        themes[i := Record(r.name, r.dirs + [e.dir], if r.inherits == [] then InheritsOf(e) else r.inherits)]
  }

  function Discovered(scan: seq<Entry>): seq<Record> {
    if scan == [] then [] else Register(Discovered(scan[..|scan| - 1]), scan[|scan| - 1])
  }

  /** The directories of the scanned entries of one name, in order. */
  function DirsOf(scan: seq<Entry>, name: string): seq<string> {
    if scan == [] then []
    else
      var e := scan[|scan| - 1];
      DirsOf(scan[..|scan| - 1], name) + if IsTheme(e) && e.name == name then [e.dir] else []
  }

  /** The first non-empty Inherits list among the scanned entries of one name. */
  function FirstInherits(scan: seq<Entry>, name: string): seq<string> {
    if scan == [] then []
    else
      var before, e := FirstInherits(scan[..|scan| - 1], name), scan[|scan| - 1];
      if before == [] && IsTheme(e) && e.name == name then InheritsOf(e) else before
  }

  /** The index has one record for each theme name scanned: all its directories in search order, and the
      Inherits list of the first that has one. */
  lemma {:induction false} DiscoveredIs(scan: seq<Entry>)
    ensures NamesDistinct(Discovered(scan))
    ensures forall r :: r in Discovered(scan) ==>
              r.name != "" && r.dirs == DirsOf(scan, r.name) && r.dirs != []
              && r.inherits == FirstInherits(scan, r.name)
    ensures forall n :: Has(Discovered(scan), n) <==> DirsOf(scan, n) != []
  {
    if scan != [] {
      var before, e := scan[..|scan| - 1], scan[|scan| - 1];
      DiscoveredIs(before);
      NoDirsNoInherits(before, e.name);
      RegisterIs(Discovered(before), e);
    }
  }

  /** The directories of a theme are the scanned ones of its name that hold cursors or an index file. */
  lemma {:induction false} DirsExactly(scan: seq<Entry>, name: string, dir: string)
    ensures dir in DirsOf(scan, name) <==>
            exists e :: e in scan && e.dir == dir && e.name == name && name != ""
                        && (e.hasCursors || e.hasIndex || e.hasCursorTheme)
  {
    if scan != [] {
      var n := |scan| - 1;
      DirsExactly(scan[..n], name, dir);
      assert scan == scan[..n] + [scan[n]];
    }
  }

  /** A scanned directory holds a list of inherited themes for this theme: cursor.theme's, or index.theme's. */
  predicate HasList(e: Entry, name: string) {
    && e.name == name && name != ""
    && ((e.hasCursorTheme && e.cursorInherits != []) || (e.hasIndex && e.indexInherits != []))
  }

  /** A theme inherits what the first directory that has a list says, and cursor.theme goes before index.theme. */
  lemma {:induction false} InheritsComeFrom(scan: seq<Entry>, name: string) returns (i: nat)
    ensures i <= |scan| && forall k :: 0 <= k < i ==> !HasList(scan[k], name)
    ensures i == |scan| ==> FirstInherits(scan, name) == []
    ensures i < |scan| ==>
              HasList(scan[i], name) &&
              FirstInherits(scan, name) ==
              if scan[i].hasCursorTheme && scan[i].cursorInherits != [] then scan[i].cursorInherits
              else scan[i].indexInherits
  {
    i := |scan|;
    if scan != [] {
      var n := |scan| - 1;
      i := InheritsComeFrom(scan[..n], name);
      if i == n && !HasList(scan[n], name) {
        i := n + 1;
      }
    }
  }

  lemma {:induction false} NoDirsNoInherits(scan: seq<Entry>, name: string)
    ensures DirsOf(scan, name) == [] ==> FirstInherits(scan, name) == []
  {
    if scan != [] {
      NoDirsNoInherits(scan[..|scan| - 1], name);
    }
  }

  lemma RegisterIs(themes: seq<Record>, e: Entry)
    requires NamesDistinct(themes)
    ensures NamesDistinct(Register(themes, e))
    ensures forall n :: Has(Register(themes, e), n) <==> Has(themes, n) || (IsTheme(e) && n == e.name)
    ensures forall r :: r in Register(themes, e) && r.name != e.name ==> r in themes
  {
    var after := Register(themes, e);
    assert forall j :: 0 <= j < |themes| ==> after[j].name == themes[j].name;
    forall n
      ensures Has(after, n) <==> Has(themes, n) || (IsTheme(e) && n == e.name)
    {
      assert Has(after, n) ==> after[Find(after, n)].name == n;
      assert Has(themes, n) ==> after[Find(themes, n)].name == n;
      if IsTheme(e) && n == e.name {
        assert after[Find(themes, n)].name == n;
      }
    }
  }

  // ---- looking for a cursor in one theme ----

  /** What a lookup depends on: the indexed themes, the alias classes, $XCURSOR_THEME, and which files exist:
      onDisk(dir, name) for the file `name` in the cursors directory of `dir`. */
  datatype World = World(themes: seq<Record>, classes: seq<seq<string>>, env: string, onDisk: (string, string) -> bool)

  datatype Resolution = Resolution(theme: string, dir: string, file: string, chain: seq<string>)

  datatype Error = InvalidArgument | NoSuchFile

  /** The names tried for a cursor: its first alias class, or itself. */
  function Aliases(classes: seq<seq<string>>, name: string): seq<string> {
    if classes == [] then [name]
    else if name in classes[0] then classes[0]
    else Aliases(classes[1..], name)
  }

  /** The first of the aliases that exists in a directory. */
  function AliasIn(w: World, dir: string, aliases: seq<string>): (found: Option<string>)
    ensures found.None? <==> forall a :: a in aliases ==> !w.onDisk(dir, a)
  {
    if aliases == [] then None
    else if w.onDisk(dir, aliases[0]) then Some(aliases[0])
    else AliasIn(w, dir, aliases[1..])
  }

  /** The first directory that has one of the aliases, with that alias. */
  function FileIn(w: World, dirs: seq<string>, aliases: seq<string>): (found: Option<(string, string)>)
    ensures found.None? <==> forall d, a :: d in dirs && a in aliases ==> !w.onDisk(d, a)
  {
    if dirs == [] then None
    else match AliasIn(w, dirs[0], aliases)
      case Some(a) => Some((dirs[0], a))
      case None => FileIn(w, dirs[1..], aliases)
  }

  lemma {:induction false} AliasInIs(w: World, dir: string, aliases: seq<string>) returns (j: nat)
    requires AliasIn(w, dir, aliases).Some?
    ensures j < |aliases| && AliasIn(w, dir, aliases) == Some(aliases[j]) && w.onDisk(dir, aliases[j])
    ensures forall k :: 0 <= k < j ==> !w.onDisk(dir, aliases[k])
  {
    if w.onDisk(dir, aliases[0]) {
      j := 0;
    } else {
      var k := AliasInIs(w, dir, aliases[1..]);
      j := k + 1;
    }
  }

  /** The file chosen within a theme: the first directory that has any alias, and there the first alias in the
      order of the class, which need not be the requested name. */
  lemma {:induction false} FileInIs(w: World, dirs: seq<string>, aliases: seq<string>) returns (i: nat, j: nat)
    requires FileIn(w, dirs, aliases).Some?
    ensures i < |dirs| && j < |aliases| && FileIn(w, dirs, aliases) == Some((dirs[i], aliases[j]))
    ensures w.onDisk(dirs[i], aliases[j])
    ensures forall k, a :: 0 <= k < i && a in aliases ==> !w.onDisk(dirs[k], a)
    ensures forall k :: 0 <= k < j ==> !w.onDisk(dirs[i], aliases[k])
  {
    if AliasIn(w, dirs[0], aliases).Some? {
      i := 0;
      j := AliasInIs(w, dirs[0], aliases);
    } else {
      var k;
      k, j := FileInIs(w, dirs[1..], aliases);
      i := k + 1;
    }
  }

  /** The file for a cursor in a theme. */
  function Offer(w: World, theme: string, aliases: seq<string>): Option<(string, string)> {
    if Has(w.themes, theme) then FileIn(w, w.themes[Find(w.themes, theme)].dirs, aliases) else None
  }

  // ---- the breadth-first walk ----

  /** What a walk leaves: a hit or not, the themes visited, and the chain of themes looked into. */
  datatype Walked = Walked(hit: Option<Resolution>, visited: set<string>, chain: seq<string>)

  function IndexedNames(themes: seq<Record>): set<string> {
    set r | r in themes :: r.name
  }

  lemma VisitShrinks(themes: seq<Record>, visited: set<string>, name: string)
    requires Has(themes, name) && name !in visited
    ensures IndexedNames(themes) - (visited + {name}) < IndexedNames(themes) - visited
  {
    assert themes[Find(themes, name)] in themes;
  }

  /** The walk from a queue of themes. */
  function Bfs(w: World, aliases: seq<string>, queue: seq<string>, visited: set<string>, chain: seq<string>): Walked
    decreases IndexedNames(w.themes) - visited, |queue|
  {
    if queue == [] then Walked(None, visited, chain)
    else
      var cur := queue[0];
      if cur in visited then Bfs(w, aliases, queue[1..], visited, chain)
      else if Offer(w, cur, aliases).Some? then
        var f := Offer(w, cur, aliases).value;
        Walked(Some(Resolution(cur, f.0, f.1, chain + [cur])), visited + {cur}, chain + [cur])
      else if Has(w.themes, cur) then
        VisitShrinks(w.themes, visited, cur);
        Bfs(w, aliases, queue[1..] + Parents(w.themes, cur), visited + {cur}, chain + [cur])
      else
        assert IndexedNames(w.themes) - (visited + {cur}) <= IndexedNames(w.themes) - visited;
        Bfs(w, aliases, queue[1..], visited + {cur}, chain + [cur])
  }

  /** The rest of the index in discovery order. */
  function Sweep(w: World, aliases: seq<string>, i: nat, chain: seq<string>): Result<Resolution, Error>
    requires i <= |w.themes|
    decreases |w.themes| - i
  {
    if i == |w.themes| then Err(NoSuchFile)
    else
      var r := w.themes[i];
      if r.name in chain then Sweep(w, aliases, i + 1, chain)
      else match FileIn(w, r.dirs, aliases)
        case Some(f) => Ok(Resolution(r.name, f.0, f.1, chain + [r.name]))
        case None => Sweep(w, aliases, i + 1, chain + [r.name])
  }

  predicate BadName(name: string) {
    name == "" || name == "." || name == ".." || '/' in name || '\\' in name
  }

  /** The theme the search starts from. */
  function Start(w: World, preferred: string): string {
    if preferred != "" then preferred else if w.env != "" then w.env else "default"
  }

  /** The answer computed from scratch. */
  function Resolve(w: World, name: string, preferred: string): Result<Resolution, Error> {
    if BadName(name) then Err(InvalidArgument)
    else
      var aliases, start := Aliases(w.classes, name), Start(w, preferred);
      var named := Bfs(w, aliases, [start], {}, []);
      if named.hit.Some? then Ok(named.hit.value)
      else if start != "default" && "default" !in named.visited then
        var bridged := Bfs(w, aliases, ["default"], named.visited, named.chain);
        if bridged.hit.Some? then Ok(bridged.hit.value) else Sweep(w, aliases, 0, bridged.chain)
      else Sweep(w, aliases, 0, named.chain)
  }

  type Memo = map<(string, string), Result<Resolution, Error>>

  /** The answer when `memo` is consulted first. */
  function Memoized(memo: Memo, w: World, name: string, preferred: string): Result<Resolution, Error> {
    if !BadName(name) && (name, preferred) in memo then memo[(name, preferred)] else Resolve(w, name, preferred)
  }

  /** The memo afterwards: a malformed name is never remembered. */
  function Remembered(memo: Memo, w: World, name: string, preferred: string): Memo {
    if BadName(name) then memo else memo[(name, preferred) := Memoized(memo, w, name, preferred)]
  }

  // ---- the resolver object ----

  class Theme {
    const themes: seq<Record>
    const classes: seq<seq<string>>
    var cache: Memo

    constructor (ts: seq<Record>, cs: seq<seq<string>>)
      ensures themes == ts && classes == cs && cache == map[]
    {
      themes, classes, cache := ts, cs, map[];
    }

    /** Answers from the memo, or searches and remembers; a malformed name touches neither. */
    method ResolveName(name: string, preferred: string, env: string, onDisk: (string, string) -> bool)
      returns (r: Result<Resolution, Error>)
      modifies this
      ensures r == Memoized(old(cache), World(themes, classes, env, onDisk), name, preferred)
      ensures cache == Remembered(old(cache), World(themes, classes, env, onDisk), name, preferred)
    {
      if BadName(name) {
        return Err(InvalidArgument);
      }
      var key := (name, preferred);
      if key in cache {
        return cache[key];
      }
      var w := World(themes, classes, env, onDisk);
      r := Search(w, Aliases(classes, name), Start(w, preferred));
      cache := cache[key := r];
    }
  }

  /** The three phases of the search. */
  method Search(w: World, aliases: seq<string>, start: string) returns (r: Result<Resolution, Error>)
    ensures forall name, preferred :: !BadName(name) && aliases == Aliases(w.classes, name)
              && start == Start(w, preferred)
              ==> r == Resolve(w, name, preferred)
  {
    var walk := BfsAndMatch(w, aliases, start, {}, []);
    if walk.hit.Some? {
      return Ok(walk.hit.value);
    }
    if start != "default" && "default" !in walk.visited {
      walk := BfsAndMatch(w, aliases, "default", walk.visited, walk.chain);
      if walk.hit.Some? {
        return Ok(walk.hit.value);
      }
    }
    r := SweepIndex(w, aliases, walk.chain);
  }

  method BfsAndMatch(w: World, aliases: seq<string>, root: string, visited0: set<string>, chain0: seq<string>)
    returns (r: Walked)
    ensures r == Bfs(w, aliases, [root], visited0, chain0)
  {
    var queue, visited, chain := [root], visited0, chain0;
    while queue != []
      invariant Bfs(w, aliases, queue, visited, chain) == Bfs(w, aliases, [root], visited0, chain0)
      decreases IndexedNames(w.themes) - visited, |queue|
    {
      var cur := queue[0];
      queue := queue[1..];
      if cur in visited {
        continue;
      }
      assert IndexedNames(w.themes) - (visited + {cur}) <= IndexedNames(w.themes) - visited;
      ghost var before := visited;
      visited := visited + {cur};
      chain := chain + [cur];
      var i := Find(w.themes, cur);
      if i < |w.themes| {
        VisitShrinks(w.themes, before, cur);
        queue := queue + w.themes[i].inherits;
        var f := FileIn(w, w.themes[i].dirs, aliases);
        if f.Some? {
          return Walked(Some(Resolution(cur, f.value.0, f.value.1, chain)), visited, chain);
        }
      }
    }
    r := Walked(None, visited, chain);
  }

  method SweepIndex(w: World, aliases: seq<string>, chain0: seq<string>) returns (r: Result<Resolution, Error>)
    ensures r == Sweep(w, aliases, 0, chain0)
  {
    var chain := chain0;
    for i := 0 to |w.themes|
      invariant Sweep(w, aliases, i, chain) == Sweep(w, aliases, 0, chain0)
    {
      var record := w.themes[i];
      if record.name !in chain {
        var f := FileIn(w, record.dirs, aliases);
        chain := chain + [record.name];
        if f.Some? {
          return Ok(Resolution(record.name, f.value.0, f.value.1, chain));
        }
      }
    }
    r := Err(NoSuchFile);
  }
}
