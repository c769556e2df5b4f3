/** Leases of overlay planes to CRTCs (src/csd/overlay_reservation.cpp). */
module OverlayReservation {
  import opened Wrappers
  import opened Bytes
  import opened Seqs
  import opened PairOrder

  // ---- planes ----

  /** A plane's capabilities: `linear` holds the formats it scans out of linear memory, `crtcs` is the mask of
      CRTCs it can serve. */
  datatype Plane = Plane(id: nat, overlay: bool, linear: set<nat>, zposMin: Option<nat>, crtcs: nat)

  datatype Registry = Registry(planes: seq<Plane>, excluded: set<nat>)

  /** Kernel object ids name one plane each. */
  ghost predicate UniqueIds(planes: seq<Plane>) {
    forall i, j :: 0 <= i < j < |planes| ==> planes[i].id != planes[j].id
  }

  predicate CompatibleWith(p: Plane, crtc: nat) {
    crtc < 32 && Bit(p.crtcs, crtc)
  }

  datatype Request = Request(crtc: nat, format: nat, count: nat, minZpos: nat)

  /** A plane without a zpos meets only the floor 0. */
  predicate MeetsFloor(p: Plane, minZpos: nat) {
    match p.zposMin
    case None => minZpos == 0
    case Some(z) => z >= minZpos
  }

  predicate Eligible(p: Plane, excluded: set<nat>, q: Request) {
    && CompatibleWith(p, q.crtc) && p.id !in excluded
    && p.overlay && q.format in p.linear && MeetsFloor(p, q.minZpos)
  }

  /** How candidates are ordered: by zpos, then by id. */
  function RankOf(p: Plane): Pair {
    Pair(match p.zposMin { case None => 0 case Some(z) => z }, p.id)
  }

  /** The eligible planes that are not taken, in registry order. */
  function Candidates(planes: seq<Plane>, excluded: set<nat>, q: Request, taken: set<nat>): seq<Pair> {
    if planes == [] then []
    else
      var n := |planes| - 1;
      Candidates(planes[..n], excluded, q, taken) +
        if Eligible(planes[n], excluded, q) && planes[n].id !in taken then [RankOf(planes[n])] else []
  }

  /** A candidate is an eligible free plane, and no plane is listed twice. */
  lemma {:induction false} CandidatesAre(planes: seq<Plane>, excluded: set<nat>, q: Request, taken: set<nat>)
    requires UniqueIds(planes)
    ensures forall c :: c in Candidates(planes, excluded, q, taken) <==>
                          exists i :: 0 <= i < |planes| && c == RankOf(planes[i]) && Eligible(planes[i], excluded, q)
                                      && planes[i].id !in taken
    ensures Distinct(Ids(Candidates(planes, excluded, q, taken)))
  {
    if planes != [] {
      var n := |planes| - 1;
      var fore, p := planes[..n], planes[n];
      CandidatesAre(fore, excluded, q, taken);
      var before, after := Candidates(fore, excluded, q, taken), Candidates(planes, excluded, q, taken);
      assert forall i :: 0 <= i < n ==> fore[i] == planes[i];
      forall c
        ensures c in after <==>
                exists i :: 0 <= i < |planes| && c == RankOf(planes[i]) && Eligible(planes[i], excluded, q)
                            && planes[i].id !in taken
      {
        if c in before {
          var i :| 0 <= i < n && c == RankOf(fore[i]) && Eligible(fore[i], excluded, q) && fore[i].id !in taken;
          assert c == RankOf(planes[i]);
        }
      }
      forall c | c in before
        ensures c.second != p.id
      {
        var i :| 0 <= i < n && c == RankOf(fore[i]) && Eligible(fore[i], excluded, q) && fore[i].id !in taken;
        assert planes[i].id != planes[n].id;
      }
      assert forall i :: 0 <= i < |before| ==> before[i] in before;
    }
  }

  function Ids(ranks: seq<Pair>): (ids: seq<nat>)
    ensures |ids| == |ranks| && forall i :: 0 <= i < |ranks| ==> ids[i] == ranks[i].second
  {
    seq(|ranks|, i requires 0 <= i < |ranks| => ranks[i].second)
  }

  // ---- leases ----

  /** Who holds which planes, and all planes that are held. */
  datatype Leases = Leases(byCrtc: map<nat, seq<nat>>, taken: set<nat>)

  datatype Error = InvalidArgument | TryAgain

  function Members(s: seq<nat>): set<nat> {
    set x | x in s
  }

  function Released(s: Leases, crtc: nat): Leases {
    if crtc in s.byCrtc then Leases(s.byCrtc - {crtc}, s.taken - Members(s.byCrtc[crtc])) else s
  }

  /** What a reservation finds, once its own old lease is dropped. */
  function Found(s: Leases, r: Registry, q: Request): seq<Pair> {
    Sort(Candidates(r.planes, r.excluded, q, Released(s, q.crtc).taken))
  }

  function Answer(s: Leases, r: Registry, q: Request): Result<seq<nat>, Error> {
    if q.count == 0 then Ok([])
    else if |Found(s, r, q)| < q.count then Err(TryAgain)
    else Ok(Ids(Found(s, r, q)[..q.count]))
  }

  function After(s: Leases, r: Registry, q: Request): Leases {
    if q.count == 0 then
      if q.crtc in s.byCrtc then s else s.(byCrtc := s.byCrtc[q.crtc := []])
    else
      var dropped := Released(s, q.crtc);
      match Answer(s, r, q)
      case Err(_) => dropped
      case Ok(ids) => Leases(dropped.byCrtc[q.crtc := ids], dropped.taken + Members(ids))
  }

  class Reservation {
    const bound: bool  // a registry is bound
    var byCrtc: map<nat, seq<nat>>
    var taken: set<nat>

    constructor (hasRegistry: bool)
      ensures bound == hasRegistry && State() == Leases(map[], {})
    {
      bound, byCrtc, taken := hasRegistry, map[], {};
    }

    ghost function State(): Leases
      reads this
    {
      Leases(byCrtc, taken)
    }

    /** Reserves planes from the registry as it is now. */
    method Reserve(r: Registry, q: Request) returns (out: Result<seq<nat>, Error>)
      modifies this
      ensures !bound ==> out == Err(InvalidArgument) && State() == old(State())
      ensures bound ==> out == Answer(old(State()), r, q) && State() == After(old(State()), r, q)
    {
      if !bound {
        return Err(InvalidArgument);
      }
      if q.count == 0 {
        if q.crtc !in byCrtc {
          byCrtc := byCrtc[q.crtc := []];
        }
        return Ok([]);
      }
      Release(q.crtc);
      var candidates := [];
      for i := 0 to |r.planes|
        invariant candidates == Candidates(r.planes[..i], r.excluded, q, taken)
      {
        assert r.planes[..i + 1][..i] == r.planes[..i];
        var p := r.planes[i];
        if Eligible(p, r.excluded, q) && p.id !in taken {
          candidates := candidates + [RankOf(p)];
        }
      }
      assert r.planes[..|r.planes|] == r.planes;
      if |candidates| < q.count {
        SortMembers(candidates);
        return Err(TryAgain);
      }
      SortMembers(candidates);
      candidates := Sort(candidates);
      var ids, more := [], taken;
      for i := 0 to q.count
        invariant ids == Ids(candidates[..i]) && more == taken + Members(ids)
      {
        ids := ids + [candidates[i].second];
        more := more + {candidates[i].second};
      }
      byCrtc, taken := byCrtc[q.crtc := ids], more;
      out := Ok(ids);
    }

    method Release(crtc: nat)
      modifies this
      ensures State() == Released(old(State()), crtc)
    {
      if crtc !in byCrtc {
        return;
      }
      var list := byCrtc[crtc];
      for i := 0 to |list|
        invariant byCrtc == old(byCrtc) && taken == old(taken) - Members(list[..i])
      {
        taken := taken - {list[i]};
      }
      assert list[..|list|] == list;
      byCrtc := byCrtc - {crtc};
    }

    function ReservedFor(crtc: nat): seq<nat>
      reads this
    {
      if crtc in byCrtc then byCrtc[crtc] else []
    }
  }

  // ---- what every run keeps ----

  /** The taken planes are the disjoint union of the leases: no plane has two holders. */
  ghost predicate Consistent(s: Leases) {
    && (forall id :: id in s.taken <==> exists c :: c in s.byCrtc && id in s.byCrtc[c])
    && (forall c, d, id :: c in s.byCrtc && d in s.byCrtc && id in s.byCrtc[c] && id in s.byCrtc[d] ==> c == d)
    && (forall c :: c in s.byCrtc ==> Distinct(s.byCrtc[c]))
  }

  lemma ReleaseKeeps(s: Leases, crtc: nat)
    requires Consistent(s)
    ensures Consistent(Released(s, crtc))
  {
    var t := Released(s, crtc);
    forall id | id in t.taken
      ensures exists c :: c in t.byCrtc && id in t.byCrtc[c]
    {
      var c :| c in s.byCrtc && id in s.byCrtc[c];
      assert c in t.byCrtc;
    }
  }

  lemma {:induction false} InsertIds(p: Pair, s: seq<Pair>)
    requires Distinct(Ids(s)) && p.second !in Ids(s)
    ensures Distinct(Ids(Insert(p, s))) && forall x :: x in Ids(Insert(p, s)) <==> x == p.second || x in Ids(s)
  {
    if s == [] || !Less(s[0], p) {
      assert Ids([p] + s) == [p.second] + Ids(s);
    } else {
      assert Ids(s) == [s[0].second] + Ids(s[1..]);
      InsertIds(p, s[1..]);
      var rest := Ids(Insert(p, s[1..]));
      assert Ids(Insert(p, s)) == [s[0].second] + rest;
      assert forall i :: 1 <= i < |s| ==> Ids(s)[0] != Ids(s)[i];
      assert s[0].second !in Ids(s[1..]) && s[0].second != p.second;
    }
  }

  /** Sorting keeps the ids, and keeps them different. */
  lemma {:induction false} SortIds(s: seq<Pair>)
    requires Distinct(Ids(s))
    ensures Distinct(Ids(Sort(s))) && (forall x :: x in Ids(Sort(s)) <==> x in Ids(s))
  {
    if s != [] {
      assert Ids(s) == [s[0].second] + Ids(s[1..]);
      SortIds(s[1..]);
      InsertIds(s[0], Sort(s[1..]));
    }
  }

  lemma {:induction false} DistinctIdsStrict(s: seq<Pair>)
    requires Ascending(s) && Distinct(Ids(s))
    ensures StrictlyAscending(s)
  {
    forall i, j | 0 <= i < j < |s|
      ensures Less(s[i], s[j])
    {
      assert !Less(s[j], s[i]) && Ids(s)[i] != Ids(s)[j];
    }
  }

  /** The eligible planes nobody holds once the own lease is dropped. */
  ghost function Free(s: Leases, r: Registry, q: Request): set<Plane> {
    FreeOf(r.planes, r.excluded, q, Released(s, q.crtc).taken)
  }

  ghost function FreeOf(planes: seq<Plane>, excluded: set<nat>, q: Request, taken: set<nat>): set<Plane> {
    set p | p in planes && Eligible(p, excluded, q) && p.id !in taken
  }

  lemma FreeOneMore(fore: seq<Plane>, p: Plane, excluded: set<nat>, q: Request, taken: set<nat>)
    requires p !in fore
    ensures var fits := Eligible(p, excluded, q) && p.id !in taken;
            |FreeOf(fore + [p], excluded, q, taken)| == |FreeOf(fore, excluded, q, taken)| + if fits then 1 else 0
  {
    var before, after := FreeOf(fore, excluded, q, taken), FreeOf(fore + [p], excluded, q, taken);
    if Eligible(p, excluded, q) && p.id !in taken {
      assert after == before + {p};
    } else {
      assert after == before;
    }
  }

  lemma {:induction false} CandidatesCount(planes: seq<Plane>, excluded: set<nat>, q: Request, taken: set<nat>)
    requires UniqueIds(planes)
    ensures |Candidates(planes, excluded, q, taken)| == |FreeOf(planes, excluded, q, taken)|
  {
    if planes != [] {
      var n := |planes| - 1;
      CandidatesCount(planes[..n], excluded, q, taken);
      assert planes == planes[..n] + [planes[n]];
      FreeOneMore(planes[..n], planes[n], excluded, q, taken);
    }
  }

  /** The sorted candidates are the ranks of the free planes, strictly ascending. */
  lemma FoundIs(s: Leases, r: Registry, q: Request)
    requires UniqueIds(r.planes)
    ensures var f := Found(s, r, q);
            && StrictlyAscending(f) && Distinct(Ids(f)) && |f| == |Free(s, r, q)|
            && (forall p :: p in Free(s, r, q) ==> RankOf(p) in f)
            && (forall c :: c in f ==> exists p :: p in Free(s, r, q) && c == RankOf(p))
  {
    var taken := Released(s, q.crtc).taken;
    var cs := Candidates(r.planes, r.excluded, q, taken);
    CandidatesAre(r.planes, r.excluded, q, taken);
    CandidatesCount(r.planes, r.excluded, q, taken);
    SortMembers(cs);
    SortIds(cs);
    DistinctIdsStrict(Sort(cs));
    forall p | p in Free(s, r, q)
      ensures RankOf(p) in cs
    {
      var i :| 0 <= i < |r.planes| && r.planes[i] == p;
    }
    forall c | c in cs
      ensures exists p :: p in Free(s, r, q) && c == RankOf(p)
    {
      var i :| 0 <= i < |r.planes| && c == RankOf(r.planes[i]) && Eligible(r.planes[i], r.excluded, q)
          && r.planes[i].id !in taken;
      assert r.planes[i] in Free(s, r, q);
    }
  }

  /** A plane is free for a request exactly when it is a registered overlay plane that scans the format out of linear
      memory, its mask names the CRTC, nobody excluded it, no other CRTC holds it, and it reaches the floor. */
  lemma FreeIs(s: Leases, r: Registry, q: Request, p: Plane)
    requires Consistent(s)
    ensures p in Free(s, r, q) <==>
            && p in r.planes && p.overlay && q.format in p.linear && p.id !in r.excluded
            && q.crtc < 32 && (p.crtcs / Pow2(q.crtc)) % 2 == 1
            && (forall c :: c in s.byCrtc && p.id in s.byCrtc[c] ==> c == q.crtc)
            && (q.minZpos == 0 || (p.zposMin.Some? && q.minZpos <= p.zposMin.value))
  {
    var t := Released(s, q.crtc);
    assert p.id in t.taken <==> exists c :: c in s.byCrtc && p.id in s.byCrtc[c] && c != q.crtc by {
      ReleaseKeeps(s, q.crtc);
    }
  }

  /** Of two planes the one with the lower zpos ranks first, where none counts as 0, and for the same zpos the one
      with the lower id. */
  lemma RankIs(p: Plane, p': Plane)
    ensures var z := if p.zposMin.None? then 0 else p.zposMin.value;
            var z' := if p'.zposMin.None? then 0 else p'.zposMin.value;
            Less(RankOf(p), RankOf(p')) <==> z < z' || (z == z' && p.id < p'.id)
  {
  }

  /** `ids` are `count` different planes of `free`, in rank order, and every free plane left over ranks later. */
  ghost predicate LowestOf(free: set<Plane>, ids: seq<nat>, count: nat) {
    && |ids| == count && Distinct(ids)
    && (forall id :: id in ids ==> exists p :: p in free && p.id == id)
    && (forall i, j, p, p' :: 0 <= i < j < count && p in free && p' in free && p.id == ids[i] && p'.id == ids[j]
          ==> Less(RankOf(p), RankOf(p')))
    && (forall p, p' :: p in free && p' in free && p.id in ids && p'.id !in ids ==> Less(RankOf(p), RankOf(p')))
  }

  /** A reservation of planes succeeds exactly when enough of them are free after the own old lease is dropped,
      and takes the lowest. */
  lemma ReserveTakesLowest(s: Leases, r: Registry, q: Request)
    requires UniqueIds(r.planes) && q.count > 0
    ensures Answer(s, r, q).Ok? <==> |Free(s, r, q)| >= q.count
    ensures Answer(s, r, q).Ok? ==> LowestOf(Free(s, r, q), Answer(s, r, q).value, q.count)
    ensures Answer(s, r, q).Err? ==> Answer(s, r, q) == Err(TryAgain)
  {
    FoundIs(s, r, q);
    if Answer(s, r, q).Ok? {
      FirstAreLowest(Free(s, r, q), Found(s, r, q), q.count);
    }
  }

  lemma FirstAreLowest(free: set<Plane>, f: seq<Pair>, count: nat)
    requires StrictlyAscending(f) && Distinct(Ids(f)) && count <= |f|
    requires forall p :: p in free ==> RankOf(p) in f
    requires forall c :: c in f ==> exists p :: p in free && c == RankOf(p)
    ensures LowestOf(free, Ids(f[..count]), count)
  {
    var ids := Ids(f[..count]);
    assert forall i :: 0 <= i < count ==> ids[i] == Ids(f)[i];
    forall p | p in free
      ensures exists k :: 0 <= k < |f| && f[k] == RankOf(p) && (p.id in ids <==> k < count)
      ensures forall i :: 0 <= i < count && ids[i] == p.id ==> f[i] == RankOf(p)
    {
      var k :| 0 <= k < |f| && f[k] == RankOf(p);
      assert Ids(f)[k] == p.id;
      assert k < count ==> ids[k] == p.id;
    }
    forall id | id in ids
      ensures exists p :: p in free && p.id == id
    {
      var i :| 0 <= i < count && ids[i] == id;
      assert f[i] in f;
    }
  }

  /** Reservations keep the leases disjoint. */
  lemma ReserveKeeps(s: Leases, r: Registry, q: Request)
    requires Consistent(s) && UniqueIds(r.planes)
    ensures Consistent(After(s, r, q))
  {
    if q.count == 0 {
      if q.crtc !in s.byCrtc {
        Granting(s, q.crtc, []);
        assert s.taken + Members([]) == s.taken;
      }
      return;
    }
    ReleaseKeeps(s, q.crtc);
    ReserveTakesLowest(s, r, q);
    if Answer(s, r, q).Ok? {
      Granting(Released(s, q.crtc), q.crtc, Answer(s, r, q).value);
    }
  }

  lemma Granting(s: Leases, crtc: nat, ids: seq<nat>)
    requires Consistent(s) && crtc !in s.byCrtc && Distinct(ids) && forall id :: id in ids ==> id !in s.taken
    ensures Consistent(Leases(s.byCrtc[crtc := ids], s.taken + Members(ids)))
  {
    var t := Leases(s.byCrtc[crtc := ids], s.taken + Members(ids));
    forall id
      ensures id in t.taken <==> exists c :: c in t.byCrtc && id in t.byCrtc[c]
    {
      if id in s.taken {
        var c :| c in s.byCrtc && id in s.byCrtc[c];
        assert c in t.byCrtc && id in t.byCrtc[c];
      } else if id in ids {
        assert crtc in t.byCrtc && id in t.byCrtc[crtc];
      }
    }
  }

  /** What a reservation does to the leases: the other CRTCs keep theirs; a failure loses the own one, and a
      request for no planes keeps it although the answer is empty. */
  lemma ReserveTouchesOwnLease(s: Leases, r: Registry, q: Request)
    ensures var t := After(s, r, q);
            && (t.byCrtc - {q.crtc} == s.byCrtc - {q.crtc})
            && (q.count > 0 && Answer(s, r, q).Err? ==> q.crtc !in t.byCrtc)
            && (q.count > 0 && Answer(s, r, q).Ok? ==> q.crtc in t.byCrtc && t.byCrtc[q.crtc] == Answer(s, r, q).value)
            && (q.count == 0 ==>
                  && q.crtc in t.byCrtc && t.taken == s.taken
                  && t.byCrtc[q.crtc] == if q.crtc in s.byCrtc then s.byCrtc[q.crtc] else [])
  {
  }

  datatype Op = Reserve(registry: Registry, request: Request) | Release(crtc: nat)

  /** The leases after a run that starts with none; the registry may change between calls. */
  ghost function Run(ops: seq<Op>): Leases {
    if ops == [] then Leases(map[], {})
    else match ops[|ops| - 1]
      case Reserve(r, q) => After(Run(ops[..|ops| - 1]), r, q)
      case Release(c) => Released(Run(ops[..|ops| - 1]), c)
  }

  /** After any run no plane is held by two CRTCs, and the taken set is exactly what is held. */
  lemma {:induction false} RunIsConsistent(ops: seq<Op>)
    requires forall i :: 0 <= i < |ops| && ops[i].Reserve? ==> UniqueIds(ops[i].registry.planes)
    ensures Consistent(Run(ops))
  {
    if ops != [] {
      var before := ops[..|ops| - 1];
      RunIsConsistent(before);
      match ops[|ops| - 1]
      case Reserve(r, q) => ReserveKeeps(Run(before), r, q);
      case Release(c) => ReleaseKeeps(Run(before), c);
    }
  }
}
