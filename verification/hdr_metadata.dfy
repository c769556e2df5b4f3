/** HDR metadata blobs: the owning handle (src/display/hdr_metadata.cpp) and the per-CRTC cache of them
    (src/display/hdr_metadata_cache.cpp). */
module HdrMetadata {
  import opened Wrappers

  // ---- the handle ----

  /** What a handle refers to: a kernel blob id on a file descriptor. */
  datatype Ref = Ref(fd: int, id: nat)

  const NO_REF := Ref(-1, 0)

  /** Only such a reference is ever given back to the kernel. */
  predicate Live(r: Ref) {
    r.id != 0 && r.fd >= 0
  }

  /** A blob: its number among the blobs made tells it apart even when the kernel hands out an id again. */
  datatype Blob = Blob(made: nat, ref: Ref)

  /** The destroy calls that letting go of a blob makes. */
  function Calls(b: Blob): multiset<Blob> {
    if Live(b.ref) then multiset{b} else multiset{}
  }

  /** The kernel, with the destroy calls it got so far. */
  class Kernel {
    ghost var calls: multiset<Blob>

    constructor ()
      ensures calls == multiset{}
    {
      calls := multiset{};
    }
  }

  class Handle {
    var fd: int
    var id: nat
    var hash: nat
    ghost var made: nat   // which blob this is; it moves with the reference

    constructor (f: int, i: nat, h: nat, ghost m: nat)
      ensures Holds() == Blob(m, Ref(f, i)) && hash == h
    {
      fd, id, hash, made := f, i, h, m;
    }

    function Refers(): Ref
      reads this
    {
      Ref(fd, id)
    }

    ghost function Holds(): Blob
      reads this
    {
      Blob(made, Refers())
    }

    /** Takes over what `other` refers to. */
    constructor MovedFrom(other: Handle)
      modifies other`fd, other`id, other`hash
      ensures Holds() == old(other.Holds()) && hash == old(other.hash)
      ensures other.Refers() == NO_REF && other.hash == 0
    {
      fd, id, hash, made := other.fd, other.id, other.hash, other.made;
      new;
      other.fd, other.id, other.hash := -1, 0, 0;
    }

    /** Gives the blob back, at most once. */
    method Reset(k: Kernel)
      modifies this`fd, this`id, this`hash, k
      ensures k.calls == old(k.calls) + Calls(old(Holds())) && Refers() == NO_REF && hash == 0
    {
      if id != 0 && fd >= 0 {
        k.calls := k.calls + multiset{Holds()};
      }
      fd, id, hash := -1, 0, 0;
    }

    method Forget()
      modifies this`fd, this`id, this`hash
      ensures Refers() == NO_REF && hash == 0
    {
      fd, id, hash := -1, 0, 0;
    }

    /** Move assignment; onto itself it does nothing. */
    method Assign(other: Handle, k: Kernel)
      modifies this`fd, this`id, this`hash, this`made, other`fd, other`id, other`hash, k
      ensures Holds() == old(other.Holds()) && hash == old(other.hash)
      ensures if this == other then k.calls == old(k.calls)
              else k.calls == old(k.calls) + Calls(old(Holds())) && other.Refers() == NO_REF && other.hash == 0
    {
      if this != other {
        Reset(k);
        fd, id, hash, made := other.fd, other.id, other.hash, other.made;
        other.fd, other.id, other.hash := -1, 0, 0;
      }
    }
  }

  // ---- the cache as a state ----

  datatype Entry = Entry(blob: Blob, hash: nat)

  datatype Error = FactoryFailed(code: int)

  /** The cached entries, the replaced blobs, and what became of the others. */
  datatype State = State(active: map<nat, Entry>, pending: seq<Blob>, made: seq<Blob>,
                         destroyed: multiset<Blob>, forgotten: multiset<Blob>)

  const EMPTY := State(map[], [], [], multiset{}, multiset{})

  function ActiveBlobs(active: map<nat, Entry>): set<Blob> {
    set c | c in active :: active[c].blob
  }

  ghost predicate OneEntryEach(active: map<nat, Entry>) {
    forall c, d :: c in active && d in active && active[c].blob == active[d].blob ==> c == d
  }

  /** Every blob the factory made is in exactly one place: cached, waiting, destroyed once, or forgotten. */
  ghost predicate Conserved(s: State) {
    && OneEntryEach(s.active)
    && (forall i :: 0 <= i < |s.made| ==> s.made[i].made == i)
    && multiset(ActiveBlobs(s.active)) + multiset(s.pending) + s.destroyed + s.forgotten == multiset(s.made)
  }

  /** The kernel was asked to destroy exactly the live ones among the destroyed blobs, each as often. */
  ghost predicate CallsMatch(calls: multiset<Blob>, destroyed: multiset<Blob>) {
    forall b :: calls[b] == if Live(b.ref) then destroyed[b] else 0
  }

  /** A set or clear; `answer` is what the factory gives if it is asked. */
  datatype SetOp = SetOp(crtc: nat, hash: Option<nat>, answer: Result<Ref, Error>)

  predicate IsHit(s: State, op: SetOp) {
    op.hash.Some? && op.crtc in s.active && s.active[op.crtc].hash == op.hash.value
  }

  /** The factory is asked. */
  predicate IsMiss(s: State, op: SetOp) {
    op.hash.Some? && !IsHit(s, op)
  }

  /** The entry of a CRTC moves to the waiting list. */
  function Evicted(s: State, crtc: nat): State {
    if crtc in s.active then s.(active := s.active - {crtc}, pending := s.pending + [s.active[crtc].blob]) else s
  }

  function Install(s: State, crtc: nat, ref: Ref, hash: nat): State {
    var b := Blob(|s.made|, ref);
    s.(active := s.active[crtc := Entry(b, hash)], made := s.made + [b])
  }

  function AfterSet(s: State, op: SetOp): State {
    if op.hash.None? then Evicted(s, op.crtc)
    else if IsMiss(s, op) && op.answer.Ok? then Install(Evicted(s, op.crtc), op.crtc, op.answer.value, op.hash.value)
    else s
  }

  function SetAnswer(s: State, op: SetOp): Result<nat, Error> {
    if op.hash.None? then Ok(0)
    else if IsHit(s, op) then Ok(s.active[op.crtc].blob.ref.id)
    else match op.answer
      case Ok(ref) => Ok(ref.id)
      case Err(e) => Err(e)
  }

  function Acknowledged(s: State): State {
    s.(pending := [], destroyed := s.destroyed + multiset(s.pending))
  }

  /** Flushing, and tearing the cache down. */
  function Flushed(s: State): State {
    s.(active := map[], pending := [],
       destroyed := s.destroyed + multiset(s.pending) + multiset(ActiveBlobs(s.active)))
  }

  function SessionLost(s: State): State {
    s.(active := map[], pending := [],
       forgotten := s.forgotten + multiset(s.pending) + multiset(ActiveBlobs(s.active)))
  }

  // ---- the cache object ----

  /** An entry as the cache holds it. */
  datatype Slot = Slot(blob: Handle, hash: nat)

  datatype Place = Cached(crtc: nat) | Waiting(i: nat)

  /** Where a handle is and what it holds. */
  datatype Spot = Spot(place: Place, blob: Blob)

  /** Every cached and every waiting handle is at its own spot, and what they hold is what the state says. */
  ghost predicate Shelved(active: map<nat, Slot>, pending: seq<Handle>, spots: map<Handle, Spot>, s: State) {
    && active.Keys == s.active.Keys && |pending| == |s.pending|
    && (forall c :: c in active ==>
          && active[c].blob in spots && active[c].hash == s.active[c].hash
          && spots[active[c].blob] == Spot(Cached(c), s.active[c].blob))
    && (forall i :: 0 <= i < |pending| ==>
          pending[i] in spots && spots[pending[i]] == Spot(Waiting(i), s.pending[i]))
  }

  /** What one handle held, another holds at another place. */
  ghost function Handed(spots: map<Handle, Spot>, from: Handle, to: Handle, p: Place): (more: map<Handle, Spot>)
    requires from in spots && to !in spots
    ensures to in more && more[to] == Spot(p, spots[from].blob) && from !in more
    ensures forall h :: h in more && h != to ==> h in spots && more[h] == spots[h]
    ensures forall h :: h in spots && h != from ==> h in more
  {
    (spots - {from})[to := Spot(p, spots[from].blob)]
  }

  /** A blob moves from the entry of a CRTC to the end of the waiting list. */
  lemma EvictShelves(active: map<nat, Slot>, pending: seq<Handle>, spots: map<Handle, Spot>, s: State, crtc: nat,
      moved: Handle)
    requires Shelved(active, pending, spots, s) && crtc in active && moved !in spots
    ensures active[crtc].blob in spots
    ensures Shelved(active - {crtc}, pending + [moved], Handed(spots, active[crtc].blob, moved, Waiting(|pending|)),
              Evicted(s, crtc))
  {
  }

  /** A new blob is cached. */
  lemma SeatShelves(active: map<nat, Slot>, pending: seq<Handle>, spots: map<Handle, Spot>, s: State, crtc: nat,
                   entry: Handle, ref: Ref, hash: nat)
    requires Shelved(active, pending, spots, s) && crtc !in active && entry !in spots
    ensures Shelved(active[crtc := Slot(entry, hash)], pending, spots[entry := Spot(Cached(crtc), Blob(|s.made|, ref))],
                    Install(s, crtc, ref, hash))
  {
  }

  /** What is left when the waiting handles are gone. */
  ghost function CachedSpots(spots: map<Handle, Spot>): (more: map<Handle, Spot>)
    ensures forall h :: h in spots && spots[h].place.Cached? ==> h in more
    ensures forall h :: h in more ==> h in spots && spots[h].place.Cached? && more[h] == spots[h]
  {
    map h | h in spots && spots[h].place.Cached? :: spots[h]
  }

  lemma WaitingShelves(active: map<nat, Slot>, pending: seq<Handle>, spots: map<Handle, Spot>, s: State)
    requires Shelved(active, pending, spots, s)
    ensures Shelved(active, [], CachedSpots(spots), Acknowledged(s))
    ensures forall i, j :: 0 <= i < j < |pending| ==> pending[i] != pending[j]
    ensures forall h :: h in CachedSpots(spots) ==> h !in pending
  {
  }

  /** Lets go of the handles one after the other. */
  method DestroyAll(handles: seq<Handle>, ghost blobs: seq<Blob>, k: Kernel)
    requires |blobs| == |handles| && forall i :: 0 <= i < |handles| ==> handles[i].Holds() == blobs[i]
    requires forall i, j :: 0 <= i < j < |handles| ==> handles[i] != handles[j]
    modifies k, handles
    ensures k.calls == old(k.calls) + CallsFor(blobs, |blobs|)
  {
    for i := 0 to |handles|
      invariant forall j :: i <= j < |handles| ==> handles[j].Holds() == blobs[j]
      invariant k.calls == old(k.calls) + CallsFor(blobs, i)
    {
      handles[i].Reset(k);
    }
  }

  class Cache {
    const kernel: Kernel
    var active: map<nat, Slot>
    var pending: seq<Handle>
    ghost var spots: map<Handle, Spot>   // the handles in use
    ghost var state: State               // the cache as values, with what became of the other blobs

    ghost predicate Linked()
      reads this, spots.Keys
    {
      Shelved(active, pending, spots, state) && forall h :: h in spots ==> h.Holds() == spots[h].blob
    }

    ghost predicate Valid()
      reads this, kernel, spots.Keys
    {
      Linked() && Conserved(state) && CallsMatch(kernel.calls, state.destroyed)
    }

    constructor ()
      ensures Valid() && state == EMPTY && fresh(kernel) && spots == map[]
    {
      kernel := new Kernel();
      active, pending, state, spots := map[], [], EMPTY, map[];
      new;
      assert ActiveBlobs(EMPTY.active) == {};
    }

    /** Sets or clears the metadata of a CRTC; `asked` tells whether the factory was called. */
    method SetWithFactory(op: SetOp) returns (r: Result<nat, Error>, asked: bool)
      requires Valid()
      modifies this, kernel, spots.Keys
      ensures Valid() && fresh(spots.Keys - old(spots.Keys)) && kernel.calls == old(kernel.calls)
      ensures state == AfterSet(old(state), op) && r == SetAnswer(old(state), op)
      ensures asked == IsMiss(old(state), op)
    {
      SetKeeps(state, op);
      r, asked := ApplySet(op);
    }

    method ApplySet(op: SetOp) returns (r: Result<nat, Error>, asked: bool)
      requires Linked()
      modifies this`active, this`pending, this`state, this`spots, kernel, spots.Keys
      ensures Linked() && fresh(spots.Keys - old(spots.Keys)) && kernel.calls == old(kernel.calls)
      ensures state == AfterSet(old(state), op) && r == SetAnswer(old(state), op)
      ensures asked == IsMiss(old(state), op)
    {
      asked := false;
      if op.hash.None? {
        Clear(op.crtc);
        return Ok(0), asked;
      }
      if op.crtc in active && active[op.crtc].hash == op.hash.value {
        return Ok(active[op.crtc].blob.id), asked;
      }
      asked := true;
      if op.answer.Err? {
        return Err(op.answer.error), asked;
      }
      var ref := op.answer.value;
      var blob := new Handle(ref.fd, ref.id, op.hash.value, |state.made|);
      Put(op.crtc, blob, op.hash.value);
      r := Ok(ref.id);
    }

    /** Moves the blob of an entry to the waiting list; the entry's handle is left empty, and the entry is erased. */
    method Evict(crtc: nat) returns (left: Handle)
      requires Linked() && crtc in active
      modifies this`active, this`pending, this`state, this`spots, spots.Keys
      ensures Linked() && state == Evicted(old(state), crtc) && crtc !in active
      ensures left == old(active[crtc].blob) && left.Refers() == NO_REF && left !in spots && left in old(spots)
      ensures fresh(spots.Keys - old(spots.Keys))
    {
      left := active[crtc].blob;
      var moved := new Handle.MovedFrom(left);
      EvictShelves(active, pending, spots, state, crtc, moved);
      spots := Handed(spots, left, moved, Waiting(|pending|));
      active, pending, state := active - {crtc}, pending + [moved], Evicted(state, crtc);
    }

    method Clear(crtc: nat)
      requires Linked()
      modifies this`active, this`pending, this`state, this`spots, kernel, spots.Keys
      ensures Linked() && state == Evicted(old(state), crtc)
      ensures fresh(spots.Keys - old(spots.Keys)) && kernel.calls == old(kernel.calls)
    {
      if crtc in active {
        var left := Evict(crtc);
        left.Reset(kernel);
      }
    }

    /** Caches a blob the factory just made; the blob it replaces, if any, joins the waiting list. */
    method Put(crtc: nat, blob: Handle, hash: nat)
      requires Linked() && blob !in spots && blob.made == |state.made|
      modifies this`active, this`pending, this`state, this`spots, kernel, spots.Keys, blob
      ensures Linked() && state == Install(Evicted(old(state), crtc), crtc, old(blob.Refers()), hash)
      ensures fresh(spots.Keys - old(spots.Keys)) && kernel.calls == old(kernel.calls)
    {
      var entry := Receive(crtc, blob);
      Seat(crtc, entry, hash);
      blob.Reset(kernel);
    }

    /** Moves a new blob into the handle of its entry, the old blob out of it first, or into a new handle. */
    method Receive(crtc: nat, blob: Handle) returns (entry: Handle)
      requires Linked() && blob !in spots
      modifies this`active, this`pending, this`state, this`spots, kernel, spots.Keys, blob
      ensures Linked() && state == Evicted(old(state), crtc) && crtc !in active && blob !in spots
      ensures entry !in spots && entry != blob && entry.Holds() == old(blob.Holds()) && blob.Refers() == NO_REF
      ensures fresh(spots.Keys + {entry} - old(spots.Keys)) && kernel.calls == old(kernel.calls)
    {
      if crtc in active {
        entry := Evict(crtc);
        entry.Assign(blob, kernel);
      } else {
        entry := new Handle.MovedFrom(blob);
      }
    }

    /** Makes a handle that is nowhere the entry of a CRTC. */
    method Seat(crtc: nat, entry: Handle, hash: nat)
      requires Linked() && crtc !in active && entry !in spots && entry.made == |state.made|
      modifies this`active, this`state, this`spots
      ensures Linked() && state == Install(old(state), crtc, entry.Refers(), hash)
                && spots.Keys == old(spots.Keys) + {entry}
    {
      SeatShelves(active, pending, spots, state, crtc, entry, entry.Refers(), hash);
      spots := spots[entry := Spot(Cached(crtc), entry.Holds())];
      active, state := active[crtc := Slot(entry, hash)], Install(state, crtc, entry.Refers(), hash);
    }

    /** Destroys what waits. */
    method AcknowledgeCommitted()
      requires Valid()
      modifies this`pending, this`state, this`spots, kernel, spots.Keys
      ensures Valid() && spots.Keys <= old(spots.Keys) && state == Acknowledged(old(state))
    {
      CallsForMatch(kernel.calls, state.destroyed, state.pending);
      StepKeeps(state, Acknowledge);
      DropWaiting();
    }

    method DropWaiting()
      requires Linked()
      modifies this`pending, this`state, this`spots, kernel, spots.Keys
      ensures Linked() && spots.Keys <= old(spots.Keys) && state == Acknowledged(old(state))
      ensures kernel.calls == old(kernel.calls) + CallsFor(old(state).pending, |old(state).pending|)
    {
      ghost var blobs := state.pending;
      var waiting := TakeWaiting();
      DestroyAll(waiting, blobs, kernel);
    }

    /** Empties the waiting list and hands out what was in it. */
    method TakeWaiting() returns (waiting: seq<Handle>)
      requires Linked()
      modifies this`pending, this`state, this`spots
      ensures Linked() && spots.Keys <= old(spots.Keys) && state == Acknowledged(old(state))
      ensures |waiting| == |old(state).pending| && forall i :: 0 <= i < |waiting| ==> waiting[i] in old(spots)
      ensures forall i :: 0 <= i < |waiting| ==> waiting[i].Holds() == old(state).pending[i]
      ensures forall i, j :: 0 <= i < j < |waiting| ==> waiting[i] != waiting[j]
      ensures forall h :: h in spots ==> h !in waiting
    {
      WaitingShelves(active, pending, spots, state);
      waiting := pending;
      pending, state, spots := [], Acknowledged(state), CachedSpots(spots);
    }

    /** Moves everything cached to the waiting list, then destroys that. */
    method Flush()
      requires Valid()
      modifies this, kernel, spots.Keys
      ensures Valid() && fresh(spots.Keys - old(spots.Keys)) && state == Flushed(old(state))
    {
      ghost var s := state;
      DrainActive();
      AllMovedOut(s, state);
      AcknowledgeCommitted();
    }

    method DrainActive()
      requires Linked() && OneEntryEach(state.active)
      modifies this`active, this`pending, this`state, this`spots, kernel, spots.Keys
      ensures Linked() && MovedOut(old(state), state) && state.active.Keys == {}
      ensures fresh(spots.Keys - old(spots.Keys)) && kernel.calls == old(kernel.calls)
    {
      ghost var s := state;
      while active.Keys != {}
        invariant Linked() && MovedOut(s, state)
        invariant fresh(spots.Keys - old(spots.Keys)) && kernel.calls == old(kernel.calls)
        decreases |active.Keys|
      {
        DrainOne(s);
      }
    }

    method DrainOne(ghost s: State)
      requires Linked() && MovedOut(s, state) && active.Keys != {}
      modifies this`active, this`pending, this`state, this`spots, kernel, spots.Keys
      ensures Linked() && MovedOut(s, state) && |active.Keys| < |old(active).Keys|
      ensures fresh(spots.Keys - old(spots.Keys)) && kernel.calls == old(kernel.calls)
    {
      var c :| c in active.Keys;
      MoveOut(s, state, c);
      Clear(c);
    }

    /** Forgets everything without a call to the kernel. */
    method ClearForSessionLoss()
      requires Valid()
      modifies this`active, this`pending, this`state, this`spots, spots.Keys
      ensures Valid() && active == map[] && pending == [] && state == SessionLost(old(state)) && spots == map[]
    {
      ForgetAll();
      StepKeeps(state, LoseSession);
      active, pending, state, spots := map[], [], SessionLost(state), map[];
    }

    method ForgetAll()
      requires Linked()
      modifies spots.Keys
    {
      var rest := active;
      while rest.Keys != {}
        invariant rest.Keys <= active.Keys
        decreases |rest.Keys|
      {
        var c :| c in rest.Keys;
        active[c].blob.Forget();
        rest := rest - {c};
      }
      for i := 0 to |pending| {
        pending[i].Forget();
      }
    }

    function CurrentBlobId(crtc: nat): nat
      reads this, spots.Keys
      requires Linked()
    {
      if crtc in active then active[crtc].blob.id else 0
    }
  }

  /** From s, some cached blobs have moved to the waiting list. */
  ghost predicate MovedOut(s: State, t: State) {
    && t == s.(active := t.active, pending := t.pending) && OneEntryEach(t.active)
    && multiset(t.pending) + multiset(ActiveBlobs(t.active)) == multiset(s.pending) + multiset(ActiveBlobs(s.active))
  }

  lemma MoveOut(s: State, t: State, c: nat)
    requires MovedOut(s, t) && c in t.active
    ensures MovedOut(s, Evicted(t, c)) && |Evicted(t, c).active.Keys| < |t.active.Keys|
  {
    TakeOut(t.active, c);
  }

  lemma AllMovedOut(s: State, t: State)
    requires Conserved(s) && MovedOut(s, t) && t.active.Keys == {}
    ensures Conserved(t) && Acknowledged(t) == Flushed(s)
  {
    assert t.active == map[];
    assert ActiveBlobs(t.active) == {};
    assert multiset(t.pending) == multiset(s.pending) + multiset(ActiveBlobs(s.active));
  }

  /** The calls that letting go of the first n blobs makes. */
  ghost function CallsFor(blobs: seq<Blob>, n: nat): multiset<Blob>
    requires n <= |blobs|
  {
    if n == 0 then multiset{} else CallsFor(blobs, n - 1) + Calls(blobs[n - 1])
  }

  lemma TakeOne(blobs: seq<Blob>, n: nat)
    requires 0 < n <= |blobs|
    ensures multiset(blobs[..n]) == multiset(blobs[..n - 1]) + multiset{blobs[n - 1]}
  {
    assert blobs[..n] == blobs[..n - 1] + [blobs[n - 1]];
  }

  lemma {:induction false} CallsForAt(blobs: seq<Blob>, n: nat, b: Blob)
    requires n <= |blobs|
    ensures CallsFor(blobs, n)[b] == if Live(b.ref) then multiset(blobs[..n])[b] else 0
  {
    if n > 0 {
      CallsForAt(blobs, n - 1, b);
      TakeOne(blobs, n);
    }
  }

  lemma CallsForMatch(calls: multiset<Blob>, destroyed: multiset<Blob>, blobs: seq<Blob>)
    requires CallsMatch(calls, destroyed)
    ensures CallsMatch(calls + CallsFor(blobs, |blobs|), destroyed + multiset(blobs))
  {
    forall b
      ensures (calls + CallsFor(blobs, |blobs|))[b] == if Live(b.ref) then (destroyed + multiset(blobs))[b] else 0
    {
      CallsForAt(blobs, |blobs|, b);
      assert blobs[..|blobs|] == blobs;
    }
  }

  // ---- what every step keeps ----

  lemma TakeOut(active: map<nat, Entry>, c: nat)
    requires OneEntryEach(active) && c in active
    ensures OneEntryEach(active - {c})
    ensures multiset(ActiveBlobs(active)) == multiset(ActiveBlobs(active - {c})) + multiset{active[c].blob}
    ensures |(active - {c}).Keys| < |active.Keys|
  {
    var b := active[c].blob;
    forall x | x in ActiveBlobs(active) && x != b
      ensures x in ActiveBlobs(active - {c})
    {
      var d :| d in active && active[d].blob == x;
      assert d in active - {c} && (active - {c})[d].blob == x;
    }
    assert ActiveBlobs(active) == ActiveBlobs(active - {c}) + {b};
    assert b !in ActiveBlobs(active - {c});
    assert (active - {c}).Keys == active.Keys - {c};
  }

  lemma EvictKeeps(s: State, crtc: nat)
    requires Conserved(s)
    ensures Conserved(Evicted(s, crtc))
  {
    if crtc in s.active {
      TakeOut(s.active, crtc);
    }
  }

  /** The blob about to be made is none of those made before. */
  lemma NewBlob(s: State, ref: Ref)
    requires Conserved(s)
    ensures Blob(|s.made|, ref) !in ActiveBlobs(s.active)
  {
    var b := Blob(|s.made|, ref);
    assert b !in s.made;
    assert b !in multiset(s.made);
    assert b !in multiset(ActiveBlobs(s.active));
  }

  lemma PutIn(active: map<nat, Entry>, crtc: nat, e: Entry)
    requires OneEntryEach(active) && crtc !in active && e.blob !in ActiveBlobs(active)
    ensures OneEntryEach(active[crtc := e])
    ensures multiset(ActiveBlobs(active[crtc := e])) == multiset(ActiveBlobs(active)) + multiset{e.blob}
  {
    var more := active[crtc := e];
    forall x | x in ActiveBlobs(active)
      ensures x in ActiveBlobs(more)
    {
      var d :| d in active && active[d].blob == x;
      assert d in more && more[d].blob == x;
    }
    assert more[crtc].blob == e.blob;
    assert ActiveBlobs(more) == ActiveBlobs(active) + {e.blob};
  }

  lemma InstallKeeps(s: State, crtc: nat, ref: Ref, hash: nat)
    requires Conserved(s) && crtc !in s.active
    ensures Conserved(Install(s, crtc, ref, hash))
  {
    var b := Blob(|s.made|, ref);
    NewBlob(s, ref);
    PutIn(s.active, crtc, Entry(b, hash));
  }

  lemma SetKeeps(s: State, op: SetOp)
    requires Conserved(s)
    ensures Conserved(AfterSet(s, op))
  {
    EvictKeeps(s, op.crtc);
    if IsMiss(s, op) && op.answer.Ok? {
      InstallKeeps(Evicted(s, op.crtc), op.crtc, op.answer.value, op.hash.value);
    }
  }

  // ---- runs ----

  datatype Op = Set(op: SetOp) | Acknowledge | FlushAll | LoseSession

  function Step(s: State, op: Op): State {
    match op
    case Set(o) => AfterSet(s, o)
    case Acknowledge => Acknowledged(s)
    case FlushAll => Flushed(s)
    case LoseSession => SessionLost(s)
  }

  function RunFrom(s: State, ops: seq<Op>): State {
    if ops == [] then s else Step(RunFrom(s, ops[..|ops| - 1]), ops[|ops| - 1])
  }

  lemma StepKeeps(s: State, op: Op)
    requires Conserved(s)
    ensures Conserved(Step(s, op))
  {
    match op
    case Set(o) => SetKeeps(s, o);
    case Acknowledge =>
    case FlushAll => assert ActiveBlobs(map[]) == {};
    case LoseSession => assert ActiveBlobs(map[]) == {};
  }

  lemma {:induction false} RunKeeps(s: State, ops: seq<Op>)
    requires Conserved(s)
    ensures Conserved(RunFrom(s, ops))
  {
    if ops != [] {
      RunKeeps(s, ops[..|ops| - 1]);
      StepKeeps(RunFrom(s, ops[..|ops| - 1]), ops[|ops| - 1]);
    }
  }

  /** In every run each blob the factory made is in exactly one place: none is destroyed twice, destroyed after
      being forgotten, or destroyed while cached. */
  lemma RunConserves(ops: seq<Op>)
    ensures Conserved(RunFrom(EMPTY, ops))
  {
    assert ActiveBlobs(EMPTY.active) == {};
    RunKeeps(EMPTY, ops);
  }

  lemma {:induction false} MadeOnce(made: seq<Blob>, b: Blob)
    requires b in made && forall i :: 0 <= i < |made| ==> made[i].made == i
    ensures multiset(made)[b] == 1
  {
    var n := |made| - 1;
    assert made == made[..n] + [made[n]];
    if b != made[n] {
      assert b in made[..n];
      MadeOnce(made[..n], b);
    } else {
      assert b !in made[..n];
    }
  }

  /** What conservation says of one blob. */
  lemma OnePlace(s: State, b: Blob)
    requires Conserved(s) && b in s.made
    ensures (if b in ActiveBlobs(s.active) then 1 else 0) + multiset(s.pending)[b] + s.destroyed[b] + s.forgotten[b] ==
            1
    ensures b in ActiveBlobs(s.active) ==> b !in s.pending && b !in s.destroyed && b !in s.forgotten
  {
    MadeOnce(s.made, b);
    var all := multiset(ActiveBlobs(s.active)) + multiset(s.pending) + s.destroyed + s.forgotten;
    assert all[b] == multiset(ActiveBlobs(s.active))[b] + multiset(s.pending)[b] + s.destroyed[b] + s.forgotten[b];
    assert b in s.pending <==> b in multiset(s.pending);
  }

  /** Setting and clearing destroy and forget nothing, and what waits goes on waiting: a replaced blob survives
      until the next acknowledge, flush, session loss or teardown. */
  lemma {:induction false} ReplacedSurvives(s: State, ops: seq<Op>)
    requires forall i :: 0 <= i < |ops| ==> ops[i].Set?
    ensures var t := RunFrom(s, ops);
            s.pending <= t.pending && t.destroyed == s.destroyed && t.forgotten == s.forgotten
  {
    if ops != [] {
      ReplacedSurvives(s, ops[..|ops| - 1]);
    }
  }

  /** A set or clear that replaces the cached blob. */
  predicate Replaces(s: State, op: SetOp) {
    op.crtc in s.active && (op.hash.None? || (IsMiss(s, op) && op.answer.Ok?))
  }

  /** The blob that a set or clear replaces is the only one to join the waiting list. Over any sets and clears that
      follow, it goes on waiting, no call destroys it, and then one acknowledge or flush destroys it. */
  lemma ReplacedWaits(s: State, op: SetOp, later: seq<Op>)
    requires Conserved(s) && forall i :: 0 <= i < |later| ==> later[i].Set?
    ensures AfterSet(s, op).pending == s.pending + if Replaces(s, op) then [s.active[op.crtc].blob] else []
    ensures var t := RunFrom(AfterSet(s, op), later);
            Replaces(s, op) ==>
              var b := s.active[op.crtc].blob;
              b in t.pending && t.destroyed[b] == 0 && Acknowledged(t).destroyed[b] == 1 && Flushed(t).destroyed[b] == 1
  {
    var t := RunFrom(AfterSet(s, op), later);
    ReplacedSurvives(AfterSet(s, op), later);
    if Replaces(s, op) {
      var b := s.active[op.crtc].blob;
      assert b == AfterSet(s, op).pending[|s.pending|] == t.pending[|s.pending|];
      SetKeeps(s, op);
      RunKeeps(AfterSet(s, op), later);
      WaitingOnce(t, b);
    }
  }

  lemma WaitingOnce(s: State, b: Blob)
    requires Conserved(s) && b in s.pending
    ensures b in s.made && b !in ActiveBlobs(s.active) && multiset(s.pending)[b] == 1 && s.destroyed[b] == 0
  {
    assert b in multiset(s.pending) && b in multiset(s.made);
    OnePlace(s, b);
  }

  /** Over any run the kernel gets at most one destroy call for a blob, and gets it exactly when the blob is live
      and was destroyed: none for one that is cached, waits, was forgotten, or was never made. */
  lemma ClosedOnce(ops: seq<Op>, calls: multiset<Blob>, b: Blob)
    requires CallsMatch(calls, RunFrom(EMPTY, ops).destroyed)
    ensures var s := RunFrom(EMPTY, ops);
            && calls[b] <= 1 && (calls[b] == 1 <==> Live(b.ref) && b in s.destroyed)
            && (b !in s.made || b in ActiveBlobs(s.active) || b in s.pending || b in s.forgotten ==> calls[b] == 0)
  {
    var s := RunFrom(EMPTY, ops);
    RunConserves(ops);
    if b in s.made {
      OnePlace(s, b);
      assert b in s.pending <==> b in multiset(s.pending);
    } else {
      NeverMade(s, b);
    }
  }

  lemma NeverMade(s: State, b: Blob)
    requires Conserved(s) && b !in s.made
    ensures s.destroyed[b] == 0
  {
    assert multiset(s.made)[b] == 0;
    assert s.destroyed <= multiset(s.made);
  }

  /** A set reports the id that is then cached; a failed one changes nothing; the same metadata again is a hit. */
  lemma SetIsRemembered(s: State, op: SetOp)
    ensures var t := AfterSet(s, op);
            && (SetAnswer(s, op).Err? ==> t == s)
            && (op.hash.None? ==> op.crtc !in t.active && SetAnswer(s, op) == Ok(0))
            && (op.hash.Some? && SetAnswer(s, op).Ok? ==>
                  && op.crtc in t.active && t.active[op.crtc].hash == op.hash.value
                  && t.active[op.crtc].blob.ref.id == SetAnswer(s, op).value
                  && IsHit(t, op) && AfterSet(t, op) == t)
            // without an entry for this metadata, the outcome is the factory's
            && (op.hash.Some? && !(op.crtc in s.active && s.active[op.crtc].hash == op.hash.value) ==>
                  match op.answer
                  case Ok(ref) =>
                    SetAnswer(s, op) == Ok(ref.id) && op.crtc in t.active && t.active[op.crtc].blob.ref == ref
                  case Err(e) => SetAnswer(s, op) == Err(e) && t == s)
            && forall c :: c != op.crtc ==>
                 (c in t.active <==> c in s.active) && (c in s.active ==> t.active[c] == s.active[c])
  {
  }

  /** After a flush or teardown every blob made was destroyed or forgotten; after a session loss nothing is left
      that a later teardown could destroy. */
  lemma NothingLeft(s: State)
    requires Conserved(s)
    ensures Flushed(s).destroyed + Flushed(s).forgotten == multiset(s.made)
    ensures Flushed(SessionLost(s)).destroyed == s.destroyed
  {
    assert ActiveBlobs(map[]) == {};
  }
}
