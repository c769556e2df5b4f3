/** The format and modifier table of a plane (src/fmt/format_mod.cpp): decoding the kernel's bitmask blob,
    the sorted index over it, and the queries. */
module FormatTable {
  import opened Wrappers
  import opened Bytes
  import opened PairOrder

  /** A fourcc with a modifier, ordered by fourcc first. */
  type FormatMod = Pair

  // ---- the blob: struct drm_format_modifier_blob, then two arrays ----

  const HEADER_BYTES := 24
  const FOURCC_BYTES := 4
  const MODIFIER_BYTES := 24

  predicate HasHeader(data: seq<byte>) {
    |data| >= HEADER_BYTES
  }

  function CountFormats(data: seq<byte>): (n: nat)
    requires HasHeader(data)
    ensures n < 0x1_0000_0000
  {
    U32(data, 8)
  }

  function FormatsOffset(data: seq<byte>): nat
    requires HasHeader(data)
  {
    U32(data, 12)
  }

  function CountModifiers(data: seq<byte>): nat
    requires HasHeader(data)
  {
    U32(data, 16)
  }

  function ModifiersOffset(data: seq<byte>): nat
    requires HasHeader(data)
  {
    U32(data, 20)
  }

  /** The header check, in its division form. */
  predicate HeaderFits(data: seq<byte>) {
    && HasHeader(data)
    && !(|| FormatsOffset(data) > |data| || ModifiersOffset(data) > |data|
         || CountFormats(data) > (|data| - FormatsOffset(data)) / FOURCC_BYTES
         || CountModifiers(data) > (|data| - ModifiersOffset(data)) / MODIFIER_BYTES)
  }

  /** The check passes exactly when both arrays lie inside the blob. */
  lemma HeaderFitsIsInside(data: seq<byte>)
    requires HasHeader(data)
    ensures HeaderFits(data) <==>
            && FormatsOffset(data) + CountFormats(data) * FOURCC_BYTES <= |data|
            && ModifiersOffset(data) + CountModifiers(data) * MODIFIER_BYTES <= |data|
  {
  }

  /** Fourcc number idx. */
  function Fourcc(data: seq<byte>, idx: nat): nat
    requires HeaderFits(data) && idx < CountFormats(data)
  {
    HeaderFitsIsInside(data);
    U32(data, FormatsOffset(data) + idx * FOURCC_BYTES)
  }

  /** Where modifier record i starts. */
  function RecordAt(data: seq<byte>, i: nat): (at: nat)
    requires HeaderFits(data) && i < CountModifiers(data)
    ensures at + MODIFIER_BYTES <= |data|
  {
    HeaderFitsIsInside(data);
    ModifiersOffset(data) + i * MODIFIER_BYTES
  }

  function Mask(data: seq<byte>, i: nat): nat
    requires HeaderFits(data) && i < CountModifiers(data)
  {
    U64(data, RecordAt(data, i))
  }

  function Offset(data: seq<byte>, i: nat): (o: nat)
    requires HeaderFits(data) && i < CountModifiers(data)
    ensures o < 0x1_0000_0000
  {
    U32(data, RecordAt(data, i) + 8)
  }

  function ModifierOf(data: seq<byte>, i: nat): nat
    requires HeaderFits(data) && i < CountModifiers(data)
  {
    U64(data, RecordAt(data, i) + 16)
  }

  /** The fourcc index that bit b of record i names, in 32-bit arithmetic. */
  function Index32(data: seq<byte>, i: nat, b: nat): nat
    requires HeaderFits(data) && i < CountModifiers(data)
  {
    (Offset(data, i) + b) % 0x1_0000_0000
  }

  /** Bit b of record i puts p into the table. */
  predicate Decodes(data: seq<byte>, i: nat, b: nat, p: FormatMod)
    requires HeaderFits(data) && i < CountModifiers(data)
  {
    && Bit(Mask(data, i), b) && Index32(data, i, b) < CountFormats(data)
    && p == Pair(Fourcc(data, Index32(data, i, b)), ModifierOf(data, i))
  }

  /** What the format means: bit b of record i pairs its modifier with fourcc offset + b, if there is one. */
  predicate Advertises(data: seq<byte>, i: nat, b: nat, p: FormatMod)
    requires HeaderFits(data) && i < CountModifiers(data)
  {
    && Bit(Mask(data, i), b) && Offset(data, i) + b < CountFormats(data)
    && p == Pair(Fourcc(data, Offset(data, i) + b), ModifierOf(data, i))
  }

  /** The header is six little-endian words; the last four count and place the two arrays, of four-byte fourccs and
      of 24-byte records, and the check passes exactly when both lie inside the blob. */
  lemma HeaderIs(data: seq<byte>)
    requires HasHeader(data)
    ensures CountFormats(data) == Little(data[8..12]) && CountModifiers(data) == Little(data[16..20])
    ensures HeaderFits(data) <==>
            && Little(data[12..16]) + 4 * Little(data[8..12]) <= |data|
            && Little(data[20..24]) + 24 * Little(data[16..20]) <= |data|
  {
    U32IsLittle(data, 8);
    U32IsLittle(data, 12);
    U32IsLittle(data, 16);
    U32IsLittle(data, 20);
    HeaderFitsIsInside(data);
  }

  /** In the blob's bytes: record i sets bit b of the eight-byte mask it starts with, there is a fourcc j, and p is that
      fourcc with the modifier in the record's last eight bytes. */
  predicate PairedInBytes(data: seq<byte>, i: nat, b: nat, j: nat, p: FormatMod)
    requires HasHeader(data) && b < 64
  {
    var record, fourcc := Little(data[20..24]) + 24 * i, Little(data[12..16]) + 4 * j;
    && record + 24 <= |data| && Bit(data[record + b / 8], b % 8)
    && j < Little(data[8..12]) && fourcc + 4 <= |data|
    && p == Pair(Little(data[fourcc..fourcc + 4]), Little(data[record + 16..record + 24]))
  }

  /** A record's bit means the fourcc that lies bit many places after the record's offset, the word at its byte 8,
      and is decoded as the one that this sum names in 32 bits. */
  lemma RecordIs(data: seq<byte>, i: nat, b: nat, p: FormatMod)
    requires HeaderFits(data) && i < CountModifiers(data) && b < 64
    ensures var record := RecordAt(data, i);
            && record == Little(data[20..24]) + 24 * i
            && var j := Little(data[record + 8..record + 12]) + b;
               && (Advertises(data, i, b, p) <==> PairedInBytes(data, i, b, j, p))
               && (Decodes(data, i, b, p) <==> PairedInBytes(data, i, b, j % 0x1_0000_0000, p))
  {
    RecordWords(data, i);
    NamesIs(data, i, b, p);
  }

  lemma NamesIs(data: seq<byte>, i: nat, b: nat, p: FormatMod)
    requires HeaderFits(data) && i < CountModifiers(data) && b < 64
    ensures Advertises(data, i, b, p) <==> PairedInBytes(data, i, b, Offset(data, i) + b, p)
    ensures Decodes(data, i, b, p) <==> PairedInBytes(data, i, b, Index32(data, i, b), p)
  {
    PairedIs(data, i, b, Offset(data, i) + b, p);
    PairedIs(data, i, b, Index32(data, i, b), p);
  }

  lemma PairedIs(data: seq<byte>, i: nat, b: nat, j: nat, p: FormatMod)
    requires HeaderFits(data) && i < CountModifiers(data) && b < 64
    ensures PairedInBytes(data, i, b, j, p) <==>
            Bit(Mask(data, i), b) && j < CountFormats(data) && p == Pair(Fourcc(data, j), ModifierOf(data, i))
  {
    RecordWords(data, i);
    MaskBit(data, i, b);
    FourccIs(data, j);
    HeaderIs(data);
  }

  lemma MaskBit(data: seq<byte>, i: nat, b: nat)
    requires HeaderFits(data) && i < CountModifiers(data) && b < 64
    ensures Bit(Mask(data, i), b) <==> Bit(data[RecordAt(data, i) + b / 8], b % 8)
  {
    var record := RecordAt(data, i);
    U64IsLittle(data, record);
    var mask := data[record..record + 8];
    LittleBit(mask, b);
    assert mask[b / 8] == data[record + b / 8];
  }

  lemma RecordWords(data: seq<byte>, i: nat)
    requires HeaderFits(data) && i < CountModifiers(data)
    ensures var record := RecordAt(data, i);
            && record == Little(data[20..24]) + 24 * i && Mask(data, i) == Little(data[record..record + 8])
            && Offset(data, i) == Little(data[record + 8..record + 12])
            && ModifierOf(data, i) == Little(data[record + 16..record + 24])
  {
    var record := RecordAt(data, i);
    U32IsLittle(data, 20);
    U64IsLittle(data, record);
    U32IsLittle(data, record + 8);
    U64IsLittle(data, record + 16);
  }

  lemma FourccIs(data: seq<byte>, j: nat)
    requires HeaderFits(data)
    ensures var at := Little(data[12..16]) + 4 * j;
            j < CountFormats(data) ==> at + 4 <= |data| && Fourcc(data, j) == Little(data[at..at + 4])
  {
    HeaderIs(data);
    U32IsLittle(data, 12);
    if j < CountFormats(data) {
      U32IsLittle(data, FormatsOffset(data) + j * FOURCC_BYTES);
    }
  }

  /** The 32-bit sum has wrapped round to the number of a fourcc. */
  predicate Wraps(data: seq<byte>, i: nat, b: nat)
    requires HeaderFits(data) && i < CountModifiers(data)
  {
    Bit(Mask(data, i), b) && 0 <= Offset(data, i) + b - 0x1_0000_0000 < CountFormats(data)
  }

  lemma WrapIs(o: nat, b: nat, n: nat)
    requires o < 0x1_0000_0000 && b < 64 && n < 0x1_0000_0000
    ensures var idx := (o + b) % 0x1_0000_0000;
            && (o + b < n ==> idx == o + b)
            && (idx < n && o + b >= n <==> 0 <= o + b - 0x1_0000_0000 < n)
  {
  }

  /** One bit is decoded as the format means exactly when its index does not wrap round to a fourcc. */
  lemma BitIsExactUnlessItWraps(data: seq<byte>, i: nat, b: nat)
    requires HeaderFits(data) && i < CountModifiers(data) && b < 64
    ensures (forall p :: Decodes(data, i, b, p) <==> Advertises(data, i, b, p)) <==> !Wraps(data, i, b)
  {
    var o, n := Offset(data, i), CountFormats(data);
    WrapIs(o, b, n);
    if Wraps(data, i, b) {
      var p := Pair(Fourcc(data, Index32(data, i, b)), ModifierOf(data, i));
      assert Decodes(data, i, b, p) && !Advertises(data, i, b, p);
    }
  }

  /** The pairs of the bits below b of record i, in the order they are pushed. */
  ghost function RecordPairs(data: seq<byte>, i: nat, b: nat): seq<FormatMod>
    requires HeaderFits(data) && i < CountModifiers(data)
  {
    if b == 0 then []
    else if Bit(Mask(data, i), b - 1) && Index32(data, i, b - 1) < CountFormats(data) then
      RecordPairs(data, i, b - 1) + [Pair(Fourcc(data, Index32(data, i, b - 1)), ModifierOf(data, i))]
    else RecordPairs(data, i, b - 1)
  }

  /** The pairs of the first n records. */
  ghost function BlobPairs(data: seq<byte>, n: nat): seq<FormatMod>
    requires HeaderFits(data) && n <= CountModifiers(data)
  {
    if n == 0 then [] else BlobPairs(data, n - 1) + RecordPairs(data, n - 1, 64)
  }

  lemma {:induction false} RecordPairsAre(data: seq<byte>, i: nat, n: nat, p: FormatMod)
    requires HeaderFits(data) && i < CountModifiers(data)
    ensures p in RecordPairs(data, i, n) <==> exists b: nat :: b < n && Decodes(data, i, b, p)
  {
    if n > 0 {
      RecordPairsAre(data, i, n - 1, p);
      assert (exists b: nat :: b < n && Decodes(data, i, b, p)) <==>
             Decodes(data, i, n - 1, p) || exists b: nat :: b < n - 1 && Decodes(data, i, b, p);
    }
  }

  /** Some bit of one of the first n records puts p into the table. */
  ghost predicate DecodedBy(data: seq<byte>, n: nat, p: FormatMod)
    requires HeaderFits(data) && n <= CountModifiers(data)
  {
    exists i: nat, b: nat :: i < n && b < 64 && Decodes(data, i, b, p)
  }

  ghost predicate Decoded(data: seq<byte>, p: FormatMod)
    requires HeaderFits(data)
  {
    DecodedBy(data, CountModifiers(data), p)
  }

  lemma DecodedByOneMore(data: seq<byte>, n: nat, p: FormatMod)
    requires HeaderFits(data) && n < CountModifiers(data)
    ensures DecodedBy(data, n + 1, p) <==> DecodedBy(data, n, p) || exists b: nat :: b < 64 && Decodes(data, n, b, p)
  {
    if DecodedBy(data, n + 1, p) {
      var i: nat, b: nat :| i < n + 1 && b < 64 && Decodes(data, i, b, p);
      assert i < n || i == n;
    }
  }

  lemma {:induction false} BlobPairsAre(data: seq<byte>, n: nat, p: FormatMod)
    requires HeaderFits(data) && n <= CountModifiers(data)
    ensures p in BlobPairs(data, n) <==> DecodedBy(data, n, p)
  {
    if n > 0 {
      BlobPairsAre(data, n - 1, p);
      RecordPairsAre(data, n - 1, 64, p);
      DecodedByOneMore(data, n - 1, p);
    }
  }

  // ---- the index ----

  /** A run of modifiers of one fourcc. */
  datatype Group = Group(fourcc: nat, first: nat, count: nat)

  function End(g: Group): nat {
    g.first + g.count
  }

  /** The groups are non-empty, each starts where the one before ends, and the last ends at n. */
  ghost predicate Chained(groups: seq<Group>, n: nat) {
    && (forall k :: 0 <= k < |groups| ==> groups[k].count > 0)
    && (forall k :: 0 < k < |groups| ==> groups[k].first == End(groups[k - 1]))
    && if groups == [] then n == 0 else groups[0].first == 0 && End(groups[|groups| - 1]) == n
  }

  /** g is a run of its fourcc. */
  ghost predicate IsRun(g: Group, pairs: seq<FormatMod>) {
    End(g) <= |pairs| && forall i :: g.first <= i < End(g) ==> pairs[i].first == g.fourcc
  }

  /** The groups cut the first n pairs into runs with ascending fourccs. */
  ghost predicate Grouped(pairs: seq<FormatMod>, groups: seq<Group>, n: nat) {
    && Chained(groups, n)
    && (forall k :: 0 <= k < |groups| ==> IsRun(groups[k], pairs))
    && FourccsAscend(groups)
  }

  ghost predicate FourccsAscend(groups: seq<Group>) {
    forall j, k :: 0 <= j < k < |groups| ==> groups[j].fourcc < groups[k].fourcc
  }

  /** mods holds the modifiers of the first n pairs. */
  ghost predicate ModsOf(pairs: seq<FormatMod>, mods: seq<nat>, n: nat) {
    |mods| == n <= |pairs| && forall i :: 0 <= i < n ==> mods[i] == pairs[i].second
  }

  ghost predicate IsIndex(pairs: seq<FormatMod>, mods: seq<nat>, groups: seq<Group>) {
    StrictlyAscending(pairs) && ModsOf(pairs, mods, |pairs|) && Grouped(pairs, groups, |pairs|)
  }

  /** Every index below n lies in one of the groups: they partition it. */
  lemma {:induction false} GroupOf(groups: seq<Group>, n: nat, i: nat) returns (k: nat)
    requires Chained(groups, n) && i < n
    ensures k < |groups| && groups[k].first <= i < End(groups[k])
  {
    k := |groups| - 1;
    while i < groups[k].first
      invariant 0 <= k < |groups| && i < End(groups[k])
    {
      k := k - 1;
    }
  }

  lemma ChainOneMore(groups: seq<Group>, n: nat, g: Group)
    requires Chained(groups, n) && g.first == n && g.count > 0
    ensures Chained(groups + [g], End(g))
  {
  }

  lemma AscendOneMore(groups: seq<Group>, g: Group)
    requires FourccsAscend(groups) && (groups != [] ==> groups[|groups| - 1].fourcc < g.fourcc)
    ensures FourccsAscend(groups + [g])
  {
  }

  /** One more run with a larger fourcc extends the grouping. */
  lemma ExtendGrouped(pairs: seq<FormatMod>, groups: seq<Group>, n: nat, g: Group)
    requires Grouped(pairs, groups, n) && g.first == n && g.count > 0 && IsRun(g, pairs)
    requires groups != [] ==> groups[|groups| - 1].fourcc < g.fourcc
    ensures Grouped(pairs, groups + [g], End(g))
  {
    var more := groups + [g];
    ChainOneMore(groups, n, g);
    AscendOneMore(groups, g);
    assert forall k :: 0 <= k < |more| ==> IsRun(more[k], pairs);
  }

  // ---- the table ----

  /** m is one of the modifiers listed for f, each once and in ascending order. */
  ghost predicate ListsExactly(ms: seq<nat>, f: nat, pairs: seq<FormatMod>) {
    && (forall i, j :: 0 <= i < j < |ms| ==> ms[i] < ms[j])
    && forall m :: m in ms <==> Pair(f, m) in pairs
  }

  class Table {
    var pairs: seq<FormatMod>
    var mods: seq<nat>
    var groups: seq<Group>

    ghost predicate Valid()
      reads this
    {
      IsIndex(pairs, mods, groups)
    }

    constructor ()
      ensures Valid() && pairs == []
    {
      pairs, mods, groups := [], [], [];
    }

    /** Sorts the collected pairs, drops duplicates and cuts the index into runs. */
    method BuildIndex()
      modifies this
      ensures Valid() && pairs == Unique(Sort(old(pairs)))
      ensures forall p :: p in pairs <==> p in old(pairs)
    {
      var sorted := Unique(Sort(pairs));
      SortMembers(pairs);
      UniqueIs(Sort(pairs));
      var ms, gs := CutIntoRuns(sorted);
      pairs, mods, groups := sorted, ms, gs;
    }

    /** Is (f, m) in the table? */
    method Supports(f: nat, m: nat) returns (r: bool)
      requires Valid()
      ensures r <==> Pair(f, m) in pairs
    {
      r := BinarySearch(pairs, Pair(f, m));
    }

    /** The modifiers of f: its run, found by a binary search. */
    method ModifiersFor(f: nat) returns (ms: seq<nat>)
      requires Valid()
      ensures ListsExactly(ms, f, pairs)
    {
      var k := LowerBound(groups, f);
      if k == |groups| || groups[k].fourcc != f {
        NoRun(pairs, groups, f);
        return [];
      }
      RunIsAll(pairs, mods, groups, k);
      ms := mods[groups[k].first..End(groups[k])];
    }
  }

  /** The two loops of the index construction. */
  method CutIntoRuns(sorted: seq<FormatMod>) returns (ms: seq<nat>, gs: seq<Group>)
    requires StrictlyAscending(sorted)
    ensures IsIndex(sorted, ms, gs)
  {
    ms, gs := [], [];
    var i := 0;
    while i < |sorted|
      invariant i <= |sorted| && ModsOf(sorted, ms, i) && Grouped(sorted, gs, i)
      invariant gs != [] && i < |sorted| ==> gs[|gs| - 1].fourcc < sorted[i].first
    {
      var fourcc, first := sorted[i].first, i;
      while i < |sorted| && sorted[i].first == fourcc
        invariant first <= i <= |sorted| && ModsOf(sorted, ms, i)
        invariant forall j :: first <= j < i ==> sorted[j].first == fourcc
        invariant i == first ==> sorted[first].first == fourcc
      {
        ms := ms + [sorted[i].second];
        i := i + 1;
      }
      var g := Group(fourcc, first, i - first);
      ExtendGrouped(sorted, gs, first, g);
      gs := gs + [g];
      NextFourcc(sorted, i);
    }
  }

  lemma NextFourcc(sorted: seq<FormatMod>, i: nat)
    requires StrictlyAscending(sorted) && 0 < i
    ensures i < |sorted| && sorted[i].first != sorted[i - 1].first ==> sorted[i - 1].first < sorted[i].first
  {
    assert i < |sorted| ==> Less(sorted[i - 1], sorted[i]);
  }

  /** The first group whose fourcc is not below f. */
  method LowerBound(groups: seq<Group>, f: nat) returns (lo: nat)
    requires FourccsAscend(groups)
    ensures lo <= |groups|
    ensures forall k :: 0 <= k < |groups| ==> (groups[k].fourcc < f <==> k < lo)
  {
    lo := 0;
    var hi := |groups|;
    while lo < hi
      invariant lo <= hi <= |groups|
      invariant forall k :: 0 <= k < lo ==> groups[k].fourcc < f
      invariant forall k :: hi <= k < |groups| ==> f <= groups[k].fourcc
    {
      var mid := (lo + hi) / 2;
      if groups[mid].fourcc < f {
        lo := mid + 1;
      } else {
        hi := mid;
      }
    }
  }

  /** A fourcc without a group has no pair. */
  lemma NoRun(pairs: seq<FormatMod>, groups: seq<Group>, f: nat)
    requires Grouped(pairs, groups, |pairs|) && forall k :: 0 <= k < |groups| ==> groups[k].fourcc != f
    ensures forall m :: Pair(f, m) !in pairs
  {
    forall i | 0 <= i < |pairs|
      ensures pairs[i].first != f
    {
      var k := GroupOf(groups, |pairs|, i);
      assert IsRun(groups[k], pairs);
    }
  }

  /** A pair of the fourcc of group k lies in group k. */
  lemma InItsRun(pairs: seq<FormatMod>, groups: seq<Group>, k: nat, i: nat)
    requires Grouped(pairs, groups, |pairs|) && k < |groups| && i < |pairs| && pairs[i].first == groups[k].fourcc
    ensures groups[k].first <= i < End(groups[k])
  {
    var h := GroupOf(groups, |pairs|, i);
    assert IsRun(groups[h], pairs);
    assert h == k;
  }

  /** The run of a fourcc lists its modifiers. */
  lemma RunIsAll(pairs: seq<FormatMod>, mods: seq<nat>, groups: seq<Group>, k: nat)
    requires IsIndex(pairs, mods, groups) && k < |groups|
    ensures groups[k].first <= End(groups[k]) <= |mods|
    ensures ListsExactly(mods[groups[k].first..End(groups[k])], groups[k].fourcc, pairs)
  {
    var g := groups[k];
    assert IsRun(g, pairs);
    var ms := mods[g.first..End(g)];
    forall i, j | 0 <= i < j < |ms|
      ensures ms[i] < ms[j]
    {
      assert Less(pairs[g.first + i], pairs[g.first + j]);
    }
    forall m
      ensures m in ms <==> Pair(g.fourcc, m) in pairs
    {
      RunHas(pairs, mods, groups, k, m);
    }
  }

  lemma RunHas(pairs: seq<FormatMod>, mods: seq<nat>, groups: seq<Group>, k: nat, m: nat)
    requires ModsOf(pairs, mods, |pairs|) && Grouped(pairs, groups, |pairs|) && k < |groups|
    requires groups[k].first <= End(groups[k]) <= |mods|
    ensures m in mods[groups[k].first..End(groups[k])] <==> Pair(groups[k].fourcc, m) in pairs
  {
    var g := groups[k];
    assert IsRun(g, pairs);
    var ms := mods[g.first..End(g)];
    if m in ms {
      var i :| 0 <= i < |ms| && ms[i] == m;
      assert pairs[g.first + i] == Pair(g.fourcc, m);
    }
    if Pair(g.fourcc, m) in pairs {
      var i :| 0 <= i < |pairs| && pairs[i] == Pair(g.fourcc, m);
      InItsRun(pairs, groups, k, i);
      assert ms[i - g.first] == m;
    }
  }

  /** The table of any list of pairs: exactly those pairs. */
  method FromPairs(list: seq<(nat, nat)>) returns (t: Table)
    ensures fresh(t) && t.Valid()
    ensures forall p :: p in t.pairs <==> (p.first, p.second) in list
  {
    t := new Table();
    var pushed: seq<FormatMod> := [];
    for i := 0 to |list|
      invariant |pushed| == i && forall k :: 0 <= k < i ==> (pushed[k].first, pushed[k].second) == list[k]
    {
      pushed := pushed + [Pair(list[i].0, list[i].1)];
    }
    SamePairs(list, pushed);
    t.pairs := pushed;
    t.BuildIndex();
  }

  lemma SamePairs(list: seq<(nat, nat)>, pushed: seq<FormatMod>)
    requires |pushed| == |list|
    requires forall k :: 0 <= k < |list| ==> (pushed[k].first, pushed[k].second) == list[k]
    ensures forall p :: p in pushed <==> (p.first, p.second) in list
  {
    forall p: Pair
      ensures p in pushed <==> (p.first, p.second) in list
    {
      if p in pushed {
        var k :| 0 <= k < |pushed| && pushed[k] == p;
        assert list[k] == (p.first, p.second);
      }
      if (p.first, p.second) in list {
        var k :| 0 <= k < |list| && list[k] == (p.first, p.second);
        assert pushed[k] == p;
      }
    }
  }

  /** The order and the repetitions of the input do not matter. */
  lemma SameSetSameTable(s: seq<FormatMod>, t: seq<FormatMod>)
    requires forall p :: p in s <==> p in t
    ensures Unique(Sort(s)) == Unique(Sort(t))
  {
    SortMembers(s);
    SortMembers(t);
    UniqueIs(Sort(s));
    UniqueIs(Sort(t));
    SameMembersSameOrder(Unique(Sort(s)), Unique(Sort(t)));
  }

  /** The table of a blob; None is a null pointer. */
  method FromBlob(blob: Option<seq<byte>>) returns (t: Table)
    ensures fresh(t) && t.Valid()
    ensures blob.None? || !HeaderFits(blob.value) ==> t.pairs == []
    ensures blob.Some? && HeaderFits(blob.value) ==> forall p :: p in t.pairs <==> Decoded(blob.value, p)
  {
    t := new Table();
    if blob.None? || |blob.value| < HEADER_BYTES {
      return;
    }
    var data := blob.value;
    if !HeaderFits(data) {
      return;
    }
    var pushed: seq<FormatMod> := [];
    for i := 0 to CountModifiers(data)
      invariant pushed == BlobPairs(data, i)
    {
      for b := 0 to 64
        invariant pushed == BlobPairs(data, i) + RecordPairs(data, i, b)
      {
        if Bit(Mask(data, i), b) {
          var idx := Index32(data, i, b);
          if idx < CountFormats(data) {
            pushed := pushed + [Pair(Fourcc(data, idx), ModifierOf(data, i))];
          }
        }
      }
    }
    t.pairs := pushed;
    t.BuildIndex();
    forall p
      ensures p in pushed <==> Decoded(data, p)
    {
      BlobPairsAre(data, CountModifiers(data), p);
    }
  }

  /** Some bit of some record advertises p. */
  ghost predicate Advertised(data: seq<byte>, p: FormatMod)
    requires HeaderFits(data)
  {
    exists i: nat, b: nat :: i < CountModifiers(data) && b < 64 && Advertises(data, i, b, p)
  }

  /** The pair that bit b of record i puts into the table although no fourcc has its number. */
  function WrappedPair(data: seq<byte>, i: nat, b: nat): FormatMod
    requires HeaderFits(data) && i < CountModifiers(data) && b < 64 && Wraps(data, i, b)
  {
    WrapIs(Offset(data, i), b, CountFormats(data));
    Pair(Fourcc(data, Index32(data, i, b)), ModifierOf(data, i))
  }

  /** A bit decodes to what it advertises, or to its wrapped pair. */
  lemma BitDecodesTo(data: seq<byte>, i: nat, b: nat, p: FormatMod)
    requires HeaderFits(data) && i < CountModifiers(data) && b < 64
    ensures Decodes(data, i, b, p) <==> Advertises(data, i, b, p) || (Wraps(data, i, b) && p == WrappedPair(data, i, b))
  {
    WrapIs(Offset(data, i), b, CountFormats(data));
  }

  /** The table is exactly what the blob advertises if and only if every index that wraps round repeats an
      advertised pair; in particular when no index wraps. */
  lemma TableIsExactIff(data: seq<byte>)
    requires HeaderFits(data)
    ensures (forall p :: Decoded(data, p) <==> Advertised(data, p)) <==>
            forall i: nat, b: nat :: i < CountModifiers(data) && b < 64 && Wraps(data, i, b) ==>
              Advertised(data, WrappedPair(data, i, b))
  {
    forall p
      ensures Advertised(data, p) ==> Decoded(data, p)
    {
      if Advertised(data, p) {
        var i: nat, b: nat :| i < CountModifiers(data) && b < 64 && Advertises(data, i, b, p);
        BitDecodesTo(data, i, b, p);
      }
    }
    forall i: nat, b: nat | i < CountModifiers(data) && b < 64 && Wraps(data, i, b)
      ensures Decoded(data, WrappedPair(data, i, b))
    {
      BitDecodesTo(data, i, b, WrappedPair(data, i, b));
    }
    forall p | Decoded(data, p) && !Advertised(data, p)
      ensures exists i: nat, b: nat :: i < CountModifiers(data) && b < 64 && Wraps(data, i, b)
                && p == WrappedPair(data, i, b)
    {
      var i: nat, b: nat :| i < CountModifiers(data) && b < 64 && Decodes(data, i, b, p);
      BitDecodesTo(data, i, b, p);
    }
  }

  /** A blob of one fourcc (XR24, at 24) and one record (at 28) with bit 1 set and offset 2^32 - 1. */
  function WrapByte(k: nat): byte {
    if k == 8 || k == 16 then 1
    else if k == 12 then 24
    else if k == 20 then 28
    else if k == 24 then 0x58
    else if k == 25 then 0x52
    else if k == 26 then 0x32
    else if k == 27 then 0x34
    else if k == 28 then 2
    else if 36 <= k < 40 then 0xFF
    else 0
  }

  lemma WrapHeader(data: seq<byte>)
    requires data == seq(52, k requires 0 <= k < 52 => WrapByte(k))
    ensures HeaderFits(data) && CountFormats(data) == 1 && CountModifiers(data) == 1 && RecordAt(data, 0) == 28
    ensures Mask(data, 0) == 2 && Offset(data, 0) == 0xFFFF_FFFF
  {
    assert U32(data, 8) == 1 && U32(data, 12) == 24 && U32(data, 16) == 1 && U32(data, 20) == 28;
    assert U32(data, 28) == 2 && U32(data, 32) == 0 && U32(data, 36) == 0xFFFF_FFFF;
  }

  /** An index that wraps round and puts a pair into the table that the blob does not advertise. */
  lemma WrapExample() returns (data: seq<byte>, p: FormatMod)
    ensures HeaderFits(data) && Decoded(data, p) && !Advertised(data, p)
  {
    data := seq(52, k requires 0 <= k < 52 => WrapByte(k));
    WrapHeader(data);
    p := Pair(Fourcc(data, 0), ModifierOf(data, 0));
    assert Pow2(1) == 2;
    assert Decodes(data, 0, 1, p);
  }
}
