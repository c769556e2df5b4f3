/** Pairs in lexicographic order: sorting them and dropping duplicates. */
module PairOrder {

  datatype Pair = Pair(first: nat, second: nat)

  predicate Less(a: Pair, b: Pair) {
    if a.first != b.first then a.first < b.first else a.second < b.second
  }

  ghost predicate Ascending(s: seq<Pair>) {
    forall i, j :: 0 <= i < j < |s| ==> !Less(s[j], s[i])
  }

  ghost predicate StrictlyAscending(s: seq<Pair>) {
    forall i, j :: 0 <= i < j < |s| ==> Less(s[i], s[j])
  }

  function Insert(p: Pair, s: seq<Pair>): seq<Pair> {
    if s == [] || !Less(s[0], p) then [p] + s else [s[0]] + Insert(p, s[1..])
  }

  function Sort(s: seq<Pair>): seq<Pair> {
    if s == [] then [] else Insert(s[0], Sort(s[1..]))
  }

  lemma {:induction false} InsertIs(p: Pair, s: seq<Pair>)
    requires Ascending(s)
    ensures Ascending(Insert(p, s)) && multiset(Insert(p, s)) == multiset(s) + multiset{p}
  {
    if s != [] && Less(s[0], p) {
      InsertIs(p, s[1..]);
      var rest := Insert(p, s[1..]);
      assert s == [s[0]] + s[1..];
      forall j | 0 <= j < |rest|
        ensures !Less(rest[j], s[0])
      {
        assert rest[j] in multiset(rest);
        assert rest[j] == p || rest[j] in s[1..];
      }
    }
  }

  /** Sorting gives the same pairs, each as often, in order. */
  lemma {:induction false} SortIs(s: seq<Pair>)
    ensures Ascending(Sort(s)) && multiset(Sort(s)) == multiset(s)
  {
    if s != [] {
      SortIs(s[1..]);
      InsertIs(s[0], Sort(s[1..]));
      assert s == [s[0]] + s[1..];
    }
  }

  lemma {:induction false} SortMembers(s: seq<Pair>)
    ensures Ascending(Sort(s)) && |Sort(s)| == |s| && forall p :: p in Sort(s) <==> p in s
  {
    SortIs(s);
    assert |multiset(Sort(s))| == |multiset(s)|;
    assert forall p :: p in Sort(s) <==> p in multiset(Sort(s));
  }

  /** s without the elements equal to the one before them. */
  function Unique(s: seq<Pair>): seq<Pair> {
    if |s| < 2 then s
    else if s[0] == s[1] then Unique(s[1..])
    else [s[0]] + Unique(s[1..])
  }

  lemma {:induction false} UniqueIs(s: seq<Pair>)
    requires Ascending(s)
    ensures StrictlyAscending(Unique(s))
    ensures forall p :: p in Unique(s) <==> p in s
  {
    if |s| >= 2 {
      UniqueIs(s[1..]);
      assert s == [s[0]] + s[1..];
      if s[0] != s[1] {
        forall j | 0 <= j < |Unique(s[1..])|
          ensures Less(s[0], Unique(s[1..])[j])
        {
          assert Unique(s[1..])[j] in s[1..];
          var k :| 1 <= k < |s| && s[k] == Unique(s[1..])[j];
          assert k == 1 || !Less(s[k], s[1]);
        }
      }
    }
  }

  lemma {:induction false} HeadIn(s: seq<Pair>)
    ensures s == [] || s[0] in s
  {
  }

  /** A strictly ascending sequence is determined by its members. */
  lemma {:induction false} SameMembersSameOrder(s: seq<Pair>, t: seq<Pair>)
    requires StrictlyAscending(s) && StrictlyAscending(t) && forall p :: p in s <==> p in t
    ensures s == t
  {
    if s == [] {
      HeadIn(t);
    } else {
      assert s[0] in t;
      assert t[0] in s;
      var i :| 0 <= i < |t| && t[i] == s[0];
      var j :| 0 <= j < |s| && s[j] == t[0];
      assert s[0] == t[0];
      assert s == [s[0]] + s[1..] && t == [t[0]] + t[1..];
      assert forall k :: 1 <= k < |s| ==> Less(s[0], s[k]);
      assert forall k :: 1 <= k < |t| ==> Less(t[0], t[k]);
      assert forall p :: p in s[1..] <==> p in s && p != s[0];
      assert forall p :: p in t[1..] <==> p in t && p != t[0];
      SameMembersSameOrder(s[1..], t[1..]);
    }
  }

  /** Is p in the ascending s? */
  method BinarySearch(s: seq<Pair>, p: Pair) returns (found: bool)
    requires StrictlyAscending(s)
    ensures found <==> p in s
  {
    var lo, hi := 0, |s|;
    while lo < hi
      invariant 0 <= lo <= hi <= |s|
      invariant p in s ==> p in s[lo..]
      invariant hi < |s| ==> !Less(s[hi], p)
    {
      var mid := (lo + hi) / 2;
      if Less(s[mid], p) {
        NotBefore(s, p, mid);
        lo := mid + 1;
      } else {
        hi := mid;
      }
    }
    found := lo < |s| && !Less(p, s[lo]);
    if p in s {
      var i :| 0 <= i < |s[lo..]| && s[lo..][i] == p;
      assert forall j :: lo < j < |s| ==> Less(s[lo], s[j]);
    }
  }

  lemma NotBefore(s: seq<Pair>, p: Pair, mid: nat)
    requires StrictlyAscending(s) && mid < |s| && Less(s[mid], p)
    ensures p in s ==> p in s[mid + 1..]
  {
    if p in s {
      var i :| 0 <= i < |s| && s[i] == p;
      assert i > mid;
      assert s[mid + 1..][i - mid - 1] == p;
    }
  }
}
