/** Sequences without repetition. */
module Seqs {

  ghost predicate Distinct<T>(s: seq<T>) {
    forall i, j :: 0 <= i < j < |s| ==> s[i] != s[j]
  }

  /** s with the first k taken out. */
  function Without<T(==)>(s: seq<T>, k: T): seq<T> {
    if s == [] then [] else if s[0] == k then s[1..] else [s[0]] + Without(s[1..], k)
  }

  lemma {:induction false} WithoutIs<T(!new)>(s: seq<T>, k: T)
    requires Distinct(s)
    ensures var r := Without(s, k);
            && |r| == (if k in s then |s| - 1 else |s|) && Distinct(r)
            && forall x :: x in r <==> x in s && x != k
  {
    if s != [] && s[0] != k {
      WithoutIs(s[1..], k);
      assert s == [s[0]] + s[1..];
      assert s[0] !in s[1..];
    }
  }

  lemma WithoutPush<T(!new)>(x: T, rest: seq<T>, k: T)
    ensures Without([x] + rest, k) == if x == k then rest else [x] + Without(rest, k)
  {
    assert ([x] + rest)[1..] == rest;
  }

  lemma {:induction false} WithoutAbsent<T(!new)>(s: seq<T>, k: T)
    requires k !in s
    ensures Without(s, k) == s
  {
    if s != [] {
      WithoutAbsent(s[1..], k);
      assert s == [s[0]] + s[1..];
    }
  }

  lemma {:induction false} PrefixLacks<T(!new)>(s: seq<T>, k: T, n: nat)
    requires n <= |s| && k !in s[..n]
    ensures n <= |Without(s, k)| && Without(s, k)[..n] == s[..n]
  {
    if n > 0 {
      var rest := s[1..];
      assert s[..n] == [s[0]] + rest[..n - 1];
      PrefixLacks(rest, k, n - 1);
    }
  }

  lemma {:induction false} PrefixHas<T(!new)>(s: seq<T>, k: T, n: nat)
    requires n <= |s| && k in s[..n]
    ensures n - 1 <= |Without(s, k)| && Without(s, k)[..n - 1] == Without(s[..n], k)
  {
    var rest := s[1..];
    var front := rest[..n - 1];
    assert s[..n] == [s[0]] + front;
    WithoutPush(s[0], front, k);
    if s[0] != k {
      assert k in front;
      PrefixHas(rest, k, n - 1);
    }
  }

  /** Taking k out of a prefix leaves a prefix of what taking it out of the whole leaves. */
  lemma WithoutPrefix<T(!new)>(s: seq<T>, k: T, n: nat)
    requires n <= |s|
    ensures (if k in s[..n] then n - 1 else n) <= |Without(s, k)|
    ensures Without(s[..n], k) == Without(s, k)[..if k in s[..n] then n - 1 else n]
    ensures k !in s[..n] ==> Without(s[..n], k) == s[..n]
  {
    if k in s[..n] {
      PrefixHas(s, k, n);
    } else {
      PrefixLacks(s, k, n);
      WithoutAbsent(s[..n], k);
    }
  }
}
