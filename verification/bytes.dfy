/** Bytes, and little-endian numbers in a byte string. */
module Bytes {
  import opened Arith

  type byte = x: int | 0 <= x < 256

  function U32(data: seq<byte>, at: nat): (v: nat)
    requires at + 4 <= |data|
    ensures v < 0x1_0000_0000
  {
    var b0: int, b1: int, b2: int, b3: int := data[at], data[at + 1], data[at + 2], data[at + 3];
    b0 + 0x100 * b1 + 0x1_0000 * b2 + 0x100_0000 * b3
  }

  function U64(data: seq<byte>, at: nat): (v: nat)
    requires at + 8 <= |data|
    ensures v < 0x1_0000_0000_0000_0000
  {
    U32(data, at) + 0x1_0000_0000 * U32(data, at + 4)
  }

  function Pow2(k: nat): (p: nat)
    ensures p > 0
  {
    if k == 0 then 1 else 2 * Pow2(k - 1)
  }

  /** Bit k of v. */
  predicate Bit(v: nat, k: nat) {
    (v / Pow2(k)) % 2 == 1
  }

  /** The number that the bytes of s spell, least significant first. */
  function Little(s: seq<byte>): nat {
    if s == [] then 0 else s[0] + 0x100 * Little(s[1..])
  }

  lemma {:induction false} U32IsLittle(data: seq<byte>, at: nat)
    requires at + 4 <= |data|
    ensures U32(data, at) == Little(data[at..at + 4])
  {
    var s := data[at..at + 4];
    assert s[1..][1..] == s[2..] && s[2..][1..] == s[3..] && s[3..][1..] == [];
    assert Little(s[3..]) == s[3] && Little(s[2..]) == s[2] + 0x100 * Little(s[3..]);
    assert Little(s[1..]) == s[1] + 0x100 * Little(s[2..]);
  }

  lemma {:induction false} LittleSplits(s: seq<byte>, t: seq<byte>)
    requires |s| == 4
    ensures Little(s + t) == Little(s) + 0x1_0000_0000 * Little(t)
  {
    var u := s + t;
    assert u[1..][1..] == u[2..] && u[2..][1..] == u[3..] && u[3..][1..] == t;
    assert Little(u[2..]) == s[2] + 0x100 * (s[3] + 0x100 * Little(t));
    assert Little(u[1..]) == s[1] + 0x100 * Little(u[2..]);
    U32IsLittle(s, 0);
    assert s[0..4] == s;
  }

  lemma U64IsLittle(data: seq<byte>, at: nat)
    requires at + 8 <= |data|
    ensures U64(data, at) == Little(data[at..at + 8])
  {
    U32IsLittle(data, at);
    U32IsLittle(data, at + 4);
    LittleSplits(data[at..at + 4], data[at + 4..at + 8]);
    assert data[at..at + 4] + data[at + 4..at + 8] == data[at..at + 8];
  }

  lemma BitOfHalf(v: nat, k: nat)
    ensures Bit(v, k + 1) <==> Bit(v / 2, k)
  {
    HalfFirst(v, Pow2(k));
  }

  lemma HalfFirst(v: nat, d: nat)
    requires d > 0
    ensures v / (2 * d) == v / 2 / d
  {
    var q := v / 2 / d;
    DivBounds(v / 2, d);
    assert (2 * d) * q == 2 * (d * q);
    DivIs(v, 2 * d, q);
  }

  lemma BitZero(v: nat)
    ensures Bit(v, 0) <==> v % 2 == 1
  {
    assert Pow2(0) == 1;
  }

  lemma HalfOfSplit(low: nat, p: nat, high: nat)
    requires low < 2 * p
    ensures var v := low + 2 * p * high;
            v / 2 == low / 2 + p * high && v % 2 == low % 2 && low / 2 < p
  {
    var q := p * high;
    assert 2 * p * high == 2 * q;
  }

  /** The bits of a number whose low m bits spell low and whose other bits spell high. */
  lemma {:induction false} SplitBit(low: nat, high: nat, m: nat, k: nat)
    requires low < Pow2(m)
    ensures Bit(low + Pow2(m) * high, k) <==> if k < m then Bit(low, k) else Bit(high, k - m)
  {
    if m > 0 {
      var p := Pow2(m - 1);
      HalfOfSplit(low, p, high);
      var v := low + 2 * p * high;
      assert Pow2(m) * high == 2 * p * high;
      if k > 0 {
        BitOfHalf(v, k - 1);
        BitOfHalf(low, k - 1);
        SplitBit(low / 2, high, m - 1, k - 1);
      } else {
        BitZero(v);
        BitZero(low);
      }
    }
  }

  lemma Pow2Of8()
    ensures Pow2(8) == 0x100
  {
    assert Pow2(4) == 16;
  }

  /** Bit k of a number is bit k % 8 of its byte k / 8. */
  lemma {:induction false} LittleBit(s: seq<byte>, k: nat)
    requires k < 8 * |s|
    ensures Bit(Little(s), k) <==> Bit(s[k / 8], k % 8)
  {
    Pow2Of8();
    SplitBit(s[0], Little(s[1..]), 8, k);
    if k < 8 {
      assert k / 8 == 0 && k % 8 == k;
    } else {
      var j := k - 8;
      LittleBit(s[1..], j);
      assert k / 8 == j / 8 + 1 && k % 8 == j % 8;
    }
  }
}
