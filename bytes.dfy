/** Fixed-width unsigned integers and the little-endian byte conversions used by
    the archive reader (`u{N}::from_le_bytes`, `u{N}::to_le_bytes`, and copying a
    short slice into part of a zeroed byte array before conversion). */
module Bytes {

  type u8 = b: int | 0 <= b < 0x100
  type u16 = v: int | 0 <= v < 0x1_0000
  type u32 = v: int | 0 <= v < 0x1_0000_0000
  type u64 = v: int | 0 <= v < 0x1_0000_0000_0000_0000

  /** 256^n, the number of values an n-byte word can hold. */
  function Pow256(n: nat): (r: nat)
    ensures r >= 1
  {
    if n == 0 then 1 else 256 * Pow256(n - 1)
  }

  /** 2^n, the value of `1 << n` while n is below the word width. */
  function Pow2(n: nat): (r: nat)
    ensures r >= 1
  {
    if n == 0 then 1 else 2 * Pow2(n - 1)
  }

  /** The unsigned value of a little-endian byte sequence. */
  function FromLe(bs: seq<u8>): (v: nat)
    ensures v < Pow256(|bs|)
  {
    if bs == [] then 0
    else
      var rest := FromLe(bs[1..]);
      assert rest <= Pow256(|bs| - 1) - 1;
      bs[0] + 256 * rest
  }

  /** The n little-endian bytes of v. */
  function ToLe(v: nat, n: nat): (bs: seq<u8>)
    requires v < Pow256(n)
    ensures |bs| == n
    ensures FromLe(bs) == v
  {
    if n == 0 then []
    else [v % 256] + ToLe(v / 256, n - 1)
  }

  /** A word of `lead` zero bytes followed by `bs`: what the reader gets when it
      zero-fills a byte array and copies `bs` into positions `lead..`. */
  function Placed(lead: nat, bs: seq<u8>): (w: seq<u8>)
    ensures |w| == lead + |bs|
    ensures forall i :: 0 <= i < lead ==> w[i] == 0
    ensures w[lead..] == bs
  {
    seq(lead, _ => 0) + bs
  }

  /** Leading zero bytes scale the little-endian value by 256 per byte. */
  lemma {:induction false} FromLePlaced(lead: nat, bs: seq<u8>)
    ensures FromLe(Placed(lead, bs)) == Pow256(lead) * FromLe(bs)
  {
    if lead > 0 {
      var w := Placed(lead, bs);
      assert w[0] == 0 && w[1..] == Placed(lead - 1, bs);
      FromLePlaced(lead - 1, bs);
      var p, v := Pow256(lead - 1), FromLe(bs);
      calc {
        FromLe(w);
        256 * FromLe(Placed(lead - 1, bs));
        256 * (p * v);
        { MulAssoc(256, p, v); }
        (256 * p) * v;
      }
    }
  }

  lemma MulAssoc(a: nat, b: nat, c: nat)
    ensures a * (b * c) == (a * b) * c
  {
  }

  /** Encoding the decoded bytes gives the bytes back, so `FromLe` is injective
      on sequences of one length. */
  lemma {:induction false} ToLeFromLe(bs: seq<u8>)
    ensures ToLe(FromLe(bs), |bs|) == bs
  {
    if bs != [] {
      var v, rest := FromLe(bs), FromLe(bs[1..]);
      assert v == bs[0] + 256 * rest;
      assert v % 256 == bs[0] && v / 256 == rest;
      ToLeFromLe(bs[1..]);
      assert ToLe(v, |bs|) == [bs[0]] + ToLe(rest, |bs| - 1);
    }
  }

  lemma {:induction false} FromLe2(bs: seq<u8>)
    requires |bs| == 2
    ensures FromLe(bs) == bs[0] as int + 0x100 * bs[1] as int
  {
    assert bs[1..][1..] == [];
  }

  lemma {:induction false} FromLe3(bs: seq<u8>)
    requires |bs| == 3
    ensures FromLe(bs) == bs[0] as int + 0x100 * bs[1] as int + 0x1_0000 * bs[2] as int
  {
    FromLe2(bs[1..]);
  }

  lemma {:induction false} FromLe4(bs: seq<u8>)
    requires |bs| == 4
    ensures FromLe(bs) == bs[0] as int + 0x100 * bs[1] as int + 0x1_0000 * bs[2] as int + 0x100_0000 * bs[3] as int
  {
    FromLe3(bs[1..]);
  }
}
