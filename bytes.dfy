/** Fixed-width unsigned integers and their big-endian byte form
    (Python's `int.to_bytes(k, "big")` and `int.from_bytes(b, "big")`). */
module Bytes {

  type uint8 = x: int | 0 <= x < 0x100
  type uint16 = x: int | 0 <= x < 0x1_0000
  type uint32 = x: int | 0 <= x < 0x1_0000_0000

  /** 256 to the power k: the number of values k bytes can hold. */
  function Pow256(k: nat): (p: nat)
    ensures p >= 1
  {
    if k == 0 then 1 else 256 * Pow256(k - 1)
  }

  lemma Pow256Values()
    ensures Pow256(1) == 0x100 && Pow256(2) == 0x1_0000
    ensures Pow256(4) == 0x1_0000_0000 && Pow256(8) == 0x1_0000_0000_0000_0000
  {
    assert Pow256(1) == 256 * Pow256(0);
    assert Pow256(2) == 256 * Pow256(1);
    assert Pow256(3) == 256 * Pow256(2);
    assert Pow256(4) == 256 * Pow256(3);
    assert Pow256(8) == 256 * 256 * 256 * 256 * Pow256(4) by {
      assert Pow256(8) == 256 * Pow256(7);
      assert Pow256(7) == 256 * Pow256(6);
      assert Pow256(6) == 256 * Pow256(5);
      assert Pow256(5) == 256 * Pow256(4);
    }
  }

  function Zeros(k: nat): (z: seq<uint8>)
    ensures |z| == k && forall i :: 0 <= i < k ==> z[i] == 0
  {
    seq(k, _ => 0)
  }

  /** The k-byte big-endian form of n; Python raises OverflowError when n does not fit. */
  function ToBigEndian(n: nat, k: nat): (bs: seq<uint8>)
    requires n < Pow256(k)
    ensures |bs| == k
    decreases k
  {
    if k == 0 then [] else ToBigEndian(n / 256, k - 1) + [n % 256]
  }

  /** The value of a big-endian byte string. */
  function FromBigEndian(bs: seq<uint8>): (n: nat)
    ensures n < Pow256(|bs|)
    decreases |bs|
  {
    if bs == [] then 0 else FromBigEndian(bs[..|bs| - 1]) * 256 + bs[|bs| - 1]
  }

  /** Decoding undoes encoding. */
  lemma {:induction false} FromToBigEndian(n: nat, k: nat)
    requires n < Pow256(k)
    ensures FromBigEndian(ToBigEndian(n, k)) == n
    decreases k
  {
    if k > 0 {
      var bs := ToBigEndian(n, k);
      assert bs[..k - 1] == ToBigEndian(n / 256, k - 1);
      FromToBigEndian(n / 256, k - 1);
    }
  }

  /** Encoding undoes decoding: a byte string is the big-endian form of its own value. */
  lemma {:induction false} ToFromBigEndian(bs: seq<uint8>)
    ensures ToBigEndian(FromBigEndian(bs), |bs|) == bs
    decreases |bs|
  {
    if bs != [] {
      var front := bs[..|bs| - 1];
      var n := FromBigEndian(bs);
      assert n / 256 == FromBigEndian(front) && n % 256 == bs[|bs| - 1];
      ToFromBigEndian(front);
      assert bs == front + [bs[|bs| - 1]];
    }
  }

  /** Widening a big-endian form prepends zero bytes. */
  lemma {:induction false} ToBigEndianWiden(n: nat, k: nat, extra: nat)
    requires n < Pow256(k)
    ensures n < Pow256(k + extra)
    ensures ToBigEndian(n, k + extra) == Zeros(extra) + ToBigEndian(n, k)
    decreases k
  {
    PowMonotone(k, k + extra);
    if k == 0 {
      ZeroBigEndian(extra);
    } else {
      ToBigEndianWiden(n / 256, k - 1, extra);
      assert k + extra - 1 == k - 1 + extra;
    }
  }

  lemma ZerosAppend(j: nat, k: nat)
    ensures Zeros(j) + Zeros(k) == Zeros(j + k)
  {
  }

  lemma OneByte(n: nat)
    requires n < 0x100
    ensures n < Pow256(1) && ToBigEndian(n, 1) == [n]
  {
    assert ToBigEndian(n, 1) == ToBigEndian(n / 256, 0) + [n % 256];
  }

  /** The 8-byte form of a 32-bit value is four zero bytes, then its 4-byte form. */
  lemma WideHalves(n: nat)
    requires n < Pow256(4)
    ensures n < Pow256(8)
    ensures ToBigEndian(n, 8)[..4] == Zeros(4) && ToBigEndian(n, 8)[4..] == ToBigEndian(n, 4)
  {
    ToBigEndianWiden(n, 4, 4);
  }

  lemma {:induction false} ZeroBigEndian(k: nat)
    ensures ToBigEndian(0, k) == Zeros(k)
  {
    if k > 0 {
      ZeroBigEndian(k - 1);
      assert Zeros(k) == Zeros(k - 1) + [0];
    }
  }

  lemma {:induction false} PowMonotone(j: nat, k: nat)
    requires j <= k
    ensures Pow256(j) <= Pow256(k)
    decreases k - j
  {
    if j < k {
      PowMonotone(j, k - 1);
    }
  }
}
