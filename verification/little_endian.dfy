/** Little-endian encoding of unsigned integers into byte strings, as done by
    `to_le_bytes` / `from_le_bytes`. */
module LittleEndian {
  import opened Types

  /** 256 to the power n: the weight of the byte at index n. */
  function Pow256(n: nat): (p: nat)
    ensures p >= 1
  {
    if n == 0 then 1 else 256 * Pow256(n - 1)
  }

  /** The value of a little-endian byte string: byte i weighs 256^i. */
  function FromLe(bs: seq<u8>): (v: nat)
    ensures v < Pow256(|bs|)
  {
    if |bs| == 0 then 0 else bs[0] + 256 * FromLe(bs[1..])
  }

  /** The n low-order bytes of v, least significant first. */
  function ToLe(v: nat, n: nat): (bs: seq<u8>)
    ensures |bs| == n
  {
    if n == 0 then [] else [v % 256] + ToLe(v / 256, n - 1)
  }

  /** Decoding an encoding gives the value back when it fits in n bytes. */
  lemma {:induction false} FromLeToLe(v: nat, n: nat)
    requires v < Pow256(n)
    ensures FromLe(ToLe(v, n)) == v
  {
    if n > 0 {
      FromLeToLe(v / 256, n - 1);
      assert ToLe(v, n)[1..] == ToLe(v / 256, n - 1);
    }
  }

  /** Encoding a decoded byte string gives the same bytes back. */
  lemma {:induction false} ToLeFromLe(bs: seq<u8>)
    ensures ToLe(FromLe(bs), |bs|) == bs
  {
    if |bs| > 0 {
      ToLeFromLe(bs[1..]);
      assert FromLe(bs) / 256 == FromLe(bs[1..]);
      assert FromLe(bs) % 256 == bs[0];
      assert bs == [bs[0]] + bs[1..];
    }
  }

  /** Euclidean division by 256 and then by p is division by 256 * p. */
  lemma DivDiv256(v: nat, p: nat)
    requires p >= 1
    ensures (v / 256) / p == v / (256 * p)
  {
    var q, k := v / 256, (v / 256) / p;
    var rest := 256 * (q % p) + v % 256;
    assert v == 256 * q + v % 256;
    assert q == k * p + q % p;
    assert v == (256 * p) * k + rest;
    assert 0 <= rest < 256 * p;
    DivUnique(v, 256 * p, k, rest);
  }

  lemma DivUnique(v: int, d: int, a: int, b: int)
    requires d > 0 && 0 <= b < d && v == a * d + b
    ensures v / d == a
  {
    var q, r := v / d, v % d;
    assert v == q * d + r;
    assert (q - a) * d == b - r;
    ZeroMultiple(q - a, d);
  }

  lemma ZeroMultiple(x: int, d: int)
    requires d > 0 && -d < x * d < d
    ensures x == 0
  {
  }

  /** Byte i of the encoding is the i-th base-256 digit of v. */
  lemma {:induction false} ToLeByte(v: nat, n: nat, i: nat)
    requires i < n
    ensures ToLe(v, n)[i] == (v / Pow256(i)) % 256
  {
    if i > 0 {
      ToLeByte(v / 256, n - 1, i - 1);
      DivDiv256(v, Pow256(i - 1));
    }
  }

  /** `v.to_le_bytes()` for a `u32`. */
  function U32ToLe(v: u32): (bs: seq<u8>)
    ensures bs == [v % 0x100, (v / 0x100) % 0x100, (v / 0x1_0000) % 0x100, v / 0x100_0000]
    ensures FromLe(bs) == v
  {
    U32Digits(v);
    FromLeToLe(v, 4);
    ToLe(v, 4)
  }

  /** The four-byte encoding of a `u32` spelled out digit by digit. */
  lemma U32Digits(v: u32)
    ensures ToLe(v, 4) == [v % 0x100, (v / 0x100) % 0x100, (v / 0x1_0000) % 0x100, v / 0x100_0000]
  {
    var bs := ToLe(v, 4);
    assert Pow256(1) == 0x100 && Pow256(2) == 0x1_0000 && Pow256(3) == 0x100_0000;
    assert bs[0] == v % 0x100 by { ToLeByte(v, 4, 0); }
    assert bs[1] == (v / 0x100) % 0x100 by { ToLeByte(v, 4, 1); }
    assert bs[2] == (v / 0x1_0000) % 0x100 by { ToLeByte(v, 4, 2); }
    assert bs[3] == v / 0x100_0000 by { ToLeByte(v, 4, 3); }
  }

  /** `u32::from_le_bytes(bs)`. */
  function U32FromLe(bs: seq<u8>): (v: u32)
    requires |bs| == 4
    ensures v == bs[0] as int + 0x100 * bs[1] as int + 0x1_0000 * bs[2] as int + 0x100_0000 * bs[3] as int
    ensures U32ToLe(v) == bs
  {
    ToLeFromLe(bs);
    assert FromLe(bs[3..]) == bs[3] by { assert bs[3..][1..] == []; }
    assert FromLe(bs[2..]) == bs[2] + 256 * FromLe(bs[3..]) by { assert bs[2..][1..] == bs[3..]; }
    assert FromLe(bs[1..]) == bs[1] + 256 * FromLe(bs[2..]) by { assert bs[1..][1..] == bs[2..]; }
    FromLe(bs)
  }
}
