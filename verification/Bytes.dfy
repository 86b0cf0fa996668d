/** Byte strings and the fixed-width integer encodings the formats use. */
module Bytes {

  type byte = x: int | 0 <= x < 256

  type u64 = x: int | 0 <= x <= 0xFFFF_FFFF_FFFF_FFFF

  const U64_MAX: u64 := 0xFFFF_FFFF_FFFF_FFFF

  const I64_MIN := -0x8000_0000_0000_0000

  const I64_MAX := 0x7FFF_FFFF_FFFF_FFFF

  /** `n` as exactly `len` bytes, most significant first; higher bits are dropped. */
  function BigEndian(n: nat, len: nat): (bs: seq<byte>)
    ensures |bs| == len
  {
    if len == 0 then [] else BigEndian(n / 256, len - 1) + [n % 256]
  }

  function FromBigEndian(bs: seq<byte>): nat {
    if bs == [] then 0 else FromBigEndian(bs[..|bs| - 1]) * 256 + bs[|bs| - 1]
  }

  function LittleEndian(n: nat, len: nat): (bs: seq<byte>)
    ensures |bs| == len
  {
    if len == 0 then [] else [n % 256] + LittleEndian(n / 256, len - 1)
  }

  function FromLittleEndian(bs: seq<byte>): nat {
    if bs == [] then 0 else bs[0] + 256 * FromLittleEndian(bs[1..])
  }

  /** 256 to the power `len`: the number of `len`-byte strings. */
  function Capacity(len: nat): (c: nat)
    ensures c >= 1
  {
    if len == 0 then 1 else 256 * Capacity(len - 1)
  }

  lemma Capacities()
    ensures Capacity(1) == 0x100 && Capacity(2) == 0x1_0000
    ensures Capacity(4) == 0x1_0000_0000 && Capacity(8) == U64_MAX + 1
  {
    assert Capacity(3) == 0x100_0000;
    assert Capacity(4) == 0x1_0000_0000;
    assert Capacity(5) == 0x100_0000_0000;
    assert Capacity(6) == 0x1_0000_0000_0000;
    assert Capacity(7) == 0x100_0000_0000_0000;
  }

  lemma {:induction false} BigEndianRoundTrip(n: nat, len: nat)
    requires n < Capacity(len)
    ensures FromBigEndian(BigEndian(n, len)) == n
  {
    if len > 0 {
      BigEndianRoundTrip(n / 256, len - 1);
      var bs := BigEndian(n, len);
      assert bs[..|bs| - 1] == BigEndian(n / 256, len - 1);
    }
  }

  lemma {:induction false} BigEndianBound(bs: seq<byte>)
    ensures FromBigEndian(bs) < Capacity(|bs|)
  {
    if bs != [] {
      BigEndianBound(bs[..|bs| - 1]);
    }
  }

  lemma {:induction false} LittleEndianRoundTrip(n: nat, len: nat)
    requires n < Capacity(len)
    ensures FromLittleEndian(LittleEndian(n, len)) == n
  {
    if len > 0 {
      LittleEndianRoundTrip(n / 256, len - 1);
      assert LittleEndian(n, len)[1..] == LittleEndian(n / 256, len - 1);
    }
  }

  lemma {:induction false} FromLittleEndianRoundTrip(bs: seq<byte>)
    ensures LittleEndian(FromLittleEndian(bs), |bs|) == bs
    ensures FromLittleEndian(bs) < Capacity(|bs|)
  {
    if bs != [] {
      FromLittleEndianRoundTrip(bs[1..]);
      LastByte(bs[0], FromLittleEndian(bs[1..]));
      assert bs == [bs[0]] + bs[1..];
    }
  }

  /** A byte below the rest of a number is its remainder. */
  lemma LastByte(low: byte, high: nat)
    ensures (low + 256 * high) % 256 == low && (low + 256 * high) / 256 == high
  {
  }
}
