/** The shortest-form heads of RFC 8949 (sections 3 and 4.2.1): one initial byte,
    then the argument in the fewest of 0, 1, 2, 4 or 8 bytes that hold it. */
module Cbor {
  import opened Bytes
  import opened Wrappers

  const UNSIGNED := 0
  const BYTE_STRING := 2
  const ARRAY := 4

  /** The bytes a head with argument `n` takes. */
  function Width(n: nat): nat {
    if n < 24 then 1
    else if n < 0x100 then 2
    else if n < 0x1_0000 then 3
    else if n < 0x1_0000_0000 then 5
    else 9
  }

  function Head(major: nat, n: nat): (bs: seq<byte>)
    requires major < 8
    ensures |bs| == Width(n)
  {
    if n < 24 then [32 * major + n]
    else if n < 0x100 then [32 * major + 24] + BigEndian(n, 1)
    else if n < 0x1_0000 then [32 * major + 25] + BigEndian(n, 2)
    else if n < 0x1_0000_0000 then [32 * major + 26] + BigEndian(n, 4)
    else [32 * major + 27] + BigEndian(n, 8)
  }

  /** Argument bytes that follow an initial byte with additional information `info`. */
  function ArgumentBytes(info: nat): Option<nat> {
    if info < 24 then Some(0)
    else if info == 24 then Some(1)
    else if info == 25 then Some(2)
    else if info == 26 then Some(4)
    else if info == 27 then Some(8)
    else None
  }

  /** Decode the head at the front of `bs`: major type, argument and bytes used.
      Accepts every well-formed head, shortest or not. */
  function DecodeHead(bs: seq<byte>): Option<(nat, nat, nat)> {
    if bs == [] then None else
      var info := bs[0] % 32;
      match ArgumentBytes(info)
      case None => None
      case Some(len) =>
        if |bs| < 1 + len then None
        else Some((bs[0] / 32, if len == 0 then info else FromBigEndian(bs[1..1 + len]), 1 + len))
  }

  /** A head whose argument follows the initial byte decodes to that argument. */
  lemma LongHeadRoundTrip(major: nat, info: nat, n: nat, len: nat, rest: seq<byte>)
    requires major < 8 && 24 <= info < 32 && ArgumentBytes(info) == Some(len) && n < Capacity(len)
    ensures DecodeHead([32 * major + info] + BigEndian(n, len) + rest) == Some((major, n, 1 + len))
  {
    hide DecodeHead, BigEndian, FromBigEndian, Capacity;
    var initial: byte := 32 * major + info;
    var argument := BigEndian(n, len);
    InitialByte(major, info);
    BigEndianRoundTrip(n, len);
    HeadOf(initial, argument, rest, len);
  }

  lemma InitialByte(major: nat, info: nat)
    requires info < 32
    ensures (32 * major + info) % 32 == info && (32 * major + info) / 32 == major
  {
  }

  lemma HeadOf(initial: byte, argument: seq<byte>, rest: seq<byte>, len: nat)
    requires ArgumentBytes(initial % 32) == Some(len) && len > 0 && |argument| == len
    ensures DecodeHead([initial] + argument + rest) == Some((initial / 32, FromBigEndian(argument), 1 + len))
  {
    var bs := [initial] + argument + rest;
    assert bs[1..1 + len] == argument;
  }

  lemma ShortHeadRoundTrip(major: nat, n: nat, rest: seq<byte>)
    requires major < 8 && n < 24
    ensures DecodeHead([32 * major + n] + rest) == Some((major, n, 1))
  {
    var initial: byte := 32 * major + n;
    assert initial % 32 == n && initial / 32 == major;
  }

  lemma HeadRoundTrip(major: nat, n: nat, rest: seq<byte>)
    requires major < 8 && n <= U64_MAX
    ensures DecodeHead(Head(major, n) + rest) == Some((major, n, Width(n)))
  {
    hide DecodeHead, BigEndian, Capacity;
    Capacities();
    if n >= 0x1_0000_0000 {
      LongHeadRoundTrip(major, 27, n, 8, rest);
    } else if n >= 0x1_0000 {
      LongHeadRoundTrip(major, 26, n, 4, rest);
    } else if n >= 0x100 {
      LongHeadRoundTrip(major, 25, n, 2, rest);
    } else if n >= 24 {
      LongHeadRoundTrip(major, 24, n, 1, rest);
    } else {
      ShortHeadRoundTrip(major, n, rest);
    }
  }

  /** No well-formed head carries `n` in fewer bytes than `Width(n)`. */
  lemma HeadIsShortest(bs: seq<byte>)
    ensures DecodeHead(bs).Some? ==> DecodeHead(bs).value.2 >= Width(DecodeHead(bs).value.1)
  {
    Capacities();
    if DecodeHead(bs).Some? {
      var used := DecodeHead(bs).value.2;
      BigEndianBound(bs[1..used]);
    }
  }

  lemma WidthMonotone(m: nat, n: nat)
    requires m <= n
    ensures Width(m) <= Width(n)
  {
  }
}
