/** Apache Avro longs: zig-zag, then little-endian groups of seven bits. */
module Varint {
  import opened Bytes
  import opened Wrappers
  import opened Ans104Types

  function ZigZag(v: int): nat {
    if v >= 0 then 2 * v else -2 * v - 1
  }

  function UnZigZag(z: nat): int {
    if z % 2 == 0 then z / 2 else -(z / 2) - 1
  }

  /** The shortest group string of `z`; every byte but the last has its top bit set. */
  function Groups(z: nat): (bs: seq<byte>)
    ensures |bs| >= 1
  {
    if z < 128 then [z] else [128 + z % 128] + Groups(z / 128)
  }

  function VarintBytes(v: int): (bs: seq<byte>)
    ensures |bs| >= 1
  {
    Groups(ZigZag(v))
  }

  method WriteVarint(out: seq<byte>, value: int) returns (r: seq<byte>)
    requires I64_MIN <= value <= I64_MAX
    ensures r == out + VarintBytes(value)
  {
    var zigzag := ZigZag(value);
    r := out;
    while true
      invariant r + Groups(zigzag) == out + VarintBytes(value)
      decreases zigzag
    {
      var b: byte := zigzag % 128;
      ghost var was := zigzag;
      zigzag := zigzag / 128;
      if zigzag != 0 {
        b := b + 128;
      }
      assert Groups(was) == if zigzag == 0 then [b] else [b] + Groups(zigzag);
      r := r + [b];
      if zigzag == 0 {
        break;
      }
    }
  }

  /** Read groups at `pos` while at most `room` more fit in 64 bits. The tenth group
      contributes one bit; its other bits are shifted out. */
  function ReadGroups(buf: seq<byte>, pos: nat, room: nat): (r: Option<(nat, nat)>)
    ensures r.Some? ==> pos < r.value.1 <= |buf|
    decreases room
  {
    if room == 0 || pos >= |buf| then None
    else
      var low := if room == 1 then buf[pos] % 2 else buf[pos] % 128;
      if buf[pos] < 128 then Some((low, pos + 1))
      else
        match ReadGroups(buf, pos + 1, room - 1)
        case None => None
        case Some((high, end)) => Some((low + 128 * high, end))
  }

  function TooLong(): string {
    "varint too long"
  }

  function Truncated(): string {
    "truncated varint"
  }

  /** Why no value can be read. */
  function Fault(buf: seq<byte>, pos: nat, room: nat): string
    decreases room
  {
    if room == 0 then TooLong()
    else if pos >= |buf| then Truncated()
    else Fault(buf, pos + 1, room - 1)
  }

  /** The value at `pos` and the position after it. */
  function ReadVarintSpec(buf: seq<byte>, pos: nat): (r: Result<(int, nat), Ans104Error>)
    ensures r.Ok? ==> pos < r.value.1 <= |buf|
    ensures r.Err? ==> r.error.InvalidTags?
  {
    match ReadGroups(buf, pos, 10)
    case None => Err(InvalidTags(Fault(buf, pos, 10)))
    case Some((z, end)) => Ok((UnZigZag(z), end))
  }

  // ----- The loop that reads

  function Pow128(i: nat): (p: nat)
    ensures p >= 1
  {
    if i == 0 then 1 else 128 * Pow128(i - 1)
  }

  /** `x << 7 * i` in 64 bits. */
  function ShiftGroups(x: nat, i: nat): nat {
    (x * Pow128(i)) % (U64_MAX + 1)
  }

  /** What has been read so far followed by the groups still to come. */
  ghost function Combine(result: nat, i: nat, rest: Option<(nat, nat)>): Option<(nat, nat)> {
    match rest
    case None => None
    case Some((high, end)) => Some((result + high * Pow128(i), end))
  }

  lemma Powers()
    ensures Pow128(8) == 0x100_0000_0000_0000 && Pow128(9) == 0x8000_0000_0000_0000
  {
    assert Pow128(2) == 0x4000 && Pow128(4) == 0x1000_0000;
    assert Pow128(6) == 0x400_0000_0000;
  }

  lemma {:induction false} PowMonotone(i: nat, j: nat)
    requires i <= j
    ensures Pow128(i) <= Pow128(j)
  {
    if i < j {
      PowMonotone(i, j - 1);
    }
  }

  lemma ProductBound(b: nat, p: nat, cap: nat)
    requires b < 128 && p <= cap
    ensures 0 <= b * p <= 127 * cap
  {
    assert (127 - b) * p >= 0;
  }

  lemma FitsWord(x: nat)
    requires x <= U64_MAX
    ensures x % (U64_MAX + 1) == x
  {
  }

  lemma EarlyGroup(b: nat, i: nat)
    requires b < 128 && i < 9
    ensures ShiftGroups(b, i) == b * Pow128(i)
  {
    Powers();
    PowMonotone(i, 8);
    hide Pow128;
    ProductBound(b, Pow128(i), 0x100_0000_0000_0000);
    FitsWord(b * Pow128(i));
  }

  lemma LastGroup(b: nat)
    requires b < 128
    ensures ShiftGroups(b, 9) == (b % 2) * Pow128(9)
  {
    Powers();
    hide Pow128;
    assert b * 0x8000_0000_0000_0000 == (b % 2) * 0x8000_0000_0000_0000 + (b / 2) * 0x1_0000_0000_0000_0000;
  }

  lemma Distribute(low: nat, high: nat, p: nat)
    ensures (low + 128 * high) * p == low * p + high * (128 * p)
  {
  }

  lemma CombineStep(result: nat, i: nat, low: nat, rest: Option<(nat, nat)>)
    ensures Combine(result + low * Pow128(i), i + 1, rest)
         == Combine(result, i, match rest case None => None case Some((high, end)) => Some((low + 128 * high, end)))
  {
    match rest
    case None =>
    case Some((high, end)) => Distribute(low, high, Pow128(i));
  }

  method ReadVarint(buf: seq<byte>, pos: nat) returns (r: Result<(int, nat), Ans104Error>)
    requires pos <= |buf|
    ensures r == ReadVarintSpec(buf, pos)
  {
    hide ReadGroups, Combine, ShiftGroups, Fault, Pow128, UnZigZag, TooLong, Truncated;
    var result: nat := 0;
    var shift := 0;
    var at := pos;
    ghost var i := 0;
    CombineNothing(ReadGroups(buf, pos, 10));
    while true
      invariant shift == 7 * i && i <= 10 && at == pos + i <= |buf|
      invariant ReadGroups(buf, pos, 10) == Combine(result, i, ReadGroups(buf, at, 10 - i))
      invariant Fault(buf, pos, 10) == Fault(buf, at, 10 - i)
      decreases 10 - i
    {
      ReadGroupsStep(buf, at, 10 - i, result, i);
      FaultStep(buf, at, 10 - i);
      if shift >= 64 {
        return Err(InvalidTags(TooLong()));
      }
      if at >= |buf| {
        return Err(InvalidTags(Truncated()));
      }
      var b := buf[at];
      at := at + 1;
      if i < 9 {
        EarlyGroup(b % 128, i);
      } else {
        LastGroup(b % 128);
      }
      result := result + ShiftGroups(b % 128, shift / 7);
      if b < 128 {
        break;
      }
      shift := shift + 7;
      i := i + 1;
    }
    return Ok((UnZigZag(result), at));
  }

  lemma FaultStep(buf: seq<byte>, at: nat, room: nat)
    ensures room == 0 ==> Fault(buf, at, room) == TooLong()
    ensures room > 0 && at >= |buf| ==> Fault(buf, at, room) == Truncated()
    ensures room > 0 && at < |buf| ==> Fault(buf, at, room) == Fault(buf, at + 1, room - 1)
  {
  }

  lemma CombineNothing(rest: Option<(nat, nat)>)
    ensures Combine(0, 0, rest) == rest
  {
  }

  lemma ReadGroupsStep(buf: seq<byte>, at: nat, room: nat, result: nat, i: nat)
    requires room + i == 10
    ensures room == 0 || at >= |buf| ==> Combine(result, i, ReadGroups(buf, at, room)) == None
    ensures room > 0 && at < |buf| ==>
      var low := if room == 1 then buf[at] % 128 % 2 else buf[at] % 128;
      Combine(result, i, ReadGroups(buf, at, room)) ==
        if buf[at] < 128 then Some((result + low * Pow128(i), at + 1))
        else Combine(result + low * Pow128(i), i + 1, ReadGroups(buf, at + 1, room - 1))
  {
    hide Pow128;
    if room > 0 && at < |buf| {
      assert buf[at] % 128 % 2 == buf[at] % 2;
      var low := if room == 1 then buf[at] % 2 else buf[at] % 128;
      CombineStep(result, i, low, ReadGroups(buf, at + 1, room - 1));
    }
  }

  // ----- Round trip and minimality

  /** Values that `room` groups can hold. */
  function Limit(room: nat): nat {
    if room == 0 then 0 else if room == 1 then 2 else 128 * Limit(room - 1)
  }

  lemma TenGroups()
    ensures Limit(10) == U64_MAX + 1
  {
    assert Limit(4) == 0x40_0000 && Limit(7) == 0x800_0000_0000;
  }

  lemma {:induction false} GroupsRoundTrip(buf: seq<byte>, pos: nat, z: nat, room: nat)
    requires z < Limit(room)
    requires pos + |Groups(z)| <= |buf| && buf[pos..pos + |Groups(z)|] == Groups(z)
    ensures ReadGroups(buf, pos, room) == Some((z, pos + |Groups(z)|))
    decreases room
  {
    assert buf[pos] == buf[pos..pos + |Groups(z)|][0];
    if z >= 128 {
      assert buf[pos + 1..pos + 1 + |Groups(z / 128)|] == buf[pos..pos + |Groups(z)|][1..] == Groups(z / 128);
      GroupsRoundTrip(buf, pos + 1, z / 128, room - 1);
    }
  }

  lemma VarintRoundTrip(buf: seq<byte>, pos: nat, v: int)
    requires I64_MIN <= v <= I64_MAX
    requires pos + |VarintBytes(v)| <= |buf| && buf[pos..pos + |VarintBytes(v)|] == VarintBytes(v)
    ensures ReadVarintSpec(buf, pos) == Ok((v, pos + |VarintBytes(v)|))
  {
    hide Groups, ReadGroups, ZigZag, UnZigZag, Limit;
    TenGroups();
    ZigZagRoundTrip(v);
    GroupsRoundTrip(buf, pos, ZigZag(v), 10);
  }

  lemma ZigZagRoundTrip(v: int)
    ensures UnZigZag(ZigZag(v)) == v
    ensures I64_MIN <= v <= I64_MAX ==> ZigZag(v) <= U64_MAX
  {
  }

  /** No accepted group string of a value is shorter than its encoding. */
  lemma {:induction false} GroupsShortest(buf: seq<byte>, pos: nat, room: nat)
    ensures ReadGroups(buf, pos, room).Some? ==>
      var (z, end) := ReadGroups(buf, pos, room).value; end - pos >= |Groups(z)|
    decreases room
  {
    if room > 0 && pos < |buf| && buf[pos] >= 128 {
      GroupsShortest(buf, pos + 1, room - 1);
    }
  }

  /** A group string as short as the encoding is the encoding. */
  lemma {:induction false} ShortestGroups(buf: seq<byte>, pos: nat, room: nat)
    requires ReadGroups(buf, pos, room).Some?
    requires var (z, end) := ReadGroups(buf, pos, room).value; end - pos == |Groups(z)| < room
    ensures var (z, end) := ReadGroups(buf, pos, room).value; buf[pos..end] == Groups(z)
    decreases room
  {
    hide Groups;
    var (z, end) := ReadGroups(buf, pos, room).value;
    if buf[pos] < 128 {
      GroupsOf(z, 0);
      assert buf[pos..end] == [buf[pos]];
    } else {
      var high := ReadGroups(buf, pos + 1, room - 1).value.0;
      GroupsOf(buf[pos] % 128, high);
      if high > 0 {
        GroupsShortest(buf, pos + 1, room - 1);
        ShortestGroups(buf, pos + 1, room - 1);
        assert buf[pos..end] == [buf[pos]] + buf[pos + 1..end];
      }
    }
  }

  lemma GroupsOf(low: nat, high: nat)
    requires low < 128
    ensures Groups(low + 128 * high) == if high == 0 then [low] else [128 + low] + Groups(high)
  {
    assert (low + 128 * high) % 128 == low && (low + 128 * high) / 128 == high by {
      hide Groups;
    }
  }

  lemma ReadZigZag(z: nat)
    ensures ZigZag(UnZigZag(z)) == z
  {
  }

  lemma VarintShortest(buf: seq<byte>, pos: nat)
    ensures ReadVarintSpec(buf, pos).Ok? ==>
      var (v, end) := ReadVarintSpec(buf, pos).value; end - pos >= |VarintBytes(v)|
  {
    hide Groups, ReadGroups;
    GroupsShortest(buf, pos, 10);
    if ReadGroups(buf, pos, 10).Some? {
      ReadZigZag(ReadGroups(buf, pos, 10).value.0);
    }
  }

  /** A varint spelled in the fewest bytes, fewer than ten, is the encoder's. */
  lemma ShortestVarint(buf: seq<byte>, pos: nat)
    requires ReadVarintSpec(buf, pos).Ok?
    requires var (v, end) := ReadVarintSpec(buf, pos).value; end - pos == |VarintBytes(v)| < 10
    ensures var (v, end) := ReadVarintSpec(buf, pos).value; buf[pos..end] == VarintBytes(v)
  {
    hide Groups, ReadGroups;
    ReadZigZag(ReadGroups(buf, pos, 10).value.0);
    ShortestGroups(buf, pos, 10);
  }

  // ----- How lengths add up

  lemma {:induction false} GroupsMonotone(x: nat, y: nat)
    requires x <= y
    ensures |Groups(x)| <= |Groups(y)|
    decreases y
  {
    if x >= 128 {
      GroupsMonotone(x / 128, y / 128);
    }
  }

  function Max(x: int, y: int): int {
    if x < y then y else x
  }

  /** A sum, with a carry, needs at most one group more than its larger term. */
  lemma {:induction false} GroupsOfSum(x: nat, y: nat, carry: nat)
    requires carry <= 1
    ensures |Groups(x + y + carry)| <= 1 + Max(|Groups(x)|, |Groups(y)|)
    decreases x + y
  {
    var sum := x + y + carry;
    if x < 128 && y < 128 {
      assert sum / 128 < 128;
    } else {
      var carried := (x % 128 + y % 128 + carry) / 128;
      assert sum / 128 == x / 128 + y / 128 + carried;
      GroupsOfSum(x / 128, y / 128, carried);
      assert |Groups(sum)| == 1 + |Groups(sum / 128)|;
      SmallerGroups(x);
      SmallerGroups(y);
      assert Max(|Groups(x / 128)|, |Groups(y / 128)|) + 1 <= Max(|Groups(x)|, |Groups(y)|);
    }
  }

  lemma SmallerGroups(x: nat)
    ensures x >= 128 ==> |Groups(x)| == 1 + |Groups(x / 128)| && |Groups(x)| >= 2
    ensures x < 128 ==> |Groups(x)| == 1 && |Groups(x / 128)| == 1
  {
  }

  /** One count takes no more bytes than two counts of its parts. */
  lemma CountsMerge(m: nat, n: nat)
    requires m > 0 && n > 0
    ensures |VarintBytes(m + n)| <= |VarintBytes(m)| + |VarintBytes(n)|
  {
    GroupsOfSum(2 * m, 2 * n, 0);
  }

  /** A negative count saves at most one byte over the positive one. */
  lemma NegativeCount(n: int)
    requires n > 0
    ensures |VarintBytes(n)| <= |VarintBytes(-n)| + 1
  {
    GroupsOfSum(2 * n - 1, 0, 1);
  }
}
