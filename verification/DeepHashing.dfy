/** The ANS-104 deep hash over an arbitrary 48-byte hash function, its streaming
    forms, and the collision any two items with one digest must contain. */
module DeepHashing {
  import opened Bytes
  import opened Ans104Types
  import opened Wrappers

  type Hash = seq<byte> -> seq<byte>

  ghost predicate FixedWidth(h: Hash, width: nat) {
    forall x :: |h(x)| == width
  }

  const DEEP_HASH_LEN := 48

  datatype DeepHashItem = Blob(bytes: seq<byte>) | List(items: seq<DeepHashItem>)

  // ----- Decimal lengths

  /** ASCII decimal digits. */
  function Decimal(n: nat): (digits: seq<byte>)
    ensures |digits| >= 1
  {
    if n < 10 then [48 + n] else Decimal(n / 10) + [48 + n % 10]
  }

  function FromDecimal(digits: seq<byte>): int {
    if digits == [] then 0 else 10 * FromDecimal(digits[..|digits| - 1]) + digits[|digits| - 1] as int - 48
  }

  lemma {:induction false} DecimalRoundTrip(n: nat)
    ensures FromDecimal(Decimal(n)) == n
  {
    if n < 10 {
      assert Decimal(n)[..0] == [];
    } else {
      DecimalRoundTrip(n / 10);
      assert Decimal(n)[..|Decimal(n)| - 1] == Decimal(n / 10);
    }
  }

  lemma DecimalInjective(m: nat, n: nat)
    requires Decimal(m) == Decimal(n)
    ensures m == n
  {
    DecimalRoundTrip(m);
    DecimalRoundTrip(n);
  }

  function Pow10(k: nat): nat {
    if k == 0 then 1 else 10 * Pow10(k - 1)
  }

  lemma {:induction false} DecimalLength(n: nat, k: nat)
    requires k > 0 && n < Pow10(k)
    ensures |Decimal(n)| <= k
  {
    if n >= 10 {
      DecimalLength(n / 10, k - 1);
    }
  }

  lemma U64Digits(n: u64)
    ensures |Decimal(n)| <= 20
  {
    assert Pow10(5) == 100000;
    assert Pow10(10) == 100000_00000;
    assert Pow10(15) == 100000_00000_00000;
    assert Pow10(20) == 100000_00000_00000_00000;
    DecimalLength(n, 20);
  }

  // ----- The hash

  const BLOB_TAG: seq<byte> := [98, 108, 111, 98]   // "blob"
  const LIST_TAG: seq<byte> := [108, 105, 115, 116] // "list"

  function BlobTag(len: nat): seq<byte> {
    BLOB_TAG + Decimal(len)
  }

  function ListTag(len: nat): seq<byte> {
    LIST_TAG + Decimal(len)
  }

  function DeepHashSpec(h: Hash, item: DeepHashItem): seq<byte>
    decreases item
  {
    match item
    case Blob(bytes) => h(h(BlobTag(|bytes|)) + h(bytes))
    case List(items) => FoldItems(h, items, |items|)
  }

  /** The accumulator after the first `n` children. */
  function FoldItems(h: Hash, items: seq<DeepHashItem>, n: nat): seq<byte>
    requires n <= |items|
    decreases items, n
  {
    if n == 0 then h(ListTag(|items|))
    else h(FoldItems(h, items, n - 1) + DeepHashSpec(h, items[n - 1]))
  }

  method DeepHash(h: Hash, item: DeepHashItem) returns (digest: seq<byte>)
    ensures digest == DeepHashSpec(h, item)
    decreases item
  {
    match item {
      case Blob(bytes) =>
        var tagged := h(BlobTag(|bytes|));
        var dataHash := h(bytes);
        digest := h(tagged + dataHash);
      case List(items) =>
        digest := h(ListTag(|items|));
        for i := 0 to |items|
          invariant digest == FoldItems(h, items, i)
        {
          var child := DeepHash(h, items[i]);
          digest := h(digest + child);
        }
    }
  }

  /** Folding digests that were computed elsewhere. */
  function FoldDigests(h: Hash, digests: seq<seq<byte>>, n: nat): seq<byte>
    requires n <= |digests|
  {
    if n == 0 then h(ListTag(|digests|)) else h(FoldDigests(h, digests, n - 1) + digests[n - 1])
  }

  method DeepHashListOf(h: Hash, children: seq<seq<byte>>) returns (digest: seq<byte>)
    ensures digest == FoldDigests(h, children, |children|)
  {
    digest := h(ListTag(|children|));
    for i := 0 to |children|
      invariant digest == FoldDigests(h, children, i)
    {
      digest := h(digest + children[i]);
    }
  }

  /** Folding the children's digests is hashing the list. */
  lemma {:induction false} FoldMatches(h: Hash, items: seq<DeepHashItem>, digests: seq<seq<byte>>, n: nat)
    requires n <= |items| == |digests|
    requires forall i | 0 <= i < |items| :: digests[i] == DeepHashSpec(h, items[i])
    ensures FoldDigests(h, digests, n) == FoldItems(h, items, n)
  {
    if n > 0 {
      FoldMatches(h, items, digests, n - 1);
    }
  }

  // ----- Streaming a blob

  /** One read: some bytes (none at the end of the stream) or a failure. After the
      listed reads the stream is at its end. */
  datatype Read = Chunk(bytes: seq<byte>) | Fail

  /** Everything the reader yields before its end, or the failure that cut it short. */
  function Drain(stream: seq<Read>): Result<seq<byte>, Ans104Error> {
    if stream == [] then Ok([])
    else
      match stream[0]
      case Fail => Err(Io("read failed"))
      case Chunk(bytes) =>
        if bytes == [] then Ok([])
        else
          var rest :- Drain(stream[1..]);
          Ok(bytes + rest)
  }

  /** Hash a blob chunk by chunk: the in-memory digest when the stream holds exactly
      the declared number of bytes, an error otherwise, however it is split. */
  method DeepHashBlobReader(h: Hash, stream: seq<Read>, len: u64) returns (r: Result<seq<byte>, Ans104Error>)
    ensures r.Ok? <==> Drain(stream).Ok? && |Drain(stream).value| == len
    ensures r.Ok? ==> r.value == DeepHashSpec(h, Blob(Drain(stream).value))
    ensures r.Err? ==> r.error.Io?
  {
    var tagged := h(BlobTag(len));
    var hashed: seq<byte> := [];
    var seen := 0;
    var i := 0;
    assert stream[0..] == stream;
    assert Drain(stream).Ok? ==> [] + Drain(stream).value == Drain(stream).value;
    while true
      invariant i <= |stream| && seen == |hashed| <= len
      invariant Drain(stream) == match Drain(stream[i..]) case Err(e) => Err(e) case Ok(rest) => Ok(hashed + rest)
      decreases |stream| - i
    {
      if i == |stream| {
        break;
      }
      if stream[i].Fail? {
        return Err(Io("read failed"));
      }
      var chunk := stream[i].bytes;
      if chunk == [] {
        break;
      }
      assert stream[i..][1..] == stream[i + 1..];
      assert Drain(stream[i + 1..]).Ok? ==>
        hashed + (chunk + Drain(stream[i + 1..]).value) == (hashed + chunk) + Drain(stream[i + 1..]).value;
      i := i + 1;
      if seen + |chunk| > U64_MAX {
        return Err(Io("payload length overflow"));
      }
      seen := seen + |chunk|;
      if seen > len {
        return Err(Io("stream yielded more than the declared bytes"));
      }
      hashed := hashed + chunk;
    }
    assert hashed + [] == hashed;
    if seen != len {
      return Err(Io("stream yielded fewer than the declared bytes"));
    }
    return Ok(h(tagged + h(hashed)));
  }

  // ----- Binding

  /** Lengths fit 64 bits at every level. */
  ghost predicate Sized(item: DeepHashItem) {
    match item
    case Blob(bytes) => |bytes| <= U64_MAX
    case List(items) => |items| <= U64_MAX && forall i | 0 <= i < |items| :: Sized(items[i])
  }

  /** Every string hashed while hashing `item`. */
  ghost function Preimages(h: Hash, item: DeepHashItem): set<seq<byte>>
    decreases item
  {
    match item
    case Blob(bytes) => {BlobTag(|bytes|), bytes, h(BlobTag(|bytes|)) + h(bytes)}
    case List(items) => FoldPreimages(h, items, |items|)
  }

  ghost function FoldPreimages(h: Hash, items: seq<DeepHashItem>, n: nat): set<seq<byte>>
    requires n <= |items|
    decreases items, n
  {
    if n == 0 then {ListTag(|items|)}
    else FoldPreimages(h, items, n - 1) + Preimages(h, items[n - 1])
         + {FoldItems(h, items, n - 1) + DeepHashSpec(h, items[n - 1])}
  }

  /** Different strings with one digest. */
  ghost predicate Collides(h: Hash, x: seq<byte>, y: seq<byte>) {
    x != y && h(x) == h(y)
  }

  lemma SplitPair(a: seq<byte>, b: seq<byte>, c: seq<byte>, d: seq<byte>)
    requires |a| == |c| && a + b == c + d
    ensures a == c && b == d
  {
    assert a == (a + b)[..|a|] && c == (c + d)[..|c|];
    assert b == (a + b)[|a|..] && d == (c + d)[|c|..];
  }

  lemma TagLengths(len: u64)
    ensures |BlobTag(len)| <= 24 && |ListTag(len)| <= 24
  {
    U64Digits(len);
  }

  lemma TagsDiffer(m: nat, n: nat)
    ensures BlobTag(m) != ListTag(n)
  {
    assert BlobTag(m)[0] == 98 && ListTag(n)[0] == 108;
  }

  /** Two blobs with one digest: their pairs, or the blobs themselves, collide. */
  lemma BlobsBind(h: Hash, a: seq<byte>, b: seq<byte>) returns (x: seq<byte>, y: seq<byte>)
    requires FixedWidth(h, DEEP_HASH_LEN) && a != b && DeepHashSpec(h, Blob(a)) == DeepHashSpec(h, Blob(b))
    ensures x in Preimages(h, Blob(a)) && y in Preimages(h, Blob(b)) && Collides(h, x, y)
  {
    hide BlobTag;
    x, y := h(BlobTag(|a|)) + h(a), h(BlobTag(|b|)) + h(b);
    if x == y {
      SplitPair(h(BlobTag(|a|)), h(a), h(BlobTag(|b|)), h(b));
      x, y := a, b;
    }
  }

  /** A blob and a list never share a digest without a collision. */
  lemma BlobListBind(h: Hash, a: seq<byte>, items: seq<DeepHashItem>) returns (x: seq<byte>, y: seq<byte>)
    requires FixedWidth(h, DEEP_HASH_LEN) && |a| <= U64_MAX && |items| <= U64_MAX
    requires DeepHashSpec(h, Blob(a)) == DeepHashSpec(h, List(items))
    ensures x in Preimages(h, Blob(a)) && y in Preimages(h, List(items)) && Collides(h, x, y)
  {
    hide BlobTag, ListTag;
    var n := |items|;
    TagLengths(|a|);
    TagLengths(n);
    x := h(BlobTag(|a|)) + h(a);
    if n == 0 {
      y := ListTag(0);
    } else {
      var acc, child := FoldItems(h, items, n - 1), DeepHashSpec(h, items[n - 1]);
      FoldWidth(h, items, n - 1);
      ItemWidth(h, items[n - 1]);
      y := acc + child;
      if x == y {
        SplitPair(h(BlobTag(|a|)), h(a), acc, child);
        x := BlobTag(|a|);
        y := LastPreimage(h, items, n - 1);
        TagsDiffer(|a|, n);
      }
    }
  }

  lemma ItemWidth(h: Hash, item: DeepHashItem)
    requires FixedWidth(h, DEEP_HASH_LEN)
    ensures |DeepHashSpec(h, item)| == DEEP_HASH_LEN
  {
    match item
    case Blob(bytes) =>
    case List(items) => FoldWidth(h, items, |items|);
  }

  lemma FoldWidth(h: Hash, items: seq<DeepHashItem>, n: nat)
    requires FixedWidth(h, DEEP_HASH_LEN) && n <= |items|
    ensures |FoldItems(h, items, n)| == DEEP_HASH_LEN
  {
  }

  /** The string whose digest is the accumulator: the seed, or a 96-byte pair. */
  lemma LastPreimage(h: Hash, items: seq<DeepHashItem>, n: nat) returns (y: seq<byte>)
    requires FixedWidth(h, DEEP_HASH_LEN) && n <= |items|
    ensures h(y) == FoldItems(h, items, n) && y in FoldPreimages(h, items, n)
    ensures forall m | n <= m <= |items| :: y in FoldPreimages(h, items, m)
    ensures if n == 0 then y == ListTag(|items|) else |y| == 96
  {
    hide ListTag;
    if n == 0 {
      y := ListTag(|items|);
    } else {
      FoldWidth(h, items, n - 1);
      ItemWidth(h, items[n - 1]);
      y := FoldItems(h, items, n - 1) + DeepHashSpec(h, items[n - 1]);
    }
    forall m | n <= m <= |items| ensures y in FoldPreimages(h, items, m) {
      PreimagesGrow(h, items, n, m);
    }
  }

  lemma {:induction false} PreimagesGrow(h: Hash, items: seq<DeepHashItem>, n: nat, m: nat)
    requires n <= m <= |items|
    ensures FoldPreimages(h, items, n) <= FoldPreimages(h, items, m)
    decreases m
  {
    if n < m {
      PreimagesGrow(h, items, n, m - 1);
    }
  }

  /** Equal digests of different items yield a colliding pair of strings, one hashed
      for each item, at any nesting depth. */
  lemma {:induction false} DeepHashBinds(h: Hash, a: DeepHashItem, b: DeepHashItem) returns (x: seq<byte>, y: seq<byte>)
    requires FixedWidth(h, DEEP_HASH_LEN) && Sized(a) && Sized(b)
    requires a != b && DeepHashSpec(h, a) == DeepHashSpec(h, b)
    ensures x in Preimages(h, a) && y in Preimages(h, b) && Collides(h, x, y)
    decreases a, 1, 0
  {
    match (a, b)
    case (Blob(s), Blob(t)) => x, y := BlobsBind(h, s, t);
    case (Blob(s), List(items)) => x, y := BlobListBind(h, s, items);
    case (List(items), Blob(t)) => y, x := BlobListBind(h, t, items);
    case (List(items), List(others)) => x, y := FoldBinds(h, items, |items|, others, |others|);
  }

  /** A seed and a longer fold never share an accumulator without a collision. */
  lemma SeedBinds(h: Hash, items: seq<DeepHashItem>, n: nat, others: seq<DeepHashItem>, m: nat)
      returns (x: seq<byte>, y: seq<byte>)
    requires FixedWidth(h, DEEP_HASH_LEN) && |items| <= U64_MAX && |others| <= U64_MAX
    requires n <= |items| && m <= |others| && n != m && (n == 0 || m == 0)
    requires FoldItems(h, items, n) == FoldItems(h, others, m)
    ensures x in FoldPreimages(h, items, n) && y in FoldPreimages(h, others, m) && Collides(h, x, y)
  {
    hide FoldItems, FoldPreimages, FixedWidth, ListTag;
    x := LastPreimage(h, items, n);
    y := LastPreimage(h, others, m);
    TagLengths(|items|);
    TagLengths(|others|);
  }

  /** Equal accumulators come from equal pairs, or from colliding ones. */
  lemma PairBinds(h: Hash, items: seq<DeepHashItem>, n: nat, others: seq<DeepHashItem>, m: nat)
      returns (x: seq<byte>, y: seq<byte>)
    requires FixedWidth(h, DEEP_HASH_LEN) && 0 < n <= |items| && 0 < m <= |others|
    requires FoldItems(h, items, n) == FoldItems(h, others, m)
    ensures x in FoldPreimages(h, items, n) && y in FoldPreimages(h, others, m) && h(x) == h(y)
    ensures x == y ==>
      && FoldItems(h, items, n - 1) == FoldItems(h, others, m - 1)
      && DeepHashSpec(h, items[n - 1]) == DeepHashSpec(h, others[m - 1])
  {
    FoldWidth(h, items, n - 1);
    FoldWidth(h, others, m - 1);
    x := FoldItems(h, items, n - 1) + DeepHashSpec(h, items[n - 1]);
    y := FoldItems(h, others, m - 1) + DeepHashSpec(h, others[m - 1]);
    if x == y {
      SplitPair(FoldItems(h, items, n - 1), DeepHashSpec(h, items[n - 1]),
                FoldItems(h, others, m - 1), DeepHashSpec(h, others[m - 1]));
    }
  }

  lemma PreimagesOfChild(h: Hash, items: seq<DeepHashItem>, n: nat)
    requires 0 < n <= |items|
    ensures Preimages(h, items[n - 1]) <= FoldPreimages(h, items, n)
    ensures FoldPreimages(h, items, n - 1) <= FoldPreimages(h, items, n)
  {
  }

  lemma {:induction false} FoldBinds(h: Hash, items: seq<DeepHashItem>, n: nat, others: seq<DeepHashItem>, m: nat)
      returns (x: seq<byte>, y: seq<byte>)
    requires FixedWidth(h, DEEP_HASH_LEN) && Sized(List(items)) && Sized(List(others))
    requires n <= |items| && m <= |others| && |items| - n == |others| - m
    requires items[..n] != others[..m] && FoldItems(h, items, n) == FoldItems(h, others, m)
    ensures x in FoldPreimages(h, items, n) && y in FoldPreimages(h, others, m) && Collides(h, x, y)
    decreases items, 0, n
  {
    hide FoldItems, FoldPreimages, FixedWidth, Preimages, DeepHashSpec;
    assert items[..0] == others[..0];
    if n == 0 || m == 0 {
      x, y := SeedBinds(h, items, n, others, m);
    } else {
      x, y := PairBinds(h, items, n, others, m);
      if x == y {
        PreimagesOfChild(h, items, n);
        PreimagesOfChild(h, others, m);
        if items[n - 1] != others[m - 1] {
          x, y := DeepHashBinds(h, items[n - 1], others[m - 1]);
        } else {
          assert items[..n] == items[..n - 1] + [items[n - 1]] && others[..m] == others[..m - 1] + [others[m - 1]];
          x, y := FoldBinds(h, items, n - 1, others, m - 1);
        }
      }
    }
  }
}
