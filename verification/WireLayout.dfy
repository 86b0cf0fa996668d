/** What is on the wire and what is hashed, spelled out: lengths, offsets, ASCII tags,
    and the order in which the signed list holds the fields of the frame. */
module WireLayout {
  import opened Bytes
  import opened Tags
  import opened TagGrammar
  import opened DataItem
  import opened DataItemTheorems
  import opened DeepHashing
  import opened Signing
  import opened Ans104Types
  import opened Wrappers

  // ----- The registered signature types

  /** Arweave, Ed25519, Ethereum, Solana, injected Aptos, multi-signature Aptos, typed
      Ethereum: the signature and owner lengths of each, and no other type. */
  lemma RegisteredTypes(signatureType: u16)
    ensures SigConfigOf(signatureType).Ok? <==> 1 <= signatureType <= 7
    ensures SigConfigOf(signatureType).Err? ==>
      SigConfigOf(signatureType).error == UnsupportedSignatureType(signatureType)
    ensures 1 <= signatureType <= 7 ==>
      && SigConfigOf(signatureType).value.signatureLen == SIGNATURES[signatureType - 1]
      && SigConfigOf(signatureType).value.ownerLen == OWNERS[signatureType - 1]
  {
  }

  const SIGNATURES := [512, 64, 65, 64, 64, 2052, 65]
  const OWNERS := [512, 32, 65, 32, 32, 1025, 42]

  /** An item may be signed exactly when its type is registered, its owner is as long as the
      type says, and its tag block fits; what is wrong first is what is named. */
  lemma ValidatesIff(item: UnsignedDataItem)
    ensures var t, r := item.signatureType, ValidateSpec(item);
      && (r.Ok? <==> 1 <= t <= 7 && |item.owner| == OWNERS[t - 1] && |TagBlock(item.tags)| <= 4096)
      && (!(1 <= t <= 7) ==> r == Err(UnsupportedSignatureType(t)))
      && (1 <= t <= 7 && |item.owner| != OWNERS[t - 1] ==> r == Err(FieldLength("owner", |item.owner|, OWNERS[t - 1])))
      && (1 <= t <= 7 && |item.owner| == OWNERS[t - 1] && r.Err? ==> r.error.InvalidTags?)
  {
    hide SigConfigOf, TagBlock;
    RegisteredTypes(item.signatureType);
  }

  /** It is serialised with any signature as long as its type says, and with no other. */
  lemma SerializesIff(item: UnsignedDataItem, signature: seq<byte>)
    ensures var t, r := item.signatureType, SerializeSpec(item, signature);
      && (r.Ok? <==> 1 <= t <= 7 && |signature| == SIGNATURES[t - 1] && |TagBlock(item.tags)| <= 4096)
      && (!(1 <= t <= 7) ==> r == Err(UnsupportedSignatureType(t)))
      && (1 <= t <= 7 && |signature| != SIGNATURES[t - 1] ==>
            r == Err(FieldLength("signature", |signature|, SIGNATURES[t - 1])))
      && (1 <= t <= 7 && |signature| == SIGNATURES[t - 1] && r.Err? ==> r.error.InvalidTags?)
  {
    hide SigConfigOf, TagBlock, FrameBytes;
    RegisteredTypes(item.signatureType);
  }

  /** A prefix is reconstructed exactly for an envelope that frames an empty payload, with
      a tag block that lists as many tags as the frame counts. */
  lemma ReconstructsIff(sha256: Sha, envelope: SignedEnvelope, owner: seq<byte>, prefix: seq<byte>)
    ensures ReconstructPrefixSpec(envelope, owner) == Ok(prefix) <==>
      exists tags :: Frames(sha256, prefix, EmptyView(sha256, envelope, owner, tags), envelope.tagBytes)
  {
    hide SigConfigOf, FrameBytes, DecodeTagsSpec, Lists;
    if ReconstructPrefixSpec(envelope, owner) == Ok(prefix) {
      var tags := DecodeTagsSpec(envelope.tagBytes).value;
      DecodesIffListed(envelope.tagBytes, tags);
      assert Frames(sha256, prefix, EmptyView(sha256, envelope, owner, tags), envelope.tagBytes);
    }
    if tags :| Frames(sha256, prefix, EmptyView(sha256, envelope, owner, tags), envelope.tagBytes) {
      DecodesIffListed(envelope.tagBytes, tags);
    }
  }

  function EmptyView(sha256: Sha, envelope: SignedEnvelope, owner: seq<byte>, tags: seq<Tag>): DataItemView {
    DataItemView(
      UnsignedDataItem(envelope.signatureType, owner, envelope.target, envelope.anchor, tags, []),
      envelope.signature, sha256(envelope.signature))
  }

  // ----- Offsets in the frame

  function Flagged(field: Option<bytes32>): (bs: seq<byte>)
    ensures |bs| == if field.None? then 1 else 33
    ensures field.None? ==> bs == [0]
    ensures field.Some? ==> bs[0] == 1 && bs[1..] == field.value
  {
    OptionalBytes(field)
  }

  /** A serialised item begins with its type, least significant byte first, then its
      signature, its owner, the flagged target and anchor, the entry count and the byte
      length of the tag block as eight bytes each, the tag block, and ends with the data. */
  lemma FrameOffsets(item: UnsignedDataItem, signature: seq<byte>)
    requires SerializeSpec(item, signature).Ok?
    ensures var bs := SerializeSpec(item, signature).value;
      var owner := 2 + |signature|;
      var target := owner + |item.owner|;
      var anchor := target + |Flagged(item.target)|;
      var tags := anchor + |Flagged(item.anchor)|;
      var data := tags + 16 + |TagBlock(item.tags)|;
      && |bs| == data + |item.data|
      && bs[0] == item.signatureType % 256 && bs[1] == item.signatureType / 256
      && bs[2..owner] == signature
      && bs[owner..target] == item.owner
      && bs[target..anchor] == Flagged(item.target)
      && bs[anchor..tags] == Flagged(item.anchor)
      && FromLittleEndian(bs[tags..tags + 8]) == |item.tags|
      && FromLittleEndian(bs[tags + 8..tags + 16]) == |TagBlock(item.tags)|
      && bs[tags + 16..data] == TagBlock(item.tags)
      && bs[data..] == item.data
  {
    hide FromLittleEndian, TagBlock, OptionalBytes, SigConfigOf, FrameBytes;
    EncodedTags(item.tags);
    RawOffsets(RawOf(item, signature));
    assert Flagged(item.target) == OptionalBytes(item.target) && Flagged(item.anchor) == OptionalBytes(item.anchor);
  }

  lemma RawOffsets(raw: RawItem)
    requires raw.tagCount <= U64_MAX && |raw.tagBlob| <= U64_MAX
    ensures var bs := FrameBytes(raw);
      var owner := 2 + |raw.signature|;
      var target := owner + |raw.owner|;
      var anchor := target + |OptionalBytes(raw.target)|;
      var tags := anchor + |OptionalBytes(raw.anchor)|;
      var data := tags + 16 + |raw.tagBlob|;
      && |bs| == data + |raw.data|
      && bs[0] == raw.signatureType % 256 && bs[1] == raw.signatureType / 256
      && bs[2..owner] == raw.signature
      && bs[owner..target] == raw.owner
      && bs[target..anchor] == OptionalBytes(raw.target)
      && bs[anchor..tags] == OptionalBytes(raw.anchor)
      && FromLittleEndian(bs[tags..tags + 8]) == raw.tagCount
      && FromLittleEndian(bs[tags + 8..tags + 16]) == |raw.tagBlob|
      && bs[tags + 16..data] == raw.tagBlob
      && bs[data..] == raw.data
  {
    hide LittleEndian, FromLittleEndian, OptionalBytes;
    TypeBytes(raw.signatureType);
    CountBytesOf(raw.tagCount);
    CountBytesOf(|raw.tagBlob|);
    Layout(LittleEndian(raw.signatureType, 2), raw.signature, raw.owner, OptionalBytes(raw.target),
           OptionalBytes(raw.anchor), LittleEndian(raw.tagCount, 8), LittleEndian(|raw.tagBlob|, 8),
           raw.tagBlob, raw.data);
  }

  lemma TypeBytes(signatureType: u16)
    ensures LittleEndian(signatureType, 2) == [signatureType % 256, signatureType / 256]
  {
    assert LittleEndian(signatureType / 256, 1) == [signatureType / 256 % 256];
  }

  lemma CountBytesOf(n: u64)
    ensures |LittleEndian(n, 8)| == 8 && FromLittleEndian(LittleEndian(n, 8)) == n
  {
    hide LittleEndian, FromLittleEndian;
    Capacities();
    LittleEndianRoundTrip(n, 8);
  }

  lemma Layout(a: seq<byte>, b: seq<byte>, c: seq<byte>, d: seq<byte>, e: seq<byte>,
               f: seq<byte>, g: seq<byte>, h: seq<byte>, i: seq<byte>)
    requires |a| == 2 && |f| == 8 && |g| == 8
    ensures var bs := a + (b + (c + (d + (e + (f + (g + (h + i)))))));
      var owner := 2 + |b|;
      var target := owner + |c|;
      var anchor := target + |d|;
      var tags := anchor + |e|;
      var data := tags + 16 + |h|;
      && |bs| == data + |i| && bs[0] == a[0] && bs[1] == a[1] && bs[2..owner] == b && bs[owner..target] == c
      && bs[target..anchor] == d && bs[anchor..tags] == e && bs[tags..tags + 8] == f && bs[tags + 8..tags + 16] == g
      && bs[tags + 16..data] == h && bs[data..] == i
  {
  }

  // ----- What is hashed

  /** The codes of an ASCII text. */
  function Ascii(text: string): (bs: seq<int>)
    ensures |bs| == |text|
  {
    seq(|text|, i requires 0 <= i < |text| => text[i] as int)
  }

  lemma AsciiTags()
    ensures BLOB_TAG == Ascii("blob") && LIST_TAG == Ascii("list")
    ensures DATAITEM == Ascii("dataitem") && VERSION == Ascii("1")
  {
  }

  /** Decimal digits of the number, without a leading zero. */
  ghost predicate IsDecimal(digits: seq<byte>, n: nat) {
    && digits != [] && (forall i | 0 <= i < |digits| :: 48 <= digits[i] <= 57)
    && (digits[0] == 48 ==> |digits| == 1) && FromDecimal(digits) == n
  }

  lemma {:induction false} DecimalIsDecimal(n: nat)
    ensures IsDecimal(Decimal(n), n)
    ensures n > 0 ==> Decimal(n)[0] > 48
  {
    hide FromDecimal;
    DecimalRoundTrip(n);
    if n >= 10 {
      DecimalIsDecimal(n / 10);
    }
  }

  /** A leaf is hashed as the digest of its tag next to the digest of its bytes, where the
      tag is "blob" and the length in decimal. */
  lemma LeafLaw(h: Hash, bytes: seq<byte>) returns (digits: seq<byte>)
    ensures IsDecimal(digits, |bytes|)
    ensures DeepHashSpec(h, Blob(bytes)) == h(h(Ascii("blob") + digits) + h(bytes))
  {
    AsciiTags();
    digits := Decimal(|bytes|);
    DecimalIsDecimal(|bytes|);
  }

  /** A list is hashed from the digest of its own tag, "list" and the number of children
      in decimal, by taking in the children's digests on the right, in order. */
  lemma ListLaw(h: Hash, items: seq<DeepHashItem>, n: nat) returns (digits: seq<byte>)
    requires n < |items|
    ensures IsDecimal(digits, |items|)
    ensures FoldItems(h, items, 0) == h(Ascii("list") + digits)
    ensures FoldItems(h, items, n + 1) == h(FoldItems(h, items, n) + DeepHashSpec(h, items[n]))
    ensures DeepHashSpec(h, List(items)) == FoldItems(h, items, |items|)
  {
    AsciiTags();
    digits := Decimal(|items|);
    DecimalIsDecimal(|items|);
  }

  /** The smallest list with an order: two children. */
  lemma PairLaw(h: Hash, a: DeepHashItem, b: DeepHashItem)
    ensures DeepHashSpec(h, List([a, b]))
         == h(h(h(Ascii("list") + Ascii("2")) + DeepHashSpec(h, a)) + DeepHashSpec(h, b))
  {
    hide DeepHashSpec;
    ListUnfolds(h, [a, b]);
    AsciiTags();
    assert Ascii("2") == Decimal(2);
    var digits := ListLaw(h, [a, b], 0);
    digits := ListLaw(h, [a, b], 1);
  }

  lemma ListUnfolds(h: Hash, items: seq<DeepHashItem>)
    ensures DeepHashSpec(h, List(items)) == FoldItems(h, items, |items|)
    ensures FoldItems(h, items, 0) == h(ListTag(|items|))
  {
  }

  /** The signed list of an item: "dataitem", "1", the type in decimal, and then exactly
      the fields of the frame in the frame's order, an absent one as an empty leaf. */
  lemma SignedListFollowsFrame(item: UnsignedDataItem, signature: seq<byte>)
    ensures DeepHashItemOf(item).List? && |DeepHashItemOf(item).items| == 8
    ensures forall i | 0 <= i < 8 :: DeepHashItemOf(item).items[i].Blob?
    ensures var leaves := DeepHashItemOf(item).items;
      && leaves[0].bytes == Ascii("dataitem") && leaves[1].bytes == Ascii("1")
      && IsDecimal(leaves[2].bytes, item.signatureType)
      && FrameBytes(RawOf(item, signature))
         == LittleEndian(item.signatureType, 2) + signature + leaves[3].bytes
            + Present(leaves[4].bytes) + Present(leaves[5].bytes)
            + LittleEndian(|item.tags|, 8) + LittleEndian(|leaves[6].bytes|, 8) + leaves[6].bytes + leaves[7].bytes
  {
    hide Decimal, LittleEndian, TagBlock, IsDecimal;
    AsciiTags();
    DecimalIsDecimal(item.signatureType);
    PresentIs(item.target);
    PresentIs(item.anchor);
    Flatten(LittleEndian(item.signatureType, 2), signature, item.owner, OptionalBytes(item.target),
            OptionalBytes(item.anchor), LittleEndian(|item.tags|, 8), LittleEndian(|TagBlock(item.tags)|, 8),
            TagBlock(item.tags), item.data);
  }

  /** A field as the frame carries it. */
  function Present(field: seq<byte>): seq<byte> {
    if field == [] then [0] else [1] + field
  }

  lemma PresentIs(field: Option<bytes32>)
    ensures Present(OptionalBlob(field)) == OptionalBytes(field)
  {
  }

  // ----- Sign, then parse

  /** A signed item parses back to itself with the id of its signature, and the signature
      is the key's for the very message the parsed item hashes to. */
  lemma SignedItemParses(h: Hash, sha256: Sha, signer: Signer, item: UnsignedDataItem)
    ensures SignSpec(h, sha256, signer, item).Ok? ==>
      var signed := SignSpec(h, sha256, signer, item).value;
      && signed.item == item && signed.id == sha256(signed.signature)
      && EnvelopeOf(signed).signature == signed.signature && EnvelopeOf(signed).id == signed.id
      && ParseSpec(sha256, signed.bytes) == Ok(DataItemView(item, signed.signature, signed.id))
      && signer.sign(DeepHashSpec(h, DeepHashItemOf(item))) == Ok(signed.signature)
  {
    hide DeepHashSpec, DeepHashItemOf, FrameBytes, ParseSpec, TagBlock, SigConfigOf;
    if SignSpec(h, sha256, signer, item).Ok? {
      ParseInvertsSerialize(sha256, item, SignSpec(h, sha256, signer, item).value.signature);
    }
  }

  // ----- Splitting a stream

  function Concat(chunks: seq<seq<byte>>): seq<byte> {
    if chunks == [] then [] else chunks[0] + Concat(chunks[1..])
  }

  function AsReads(chunks: seq<seq<byte>>): seq<Read> {
    if chunks == [] then [] else [Chunk(chunks[0])] + AsReads(chunks[1..])
  }

  /** A stream drains to the payload it was cut from, whatever comes after its end, and a
      failure before the end is the only way it does not drain. */
  lemma {:induction false} DrainsWhatWasSplit(chunks: seq<seq<byte>>, rest: seq<Read>)
    requires forall i | 0 <= i < |chunks| :: chunks[i] != []
    ensures rest == [] || rest[0] == Chunk([]) ==> Drain(AsReads(chunks) + rest) == Ok(Concat(chunks))
    ensures rest != [] && rest[0].Fail? ==> Drain(AsReads(chunks) + rest).Err?
  {
    hide AsReads;
    if chunks == [] {
      NoReads(rest);
    } else {
      StreamStep(chunks, rest);
      var tail := chunks[1..];
      assert forall i | 0 <= i < |tail| :: tail[i] == chunks[i + 1];
      DrainsWhatWasSplit(tail, rest);
      DrainStep(AsReads(chunks) + rest, chunks[0]);
    }
  }

  lemma NoReads(rest: seq<Read>)
    ensures AsReads([]) + rest == rest
  {
  }

  lemma StreamStep(chunks: seq<seq<byte>>, rest: seq<Read>)
    requires chunks != []
    ensures var stream := AsReads(chunks) + rest;
      stream != [] && stream[0] == Chunk(chunks[0]) && stream[1..] == AsReads(chunks[1..]) + rest
  {
    var tail := AsReads(chunks[1..]);
    assert AsReads(chunks) == [Chunk(chunks[0])] + tail;
    hide AsReads;
    TailOf([Chunk(chunks[0])], tail, rest);
  }

  lemma TailOf(first: seq<Read>, tail: seq<Read>, rest: seq<Read>)
    requires |first| == 1
    ensures (first + tail + rest)[0] == first[0] && (first + tail + rest)[1..] == tail + rest
  {
  }

  lemma DrainStep(stream: seq<Read>, chunk: seq<byte>)
    requires stream != [] && stream[0] == Chunk(chunk) && chunk != []
    ensures Drain(stream) == match Drain(stream[1..]) case Ok(more) => Ok(chunk + more) case Err(e) => Err(e)
  {
  }
}
