/** Signing a data item in memory and from a stream, and what its signature commits to. */
module Signing {
  import opened Bytes
  import opened Tags
  import opened TagTheorems
  import opened DataItem
  import opened DataItemTheorems
  import opened DeepHashing
  import opened Ans104Types
  import opened Wrappers

  /** The key, with whatever signature it produces for a message. */
  datatype Signer = Signer(signatureType: u16, owner: seq<byte>, sign: seq<byte> -> Result<seq<byte>, Ans104Error>)

  datatype SignedDataItem = SignedDataItem(item: UnsignedDataItem, signature: seq<byte>, id: seq<byte>,
                                           bytes: seq<byte>)

  const DATAITEM: seq<byte> := [100, 97, 116, 97, 105, 116, 101, 109] // "dataitem"
  const VERSION: seq<byte> := [49]                                    // "1"

  function OptionalBlob(field: Option<bytes32>): seq<byte> {
    match field
    case None => []
    case Some(bs) => bs
  }

  /** The seven bounded leaves of the signed list. */
  function FixedLeaves(item: UnsignedDataItem): seq<DeepHashItem> {
    [Blob(DATAITEM), Blob(VERSION), Blob(Decimal(item.signatureType)), Blob(item.owner),
     Blob(OptionalBlob(item.target)), Blob(OptionalBlob(item.anchor)), Blob(TagBlock(item.tags))]
  }

  function DeepHashItemOf(item: UnsignedDataItem): DeepHashItem {
    List(FixedLeaves(item) + [Blob(item.data)])
  }

  /** The message a signer signs and a verifier recomputes. */
  function MessageSpec(h: Hash, item: UnsignedDataItem): Result<seq<byte>, Ans104Error> {
    var _ :- EncodeTagsSpec(item.tags);
    Ok(DeepHashSpec(h, DeepHashItemOf(item)))
  }

  function CheckSignatureLength(signature: seq<byte>, expected: nat): Result<seq<byte>, Ans104Error> {
    if |signature| == expected then Ok(signature) else Err(FieldLength("signature", |signature|, expected))
  }

  /** Signing with the whole payload in memory. */
  function SignSpec(h: Hash, sha256: Sha, signer: Signer, item: UnsignedDataItem): Result<SignedDataItem, Ans104Error> {
    var cfg :- ValidateSpec(item);
    var message :- MessageSpec(h, item);
    var signed :- signer.sign(message);
    var signature :- CheckSignatureLength(signed, cfg.signatureLen);
    var bytes :- SerializeSpec(item, signature);
    Ok(SignedDataItem(item, signature, sha256(signature), bytes))
  }

  function EnvelopeOf(signed: SignedDataItem): SignedEnvelope {
    SignedEnvelope(signed.item.signatureType, signed.signature, signed.id, signed.item.target,
                   signed.item.anchor, TagBlock(signed.item.tags))
  }

  function Sealed(r: Result<SignedDataItem, Ans104Error>): Result<SignedEnvelope, Ans104Error> {
    match r
    case Ok(signed) => Ok(EnvelopeOf(signed))
    case Err(e) => Err(e)
  }

  /** The item a signer builds from its key, the bounded fields and a payload. */
  function ItemFor(signer: Signer, target: Option<bytes32>, anchor: Option<bytes32>, tags: seq<Tag>, data: seq<byte>)
      : UnsignedDataItem
  {
    UnsignedDataItem(signer.signatureType, signer.owner, target, anchor, tags, data)
  }

  /** The stream holds exactly the declared number of bytes. */
  ghost predicate HoldsDeclared(stream: seq<Read>, dataLen: u64) {
    Drain(stream).Ok? && |Drain(stream).value| == dataLen
  }

  /** Signing from a stream that holds the declared number of bytes gives what signing
      those bytes in memory gives, envelope or error, however the stream is split; on
      any other stream it fails, for the reader's reason if the fields are valid. */
  method SignStreaming(h: Hash, sha256: Sha, signer: Signer, target: Option<bytes32>, anchor: Option<bytes32>,
      tags: seq<Tag>, stream: seq<Read>, dataLen: u64) returns (r: Result<SignedEnvelope, Ans104Error>)
    requires Representable(tags)
    ensures HoldsDeclared(stream, dataLen) ==>
      r == Sealed(SignSpec(h, sha256, signer, ItemFor(signer, target, anchor, tags, Drain(stream).value)))
    ensures !HoldsDeclared(stream, dataLen) ==>
      r.Err? && (ValidateSpec(ItemFor(signer, target, anchor, tags, [])).Ok? ==> r.error.Io?)
  {
    hide Drain, DeepHashSpec, TagBlock, Decimal, FoldDigests, FrameBytes, SigConfigOf, Representable;
    var cfg := SigConfigOf(signer.signatureType);
    if cfg.Err? {
      return Err(cfg.error);
    }
    if |signer.owner| != cfg.value.ownerLen {
      return Err(FieldLength("owner", |signer.owner|, cfg.value.ownerLen));
    }
    var tagBytes := EncodeTags(tags);
    if tagBytes.Err? {
      return Err(tagBytes.error);
    }
    var children := HashLeaves(h, FixedLeaves(ItemFor(signer, target, anchor, tags, [])));
    var dataLeaf := DeepHashBlobReader(h, stream, dataLen);
    if dataLeaf.Err? {
      return Err(dataLeaf.error);
    }
    ghost var item := ItemFor(signer, target, anchor, tags, Drain(stream).value);
    var message := DeepHashListOf(h, children + [dataLeaf.value]);
    MessageFromLeaves(h, item, children, dataLeaf.value);
    var signed := signer.sign(message);
    if signed.Err? {
      return Err(signed.error);
    }
    if |signed.value| != cfg.value.signatureLen {
      return Err(FieldLength("signature", |signed.value|, cfg.value.signatureLen));
    }
    return Ok(SignedEnvelope(signer.signatureType, signed.value, sha256(signed.value), target, anchor, tagBytes.value));
  }

  method HashLeaves(h: Hash, leaves: seq<DeepHashItem>) returns (digests: seq<seq<byte>>)
    ensures |digests| == |leaves| && forall i | 0 <= i < |leaves| :: digests[i] == DeepHashSpec(h, leaves[i])
  {
    digests := [];
    for i := 0 to |leaves|
      invariant |digests| == i && forall j | 0 <= j < i :: digests[j] == DeepHashSpec(h, leaves[j])
    {
      var digest := DeepHash(h, leaves[i]);
      digests := digests + [digest];
    }
  }

  lemma MessageFromLeaves(h: Hash, item: UnsignedDataItem, children: seq<seq<byte>>, dataLeaf: seq<byte>)
    requires |children| == |FixedLeaves(item)|
    requires forall i | 0 <= i < |children| :: children[i] == DeepHashSpec(h, FixedLeaves(item)[i])
    requires dataLeaf == DeepHashSpec(h, Blob(item.data))
    ensures FoldDigests(h, children + [dataLeaf], |children| + 1) == DeepHashSpec(h, DeepHashItemOf(item))
  {
    var items := FixedLeaves(item) + [Blob(item.data)];
    assert DeepHashItemOf(item) == List(items);
    hide FixedLeaves, DeepHashItemOf, DeepHashSpec, FoldDigests, FoldItems;
    var digests := children + [dataLeaf];
    forall i | 0 <= i < |items| ensures digests[i] == DeepHashSpec(h, items[i]) {
      assert i < |children| ==> digests[i] == children[i] && items[i] == FixedLeaves(item)[i];
    }
    FoldMatches(h, items, digests, |items|);
    ListDigest(h, items);
  }

  lemma ListDigest(h: Hash, items: seq<DeepHashItem>)
    ensures DeepHashSpec(h, List(items)) == FoldItems(h, items, |items|)
  {
  }

  /** The reconstructed prefix followed by the payload is the signed item's bytes. */
  lemma PrefixCompletes(h: Hash, sha256: Sha, signer: Signer, item: UnsignedDataItem)
    ensures SignSpec(h, sha256, signer, item).Ok? ==>
      var signed := SignSpec(h, sha256, signer, item).value;
      && ReconstructPrefixSpec(EnvelopeOf(signed), item.owner).Ok?
      && ReconstructPrefixSpec(EnvelopeOf(signed), item.owner).value + item.data == signed.bytes
  {
    hide DeepHashSpec, TagBlock, Decimal, DecodeTagsSpec, LittleEndian, OptionalBytes, SigConfigOf;
    if SignSpec(h, sha256, signer, item).Ok? {
      var signed := SignSpec(h, sha256, signer, item).value;
      EncodedTags(item.tags);
      BlockRoundTrip(item.tags);
      FrameAppend(RawOf(item, signed.signature), item.data);
    }
  }

  lemma FrameAppend(raw: RawItem, data: seq<byte>)
    ensures FrameBytes(raw.(data := [])) + data == FrameBytes(raw.(data := data))
  {
    hide LittleEndian, OptionalBytes;
    Flatten(LittleEndian(raw.signatureType, 2), raw.signature, raw.owner, OptionalBytes(raw.target),
            OptionalBytes(raw.anchor), LittleEndian(raw.tagCount, 8), LittleEndian(|raw.tagBlob|, 8), raw.tagBlob, []);
    Flatten(LittleEndian(raw.signatureType, 2), raw.signature, raw.owner, OptionalBytes(raw.target),
            OptionalBytes(raw.anchor), LittleEndian(raw.tagCount, 8), LittleEndian(|raw.tagBlob|, 8),
            raw.tagBlob, data);
  }

  // ----- What the signature commits to

  /** The fields of an item can be read off its signed structure. */
  lemma StructureDeterminesItem(a: UnsignedDataItem, b: UnsignedDataItem)
    requires EncodeTagsSpec(a.tags).Ok? && EncodeTagsSpec(b.tags).Ok?
    requires DeepHashItemOf(a) == DeepHashItemOf(b)
    ensures a == b
  {
    hide TagBlock, Decimal;
    var la, lb := DeepHashItemOf(a).items, DeepHashItemOf(b).items;
    assert la[2] == lb[2] && la[3] == lb[3] && la[4] == lb[4];
    assert la[5] == lb[5] && la[6] == lb[6] && la[7] == lb[7];
    DecimalInjective(a.signatureType, b.signatureType);
    EncodingInjective(a.tags, b.tags);
  }

  lemma ItemSized(item: UnsignedDataItem)
    requires EncodeTagsSpec(item.tags).Ok? && |item.owner| <= U64_MAX && |item.data| <= U64_MAX
    ensures Sized(DeepHashItemOf(item))
  {
    hide TagBlock, Decimal;
    U64Digits(item.signatureType);
    forall i | 0 <= i < |DeepHashItemOf(item).items| ensures Sized(DeepHashItemOf(item).items[i]) {
      assert DeepHashItemOf(item).items[i].Blob?;
    }
  }

  /** Two different valid items with one signed message contain a collision of the
      hash, among the strings hashed for them: any change to any field changes what
      is signed. */
  lemma SignatureCommits(h: Hash, a: UnsignedDataItem, b: UnsignedDataItem) returns (x: seq<byte>, y: seq<byte>)
    requires FixedWidth(h, DEEP_HASH_LEN) && a != b
    requires |a.owner| <= U64_MAX && |a.data| <= U64_MAX && |b.owner| <= U64_MAX && |b.data| <= U64_MAX
    requires MessageSpec(h, a).Ok? && MessageSpec(h, a) == MessageSpec(h, b)
    ensures x in Preimages(h, DeepHashItemOf(a)) && y in Preimages(h, DeepHashItemOf(b)) && Collides(h, x, y)
  {
    hide DeepHashSpec, DeepHashItemOf, Preimages, Sized;
    if DeepHashItemOf(a) == DeepHashItemOf(b) {
      StructureDeterminesItem(a, b);
    }
    ItemSized(a);
    ItemSized(b);
    x, y := DeepHashBinds(h, DeepHashItemOf(a), DeepHashItemOf(b));
  }
}
