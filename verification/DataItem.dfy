/** The ANS-104 data item: its framing, its serialiser and its parser. */
module DataItem {
  import opened Bytes
  import opened Tags
  import opened Ans104Types
  import opened Wrappers

  datatype UnsignedDataItem = UnsignedDataItem(
    signatureType: u16,
    owner: seq<byte>,
    target: Option<bytes32>,
    anchor: Option<bytes32>,
    tags: seq<Tag>,
    data: seq<byte>)

  datatype SignedEnvelope = SignedEnvelope(
    signatureType: u16,
    signature: seq<byte>,
    id: seq<byte>,
    target: Option<bytes32>,
    anchor: Option<bytes32>,
    tagBytes: seq<byte>)

  datatype DataItemView = DataItemView(item: UnsignedDataItem, signature: seq<byte>, id: seq<byte>)

  /** The fields as they lie on the wire, tags still encoded. */
  datatype RawItem = RawItem(
    signatureType: u16,
    signature: seq<byte>,
    owner: seq<byte>,
    target: Option<bytes32>,
    anchor: Option<bytes32>,
    tagCount: nat,
    tagBlob: seq<byte>,
    data: seq<byte>)

  // ----- The layout

  function OptionalBytes(field: Option<bytes32>): seq<byte> {
    match field
    case None => [0]
    case Some(bs) => [1] + bs
  }

  function FrameBytes(raw: RawItem): seq<byte> {
    LittleEndian(raw.signatureType, 2)
    + (raw.signature
       + (raw.owner
          + (OptionalBytes(raw.target)
             + (OptionalBytes(raw.anchor)
                + (LittleEndian(raw.tagCount, 8)
                   + (LittleEndian(|raw.tagBlob|, 8)
                      + (raw.tagBlob + raw.data)))))))
  }

  /** Signature and owner have their type's lengths and the tag block fits. */
  ghost predicate WellFramed(raw: RawItem) {
    && SigConfigOf(raw.signatureType).Ok?
    && |raw.signature| == SigConfigOf(raw.signatureType).value.signatureLen
    && |raw.owner| == SigConfigOf(raw.signatureType).value.ownerLen
    && |raw.tagBlob| <= MAX_TAG_BYTES
  }

  // ----- Serialising

  /** Check the invariants the framing depends on. */
  function ValidateSpec(item: UnsignedDataItem): Result<SigConfig, Ans104Error> {
    var cfg :- SigConfigOf(item.signatureType);
    if |item.owner| != cfg.ownerLen then Err(FieldLength("owner", |item.owner|, cfg.ownerLen))
    else
      var _ :- EncodeTagsSpec(item.tags);
      Ok(cfg)
  }

  function RawOf(item: UnsignedDataItem, signature: seq<byte>): RawItem
  {
    RawItem(item.signatureType, signature, item.owner, item.target, item.anchor,
            |item.tags|, TagBlock(item.tags), item.data)
  }

  function SerializeSpec(item: UnsignedDataItem, signature: seq<byte>): Result<seq<byte>, Ans104Error> {
    var cfg :- SigConfigOf(item.signatureType);
    if |signature| != cfg.signatureLen then Err(FieldLength("signature", |signature|, cfg.signatureLen))
    else
      var _ :- EncodeTagsSpec(item.tags);
      Ok(FrameBytes(RawOf(item, signature)))
  }

  /** Append a presence flag and the field it announces. */
  method PushOptional(out: seq<byte>, field: Option<bytes32>) returns (r: seq<byte>)
    ensures r == out + OptionalBytes(field)
  {
    match field {
      case Some(bs) =>
        r := out + [1];
        r := r + bs;
      case None =>
        r := out + [0];
    }
  }

  lemma Flatten(a: seq<byte>, b: seq<byte>, c: seq<byte>, d: seq<byte>, e: seq<byte>,
                f: seq<byte>, g: seq<byte>, h: seq<byte>, i: seq<byte>)
    ensures a + b + c + d + e + f + g + h + i == a + (b + (c + (d + (e + (f + (g + (h + i)))))))
  {
    assert f + g + h + i == f + (g + (h + i));
    assert a + b + c + d + e + f + g + h + i == a + b + c + d + e + (f + g + h + i);
    assert a + b + c + d + e + (f + g + h + i) == a + (b + (c + (d + (e + (f + g + h + i)))));
  }

  method Serialize(item: UnsignedDataItem, signature: seq<byte>) returns (r: Result<seq<byte>, Ans104Error>)
    requires Representable(item.tags)
    ensures r == SerializeSpec(item, signature)
  {
    hide LittleEndian, OptionalBytes, TagBlock, SigConfigOf, Representable;
    var cfg := SigConfigOf(item.signatureType);
    if cfg.Err? {
      return Err(cfg.error);
    }
    if |signature| != cfg.value.signatureLen {
      return Err(FieldLength("signature", |signature|, cfg.value.signatureLen));
    }
    var blob := EncodeTags(item.tags);
    if blob.Err? {
      return Err(blob.error);
    }
    var out := LittleEndian(item.signatureType, 2);
    out := out + signature;
    out := out + item.owner;
    out := PushOptional(out, item.target);
    out := PushOptional(out, item.anchor);
    out := out + LittleEndian(|item.tags|, 8);
    out := out + LittleEndian(|blob.value|, 8);
    out := out + blob.value;
    out := out + item.data;
    Flatten(LittleEndian(item.signatureType, 2), signature, item.owner, OptionalBytes(item.target),
            OptionalBytes(item.anchor), LittleEndian(|item.tags|, 8), LittleEndian(|blob.value|, 8),
            blob.value, item.data);
    assert out == FrameBytes(RawOf(item, signature));
    return Ok(out);
  }

  function ReconstructPrefixSpec(envelope: SignedEnvelope, owner: seq<byte>): Result<seq<byte>, Ans104Error> {
    var cfg :- SigConfigOf(envelope.signatureType);
    if |envelope.signature| != cfg.signatureLen then
      Err(FieldLength("signature", |envelope.signature|, cfg.signatureLen))
    else if |owner| != cfg.ownerLen then Err(FieldLength("owner", |owner|, cfg.ownerLen))
    else if |envelope.tagBytes| > MAX_TAG_BYTES then Err(InvalidTags("tag byte-length exceeds 4096"))
    else
      var tags :- DecodeTagsSpec(envelope.tagBytes);
      Ok(FrameBytes(RawItem(envelope.signatureType, envelope.signature, owner, envelope.target,
                            envelope.anchor, |tags|, envelope.tagBytes, [])))
  }

  // ----- Parsing

  /** The first `n` bytes and the rest. */
  function Take(bs: seq<byte>, n: nat): (r: Result<(seq<byte>, seq<byte>), Ans104Error>)
    ensures r.Ok? ==> |r.value.0| == n && bs == r.value.0 + r.value.1
  {
    if n > |bs| then Err(Malformed("truncated data item")) else Ok((bs[..n], bs[n..]))
  }

  function TakeNumber(bs: seq<byte>, len: nat): Result<(nat, seq<byte>), Ans104Error> {
    var (field, rest) :- Take(bs, len);
    Ok((FromLittleEndian(field), rest))
  }

  function TakeOptional(bs: seq<byte>): Result<(Option<bytes32>, seq<byte>), Ans104Error> {
    var (flag, rest) :- Take(bs, 1);
    if flag[0] == 0 then Ok((None, rest))
    else if flag[0] == 1 then
      var (field, rest) :- Take(rest, 32);
      Ok((Some(field), rest))
    else Err(Malformed("invalid presence flag"))
  }

  function TakeType(bs: seq<byte>): Result<(u16, seq<byte>), Ans104Error> {
    var (signatureType, rest) :- TakeNumber(bs, 2);
    if signatureType < 0x1_0000 then Ok((signatureType, rest)) else Err(Malformed("not a u16"))
  }

  function TakeU64(bs: seq<byte>): Result<(u64, seq<byte>), Ans104Error> {
    var (n, rest) :- TakeNumber(bs, 8);
    if n <= U64_MAX then Ok((n, rest)) else Err(Malformed("not a u64"))
  }

  /** The declared tag count, the tag block, and the payload after it. */
  function TakeTags(bs: seq<byte>): Result<(u64, seq<byte>, seq<byte>), Ans104Error> {
    var (tagCount, bs) :- TakeU64(bs);
    var (tagLen, bs) :- TakeU64(bs);
    if tagLen > MAX_TAG_BYTES then Err(InvalidTags("tag byte-length exceeds 4096"))
    else
      var (tagBlob, bs) :- Take(bs, tagLen);
      Ok((tagCount, tagBlob, bs))
  }

  function ParseFrame(bs: seq<byte>): Result<RawItem, Ans104Error> {
    var (signatureType, bs) :- TakeType(bs);
    var cfg :- SigConfigOf(signatureType);
    var (signature, bs) :- Take(bs, cfg.signatureLen);
    var (owner, bs) :- Take(bs, cfg.ownerLen);
    var (target, bs) :- TakeOptional(bs);
    var (anchor, bs) :- TakeOptional(bs);
    var (tagCount, tagBlob, data) :- TakeTags(bs);
    Ok(RawItem(signatureType, signature, owner, target, anchor, tagCount, tagBlob, data))
  }

  /** Parsing: the frame, then its tag block, whose entry count must be the declared one. */
  function ParseSpec(sha256: seq<byte> -> seq<byte>, bs: seq<byte>): Result<DataItemView, Ans104Error> {
    var raw :- ParseFrame(bs);
    var tags :- DecodeTagsSpec(raw.tagBlob);
    if |tags| != raw.tagCount then Err(InvalidTags("declared tag count does not match decoded entries"))
    else Ok(DataItemView(
      UnsignedDataItem(raw.signatureType, raw.owner, raw.target, raw.anchor, tags, raw.data),
      raw.signature, sha256(raw.signature)))
  }

  /** A forward-only reader over the item's bytes. */
  class Cursor {
    const bytes: seq<byte>
    var pos: nat

    ghost predicate Valid()
      reads this
    {
      pos <= |bytes|
    }

    ghost function Rest(): seq<byte>
      requires Valid()
      reads this
    {
      bytes[pos..]
    }

    constructor (bytes: seq<byte>)
      ensures Valid() && this.bytes == bytes && Rest() == bytes
    {
      this.bytes := bytes;
      pos := 0;
    }

    /** Read `len` bytes, or report truncation and stay put. */
    method ReadBytes(len: nat) returns (r: Result<seq<byte>, Ans104Error>)
      requires Valid()
      modifies this
      ensures Valid()
      ensures match Take(old(Rest()), len)
              case Ok((field, rest)) => r == Ok(field) && Rest() == rest
              case Err(e) => r == Err(e) && Rest() == old(Rest())
    {
      var end := pos + len;
      if end > |bytes| {
        return Err(Malformed("truncated data item"));
      }
      assert bytes[pos..][..len] == bytes[pos..end];
      r := Ok(bytes[pos..end]);
      pos := end;
    }

    method ReadU16Le() returns (r: Result<u16, Ans104Error>)
      requires Valid()
      modifies this
      ensures Valid()
      ensures match TakeType(old(Rest()))
              case Ok((n, rest)) => r == Ok(n) && Rest() == rest
              case Err(e) => r == Err(e)
    {
      hide FromLittleEndian;
      var b := ReadBytes(2);
      if b.Err? {
        return Err(b.error);
      }
      NumberBound(b.value);
      Capacities();
      return Ok(FromLittleEndian(b.value));
    }

    method ReadU64Le() returns (r: Result<u64, Ans104Error>)
      requires Valid()
      modifies this
      ensures Valid()
      ensures match TakeU64(old(Rest()))
              case Ok((n, rest)) => r == Ok(n) && Rest() == rest
              case Err(e) => r == Err(e)
    {
      hide FromLittleEndian;
      var b := ReadBytes(8);
      if b.Err? {
        return Err(b.error);
      }
      NumberBound(b.value);
      Capacities();
      return Ok(FromLittleEndian(b.value));
    }

    method ReadOptional32() returns (r: Result<Option<bytes32>, Ans104Error>)
      requires Valid()
      modifies this
      ensures Valid()
      ensures match TakeOptional(old(Rest()))
              case Ok((field, rest)) => r == Ok(field) && Rest() == rest
              case Err(e) => r == Err(e)
    {
      var flag := ReadBytes(1);
      if flag.Err? {
        return Err(flag.error);
      }
      if flag.value[0] == 0 {
        return Ok(None);
      } else if flag.value[0] == 1 {
        var b := ReadBytes(32);
        if b.Err? {
          return Err(b.error);
        }
        return Ok(Some(b.value));
      } else {
        return Err(Malformed("invalid presence flag"));
      }
    }

    method TakeRest() returns (rest: seq<byte>)
      requires Valid()
      modifies this
      ensures Valid() && rest == old(Rest()) && Rest() == []
    {
      rest := bytes[pos..];
      pos := |bytes|;
    }
  }

  lemma NumberBound(bs: seq<byte>)
    ensures FromLittleEndian(bs) < Capacity(|bs|)
  {
    FromLittleEndianRoundTrip(bs);
  }

  method ReadTagFields(cursor: Cursor) returns (r: Result<(u64, seq<byte>), Ans104Error>)
    requires cursor.Valid()
    modifies cursor
    ensures cursor.Valid()
    ensures match TakeTags(old(cursor.Rest()))
            case Ok((count, blob, rest)) => r == Ok((count, blob)) && cursor.Rest() == rest
            case Err(e) => r == Err(e)
  {
    hide Take, TakeU64;
    var tagCount :- cursor.ReadU64Le();
    var tagLen :- cursor.ReadU64Le();
    if tagLen > MAX_TAG_BYTES {
      return Err(InvalidTags("tag byte-length exceeds 4096"));
    }
    var tagBlob :- cursor.ReadBytes(tagLen);
    return Ok((tagCount, tagBlob));
  }

  method ParseFrameFields(bytes: seq<byte>) returns (r: Result<RawItem, Ans104Error>)
    ensures r == ParseFrame(bytes)
  {
    hide Take, TakeType, TakeTags, TakeOptional, SigConfigOf;
    var cursor := new Cursor(bytes);
    var signatureType :- cursor.ReadU16Le();
    var cfg :- SigConfigOf(signatureType);
    var signature :- cursor.ReadBytes(cfg.signatureLen);
    var owner :- cursor.ReadBytes(cfg.ownerLen);
    var target :- cursor.ReadOptional32();
    var anchor :- cursor.ReadOptional32();
    var tagFields :- ReadTagFields(cursor);
    var data := cursor.TakeRest();
    return Ok(RawItem(signatureType, signature, owner, target, anchor, tagFields.0, tagFields.1, data));
  }

  method Parse(sha256: seq<byte> -> seq<byte>, bytes: seq<byte>) returns (r: Result<DataItemView, Ans104Error>)
    ensures r == ParseSpec(sha256, bytes)
  {
    hide ParseFrame, DecodeTagsSpec;
    var raw :- ParseFrameFields(bytes);
    var tags :- DecodeTags(raw.tagBlob);
    if |tags| != raw.tagCount {
      return Err(InvalidTags("declared tag count does not match decoded entries"));
    }
    var item := UnsignedDataItem(raw.signatureType, raw.owner, raw.target, raw.anchor, tags, raw.data);
    return Ok(DataItemView(item, raw.signature, sha256(raw.signature)));
  }

  method ReconstructPrefix(envelope: SignedEnvelope, owner: seq<byte>) returns (r: Result<seq<byte>, Ans104Error>)
    ensures r == ReconstructPrefixSpec(envelope, owner)
  {
    hide LittleEndian, OptionalBytes, DecodeTagsSpec, SigConfigOf;
    var cfg :- SigConfigOf(envelope.signatureType);
    if |envelope.signature| != cfg.signatureLen {
      return Err(FieldLength("signature", |envelope.signature|, cfg.signatureLen));
    }
    if |owner| != cfg.ownerLen {
      return Err(FieldLength("owner", |owner|, cfg.ownerLen));
    }
    if |envelope.tagBytes| > MAX_TAG_BYTES {
      return Err(InvalidTags("tag byte-length exceeds 4096"));
    }
    var tags :- DecodeTags(envelope.tagBytes);
    var out := LittleEndian(envelope.signatureType, 2);
    out := out + envelope.signature;
    out := out + owner;
    out := PushOptional(out, envelope.target);
    out := PushOptional(out, envelope.anchor);
    out := out + LittleEndian(|tags|, 8);
    out := out + LittleEndian(|envelope.tagBytes|, 8);
    out := out + envelope.tagBytes;
    Flatten(LittleEndian(envelope.signatureType, 2), envelope.signature, owner, OptionalBytes(envelope.target),
            OptionalBytes(envelope.anchor), LittleEndian(|tags|, 8), LittleEndian(|envelope.tagBytes|, 8),
            envelope.tagBytes, []);
    assert out + [] == out;
    assert out == FrameBytes(RawItem(envelope.signatureType, envelope.signature, owner, envelope.target,
                                     envelope.anchor, |tags|, envelope.tagBytes, []));
    return Ok(out);
  }
}
