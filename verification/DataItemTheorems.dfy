/** The parser and the serialiser are inverse, up to the spelling of the tag block. */
module DataItemTheorems {
  import opened Bytes
  import opened Tags
  import opened TagGrammar
  import opened TagTheorems
  import opened DataItem
  import opened Ans104Types
  import opened Wrappers

  type Sha = seq<byte> -> seq<byte>

  // ----- The frame

  lemma TakeFront(a: seq<byte>, b: seq<byte>)
    ensures Take(a + b, |a|) == Ok((a, b))
  {
    assert (a + b)[..|a|] == a && (a + b)[|a|..] == b;
  }

  lemma TakeTypeFront(n: u16, b: seq<byte>)
    ensures TakeType(LittleEndian(n, 2) + b) == Ok((n, b))
  {
    hide LittleEndian, FromLittleEndian, Take;
    TakeFront(LittleEndian(n, 2), b);
    Capacities();
    LittleEndianRoundTrip(n, 2);
  }

  lemma TakeU64Front(n: u64, b: seq<byte>)
    ensures TakeU64(LittleEndian(n, 8) + b) == Ok((n, b))
  {
    hide LittleEndian, FromLittleEndian, Take;
    TakeFront(LittleEndian(n, 8), b);
    Capacities();
    LittleEndianRoundTrip(n, 8);
  }

  lemma TakeOptionalFront(field: Option<bytes32>, b: seq<byte>)
    ensures TakeOptional(OptionalBytes(field) + b) == Ok((field, b))
  {
    match field
    case None => TakeFront([0], b);
    case Some(bs) =>
      assert [1] + bs + b == [1] + (bs + b);
      TakeFront([1], bs + b);
      TakeFront(bs, b);
  }

  /** Parsing a well-framed item's bytes gives back every field. */
  lemma FrameRoundTrip(raw: RawItem)
    requires WellFramed(raw) && raw.tagCount <= U64_MAX
    ensures ParseFrame(FrameBytes(raw)) == Ok(raw)
  {
    hide LittleEndian, Take, TakeType, TakeU64, TakeOptional, OptionalBytes, SigConfigOf;
    var rest8 := raw.tagBlob + raw.data;
    var rest7 := LittleEndian(|raw.tagBlob|, 8) + rest8;
    var rest6 := LittleEndian(raw.tagCount, 8) + rest7;
    var rest5 := OptionalBytes(raw.anchor) + rest6;
    var rest4 := OptionalBytes(raw.target) + rest5;
    var rest3 := raw.owner + rest4;
    TakeTypeFront(raw.signatureType, raw.signature + rest3);
    TakeFront(raw.signature, rest3);
    TakeFront(raw.owner, rest4);
    TakeOptionalFront(raw.target, rest5);
    TakeOptionalFront(raw.anchor, rest6);
    TakeU64Front(raw.tagCount, rest7);
    TakeU64Front(|raw.tagBlob|, rest8);
    TakeFront(raw.tagBlob, raw.data);
  }

  lemma TakenNumber(bs: seq<byte>, len: nat)
    ensures TakeNumber(bs, len).Ok? ==>
      var (n, rest) := TakeNumber(bs, len).value;
      bs == LittleEndian(n, len) + rest && n < Capacity(len)
  {
    hide LittleEndian, FromLittleEndian;
    if TakeNumber(bs, len).Ok? {
      FromLittleEndianRoundTrip(bs[..len]);
    }
  }

  lemma TakenOptional(bs: seq<byte>)
    ensures TakeOptional(bs).Ok? ==>
      var (field, rest) := TakeOptional(bs).value; bs == OptionalBytes(field) + rest
  {
    if TakeOptional(bs).Ok? {
      assert bs[..1] == [bs[0]] && bs == [bs[0]] + bs[1..];
      if bs[0] == 1 {
        Rejoined(bs[1..], 32);
      }
    }
  }

  lemma Rejoined(bs: seq<byte>, n: nat)
    requires n <= |bs|
    ensures [1] + bs == ([1] + bs[..n]) + bs[n..]
  {
    assert bs == bs[..n] + bs[n..];
  }

  lemma TakenType(bs: seq<byte>)
    ensures TakeType(bs).Ok? ==> var (n, rest) := TakeType(bs).value; bs == LittleEndian(n, 2) + rest
  {
    hide TakeNumber, LittleEndian;
    TakenNumber(bs, 2);
  }

  lemma TakenU64(bs: seq<byte>)
    ensures TakeU64(bs).Ok? ==> var (n, rest) := TakeU64(bs).value; bs == LittleEndian(n, 8) + rest
  {
    hide TakeNumber, LittleEndian;
    TakenNumber(bs, 8);
  }

  /** Every byte of a parsed item is accounted for by its fields. */
  lemma FrameReproduced(bs: seq<byte>)
    ensures ParseFrame(bs).Ok? ==>
      && FrameBytes(ParseFrame(bs).value) == bs
      && WellFramed(ParseFrame(bs).value) && ParseFrame(bs).value.tagCount <= U64_MAX
  {
    hide LittleEndian, TakeType, TakeU64, TakeOptional, OptionalBytes, SigConfigOf;
    if ParseFrame(bs).Ok? {
      var raw := ParseFrame(bs).value;
      TakenType(bs);
      var (_, bs1) := TakeType(bs).value;
      var (_, bs2) := Take(bs1, |raw.signature|).value;
      var (_, bs3) := Take(bs2, |raw.owner|).value;
      TakenOptional(bs3);
      var (_, bs4) := TakeOptional(bs3).value;
      TakenOptional(bs4);
      var (_, bs5) := TakeOptional(bs4).value;
      TakenU64(bs5);
      var (_, bs6) := TakeU64(bs5).value;
      TakenU64(bs6);
      var (_, bs7) := TakeU64(bs6).value;
      assert bs7 == raw.tagBlob + raw.data;
    }
  }

  // ----- The item

  /** An item the builder accepts, with a signature of its type's length. */
  ghost predicate Signable(item: UnsignedDataItem, signature: seq<byte>) {
    && ValidateSpec(item).Ok?
    && |signature| == ValidateSpec(item).value.signatureLen
  }

  lemma EncodedTags(tags: seq<Tag>)
    requires EncodeTagsSpec(tags).Ok?
    ensures |tags| <= MAX_TAG_BYTES && |TagBlock(tags)| <= MAX_TAG_BYTES
  {
    EntriesTakeTwo(tags);
  }

  /** Parsing a serialised item returns exactly the item's fields and signature, for
      every signature type. */
  lemma ParseInvertsSerialize(sha256: Sha, item: UnsignedDataItem, signature: seq<byte>)
    requires Signable(item, signature)
    ensures SerializeSpec(item, signature).Ok?
    ensures ParseSpec(sha256, SerializeSpec(item, signature).value)
         == Ok(DataItemView(item, signature, sha256(signature)))
  {
    hide FrameBytes, ParseFrame, TagBlock, DecodeTagsSpec;
    EncodedTags(item.tags);
    FrameRoundTrip(RawOf(item, signature));
    BlockRoundTrip(item.tags);
  }

  /** A parsed item is always re-hashable and re-serialisable. */
  lemma ParsedIsSignable(sha256: Sha, bs: seq<byte>)
    ensures ParseSpec(sha256, bs).Ok? ==>
      var view := ParseSpec(sha256, bs).value; Signable(view.item, view.signature)
  {
    hide ParseFrame, FrameBytes, DecodeTagsSpec, SigConfigOf;
    if ParseSpec(sha256, bs).Ok? {
      FrameReproduced(bs);
      ReencodingNoLonger(ParseFrame(bs).value.tagBlob);
    }
  }

  /** Serialising a parsed item reproduces its bytes exactly when its tag block is
      canonical. */
  lemma SerializeInvertsParseIffCanonical(sha256: Sha, bs: seq<byte>)
    requires ParseSpec(sha256, bs).Ok?
    ensures
      var view := ParseSpec(sha256, bs).value;
      SerializeSpec(view.item, view.signature) == Ok(bs) <==> Canonical(ParseFrame(bs).value.tagBlob)
  {
    hide ParseFrame, FrameBytes, DecodeTagsSpec, TagBlock, Canonical, SigConfigOf;
    var view := ParseSpec(sha256, bs).value;
    var raw := ParseFrame(bs).value;
    FrameReproduced(bs);
    ReencodesIffCanonical(raw.tagBlob);
    ParsedIsSignable(sha256, bs);
    EncodedTags(view.item.tags);
    var again := RawOf(view.item, view.signature);
    FrameRoundTrip(again);
    if FrameBytes(again) == bs {
      assert again == raw;
    }
  }

  /** The bytes are a frame of the view's own fields around this tag block, which lists the
      view's tags, as many as the frame counts. */
  ghost predicate Frames(sha256: Sha, bs: seq<byte>, view: DataItemView, tagBlob: seq<byte>) {
    var item := view.item;
    var raw := RawItem(item.signatureType, view.signature, item.owner, item.target, item.anchor, |item.tags|, tagBlob,
                       item.data);
    WellFramed(raw) && bs == FrameBytes(raw) && Lists(tagBlob, item.tags) && view.id == sha256(view.signature)
  }

  /** The parser accepts exactly the frames whose tag block the grammar generates. */
  lemma ParsesIff(sha256: Sha, bs: seq<byte>, view: DataItemView)
    ensures ParseSpec(sha256, bs) == Ok(view) <==> exists tagBlob :: Frames(sha256, bs, view, tagBlob)
  {
    hide ParseFrame, FrameBytes, DecodeTagsSpec, SigConfigOf, Lists, TagBlock;
    if ParseSpec(sha256, bs) == Ok(view) {
      FrameReproduced(bs);
      var blob := ParseFrame(bs).value.tagBlob;
      DecodesIffListed(blob, view.item.tags);
      assert Frames(sha256, bs, view, blob);
    }
    if blob :| Frames(sha256, bs, view, blob) {
      DecodesIffListed(blob, view.item.tags);
      ReencodingNoLonger(blob);
      EncodedTags(view.item.tags);
      FrameRoundTrip(RawOf(view.item, view.signature).(tagBlob := blob));
    }
  }
}
