/** Decoding inverts encoding, re-encoding never grows an accepted block, and it
    reproduces the block exactly when the block is canonical. */
module TagTheorems {
  import opened Bytes
  import opened Varint
  import opened Tags
  import opened Wrappers

  // ----- Decoding inverts encoding

  /** `part` sits in `buf` at `pos`. */
  ghost predicate At(buf: seq<byte>, pos: nat, part: seq<byte>) {
    pos + |part| <= |buf| && buf[pos..pos + |part|] == part
  }

  lemma AtSplit(buf: seq<byte>, pos: nat, a: seq<byte>, b: seq<byte>)
    requires At(buf, pos, a + b)
    ensures At(buf, pos, a) && At(buf, pos + |a|, b)
  {
    var whole := buf[pos..pos + |a + b|];
    assert whole[..|a|] == a && whole[|a|..] == b;
    assert buf[pos..pos + |a|] == whole[..|a|];
    assert buf[pos + |a|..pos + |a| + |b|] == whole[|a|..];
  }

  lemma StringRoundTrip(buf: seq<byte>, pos: nat, s: seq<byte>)
    requires At(buf, pos, StringBytes(s)) && |s| <= I64_MAX
    ensures ReadStringSpec(buf, pos) == Ok((s, pos + |StringBytes(s)|))
  {
    hide VarintBytes, ReadVarintSpec;
    AtSplit(buf, pos, VarintBytes(|s|), s);
    VarintRoundTrip(buf, pos, |s|);
  }

  lemma {:induction false} EntriesRoundTrip(buf: seq<byte>, pos: nat, tags: seq<Tag>)
    requires pos <= |buf| && At(buf, pos, EntriesBytes(tags)) && Representable(tags)
    ensures ReadEntriesSpec(buf, pos, |tags|) == Ok((tags, pos + |EntriesBytes(tags)|))
    decreases |tags|
  {
    hide StringBytes, ReadStringSpec;
    if tags != [] {
      var tag := tags[0];
      AtSplit(buf, pos, EntryBytes(tag), EntriesBytes(tags[1..]));
      AtSplit(buf, pos, StringBytes(tag.name), StringBytes(tag.value));
      StringRoundTrip(buf, pos, tag.name);
      StringRoundTrip(buf, pos + |StringBytes(tag.name)|, tag.value);
      EntriesRoundTrip(buf, pos + |EntryBytes(tag)|, tags[1..]);
      assert tags == [Tag(tag.name, tag.value)] + tags[1..];
    }
  }

  /** Every entry takes at least two bytes, so the decoder's bound never rejects. */
  lemma {:induction false} EntriesTakeTwo(tags: seq<Tag>)
    ensures |EntriesBytes(tags)| >= 2 * |tags|
  {
    if tags != [] {
      EntriesTakeTwo(tags[1..]);
    }
  }

  lemma {:induction false} EntriesHold(tags: seq<Tag>)
    requires |EntriesBytes(tags)| <= I64_MAX
    ensures forall i | 0 <= i < |tags| :: |tags[i].name| <= I64_MAX && |tags[i].value| <= I64_MAX
  {
    if tags != [] {
      EntriesHold(tags[1..]);
    }
  }

  lemma ZeroAt(buf: seq<byte>, pos: nat)
    requires At(buf, pos, VarintBytes(0))
    ensures ReadBlocksSpec(buf, pos) == Ok(([], pos + 1))
  {
    hide ReadEntriesSpec, ReadVarintSpec;
    VarintRoundTrip(buf, pos, 0);
    assert VarintBytes(0) == [0];
  }

  /** Where the parts of an encoded block sit. */
  lemma BlockParts(tags: seq<Tag>)
    requires tags != [] && EncodeTagsSpec(tags).Ok?
    ensures var buf := TagBlock(tags);
      var head, body := VarintBytes(|tags|), EntriesBytes(tags);
      && |tags| <= I64_MAX && Representable(tags)
      && |head| + |body| <= |buf| && buf[..|head|] == buf[0..|head|] == head
      && At(buf, |head|, body) && buf[|head| + |body|..] == [0]
      && |tags| <= (|buf| - |head|) / 2 && |buf| == |head| + |body| + 1
  {
    hide VarintBytes, EntriesBytes;
    var buf := TagBlock(tags);
    var head, body := VarintBytes(|tags|), EntriesBytes(tags);
    EntriesTakeTwo(tags);
    EntriesHold(tags);
    ZeroIsOneByte();
    assert buf == head + (body + [0]);
    hide TagBlock;
    PartsOf(buf, head, body, [0]);
  }

  lemma PartsOf(buf: seq<byte>, a: seq<byte>, b: seq<byte>, c: seq<byte>)
    requires buf == a + (b + c)
    ensures At(buf, |a|, b) && buf[|a| + |b|..] == c && buf[..|a|] == buf[0..|a|] == a
    ensures At(buf, |a| + |b|, c)
  {
    assert At(buf, 0, buf);
    AtSplit(buf, 0, a, b + c);
    AtSplit(buf, |a|, b, c);
  }

  lemma BlockRoundTrip(tags: seq<Tag>)
    requires EncodeTagsSpec(tags).Ok?
    ensures DecodeTagsSpec(TagBlock(tags)) == Ok(tags)
  {
    hide VarintBytes, ReadVarintSpec, EntriesBytes, ReadEntriesSpec, ReadBlocksSpec, Representable;
    if tags != [] {
      var buf := TagBlock(tags);
      var head, body := VarintBytes(|tags|), EntriesBytes(tags);
      BlockParts(tags);
      VarintRoundTrip(buf, 0, |tags|);
      EntriesRoundTrip(buf, |head|, tags);
      ZeroIsOneByte();
      ZeroAt(buf, |head| + |body|);
      OneBlock(buf, |tags|, |head|, tags, |head| + |body|);
    }
  }

  lemma OneBlock(buf: seq<byte>, count: nat, from: nat, tags: seq<Tag>, end: nat)
    requires ReadVarintSpec(buf, 0) == Ok((count, from)) && 0 < count <= (|buf| - from) / 2
    requires ReadEntriesSpec(buf, from, count) == Ok((tags, end)) && ReadBlocksSpec(buf, end) == Ok(([], |buf|))
    ensures ReadBlocksSpec(buf, 0) == Ok((tags, |buf|))
  {
    hide ReadVarintSpec, ReadEntriesSpec;
    assert tags + [] == tags;
  }

  lemma ZeroIsOneByte()
    ensures VarintBytes(0) == [0]
  {
  }

  /** Two lists with the same encoding are the same list. */
  lemma EncodingInjective(a: seq<Tag>, b: seq<Tag>)
    requires EncodeTagsSpec(a).Ok? && EncodeTagsSpec(b).Ok? && TagBlock(a) == TagBlock(b)
    ensures a == b
  {
    BlockRoundTrip(a);
    BlockRoundTrip(b);
  }

  // ----- Re-encoding never grows

  lemma StringNoLonger(buf: seq<byte>, pos: nat)
    ensures ReadStringSpec(buf, pos).Ok? ==>
      var (s, end) := ReadStringSpec(buf, pos).value; end - pos >= |StringBytes(s)|
  {
    hide VarintBytes, ReadVarintSpec;
    VarintShortest(buf, pos);
  }

  lemma {:induction false} EntriesNoLonger(buf: seq<byte>, pos: nat, count: nat)
    requires pos <= |buf|
    ensures ReadEntriesSpec(buf, pos, count).Ok? ==>
      var (tags, end) := ReadEntriesSpec(buf, pos, count).value; end - pos >= |EntriesBytes(tags)|
    decreases count
  {
    if ReadEntriesSpec(buf, pos, count).Ok? && count > 0 {
      var (name, p) := ReadStringSpec(buf, pos).value;
      var (value, q) := ReadStringSpec(buf, p).value;
      StringNoLonger(buf, pos);
      StringNoLonger(buf, p);
      EntriesNoLonger(buf, q, count - 1);
      var (rest, end) := ReadEntriesSpec(buf, q, count - 1).value;
      assert ([Tag(name, value)] + rest)[1..] == rest;
    }
  }

  lemma {:induction false} EntriesAppend(a: seq<Tag>, b: seq<Tag>)
    ensures EntriesBytes(a + b) == EntriesBytes(a) + EntriesBytes(b)
  {
    if a == [] {
      assert a + b == b;
    } else {
      assert (a + b)[1..] == a[1..] + b;
      EntriesAppend(a[1..], b);
    }
  }

  /** A count, negative ones with their size hint, is no shorter than the positive count. */
  lemma CountNoLonger(buf: seq<byte>, pos: nat)
    ensures ReadCountSpec(buf, pos).Ok? ==>
      var (count, end) := ReadCountSpec(buf, pos).value; end - pos >= |VarintBytes(count)|
  {
    hide VarintBytes, ReadVarintSpec;
    VarintShortest(buf, pos);
    if ReadCountSpec(buf, pos).Ok? && ReadVarintSpec(buf, pos).value.0 < 0 {
      NegativeCount(-ReadVarintSpec(buf, pos).value.0);
    }
  }

  ghost function CountBytes(tags: seq<Tag>): nat {
    if tags == [] then 0 else |VarintBytes(|tags|)|
  }

  lemma CountBytesMerge(a: seq<Tag>, b: seq<Tag>)
    ensures CountBytes(a + b) <= CountBytes(a) + CountBytes(b)
  {
    hide VarintBytes;
    if a == [] {
      assert a + b == b;
    } else if b == [] {
      assert a + b == a;
    } else {
      CountsMerge(|a|, |b|);
    }
  }

  lemma {:induction false} BlocksNoLonger(buf: seq<byte>, pos: nat)
    ensures ReadBlocksSpec(buf, pos).Ok? ==>
      var (tags, end) := ReadBlocksSpec(buf, pos).value;
      end - pos >= CountBytes(tags) + |EntriesBytes(tags)| + 1
    decreases |buf| - pos
  {
    hide VarintBytes, ReadEntriesSpec, ReadCountSpec, EntriesBytes, CountBytes;
    if ReadBlocksSpec(buf, pos).Ok? {
      CountNoLonger(buf, pos);
      var (count, p) := ReadCountSpec(buf, pos).value;
      if count == 0 {
        NoTags();
      } else {
        EntriesNoLonger(buf, p, count);
        var (tags, q) := ReadEntriesSpec(buf, p, count).value;
        BlocksNoLonger(buf, q);
        var (rest, end) := ReadBlocksSpec(buf, q).value;
        EntriesAppend(tags, rest);
        CountBytesMerge(tags, rest);
        SomeTags(tags);
      }
    }
  }

  lemma NoTags()
    ensures CountBytes([]) == 0 && EntriesBytes([]) == []
  {
  }

  lemma SomeTags(tags: seq<Tag>)
    requires tags != []
    ensures CountBytes(tags) == |VarintBytes(|tags|)|
  {
  }

  /** An accepted block re-encodes within its own length, so it always re-encodes. */
  lemma ReencodingNoLonger(bytes: seq<byte>)
    ensures DecodeTagsSpec(bytes).Ok? ==>
      && |TagBlock(DecodeTagsSpec(bytes).value)| <= |bytes|
      && EncodeTagsSpec(DecodeTagsSpec(bytes).value).Ok?
  {
    hide VarintBytes, ReadBlocksSpec, EntriesBytes;
    if DecodeTagsSpec(bytes).Ok? && bytes != [] {
      BlocksNoLonger(bytes, 0);
      ZeroIsOneByte();
    }
  }

  // ----- Canonical blocks

  /** The varint at `pos` is spelled in the fewest bytes. */
  ghost predicate ShortestAt(buf: seq<byte>, pos: nat) {
    && ReadVarintSpec(buf, pos).Ok?
    && var (v, end) := ReadVarintSpec(buf, pos).value; end - pos == |VarintBytes(v)|
  }

  /** The next `count` entries spell every length in the fewest bytes. */
  ghost predicate ShortestEntries(buf: seq<byte>, pos: nat, count: nat)
    decreases count
  {
    count > 0 ==>
      && ShortestAt(buf, pos) && ReadStringSpec(buf, pos).Ok?
      && var p := ReadStringSpec(buf, pos).value.1;
      && ShortestAt(buf, p) && ReadStringSpec(buf, p).Ok?
      && ShortestEntries(buf, ReadStringSpec(buf, p).value.1, count - 1)
  }

  /** Empty, or a single positive block with shortest varints and a one-byte terminator. */
  ghost predicate Canonical(buf: seq<byte>) {
    buf == [] ||
    (&& ShortestAt(buf, 0)
     && var (count, p) := ReadVarintSpec(buf, 0).value;
     && count > 0 && ShortestEntries(buf, p, count)
     && ReadEntriesSpec(buf, p, count).Ok?
     && buf[ReadEntriesSpec(buf, p, count).value.1..] == [0])
  }

  lemma SmallVarint(v: nat)
    requires v <= MAX_TAG_BYTES
    ensures |VarintBytes(v)| <= 2
  {
    SmallerGroups(ZigZag(v));
    SmallerGroups(ZigZag(v) / 128);
  }

  lemma ShortestSpelling(buf: seq<byte>, pos: nat)
    requires ShortestAt(buf, pos) && 0 <= ReadVarintSpec(buf, pos).value.0 <= |buf| <= MAX_TAG_BYTES
    ensures var (v, end) := ReadVarintSpec(buf, pos).value; buf[pos..end] == VarintBytes(v)
  {
    hide Groups, ReadVarintSpec;
    var (v, end) := ReadVarintSpec(buf, pos).value;
    SmallVarint(v);
    ShortestVarint(buf, pos);
  }

  lemma ShortestString(buf: seq<byte>, pos: nat)
    requires ShortestAt(buf, pos) && ReadStringSpec(buf, pos).Ok? && |buf| <= MAX_TAG_BYTES
    ensures var (s, end) := ReadStringSpec(buf, pos).value; buf[pos..end] == StringBytes(s)
  {
    hide VarintBytes, ReadVarintSpec;
    ShortestSpelling(buf, pos);
    var (len, start) := ReadVarintSpec(buf, pos).value;
    assert buf[pos..start + len] == buf[pos..start] + buf[start..start + len];
  }

  lemma {:induction false} ShortestEntriesSpell(buf: seq<byte>, pos: nat, count: nat)
    requires pos <= |buf| <= MAX_TAG_BYTES && ShortestEntries(buf, pos, count) && ReadEntriesSpec(buf, pos, count).Ok?
    ensures var (tags, end) := ReadEntriesSpec(buf, pos, count).value; buf[pos..end] == EntriesBytes(tags)
    decreases count
  {
    hide StringBytes, ReadStringSpec, ShortestAt;
    if count > 0 {
      var (name, p) := ReadStringSpec(buf, pos).value;
      var (value, q) := ReadStringSpec(buf, p).value;
      ShortestString(buf, pos);
      ShortestString(buf, p);
      ShortestEntriesSpell(buf, q, count - 1);
      var (rest, end) := ReadEntriesSpec(buf, q, count - 1).value;
      assert ([Tag(name, value)] + rest)[1..] == rest;
      assert buf[pos..end] == buf[pos..p] + buf[p..q] + buf[q..end];
    }
  }

  lemma CanonicalReencodes(buf: seq<byte>)
    requires DecodeTagsSpec(buf).Ok? && Canonical(buf)
    ensures TagBlock(DecodeTagsSpec(buf).value) == buf
  {
    hide VarintBytes, EntriesBytes, ReadEntriesSpec, ShortestEntries;
    if buf != [] {
      var (count, p) := ReadVarintSpec(buf, 0).value;
      var (tags, q) := ReadEntriesSpec(buf, p, count).value;
      ShortestSpelling(buf, 0);
      ShortestEntriesSpell(buf, p, count);
      ZeroIsOneByte();
      assert buf[q..q + |VarintBytes(0)|] == [0];
      ZeroAt(buf, q);
      assert tags + [] == tags;
      assert buf == buf[0..p] + buf[p..q] + buf[q..];
    }
  }

  lemma StringSpelledShortest(buf: seq<byte>, pos: nat, s: seq<byte>)
    requires At(buf, pos, StringBytes(s)) && |s| <= I64_MAX
    ensures ShortestAt(buf, pos)
  {
    hide VarintBytes, ReadVarintSpec;
    AtSplit(buf, pos, VarintBytes(|s|), s);
    VarintRoundTrip(buf, pos, |s|);
  }

  lemma {:induction false} EntriesSpelledShortest(buf: seq<byte>, pos: nat, tags: seq<Tag>)
    requires pos <= |buf| && At(buf, pos, EntriesBytes(tags)) && Representable(tags)
    ensures ShortestEntries(buf, pos, |tags|)
    decreases |tags|
  {
    hide StringBytes, ReadStringSpec, ShortestAt;
    if tags != [] {
      var tag := tags[0];
      AtSplit(buf, pos, EntryBytes(tag), EntriesBytes(tags[1..]));
      AtSplit(buf, pos, StringBytes(tag.name), StringBytes(tag.value));
      StringSpelledShortest(buf, pos, tag.name);
      StringSpelledShortest(buf, pos + |StringBytes(tag.name)|, tag.value);
      StringRoundTrip(buf, pos, tag.name);
      StringRoundTrip(buf, pos + |StringBytes(tag.name)|, tag.value);
      EntriesSpelledShortest(buf, pos + |EntryBytes(tag)|, tags[1..]);
    }
  }

  lemma EncodedIsCanonical(tags: seq<Tag>)
    requires EncodeTagsSpec(tags).Ok?
    ensures Canonical(TagBlock(tags))
  {
    hide VarintBytes, ReadVarintSpec, EntriesBytes, ReadEntriesSpec, ShortestEntries, At, Representable;
    if tags != [] {
      var buf := TagBlock(tags);
      var head, body := VarintBytes(|tags|), EntriesBytes(tags);
      BlockParts(tags);
      VarintRoundTrip(buf, 0, |tags|);
      EntriesSpelledShortest(buf, |head|, tags);
      EntriesRoundTrip(buf, |head|, tags);
    }
  }

  /** Re-encoding reproduces an accepted block exactly when the block is canonical. */
  lemma ReencodesIffCanonical(buf: seq<byte>)
    requires DecodeTagsSpec(buf).Ok?
    ensures EncodeTagsSpec(DecodeTagsSpec(buf).value) == Ok(buf) <==> Canonical(buf)
  {
    hide Canonical, DecodeTagsSpec, TagBlock;
    ReencodingNoLonger(buf);
    EncodedIsCanonical(DecodeTagsSpec(buf).value);
    if Canonical(buf) {
      CanonicalReencodes(buf);
    }
  }
}
