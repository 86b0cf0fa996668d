/** The Avro tag block of ANS-104: blocks of a count and that many name/value
    pairs, closed by a zero count. */
module Tags {
  import opened Bytes
  import opened Varint
  import opened Wrappers
  import opened Ans104Types

  const MAX_TAG_BYTES := 4096

  datatype Tag = Tag(name: seq<byte>, value: seq<byte>)

  // ----- Encoding

  function StringBytes(s: seq<byte>): seq<byte> {
    VarintBytes(|s|) + s
  }

  function EntryBytes(tag: Tag): seq<byte> {
    StringBytes(tag.name) + StringBytes(tag.value)
  }

  function EntriesBytes(tags: seq<Tag>): seq<byte> {
    if tags == [] then [] else EntryBytes(tags[0]) + EntriesBytes(tags[1..])
  }

  /** One positive block and its terminator; nothing for an empty list. */
  function TagBlock(tags: seq<Tag>): seq<byte> {
    if tags == [] then [] else VarintBytes(|tags|) + EntriesBytes(tags) + VarintBytes(0)
  }

  function EncodeTagsSpec(tags: seq<Tag>): Result<seq<byte>, Ans104Error> {
    if |TagBlock(tags)| > MAX_TAG_BYTES then Err(InvalidTags("serialised tags exceed 4096 bytes"))
    else Ok(TagBlock(tags))
  }

  /** Rust vectors hold at most i64::MAX bytes. */
  ghost predicate Representable(tags: seq<Tag>) {
    && |tags| <= I64_MAX
    && forall i | 0 <= i < |tags| :: |tags[i].name| <= I64_MAX && |tags[i].value| <= I64_MAX
  }

  method WriteEntry(out: seq<byte>, tag: Tag) returns (r: seq<byte>)
    requires |tag.name| <= I64_MAX && |tag.value| <= I64_MAX
    ensures r == out + EntryBytes(tag)
  {
    hide VarintBytes;
    r := WriteVarint(out, |tag.name|);
    r := r + tag.name;
    r := WriteVarint(r, |tag.value|);
    r := r + tag.value;
  }

  method EncodeTags(tags: seq<Tag>) returns (r: Result<seq<byte>, Ans104Error>)
    requires Representable(tags)
    ensures r == EncodeTagsSpec(tags)
  {
    hide VarintBytes, EntryBytes;
    if tags == [] {
      return Ok([]);
    }
    var out := WriteVarint([], |tags|);
    ghost var head := out;
    for i := 0 to |tags|
      invariant out + EntriesBytes(tags[i..]) == head + EntriesBytes(tags)
    {
      assert tags[i..][1..] == tags[i + 1..];
      ghost var before := out;
      out := WriteEntry(out, tags[i]);
      assert out + EntriesBytes(tags[i + 1..]) == before + EntriesBytes(tags[i..]);
    }
    assert EntriesBytes(tags[|tags|..]) == [] && out == head + EntriesBytes(tags);
    out := WriteVarint(out, 0);
    assert head == VarintBytes(|tags|) && out == TagBlock(tags);
    if |out| > MAX_TAG_BYTES {
      return Err(InvalidTags("serialised tags exceed 4096 bytes"));
    }
    return Ok(out);
  }

  // ----- Decoding

  function ReadStringSpec(buf: seq<byte>, pos: nat): (r: Result<(seq<byte>, nat), Ans104Error>)
    ensures r.Ok? ==> pos < r.value.1 <= |buf|
    ensures r.Err? ==> r.error.InvalidTags?
  {
    var (len, start) :- ReadVarintSpec(buf, pos);
    if len < 0 then Err(InvalidTags("negative string length"))
    else if start + len > |buf| then Err(InvalidTags("string runs past tag block"))
    else Ok((buf[start..start + len], start + len))
  }

  function ReadEntriesSpec(buf: seq<byte>, pos: nat, count: nat): (r: Result<(seq<Tag>, nat), Ans104Error>)
    requires pos <= |buf|
    ensures r.Ok? ==> pos <= r.value.1 <= |buf| && |r.value.0| == count
    ensures r.Err? ==> r.error.InvalidTags?
    decreases count
  {
    if count == 0 then Ok(([], pos)) else
      var (name, p) :- ReadStringSpec(buf, pos);
      var (value, q) :- ReadStringSpec(buf, p);
      var (rest, end) :- ReadEntriesSpec(buf, q, count - 1);
      Ok(([Tag(name, value)] + rest, end))
  }

  function CountOverflow(): (e: Ans104Error)
    ensures e.InvalidTags?
  {
    InvalidTags("block count overflow")
  }

  /** The entry count at `pos` and where its entries start; a negative count is
      followed by a byte-size hint that is read and dropped. */
  function ReadCountSpec(buf: seq<byte>, pos: nat): (r: Result<(nat, nat), Ans104Error>)
    ensures r.Ok? ==> pos < r.value.1 <= |buf|
    ensures r.Err? ==> r.error.InvalidTags?
  {
    hide ReadVarintSpec;
    match ReadVarintSpec(buf, pos)
    case Err(e) => Err(e)
    case Ok((count, p)) =>
      if count >= 0 then Ok((count, p))
      else if count == I64_MIN then Err(CountOverflow())
      else
        match ReadVarintSpec(buf, p)
        case Err(e) => Err(e)
        case Ok((_, q)) => Ok((-count, q))
  }

  function ReadBlocksSpec(buf: seq<byte>, pos: nat): (r: Result<(seq<Tag>, nat), Ans104Error>)
    ensures r.Ok? ==> pos < r.value.1 <= |buf|
    ensures r.Err? ==> r.error.InvalidTags?
    decreases |buf| - pos
  {
    var (count, p) :- ReadCountSpec(buf, pos);
    if count == 0 then Ok(([], p))
    else if count > (|buf| - p) / 2 then Err(InvalidTags("block count exceeds the tag block"))
    else
      var (tags, q) :- ReadEntriesSpec(buf, p, count);
      var (rest, end) :- ReadBlocksSpec(buf, q);
      Ok((tags + rest, end))
  }

  function DecodeTagsSpec(bytes: seq<byte>): (r: Result<seq<Tag>, Ans104Error>)
    ensures r.Err? ==> r.error.InvalidTags?
  {
    if |bytes| > MAX_TAG_BYTES then Err(InvalidTags("serialised tags exceed 4096 bytes"))
    else if bytes == [] then Ok([])
    else
      var (tags, end) :- ReadBlocksSpec(bytes, 0);
      if end != |bytes| then Err(InvalidTags("trailing bytes after tag block")) else Ok(tags)
  }

  method ReadString(buf: seq<byte>, pos: nat) returns (r: Result<(seq<byte>, nat), Ans104Error>)
    requires pos <= |buf|
    ensures r == ReadStringSpec(buf, pos)
  {
    var v := ReadVarint(buf, pos);
    if v.Err? {
      return Err(v.error);
    }
    var (len, start) := v.value;
    if len < 0 {
      return Err(InvalidTags("negative string length"));
    }
    if start + len > |buf| {
      return Err(InvalidTags("string runs past tag block"));
    }
    return Ok((buf[start..start + len], start + len));
  }

  /** What was read before, followed by what is still to be read. */
  ghost function After(tags: seq<Tag>, rest: Result<(seq<Tag>, nat), Ans104Error>)
      : Result<(seq<Tag>, nat), Ans104Error>
  {
    match rest
    case Err(e) => Err(e)
    case Ok((more, end)) => Ok((tags + more, end))
  }

  lemma AfterAfter(a: seq<Tag>, b: seq<Tag>, rest: Result<(seq<Tag>, nat), Ans104Error>)
    ensures After(a, After(b, rest)) == After(a + b, rest)
    ensures After([], rest) == rest
  {
    if rest.Ok? {
      assert [] + rest.value.0 == rest.value.0;
      assert a + (b + rest.value.0) == (a + b) + rest.value.0;
    }
  }

  method ReadEntries(buf: seq<byte>, pos: nat, count: nat) returns (r: Result<(seq<Tag>, nat), Ans104Error>)
    requires pos <= |buf|
    ensures r == ReadEntriesSpec(buf, pos, count)
  {
    hide ReadStringSpec;
    var tags: seq<Tag> := [];
    var at: nat := pos;
    AfterAfter([], [], ReadEntriesSpec(buf, pos, count));
    for i := 0 to count
      invariant at <= |buf|
      invariant ReadEntriesSpec(buf, pos, count) == After(tags, ReadEntriesSpec(buf, at, count - i))
    {
      var name := ReadString(buf, at);
      if name.Err? {
        return Err(name.error);
      }
      var value := ReadString(buf, name.value.1);
      if value.Err? {
        return Err(value.error);
      }
      var tag := Tag(name.value.0, value.value.0);
      AfterAfter(tags, [tag], ReadEntriesSpec(buf, value.value.1, count - i - 1));
      tags := tags + [tag];
      at := value.value.1;
    }
    assert tags + [] == tags;
    return Ok((tags, at));
  }

  method DecodeTags(bytes: seq<byte>) returns (r: Result<seq<Tag>, Ans104Error>)
    ensures r == DecodeTagsSpec(bytes)
  {
    hide ReadEntriesSpec, ReadVarintSpec;
    if |bytes| > MAX_TAG_BYTES {
      return Err(InvalidTags("serialised tags exceed 4096 bytes"));
    }
    if bytes == [] {
      return Ok([]);
    }
    var pos: nat := 0;
    var tags: seq<Tag> := [];
    AfterAfter([], [], ReadBlocksSpec(bytes, 0));
    while true
      invariant pos <= |bytes|
      invariant ReadBlocksSpec(bytes, 0) == After(tags, ReadBlocksSpec(bytes, pos))
      decreases |bytes| - pos
    {
      var v := ReadVarint(bytes, pos);
      if v.Err? {
        return Err(v.error);
      }
      var count := v.value.0;
      ghost var start := pos;
      pos := v.value.1;
      if count == 0 {
        assert tags + [] == tags;
        break;
      }
      if count < 0 {
        if count == I64_MIN {
          return Err(InvalidTags("block count overflow"));
        }
        count := -count;
        var size := ReadVarint(bytes, pos);
        if size.Err? {
          return Err(size.error);
        }
        pos := size.value.1;
      }
      var maxEntries := (|bytes| - pos) / 2;
      if count > maxEntries {
        return Err(InvalidTags("block count exceeds the tag block"));
      }
      var entries := ReadEntries(bytes, pos, count);
      if entries.Err? {
        return Err(entries.error);
      }
      AfterAfter(tags, entries.value.0, ReadBlocksSpec(bytes, entries.value.1));
      tags := tags + entries.value.0;
      pos := entries.value.1;
    }
    if pos != |bytes| {
      return Err(InvalidTags("trailing bytes after tag block"));
    }
    return Ok(tags);
  }
}
