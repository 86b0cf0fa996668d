/** The grammar of a tag block, and that the decoder accepts exactly what it generates:
    any blocks, with counts or negated counts and size hints, and any spelling of every
    number in them. */
module TagGrammar {
  import opened Bytes
  import opened Varint
  import opened Tags
  import opened TagTheorems
  import opened TagBlocks
  import opened Wrappers

  // ----- Numbers

  /** A tenth group has room for one bit. */
  function Kept(bs: seq<byte>, room: nat): seq<byte> {
    if |bs| == room > 0 then bs[room - 1 := bs[room - 1] % 2] else bs
  }

  ghost predicate Marked(bs: seq<byte>) {
    forall k | 0 <= k < |bs| :: bs[k] >= 128 <==> k < |bs| - 1
  }

  /** One to ten groups, all marked but the last, whose kept bits spell the code of the
      number in base 128. */
  ghost predicate Spells(bs: seq<byte>, v: int) {
    1 <= |bs| <= 10 && Marked(bs) && v == UnZigZag(GroupValue(Kept(bs, 10)))
  }

  /** The groups read are the marked ones up to the first unmarked, as many as there is
      room for. */
  lemma {:induction false} GroupsReadIff(buf: seq<byte>, pos: nat, room: nat, z: nat, end: nat)
    requires room > 0
    ensures ReadGroups(buf, pos, room) == Some((z, end)) <==>
      && pos < end <= |buf| && end - pos <= room && Marked(buf[pos..end])
      && z == GroupValue(Kept(buf[pos..end], room))
    decreases room
  {
    hide Marked, GroupValue, Kept;
    if pos + 1 < end <= |buf| {
      FirstGroup(buf, pos, room, end);
      if room > 1 {
        GroupsReadIff(buf, pos + 1, room - 1, GroupValue(Kept(buf[pos + 1..end], room - 1)), end);
      }
    } else if end == pos + 1 <= |buf| {
      OneGroup(buf, pos, room);
    }
    if room > 1 && pos < |buf| && buf[pos] >= 128 {
      match ReadGroups(buf, pos + 1, room - 1) {
        case Some((high, stop)) => GroupsReadIff(buf, pos + 1, room - 1, high, stop);
        case None =>
      }
    }
  }

  lemma FirstGroup(buf: seq<byte>, pos: nat, room: nat, end: nat)
    requires pos + 1 < end <= |buf|
    ensures Marked(buf[pos..end]) <==> buf[pos] >= 128 && Marked(buf[pos + 1..end])
    ensures room > 1 ==>
      GroupValue(Kept(buf[pos..end], room)) == buf[pos] % 128 + 128 * GroupValue(Kept(buf[pos + 1..end], room - 1))
  {
    var bs, tail := buf[pos..end], buf[pos + 1..end];
    assert bs[1..] == tail && forall k | 0 <= k < |tail| :: tail[k] == bs[k + 1];
    if room > 1 {
      KeptTail(bs, room);
    }
  }

  lemma KeptTail(bs: seq<byte>, room: nat)
    requires |bs| > 1 && room > 1
    ensures Kept(bs, room)[0] == bs[0] && Kept(bs, room)[1..] == Kept(bs[1..], room - 1)
  {
    if |bs| == room {
      var last: byte := bs[room - 1] % 2;
      assert bs[room - 1 := last][1..] == bs[1..][room - 2 := last];
    }
  }

  lemma OneGroup(buf: seq<byte>, pos: nat, room: nat)
    requires pos < |buf| && room > 0
    ensures Marked(buf[pos..pos + 1]) <==> buf[pos] < 128
    ensures GroupValue(Kept(buf[pos..pos + 1], room)) == if room == 1 then buf[pos] % 2 else buf[pos] % 128
  {
    var bs := buf[pos..pos + 1];
    assert |bs| == 1 && bs[0] == buf[pos];
    assert |Kept(bs, room)| == 1;
  }

  lemma NumberReadIff(buf: seq<byte>, pos: nat, v: int, end: nat)
    ensures ReadVarintSpec(buf, pos) == Ok((v, end)) <==> pos < end <= |buf| && Spells(buf[pos..end], v)
  {
    hide GroupValue, ReadGroups, UnZigZag, Kept, Marked;
    if pos < end <= |buf| {
      GroupsReadIff(buf, pos, 10, GroupValue(Kept(buf[pos..end], 10)), end);
    }
    match ReadGroups(buf, pos, 10) {
      case Some((z, stop)) => GroupsReadIff(buf, pos, 10, z, stop);
      case None =>
    }
  }

  // ----- The grammar

  /** A string: its length, spelled, and its bytes. */
  datatype Text = Text(length: seq<byte>, bytes: seq<byte>)

  datatype Entry = Entry(name: Text, value: Text)

  /** A block: its count, spelled, a size hint after a negated count, and its entries. */
  datatype Part = Part(count: seq<byte>, hint: seq<byte>, entries: seq<Entry>)

  ghost predicate TextOk(t: Text) {
    Spells(t.length, |t.bytes|)
  }

  ghost predicate EntriesOk(es: seq<Entry>) {
    forall i | 0 <= i < |es| :: TextOk(es[i].name) && TextOk(es[i].value)
  }

  ghost predicate PartOk(p: Part) {
    && p.entries != [] && EntriesOk(p.entries)
    && if p.hint == [] then Spells(p.count, |p.entries|)
       else Spells(p.count, -|p.entries|) && exists size :: Spells(p.hint, size)
  }

  function TextBytes(t: Text): seq<byte> {
    t.length + t.bytes
  }

  function EntriesText(es: seq<Entry>): seq<byte> {
    if es == [] then [] else TextBytes(es[0].name) + (TextBytes(es[0].value) + EntriesText(es[1..]))
  }

  function TagsOf(es: seq<Entry>): seq<Tag> {
    if es == [] then [] else [Tag(es[0].name.bytes, es[0].value.bytes)] + TagsOf(es[1..])
  }

  function PartText(p: Part): seq<byte> {
    p.count + (p.hint + EntriesText(p.entries))
  }

  /** The blocks one after the other, and a zero. */
  function PartsText(parts: seq<Part>, zero: seq<byte>): seq<byte> {
    if parts == [] then zero
    else PartText(parts[0]) + PartsText(parts[1..], zero)
  }

  function AllTags(parts: seq<Part>): seq<Tag> {
    if parts == [] then [] else TagsOf(parts[0].entries) + AllTags(parts[1..])
  }

  ghost predicate PartsOk(parts: seq<Part>, zero: seq<byte>) {
    Spells(zero, 0) && forall i | 0 <= i < |parts| :: PartOk(parts[i])
  }

  /** The buffer is a tag block that lists these tags. */
  ghost predicate Lists(buf: seq<byte>, tags: seq<Tag>) {
    if buf == [] then tags == []
    else exists parts, zero :: PartsOk(parts, zero) && buf == PartsText(parts, zero) && tags == AllTags(parts)
  }

  // ----- What the grammar generates is accepted

  lemma NumberReads(buf: seq<byte>, pos: nat, bs: seq<byte>, v: int)
    requires At(buf, pos, bs) && Spells(bs, v)
    ensures ReadVarintSpec(buf, pos) == Ok((v, pos + |bs|))
  {
    hide ReadVarintSpec, Marked, GroupValue;
    NumberReadIff(buf, pos, v, pos + |bs|);
  }

  lemma TextReads(buf: seq<byte>, pos: nat, t: Text)
    requires At(buf, pos, TextBytes(t)) && TextOk(t)
    ensures ReadStringSpec(buf, pos) == Ok((t.bytes, pos + |TextBytes(t)|))
  {
    hide ReadVarintSpec, Spells;
    AtSplit(buf, pos, t.length, t.bytes);
    NumberReads(buf, pos, t.length, |t.bytes|);
  }

  lemma {:induction false} EntriesRead(buf: seq<byte>, pos: nat, es: seq<Entry>)
    requires pos <= |buf| && At(buf, pos, EntriesText(es)) && EntriesOk(es)
    ensures ReadEntriesSpec(buf, pos, |es|) == Ok((TagsOf(es), pos + |EntriesText(es)|))
    decreases |es|
  {
    hide ReadStringSpec, TextOk, TextBytes, At;
    if es != [] {
      var name, value, rest := TextBytes(es[0].name), TextBytes(es[0].value), EntriesText(es[1..]);
      AtSplit(buf, pos, name, value + rest);
      AtSplit(buf, pos + |name|, value, rest);
      TextReads(buf, pos, es[0].name);
      TextReads(buf, pos + |name|, es[0].value);
      EntriesRead(buf, pos + |name| + |value|, es[1..]);
    }
  }

  lemma {:induction false} TwoBytesEach(es: seq<Entry>)
    requires EntriesOk(es)
    ensures |EntriesText(es)| >= 2 * |es| && |TagsOf(es)| == |es|
  {
    hide GroupValue, Kept, Marked, UnZigZag;
    if es != [] {
      TwoBytesEach(es[1..]);
    }
  }

  lemma CountReads(buf: seq<byte>, pos: nat, p: Part)
    requires At(buf, pos, p.count) && At(buf, pos + |p.count|, p.hint) && PartOk(p) && |p.entries| <= I64_MAX
    ensures ReadCountSpec(buf, pos) == Ok((|p.entries|, pos + |p.count| + |p.hint|))
  {
    hide ReadVarintSpec, Spells, EntriesOk, At;
    if p.hint == [] {
      NumberReads(buf, pos, p.count, |p.entries|);
    } else {
      var size :| Spells(p.hint, size);
      NumberReads(buf, pos, p.count, -|p.entries|);
      NumberReads(buf, pos + |p.count|, p.hint, size);
    }
  }

  lemma AtWithin(buf: seq<byte>, pos: nat, part: seq<byte>)
    requires At(buf, pos, part)
    ensures pos + |part| <= |buf|
  {
  }

  lemma {:induction false} PartsRead(buf: seq<byte>, pos: nat, parts: seq<Part>, zero: seq<byte>)
    requires At(buf, pos, PartsText(parts, zero)) && PartsOk(parts, zero) && |buf| <= I64_MAX
    ensures ReadBlocksSpec(buf, pos) == Ok((AllTags(parts), pos + |PartsText(parts, zero)|))
    decreases |parts|
  {
    hide ReadVarintSpec, ReadCountSpec, ReadEntriesSpec, EntriesText, PartOk, Spells, At, TagsOf;
    if parts == [] {
      NumberReads(buf, pos, zero, 0);
      CountOfZero(buf, pos, pos + |zero|);
    } else {
      var p, tail := parts[0], PartsText(parts[1..], zero);
      var entries := EntriesText(p.entries);
      var at, end := pos + |p.count| + |p.hint|, pos + |p.count| + |p.hint| + |entries|;
      AtSplit(buf, pos, PartText(p), tail);
      AtSplit(buf, pos, p.count, p.hint + entries);
      AtSplit(buf, pos + |p.count|, p.hint, entries);
      PartEntries(p);
      TwoBytesEach(p.entries);
      AtWithin(buf, at, entries);
      CountReads(buf, pos, p);
      EntriesRead(buf, at, p.entries);
      PartsRead(buf, end, parts[1..], zero);
    }
  }

  lemma PartEntries(p: Part)
    requires PartOk(p)
    ensures p.entries != [] && EntriesOk(p.entries)
  {
  }

  lemma CountOfZero(buf: seq<byte>, pos: nat, end: nat)
    requires ReadVarintSpec(buf, pos) == Ok((0, end))
    ensures ReadCountSpec(buf, pos) == Ok((0, end))
  {
  }

  // ----- What is accepted the grammar generates

  lemma AtJoin(buf: seq<byte>, pos: nat, a: seq<byte>, b: seq<byte>)
    requires At(buf, pos, a) && At(buf, pos + |a|, b)
    ensures At(buf, pos, a + b)
  {
    assert buf[pos..pos + |a + b|] == buf[pos..pos + |a|] + buf[pos + |a|..pos + |a| + |b|];
  }

  lemma NumberFound(buf: seq<byte>, pos: nat, v: int, end: nat)
    requires ReadVarintSpec(buf, pos) == Ok((v, end))
    ensures pos < end <= |buf| && Spells(buf[pos..end], v) && At(buf, pos, buf[pos..end])
  {
    hide ReadVarintSpec, Spells;
    NumberReadIff(buf, pos, v, end);
  }

  lemma TextFound(buf: seq<byte>, pos: nat, bytes: seq<byte>, end: nat) returns (t: Text)
    requires ReadStringSpec(buf, pos) == Ok((bytes, end))
    ensures TextOk(t) && t.bytes == bytes && At(buf, pos, TextBytes(t)) && end == pos + |TextBytes(t)|
  {
    hide ReadVarintSpec, Spells;
    var (len, start) := ReadVarintSpec(buf, pos).value;
    NumberFound(buf, pos, len, start);
    t := Text(buf[pos..start], bytes);
    AtJoin(buf, pos, t.length, t.bytes);
  }

  lemma {:induction false} EntriesFound(buf: seq<byte>, pos: nat, count: nat, tags: seq<Tag>, end: nat)
      returns (es: seq<Entry>)
    requires pos <= |buf| && ReadEntriesSpec(buf, pos, count) == Ok((tags, end))
    ensures EntriesOk(es) && |es| == count && TagsOf(es) == tags
    ensures At(buf, pos, EntriesText(es)) && end == pos + |EntriesText(es)|
    decreases count
  {
    hide ReadStringSpec, TextOk, TextBytes, At;
    if count == 0 {
      es := [];
      assert At(buf, pos, []) by { AtNothing(buf, pos); }
    } else {
      var (name, p) := ReadStringSpec(buf, pos).value;
      var (value, q) := ReadStringSpec(buf, p).value;
      var (rest, _) := ReadEntriesSpec(buf, q, count - 1).value;
      var n := TextFound(buf, pos, name, p);
      var v := TextFound(buf, p, value, q);
      var tail := EntriesFound(buf, q, count - 1, rest, end);
      es := [Entry(n, v)] + tail;
      assert es[1..] == tail;
      AtJoin(buf, p, TextBytes(v), EntriesText(tail));
      AtJoin(buf, pos, TextBytes(n), TextBytes(v) + EntriesText(tail));
    }
  }

  lemma AtNothing(buf: seq<byte>, pos: nat)
    requires pos <= |buf|
    ensures At(buf, pos, [])
  {
  }

  /** The count of a block, with its hint if it has one. */
  lemma CountFound(buf: seq<byte>, pos: nat, count: nat, end: nat) returns (spelled: seq<byte>, hint: seq<byte>)
    requires ReadCountSpec(buf, pos) == Ok((count, end)) && count > 0
    ensures if hint == [] then Spells(spelled, count)
            else Spells(spelled, 0 - count) && exists size :: Spells(hint, size)
    ensures At(buf, pos, spelled) && At(buf, pos + |spelled|, hint) && end == pos + |spelled| + |hint|
  {
    hide ReadVarintSpec, Spells;
    var (v, p) := ReadVarintSpec(buf, pos).value;
    NumberFound(buf, pos, v, p);
    spelled, hint := buf[pos..p], [];
    if v < 0 {
      var (size, q) := ReadVarintSpec(buf, p).value;
      NumberFound(buf, p, size, q);
      hint := buf[p..q];
    }
  }

  lemma ZeroFound(buf: seq<byte>, pos: nat, end: nat) returns (zero: seq<byte>)
    requires ReadCountSpec(buf, pos) == Ok((0, end))
    ensures Spells(zero, 0) && At(buf, pos, zero) && end == pos + |zero|
  {
    hide ReadVarintSpec, Spells;
    NumberFound(buf, pos, 0, end);
    zero := buf[pos..end];
  }

  lemma {:induction false} PartsFound(buf: seq<byte>, pos: nat, tags: seq<Tag>, end: nat)
      returns (parts: seq<Part>, zero: seq<byte>)
    requires ReadBlocksSpec(buf, pos) == Ok((tags, end))
    ensures PartsOk(parts, zero) && AllTags(parts) == tags
    ensures At(buf, pos, PartsText(parts, zero)) && end == pos + |PartsText(parts, zero)|
    decreases |buf| - pos
  {
    hide ReadCountSpec, ReadEntriesSpec, Spells, At, PartText, PartOk, PartsOk, PartsText, AllTags;
    var (count, p) := ReadCountSpec(buf, pos).value;
    if count == 0 {
      zero := ZeroFound(buf, pos, p);
      parts := [];
      NoParts(zero);
    } else {
      var (first, q) := ReadEntriesSpec(buf, p, count).value;
      var (rest, _) := ReadBlocksSpec(buf, q).value;
      var part := PartFound(buf, pos, count, p, first, q);
      var tail, z := PartsFound(buf, q, rest, end);
      zero := z;
      parts := [part] + tail;
      PartAdded(part, tail, zero);
      AtJoin(buf, pos, PartText(part), PartsText(tail, zero));
    }
  }

  lemma NoParts(zero: seq<byte>)
    requires Spells(zero, 0)
    ensures PartsOk([], zero) && PartsText([], zero) == zero && AllTags([]) == []
  {
  }

  lemma PartFound(buf: seq<byte>, pos: nat, count: nat, p: nat, tags: seq<Tag>, end: nat) returns (part: Part)
    requires ReadCountSpec(buf, pos) == Ok((count, p)) && count > 0 && ReadEntriesSpec(buf, p, count) == Ok((tags, end))
    ensures PartOk(part) && TagsOf(part.entries) == tags
    ensures At(buf, pos, PartText(part)) && end == pos + |PartText(part)|
  {
    hide ReadCountSpec, ReadEntriesSpec, EntriesText, EntriesOk, TagsOf, Spells, At;
    var spelled, hint := CountFound(buf, pos, count, p);
    var es := EntriesFound(buf, p, count, tags, end);
    part := Part(spelled, hint, es);
    AtJoin(buf, pos + |spelled|, hint, EntriesText(es));
    AtJoin(buf, pos, spelled, hint + EntriesText(es));
  }

  lemma PartAdded(p: Part, tail: seq<Part>, zero: seq<byte>)
    requires PartOk(p) && PartsOk(tail, zero)
    ensures PartsOk([p] + tail, zero) && AllTags([p] + tail) == TagsOf(p.entries) + AllTags(tail)
    ensures PartsText([p] + tail, zero) == PartText(p) + PartsText(tail, zero)
  {
    hide PartOk, PartText, TagsOf, Spells;
    assert ([p] + tail)[1..] == tail;
  }

  // ----- Both

  lemma ListedDecodes(buf: seq<byte>, tags: seq<Tag>)
    requires |buf| <= 4096 && Lists(buf, tags)
    ensures DecodeTagsSpec(buf) == Ok(tags)
  {
    hide ReadBlocksSpec, PartsOk;
    if buf != [] {
      var parts, zero :| PartsOk(parts, zero) && buf == PartsText(parts, zero) && tags == AllTags(parts);
      assert At(buf, 0, buf);
      PartsRead(buf, 0, parts, zero);
    }
  }

  lemma DecodedLists(buf: seq<byte>, tags: seq<Tag>)
    requires DecodeTagsSpec(buf) == Ok(tags)
    ensures |buf| <= 4096 && Lists(buf, tags)
  {
    hide ReadBlocksSpec, PartsOk;
    if buf != [] {
      var parts, zero := PartsFound(buf, 0, tags, |buf|);
      assert buf == PartsText(parts, zero);
    }
  }

  /** The decoder accepts a buffer exactly when it is no longer than 4096 bytes and the
      grammar generates it: nothing is missing, nothing follows the closing zero, and no
      block is refused for how it is split or its numbers are spelled. */
  lemma DecodesIffListed(buf: seq<byte>, tags: seq<Tag>)
    ensures DecodeTagsSpec(buf) == Ok(tags) <==> |buf| <= 4096 && Lists(buf, tags)
  {
    hide DecodeTagsSpec, Lists;
    if DecodeTagsSpec(buf) == Ok(tags) {
      DecodedLists(buf, tags);
    }
    if |buf| <= 4096 && Lists(buf, tags) {
      ListedDecodes(buf, tags);
    }
  }
}
