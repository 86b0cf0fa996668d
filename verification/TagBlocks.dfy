/** The tag encoding byte by byte: what the codes, the groups and the blocks spell. */
module TagBlocks {
  import opened Bytes
  import opened Varint
  import opened Tags
  import opened Wrappers

  // ----- Codes and groups

  /** Zero and the positive integers take the even codes in order, each negative one the
      odd code just below its opposite's. */
  lemma ZigZagCodes(v: int)
    requires v >= 0
    ensures ZigZag(v) == v + v && UnZigZag(v + v) == v
    ensures v > 0 ==> ZigZag(-v) == ZigZag(v) - 1 && UnZigZag(ZigZag(v) - 1) == -v
  {
  }

  /** The number a group string spells in base 128, least significant group first. */
  function GroupValue(bs: seq<byte>): nat {
    if bs == [] then 0 else bs[0] % 128 + 128 * GroupValue(bs[1..])
  }

  /** The groups of a number spell it, and every group but the last is marked. */
  lemma {:induction false} GroupsSpell(z: nat)
    ensures GroupValue(Groups(z)) == z
    ensures forall k | 0 <= k < |Groups(z)| :: Groups(z)[k] >= 128 <==> k < |Groups(z)| - 1
  {
    if z >= 128 {
      GroupsSpell(z / 128);
      GroupsOf(z % 128, z / 128);
      assert Groups(z)[1..] == Groups(z / 128);
      forall k | 0 <= k < |Groups(z)| ensures Groups(z)[k] >= 128 <==> k < |Groups(z)| - 1 {
        if k > 0 {
          assert Groups(z)[k] == Groups(z / 128)[k - 1];
        }
      }
    } else {
      assert Groups(z)[1..] == [];
    }
  }

  // ----- A block, byte by byte

  /** A short list spelled out: twice the number of entries, then each entry as twice the
      length of its name, the name, twice the length of its value and the value, then a
      zero; and nothing at all for an empty list. */
  function Spelled(tags: seq<Tag>): seq<int> {
    if tags == [] then []
    else
      [2 * |tags[0].name|] + tags[0].name + [2 * |tags[0].value|] + tags[0].value + Spelled(tags[1..])
  }

  ghost predicate Short(tags: seq<Tag>) {
    |tags| < 64 && forall i | 0 <= i < |tags| :: |tags[i].name| < 64 && |tags[i].value| < 64
  }

  lemma ShortLength(n: nat)
    requires n < 64
    ensures VarintBytes(n) == [2 * n]
  {
  }

  lemma {:induction false} EntriesSpelled(tags: seq<Tag>)
    requires forall i | 0 <= i < |tags| :: |tags[i].name| < 64 && |tags[i].value| < 64
    ensures EntriesBytes(tags) == Spelled(tags)
  {
    hide VarintBytes;
    if tags != [] {
      ShortLength(|tags[0].name|);
      ShortLength(|tags[0].value|);
      EntriesSpelled(tags[1..]);
    }
  }

  lemma BlockSpelled(tags: seq<Tag>)
    requires Short(tags)
    ensures tags == [] ==> EncodeTagsSpec(tags) == Ok([])
    ensures tags != [] ==> TagBlock(tags) == [2 * |tags|] + Spelled(tags) + [0]
    ensures EncodeTagsSpec(tags).Ok? <==> |TagBlock(tags)| <= 4096
  {
    hide VarintBytes, EntriesBytes;
    ShortLength(0);
    ShortLength(|tags|);
    EntriesSpelled(tags);
  }
}
