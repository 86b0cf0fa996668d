/** The Arweave data root: chunking, leaves, and the layered pairing, over an
    arbitrary 32-byte hash function. */
module MerkleRoot {
  import opened Bytes
  import opened DeepHashing

  const MAX_CHUNK_SIZE := 256 * 1024
  const MIN_CHUNK_SIZE := 32 * 1024
  const NOTE_SIZE := 32

  // ----- Chunking

  /** The size of the next chunk when at least a full chunk remains. */
  function NextChunk(rest: nat): nat
    requires rest >= MAX_CHUNK_SIZE
  {
    var nextRest := rest - MAX_CHUNK_SIZE;
    if 0 < nextRest < MIN_CHUNK_SIZE then (rest + 1) / 2 else MAX_CHUNK_SIZE
  }

  function RangesFrom(cursor: nat, rest: nat): (ranges: seq<(nat, nat)>)
    ensures |ranges| >= 1
    decreases rest
  {
    if rest >= MAX_CHUNK_SIZE then
      [(cursor, cursor + NextChunk(rest))] + RangesFrom(cursor + NextChunk(rest), rest - NextChunk(rest))
    else [(cursor, cursor + rest)]
  }

  method ChunkRanges(len: nat) returns (ranges: seq<(nat, nat)>)
    ensures ranges == RangesFrom(0, len)
  {
    hide NextChunk, RangesFrom;
    ranges := [];
    var cursor: nat := 0;
    var rest: nat := len;
    while rest >= MAX_CHUNK_SIZE
      invariant cursor + rest == len
      invariant ranges + RangesFrom(cursor, rest) == RangesFrom(0, len)
    {
      var chunkSize: nat := MAX_CHUNK_SIZE;
      var nextRest: nat := rest - MAX_CHUNK_SIZE;
      if nextRest > 0 && nextRest < MIN_CHUNK_SIZE {
        chunkSize := (rest + 1) / 2;
      }
      NextChunkFacts(rest);
      TakeChunk(cursor, rest);
      assert ranges + RangesFrom(cursor, rest)
          == (ranges + [(cursor, cursor + chunkSize)]) + RangesFrom(cursor + chunkSize, rest - chunkSize);
      ranges := ranges + [(cursor, cursor + chunkSize)];
      cursor := cursor + chunkSize;
      rest := rest - chunkSize;
    }
    TakeChunk(cursor, rest);
    ranges := ranges + [(cursor, cursor + rest)];
  }

  /** A full chunk, or half of what is left when a full one would leave a runt: either
      way more than half a maximum, and never leaving a runt behind. */
  lemma NextChunkFacts(rest: nat)
    requires rest >= MAX_CHUNK_SIZE
    ensures NextChunk(rest)
         == if 0 < rest - MAX_CHUNK_SIZE < MIN_CHUNK_SIZE then (rest + 1) / 2 else MAX_CHUNK_SIZE
    ensures MAX_CHUNK_SIZE / 2 < NextChunk(rest) <= MAX_CHUNK_SIZE && NextChunk(rest) <= rest
    ensures rest - NextChunk(rest) < MAX_CHUNK_SIZE ==>
              rest == NextChunk(rest) || rest - NextChunk(rest) >= MIN_CHUNK_SIZE
  {
  }

  lemma TakeChunk(cursor: nat, rest: nat)
    ensures rest >= MAX_CHUNK_SIZE ==> NextChunk(rest) <= rest
    ensures RangesFrom(cursor, rest)
         == if rest >= MAX_CHUNK_SIZE
            then [(cursor, cursor + NextChunk(rest))] + RangesFrom(cursor + NextChunk(rest), rest - NextChunk(rest))
            else [(cursor, cursor + rest)]
  {
  }

  /** The ranges run contiguously over the payload; every chunk but the last is more
      than half full and none exceeds the maximum; the last one is empty, or at least
      the minimum, or the whole payload. */
  ghost predicate Chunked(ranges: seq<(nat, nat)>, from: nat, to: nat) {
    && |ranges| >= 1 && ranges[0].0 == from && ranges[|ranges| - 1].1 == to
    && (forall i | 0 <= i < |ranges| - 1 :: ranges[i].1 == ranges[i + 1].0)
    && (forall i | 0 <= i < |ranges| :: ranges[i].0 <= ranges[i].1 <= ranges[i].0 + MAX_CHUNK_SIZE)
    && (forall i | 0 <= i < |ranges| - 1 :: ranges[i].1 - ranges[i].0 > MAX_CHUNK_SIZE / 2)
    && (|ranges| == 1 || var last := ranges[|ranges| - 1]; last.0 == last.1 || last.1 - last.0 >= MIN_CHUNK_SIZE)
  }

  lemma {:induction false} RangesAreChunked(cursor: nat, rest: nat)
    ensures Chunked(RangesFrom(cursor, rest), cursor, cursor + rest)
    ensures |RangesFrom(cursor, rest)| == 1 ==>
              rest < MAX_CHUNK_SIZE && RangesFrom(cursor, rest) == [(cursor, cursor + rest)]
    decreases rest
  {
    hide NextChunk, RangesFrom, Chunked;
    TakeChunk(cursor, rest);
    if rest >= MAX_CHUNK_SIZE {
      NextChunkFacts(rest);
      var size := NextChunk(rest);
      var tail := RangesFrom(cursor + size, rest - size);
      RangesAreChunked(cursor + size, rest - size);
      assert cursor + size + (rest - size) == cursor + rest;
      ChunkPrepended(cursor, size, tail, cursor + rest);
    } else {
      OneChunk(cursor, rest);
    }
  }

  lemma OneChunk(from: nat, size: nat)
    requires size <= MAX_CHUNK_SIZE
    ensures Chunked([(from, from + size)], from, from + size)
  {
  }

  lemma ChunkPrepended(from: nat, size: nat, tail: seq<(nat, nat)>, to: nat)
    requires Chunked(tail, from + size, to) && MAX_CHUNK_SIZE / 2 < size <= MAX_CHUNK_SIZE
    requires |tail| == 1 ==> tail[0].0 == tail[0].1 || tail[0].1 - tail[0].0 >= MIN_CHUNK_SIZE
    ensures Chunked([(from, from + size)] + tail, from, to)
  {
    var ranges := [(from, from + size)] + tail;
    forall i | 0 <= i < |ranges| - 1
      ensures ranges[i].1 == ranges[i + 1].0 && ranges[i].1 - ranges[i].0 > MAX_CHUNK_SIZE / 2
    {
      if i > 0 {
        assert ranges[i] == tail[i - 1] && ranges[i + 1] == tail[i];
      }
    }
  }

  /** Where the chunker changes its mind: a full chunk leaves an empty tail; one byte more,
      and up to 32 KiB short of one more byte, the two last chunks are halves; from a tail
      of 32 KiB on it is a chunk of its own. */
  lemma ChunkBoundaries()
    ensures RangesFrom(0, 262143) == [(0, 262143)]
    ensures RangesFrom(0, 262144) == [(0, 262144), (262144, 262144)]
    ensures RangesFrom(0, 262145) == [(0, 131073), (131073, 262145)]
    ensures RangesFrom(0, 294911) == [(0, 147456), (147456, 294911)]
    ensures RangesFrom(0, 294912) == [(0, 262144), (262144, 294912)]
  {
    hide RangesFrom;
    TakeChunk(0, 262143);
    TakeChunk(0, 262144);
    TakeChunk(262144, 0);
    TakeChunk(0, 262145);
    TakeChunk(131073, 131072);
    TakeChunk(0, 294911);
    TakeChunk(147456, 147455);
    TakeChunk(0, 294912);
    TakeChunk(262144, 32768);
  }

  // ----- Nodes and the pairing

  datatype Node = Node(id: seq<byte>, maxByteRange: nat)

  /** A byte range as 32 big-endian bytes. */
  function NoteToBuffer(note: nat): (buf: seq<byte>)
    ensures |buf| == NOTE_SIZE
  {
    seq(NOTE_SIZE - 8, i => 0) + BigEndian(note, 8)
  }

  /** The note is the byte range, most significant byte first, in exactly 32 bytes. */
  lemma NoteSpells(note: u64)
    ensures |NoteToBuffer(note)| == 32 && FromBigEndian(NoteToBuffer(note)) == note
  {
    hide BigEndian, FromBigEndian;
    Capacities();
    BigEndianRoundTrip(note, 8);
    LeadingZeros(seq(NOTE_SIZE - 8, i => 0), BigEndian(note, 8));
  }

  lemma {:induction false} LeadingZeros(zeros: seq<byte>, bs: seq<byte>)
    requires forall i | 0 <= i < |zeros| :: zeros[i] == 0
    ensures FromBigEndian(zeros + bs) == FromBigEndian(bs)
    decreases |zeros| + |bs|
  {
    if bs != [] {
      assert (zeros + bs)[..|zeros + bs| - 1] == zeros + bs[..|bs| - 1];
      LeadingZeros(zeros, bs[..|bs| - 1]);
    } else if zeros != [] {
      assert zeros + bs == zeros && zeros[..|zeros| - 1] + [] == zeros[..|zeros| - 1];
      LeadingZeros(zeros[..|zeros| - 1], []);
    }
  }

  lemma NoteInjective(m: u64, n: u64)
    requires NoteToBuffer(m) == NoteToBuffer(n)
    ensures m == n
  {
    hide NoteToBuffer;
    NoteSpells(m);
    NoteSpells(n);
  }

  function LeafNode(h: Hash, chunk: seq<byte>, maxByteRange: nat): Node {
    Node(h(h(h(chunk)) + h(NoteToBuffer(maxByteRange))), maxByteRange)
  }

  function BranchNode(h: Hash, left: Node, right: Node): Node {
    Node(h(h(left.id) + h(right.id) + h(NoteToBuffer(left.maxByteRange))), right.maxByteRange)
  }

  /** One layer up: adjacent nodes paired, an odd last node promoted. */
  function PairNodes(h: Hash, nodes: seq<Node>): (next: seq<Node>)
    ensures |next| == (|nodes| + 1) / 2
  {
    if |nodes| < 2 then nodes else [BranchNode(h, nodes[0], nodes[1])] + PairNodes(h, nodes[2..])
  }

  function RootSpec(h: Hash, nodes: seq<Node>): seq<byte>
    decreases |nodes|
  {
    if nodes == [] then seq(32, i => 0)
    else if |nodes| == 1 then nodes[0].id
    else RootSpec(h, PairNodes(h, nodes))
  }

  method PairLayer(h: Hash, nodes: seq<Node>) returns (next: seq<Node>)
    ensures next == PairNodes(h, nodes)
  {
    hide BranchNode, PairNodes;
    next := [];
    var i := 0;
    assert nodes[0..] == nodes;
    while i < |nodes|
      invariant 0 <= i <= |nodes|
      invariant next + PairNodes(h, nodes[i..]) == PairNodes(h, nodes)
    {
      ghost var before := next;
      PairStep(h, nodes, i);
      if i + 1 < |nodes| {
        next := next + [BranchNode(h, nodes[i], nodes[i + 1])];
        assert next + PairNodes(h, nodes[i + 2..]) == before + PairNodes(h, nodes[i..]);
        i := i + 2;
      } else {
        next := next + [nodes[i]];
        assert next + PairNodes(h, nodes[i + 1..]) == before + PairNodes(h, nodes[i..]);
        i := i + 1;
      }
    }
    assert nodes[i..] == [] && next + [] == next;
  }

  lemma PairStep(h: Hash, nodes: seq<Node>, i: nat)
    requires i < |nodes|
    ensures PairNodes(h, nodes[i..])
         == if i + 1 < |nodes| then [BranchNode(h, nodes[i], nodes[i + 1])] + PairNodes(h, nodes[i + 2..])
            else [nodes[i]] + PairNodes(h, nodes[i + 1..])
  {
    hide BranchNode;
    if i + 1 < |nodes| {
      assert nodes[i..][2..] == nodes[i + 2..];
    } else {
      assert nodes[i..] == [nodes[i]] && nodes[i + 1..] == [];
    }
  }

  method BuildRoot(h: Hash, leaves: seq<Node>) returns (root: seq<byte>)
    ensures root == RootSpec(h, leaves)
  {
    hide PairNodes;
    var nodes := leaves;
    while |nodes| > 1
      invariant RootSpec(h, nodes) == RootSpec(h, leaves)
      decreases |nodes|
    {
      nodes := PairLayer(h, nodes);
    }
    if |nodes| == 0 {
      root := seq(32, i => 0);
    } else {
      root := nodes[0].id;
    }
  }

  function Leaves(h: Hash, data: seq<byte>, ranges: seq<(nat, nat)>): seq<Node>
    requires forall i | 0 <= i < |ranges| :: ranges[i].0 <= ranges[i].1 <= |data|
  {
    seq(|ranges|, i requires 0 <= i < |ranges| => LeafNode(h, data[ranges[i].0..ranges[i].1], ranges[i].1))
  }

  lemma {:induction false} RangesWithin(cursor: nat, rest: nat)
    ensures forall i | 0 <= i < |RangesFrom(cursor, rest)| ::
      cursor <= RangesFrom(cursor, rest)[i].0 <= RangesFrom(cursor, rest)[i].1 <= cursor + rest
    decreases rest
  {
    if rest >= MAX_CHUNK_SIZE {
      RangesWithin(cursor + NextChunk(rest), rest - NextChunk(rest));
    }
  }

  function DataRootSpec(h: Hash, data: seq<byte>): seq<byte> {
    RangesWithin(0, |data|);
    RootSpec(h, Leaves(h, data, RangesFrom(0, |data|)))
  }

  method DataRoot(h: Hash, data: seq<byte>) returns (root: seq<byte>)
    ensures root == DataRootSpec(h, data)
  {
    var chunks := ChunkRanges(|data|);
    RangesWithin(0, |data|);
    root := BuildRoot(h, Leaves(h, data, chunks));
  }

  /** An empty payload has the root of one empty chunk. */
  lemma EmptyPayloadRoot(h: Hash)
    ensures DataRootSpec(h, []) == h(h(h([])) + h(NoteToBuffer(0)))
  {
    RangesWithin(0, 0);
    assert RangesFrom(0, 0) == [(0, 0)];
    var leaves := Leaves(h, [], RangesFrom(0, 0));
    assert leaves[0] == LeafNode(h, [], 0);
  }
}
