/** The data root binds the payload. */
module MerkleBinding {
  import opened Bytes
  import opened DeepHashing
  import opened MerkleRoot

  /** The tree a root is the digest of. */
  datatype Tree = Leaf(chunk: seq<byte>, end: nat) | Branch(left: Tree, right: Tree)

  function NodeOf(h: Hash, t: Tree): Node {
    match t
    case Leaf(chunk, end) => LeafNode(h, chunk, end)
    case Branch(left, right) => BranchNode(h, NodeOf(h, left), NodeOf(h, right))
  }

  /** The chunks of a tree, left to right. */
  ghost function Payload(t: Tree): seq<byte> {
    match t
    case Leaf(chunk, _) => chunk
    case Branch(left, right) => Payload(left) + Payload(right)
  }

  ghost function Payloads(layer: seq<Tree>): seq<byte> {
    if layer == [] then [] else Payload(layer[0]) + Payloads(layer[1..])
  }

  ghost function NodesOf(h: Hash, layer: seq<Tree>): (nodes: seq<Node>)
    ensures |nodes| == |layer| && forall i | 0 <= i < |layer| :: nodes[i] == NodeOf(h, layer[i])
  {
    if layer == [] then [] else [NodeOf(h, layer[0])] + NodesOf(h, layer[1..])
  }

  ghost function Pair(layer: seq<Tree>): (next: seq<Tree>)
    ensures |next| == (|layer| + 1) / 2
  {
    if |layer| < 2 then layer else [Branch(layer[0], layer[1])] + Pair(layer[2..])
  }

  ghost function TreeOf(layer: seq<Tree>): Tree
    requires layer != []
    decreases |layer|
  {
    if |layer| == 1 then layer[0] else TreeOf(Pair(layer))
  }

  lemma {:induction false} PairMatches(h: Hash, layer: seq<Tree>)
    ensures PairNodes(h, NodesOf(h, layer)) == NodesOf(h, Pair(layer))
  {
    hide NodeOf, BranchNode;
    if |layer| >= 2 {
      var nodes := NodesOf(h, layer);
      PairMatches(h, layer[2..]);
      assert nodes[2..] == NodesOf(h, layer[2..]);
      assert Pair(layer)[1..] == Pair(layer[2..]);
      NodeOfBranch(h, layer[0], layer[1]);
    }
  }

  lemma NodeOfBranch(h: Hash, left: Tree, right: Tree)
    ensures NodeOf(h, Branch(left, right)) == BranchNode(h, NodeOf(h, left), NodeOf(h, right))
  {
  }

  lemma {:induction false} RootMatches(h: Hash, layer: seq<Tree>)
    requires layer != []
    ensures RootSpec(h, NodesOf(h, layer)) == NodeOf(h, TreeOf(layer)).id
    decreases |layer|
  {
    hide NodeOf;
    if |layer| > 1 {
      PairMatches(h, layer);
      RootMatches(h, Pair(layer));
    }
  }

  /** Pairing, with odd promotion, keeps the leaves in order. */
  lemma {:induction false} PairKeepsPayload(layer: seq<Tree>)
    ensures Payloads(Pair(layer)) == Payloads(layer)
  {
    if |layer| >= 2 {
      PairKeepsPayload(layer[2..]);
      assert Pair(layer)[1..] == Pair(layer[2..]);
      assert layer[1..][1..] == layer[2..];
    }
  }

  lemma {:induction false} TreeKeepsPayload(layer: seq<Tree>)
    requires layer != []
    ensures Payload(TreeOf(layer)) == Payloads(layer)
    decreases |layer|
  {
    if |layer| == 1 {
      assert layer == [layer[0]];
      assert Payloads(layer[1..]) == [];
    } else {
      PairKeepsPayload(layer);
      TreeKeepsPayload(Pair(layer));
    }
  }

  // ----- The tree of a payload

  ghost function LeafTrees(data: seq<byte>, ranges: seq<(nat, nat)>): (layer: seq<Tree>)
    requires forall i | 0 <= i < |ranges| :: ranges[i].0 <= ranges[i].1 <= |data|
    ensures |layer| == |ranges|
    ensures forall i | 0 <= i < |ranges| :: layer[i] == Leaf(data[ranges[i].0..ranges[i].1], ranges[i].1)
  {
    if ranges == [] then [] else
      [Leaf(data[ranges[0].0..ranges[0].1], ranges[0].1)] + LeafTrees(data, ranges[1..])
  }

  lemma {:induction false} LeafTreesStep(data: seq<byte>, ranges: seq<(nat, nat)>)
    requires ranges != [] && forall i | 0 <= i < |ranges| :: ranges[i].0 <= ranges[i].1 <= |data|
    ensures Payloads(LeafTrees(data, ranges))
         == data[ranges[0].0..ranges[0].1] + Payloads(LeafTrees(data, ranges[1..]))
  {
    assert LeafTrees(data, ranges)[1..] == LeafTrees(data, ranges[1..]);
  }

  lemma {:induction false} LeavesHoldPayload(data: seq<byte>, cursor: nat, rest: nat)
    requires cursor + rest == |data|
    requires forall i | 0 <= i < |RangesFrom(cursor, rest)| ::
      RangesFrom(cursor, rest)[i].0 <= RangesFrom(cursor, rest)[i].1 <= |data|
    ensures Payloads(LeafTrees(data, RangesFrom(cursor, rest))) == data[cursor..]
    decreases rest
  {
    hide NextChunk, RangesFrom, LeafTrees;
    var ranges := RangesFrom(cursor, rest);
    TakeChunk(cursor, rest);
    LeafTreesStep(data, ranges);
    if rest >= MAX_CHUNK_SIZE {
      NextChunkFacts(rest);
      var size := NextChunk(rest);
      assert ranges[1..] == RangesFrom(cursor + size, rest - size);
      LeavesHoldPayload(data, cursor + size, rest - size);
      assert data[cursor..] == data[cursor..cursor + size] + data[cursor + size..];
    } else {
      assert LeafTrees(data, ranges[1..]) == [];
    }
  }

  ghost function DataTree(data: seq<byte>): Tree {
    RangesWithin(0, |data|);
    TreeOf(LeafTrees(data, RangesFrom(0, |data|)))
  }

  /** The data root is the digest of a tree whose leaves spell the payload. */
  lemma DataTreeSpellsPayload(h: Hash, data: seq<byte>)
    ensures DataRootSpec(h, data) == NodeOf(h, DataTree(data)).id
    ensures Payload(DataTree(data)) == data
  {
    hide RangesFrom, RootSpec, LeafNode;
    RangesWithin(0, |data|);
    var ranges := RangesFrom(0, |data|);
    var layer := LeafTrees(data, ranges);
    RootMatches(h, layer);
    assert Leaves(h, data, ranges) == NodesOf(h, layer) by {
      forall i | 0 <= i < |ranges|
        ensures Leaves(h, data, ranges)[i] == NodeOf(h, layer[i])
      {
        assert layer[i] == Leaf(data[ranges[i].0..ranges[i].1], ranges[i].1);
      }
    }
    TreeKeepsPayload(layer);
    LeavesHoldPayload(data, 0, |data|);
    assert data[0..] == data;
  }

  /** Pairing keeps the byte range the last node ends at. */
  lemma {:induction false} PairKeepsEnd(h: Hash, layer: seq<Tree>)
    requires layer != []
    ensures NodeOf(h, Pair(layer)[|Pair(layer)| - 1]).maxByteRange == NodeOf(h, layer[|layer| - 1]).maxByteRange
  {
    if |layer| > 2 {
      PairKeepsEnd(h, layer[2..]);
      assert Pair(layer)[1..] == Pair(layer[2..]);
    }
  }

  lemma {:induction false} TreeKeepsEnd(h: Hash, layer: seq<Tree>)
    requires layer != []
    ensures NodeOf(h, TreeOf(layer)).maxByteRange == NodeOf(h, layer[|layer| - 1]).maxByteRange
    decreases |layer|
  {
    hide NodeOf;
    if |layer| > 1 {
      PairKeepsEnd(h, layer);
      TreeKeepsEnd(h, Pair(layer));
    }
  }

  /** The root covers the whole payload: the byte ranges the nodes carry add up. */
  lemma RootCoversPayload(h: Hash, data: seq<byte>)
    ensures NodeOf(h, DataTree(data)).maxByteRange == |data|
  {
    hide Payload, Pair, TreeOf;
    RangesWithin(0, |data|);
    RangesAreChunked(0, |data|);
    TreeKeepsEnd(h, LeafTrees(data, RangesFrom(0, |data|)));
  }

  // ----- Binding

  /** Every string hashed for the tree. */
  ghost function TreePreimages(h: Hash, t: Tree): set<seq<byte>> {
    match t
    case Leaf(chunk, end) => {chunk, h(chunk), NoteToBuffer(end), h(h(chunk)) + h(NoteToBuffer(end))}
    case Branch(left, right) =>
      var l, r := NodeOf(h, left), NodeOf(h, right);
      TreePreimages(h, left) + TreePreimages(h, right)
      + {l.id, r.id, NoteToBuffer(l.maxByteRange), h(l.id) + h(r.id) + h(NoteToBuffer(l.maxByteRange))}
  }

  lemma LeavesBind(h: Hash, s: Tree, t: Tree) returns (x: seq<byte>, y: seq<byte>)
    requires FixedWidth(h, 32) && s.Leaf? && t.Leaf? && s.chunk != t.chunk && NodeOf(h, s).id == NodeOf(h, t).id
    ensures x in TreePreimages(h, s) && y in TreePreimages(h, t) && Collides(h, x, y)
  {
    hide NoteToBuffer;
    var m, n := h(NoteToBuffer(s.end)), h(NoteToBuffer(t.end));
    x, y := h(h(s.chunk)) + m, h(h(t.chunk)) + n;
    if x == y {
      SplitPair(h(h(s.chunk)), m, h(h(t.chunk)), n);
      x, y := h(s.chunk), h(t.chunk);
      if x == y {
        x, y := s.chunk, t.chunk;
      }
    }
  }

  lemma SplitTriple(a: seq<byte>, b: seq<byte>, c: seq<byte>, d: seq<byte>, e: seq<byte>, f: seq<byte>)
    requires |a| == |d| && |b| == |e| && a + b + c == d + e + f
    ensures a == d && b == e && c == f
  {
    SplitPair(a + b, c, d + e, f);
    SplitPair(a, b, d, e);
  }

  /** Two branches with one id have children with pairwise equal ids, or collide. */
  lemma BranchesBind(h: Hash, s: Tree, t: Tree) returns (x: seq<byte>, y: seq<byte>)
    requires FixedWidth(h, 32) && s.Branch? && t.Branch? && NodeOf(h, s).id == NodeOf(h, t).id
    ensures x in TreePreimages(h, s) && y in TreePreimages(h, t) && h(x) == h(y)
    ensures x == y ==> NodeOf(h, s.left).id == NodeOf(h, t.left).id && NodeOf(h, s.right).id == NodeOf(h, t.right).id
  {
    hide NoteToBuffer;
    var a, b := NodeOf(h, s.left), NodeOf(h, s.right);
    var c, d := NodeOf(h, t.left), NodeOf(h, t.right);
    NodeOfBranch(h, s.left, s.right);
    NodeOfBranch(h, t.left, t.right);
    hide NodeOf;
    x := h(a.id) + h(b.id) + h(NoteToBuffer(a.maxByteRange));
    y := h(c.id) + h(d.id) + h(NoteToBuffer(c.maxByteRange));
    if x == y {
      SplitTriple(h(a.id), h(b.id), h(NoteToBuffer(a.maxByteRange)), h(c.id), h(d.id), h(NoteToBuffer(c.maxByteRange)));
      if a.id != c.id {
        x, y := a.id, c.id;
      } else if b.id != d.id {
        x, y := b.id, d.id;
      }
    }
  }

  lemma LeafBranchBind(h: Hash, s: Tree, t: Tree) returns (x: seq<byte>, y: seq<byte>)
    requires FixedWidth(h, 32) && s.Leaf? && t.Branch? && NodeOf(h, s).id == NodeOf(h, t).id
    ensures x in TreePreimages(h, s) && y in TreePreimages(h, t) && Collides(h, x, y)
  {
    hide NoteToBuffer;
    var l, r := NodeOf(h, t.left), NodeOf(h, t.right);
    x := h(h(s.chunk)) + h(NoteToBuffer(s.end));
    y := h(l.id) + h(r.id) + h(NoteToBuffer(l.maxByteRange));
    assert |x| == 64 && |y| == 96;
  }

  /** Trees with one id and different payloads contain a collision. */
  lemma {:induction false} TreesBind(h: Hash, s: Tree, t: Tree) returns (x: seq<byte>, y: seq<byte>)
    requires FixedWidth(h, 32) && NodeOf(h, s).id == NodeOf(h, t).id && Payload(s) != Payload(t)
    ensures x in TreePreimages(h, s) && y in TreePreimages(h, t) && Collides(h, x, y)
    decreases s
  {
    hide NodeOf, FixedWidth;
    match (s, t)
    case (Leaf(_, _), Leaf(_, _)) => x, y := LeavesBind(h, s, t);
    case (Leaf(_, _), Branch(_, _)) => x, y := LeafBranchBind(h, s, t);
    case (Branch(_, _), Leaf(_, _)) => y, x := LeafBranchBind(h, t, s);
    case (Branch(_, _), Branch(_, _)) =>
      x, y := BranchesBind(h, s, t);
      if x == y {
        if Payload(s.left) != Payload(t.left) {
          x, y := TreesBind(h, s.left, t.left);
        } else {
          x, y := TreesBind(h, s.right, t.right);
        }
      }
  }

  /** Two different payloads with one data root yield a colliding pair of strings,
      one hashed for each payload. */
  lemma DataRootBinds(h: Hash, a: seq<byte>, b: seq<byte>) returns (x: seq<byte>, y: seq<byte>)
    requires FixedWidth(h, 32) && a != b && DataRootSpec(h, a) == DataRootSpec(h, b)
    ensures x in TreePreimages(h, DataTree(a)) && y in TreePreimages(h, DataTree(b)) && Collides(h, x, y)
  {
    hide DataTree, DataRootSpec, NodeOf, TreePreimages;
    DataTreeSpellsPayload(h, a);
    DataTreeSpellsPayload(h, b);
    x, y := TreesBind(h, DataTree(a), DataTree(b));
  }

  // ----- Binding the chunk boundaries

  /** Every leaf ends below 2^64. */
  ghost predicate EndsFit(t: Tree) {
    match t
    case Leaf(_, end) => end <= U64_MAX
    case Branch(left, right) => EndsFit(left) && EndsFit(right)
  }

  lemma LeafEndsBind(h: Hash, s: Tree, t: Tree) returns (x: seq<byte>, y: seq<byte>)
    requires FixedWidth(h, 32) && s.Leaf? && t.Leaf? && s != t && EndsFit(s) && EndsFit(t)
    requires NodeOf(h, s).id == NodeOf(h, t).id
    ensures x in TreePreimages(h, s) && y in TreePreimages(h, t) && Collides(h, x, y)
  {
    hide NoteToBuffer;
    if s.chunk != t.chunk {
      x, y := LeavesBind(h, s, t);
    } else {
      var m, n := h(NoteToBuffer(s.end)), h(NoteToBuffer(t.end));
      x, y := h(h(s.chunk)) + m, h(h(t.chunk)) + n;
      if x == y {
        SplitPair(h(h(s.chunk)), m, h(h(t.chunk)), n);
        x, y := NoteToBuffer(s.end), NoteToBuffer(t.end);
        if x == y {
          NoteInjective(s.end, t.end);
        }
      }
    }
  }

  /** An id commits to the whole tree: its shape, its chunks, and where each of them ends. */
  lemma {:induction false} BoundariesBind(h: Hash, s: Tree, t: Tree) returns (x: seq<byte>, y: seq<byte>)
    requires FixedWidth(h, 32) && NodeOf(h, s).id == NodeOf(h, t).id && s != t && EndsFit(s) && EndsFit(t)
    ensures x in TreePreimages(h, s) && y in TreePreimages(h, t) && Collides(h, x, y)
    decreases s
  {
    hide NodeOf, FixedWidth;
    match (s, t)
    case (Leaf(_, _), Leaf(_, _)) => x, y := LeafEndsBind(h, s, t);
    case (Leaf(_, _), Branch(_, _)) => x, y := LeafBranchBind(h, s, t);
    case (Branch(_, _), Leaf(_, _)) => y, x := LeafBranchBind(h, t, s);
    case (Branch(_, _), Branch(_, _)) =>
      x, y := BranchesBind(h, s, t);
      if x == y {
        if s.left != t.left {
          x, y := BoundariesBind(h, s.left, t.left);
        } else {
          x, y := BoundariesBind(h, s.right, t.right);
        }
      }
  }

  lemma TwoLeavesRoot(h: Hash, l: Node, r: Node)
    ensures RootSpec(h, [l, r]) == h(h(l.id) + h(r.id) + h(NoteToBuffer(l.maxByteRange)))
  {
    hide NoteToBuffer;
    assert [l, r][2..] == [];
    assert PairNodes(h, [l, r]) == [BranchNode(h, l, r)];
  }

  lemma TwoChunkLayer(h: Hash, data: seq<byte>)
    requires |data| == 262145
    ensures DataRootSpec(h, data)
         == RootSpec(h, [LeafNode(h, data[..131073], 131073), LeafNode(h, data[131073..], 262145)])
  {
    hide RangesFrom, LeafNode, RootSpec;
    ChunkBoundaries();
    RangesWithin(0, |data|);
    assert data[0..131073] == data[..131073] && data[131073..262145] == data[131073..];
    assert Leaves(h, data, RangesFrom(0, |data|))
        == [LeafNode(h, data[..131073], 131073), LeafNode(h, data[131073..], 262145)];
  }

  /** The smallest tree with an order: a branch hashes its children's ids, left first, and
      the byte where the left one ends. */
  lemma TwoChunkRoot(h: Hash, data: seq<byte>)
    requires |data| == 262145
    ensures var left := h(h(h(data[..131073])) + h(NoteToBuffer(131073)));
      var right := h(h(h(data[131073..])) + h(NoteToBuffer(262145)));
      DataRootSpec(h, data) == h(h(left) + h(right) + h(NoteToBuffer(131073)))
  {
    hide NoteToBuffer, DataRootSpec, RootSpec;
    TwoChunkLayer(h, data);
    TwoLeavesRoot(h, LeafNode(h, data[..131073], 131073), LeafNode(h, data[131073..], 262145));
  }
}
