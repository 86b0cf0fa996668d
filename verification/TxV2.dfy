/** Signing an Arweave format-2 transaction: what the signed message commits to. */
module TxV2 {
  import opened Bytes
  import opened Tags
  import opened DeepHashing
  import opened MerkleRoot
  import opened MerkleBinding
  import opened WireLayout
  import opened Ans104Types
  import opened Wrappers

  type u128 = x: int | 0 <= x < 0x1_0000_0000_0000_0000_0000_0000_0000_0000

  const TX_TARGET_LEN := 32

  /** The fields a transaction is signed over, with its anchor already decoded. */
  datatype TxFields = TxFields(owner: seq<byte>, target: seq<byte>, quantity: u128, reward: u64,
                               lastTx: seq<byte>, tags: seq<Tag>, data: seq<byte>)

  /** The key, the hashes, and the base64url decoder, with whatever they produce. */
  datatype Wallet = Wallet(owner: seq<byte>,
                           sign: seq<byte> -> Result<seq<byte>, Ans104Error>,
                           decode: string -> Result<seq<byte>, Ans104Error>,
                           sha384: Hash,
                           sha256: Hash)

  datatype SignedTxV2 = SignedTxV2(id: seq<byte>, fields: TxFields, signature: seq<byte>,
                                   dataRoot: seq<byte>, dataSize: nat)

  /** No root at all for a transaction without a payload. */
  function DataRootField(sha256: Hash, data: seq<byte>): seq<byte> {
    if data == [] then [] else DataRootSpec(sha256, data)
  }

  function TagItems(tags: seq<Tag>): seq<DeepHashItem> {
    seq(|tags|, i requires 0 <= i < |tags| => List([Blob(tags[i].name), Blob(tags[i].value)]))
  }

  function SignedList(tx: TxFields, dataRoot: seq<byte>): DeepHashItem {
    List([Blob([50]), Blob(tx.owner), Blob(tx.target), Blob(Decimal(tx.quantity)), Blob(Decimal(tx.reward)),
          Blob(tx.lastTx), List(TagItems(tx.tags)), Blob(Decimal(|tx.data|)), Blob(dataRoot)])
  }

  function SignatureData(sha384: Hash, sha256: Hash, tx: TxFields): seq<byte> {
    DeepHashSpec(sha384, SignedList(tx, DataRootField(sha256, tx.data)))
  }

  /** The anchor's bytes: none for the genesis anchor. */
  function Anchor(w: Wallet, lastTx: string): Result<seq<byte>, Ans104Error> {
    if lastTx == "" then Ok([]) else w.decode(lastTx)
  }

  function SignV2(w: Wallet, data: seq<byte>, tags: seq<Tag>, lastTx: string, reward: u64,
                  target: seq<byte>, quantity: u128): Result<SignedTxV2, Ans104Error>
  {
    var anchor :- Anchor(w, lastTx);
    var tx := TxFields(w.owner, target, quantity, reward, anchor, tags, data);
    var signature :- w.sign(SignatureData(w.sha384, w.sha256, tx));
    Ok(SignedTxV2(w.sha256(signature), tx, signature, DataRootField(w.sha256, data), |data|))
  }

  /** What signing these fields gives: the anchor's error, the key's, or a transaction of
      exactly these fields with the key's signature of their message. */
  predicate Signs(w: Wallet, lastTx: string, tx: TxFields, r: Result<SignedTxV2, Ans104Error>) {
    match if lastTx == "" then Ok([]) else w.decode(lastTx)
    case Err(e) => r == Err(e)
    case Ok(anchor) =>
      var signed := tx.(lastTx := anchor, owner := w.owner);
      match w.sign(SignatureData(w.sha384, w.sha256, signed))
      case Err(e) => r == Err(e)
      case Ok(signature) =>
        r.Ok? && r.value.fields == signed && r.value.signature == signature && r.value.id == w.sha256(signature)
  }

  /** A data carrier moves nothing to nobody and commits to its payload's root, or to
      none for an empty payload. */
  function SignTxV2(w: Wallet, data: seq<byte>, tags: seq<Tag>, lastTx: string, reward: u64)
      : (r: Result<SignedTxV2, Ans104Error>)
    ensures Signs(w, lastTx, TxFields(w.owner, [], 0, reward, [], tags, data), r)
    ensures r.Ok? ==> r.value.dataSize == |data|
    ensures r.Ok? ==> r.value.dataRoot == if data == [] then [] else DataRootSpec(w.sha256, data)
  {
    SignV2(w, data, tags, lastTx, reward, [], 0)
  }

  /** A transfer names a 32-byte wallet and moves a positive quantity and no data; a
      malformed target is refused first, then one of another length, then a zero quantity. */
  function SignTransferTxV2(w: Wallet, target: string, quantity: u128, lastTx: string, reward: u64)
      : (r: Result<SignedTxV2, Ans104Error>)
    ensures r.Ok? ==>
      && w.decode(target) == Ok(r.value.fields.target) && |r.value.fields.target| == 32
      && 0 < quantity == r.value.fields.quantity
      && r.value.dataRoot == [] && r.value.dataSize == 0
    ensures w.decode(target).Err? ==> r == Err(Malformed("transfer target is not valid base64url"))
    ensures w.decode(target).Ok? ==>
      var wallet := w.decode(target).value;
      if |wallet| != 32 then r == Err(FieldLength("target", |wallet|, 32))
      else if quantity == 0 then r == Err(Malformed("transfer quantity must be nonzero"))
      else Signs(w, lastTx, TxFields(w.owner, wallet, quantity, reward, [], [], []), r)
  {
    match w.decode(target)
    case Err(_) => Err(Malformed("transfer target is not valid base64url"))
    case Ok(wallet) =>
      if |wallet| != TX_TARGET_LEN then Err(FieldLength("target", |wallet|, TX_TARGET_LEN))
      else if quantity == 0 then Err(Malformed("transfer quantity must be nonzero"))
      else SignV2(w, [], [], lastTx, reward, wallet, quantity)
  }

  /** What is signed: "2", the owner, the target, the quantity and the reward in decimal, the
      anchor, the list of name and value pairs, the payload's length in decimal, the root.
      The message is its deep hash, with the root of a payload that is not empty. */
  lemma SignedFieldsInOrder(sha384: Hash, sha256: Hash, tx: TxFields, dataRoot: seq<byte>)
    ensures SignatureData(sha384, sha256, tx)
         == DeepHashSpec(sha384, SignedList(tx, if tx.data == [] then [] else DataRootSpec(sha256, tx.data)))
    ensures SignedList(tx, dataRoot).List? && |SignedList(tx, dataRoot).items| == 9
    ensures var items := SignedList(tx, dataRoot).items;
      && items[0] == Blob(Ascii("2")) && items[1] == Blob(tx.owner) && items[2] == Blob(tx.target)
      && items[3].Blob? && IsDecimal(items[3].bytes, tx.quantity)
      && items[4].Blob? && IsDecimal(items[4].bytes, tx.reward)
      && items[5] == Blob(tx.lastTx)
      && items[6].List? && |items[6].items| == |tx.tags|
      && (forall i | 0 <= i < |tx.tags| :: items[6].items[i] == List([Blob(tx.tags[i].name), Blob(tx.tags[i].value)]))
      && items[7].Blob? && IsDecimal(items[7].bytes, |tx.data|) && items[8] == Blob(dataRoot)
  {
    hide Decimal, IsDecimal, DataRootSpec, DeepHashSpec;
    DecimalIsDecimal(tx.quantity);
    DecimalIsDecimal(tx.reward);
    DecimalIsDecimal(|tx.data|);
  }

  // ----- Binding

  /** Every length fits 64 bits. */
  ghost predicate Fits(tx: TxFields) {
    && |tx.owner| <= U64_MAX && |tx.target| <= U64_MAX && |tx.lastTx| <= U64_MAX && |tx.data| <= U64_MAX
    && |tx.tags| <= U64_MAX
    && forall i | 0 <= i < |tx.tags| :: |tx.tags[i].name| <= U64_MAX && |tx.tags[i].value| <= U64_MAX
  }

  lemma {:induction false} SignedListSized(tx: TxFields, dataRoot: seq<byte>)
    requires Fits(tx) && |dataRoot| <= 32
    ensures Sized(SignedList(tx, dataRoot))
  {
    hide Decimal;
    U64Digits(tx.reward);
    U64Digits(|tx.data|);
    DigitsOfU128(tx.quantity);
    forall i | 0 <= i < |tx.tags| ensures Sized(TagItems(tx.tags)[i]) {
      assert TagItems(tx.tags)[i] == List([Blob(tx.tags[i].name), Blob(tx.tags[i].value)]);
    }
    assert Sized(List(TagItems(tx.tags)));
  }

  lemma DigitsOfU128(n: u128)
    ensures |Decimal(n)| <= 40
  {
    assert Pow10(10) == 100000_00000;
    assert Pow10(20) == 100000_00000_00000_00000;
    assert Pow10(30) == 100000_00000_00000_00000_00000_00000;
    assert Pow10(40) == 100000_00000_00000_00000_00000_00000_00000_00000;
    DecimalLength(n, 40);
  }

  /** Where a collision was found. */
  datatype Finding = InDeepHash | InDataRoot

  lemma TagItemsInjective(a: seq<Tag>, b: seq<Tag>)
    requires TagItems(a) == TagItems(b)
    ensures a == b
  {
    forall i | 0 <= i < |a| ensures |a| == |b| && a[i] == b[i] {
      assert |TagItems(a)| == |a| && |TagItems(b)| == |b|;
      assert TagItems(a)[i] == List([Blob(a[i].name), Blob(a[i].value)]);
      assert TagItems(b)[i] == List([Blob(b[i].name), Blob(b[i].value)]);
    }
    assert |TagItems(a)| == |a| && |TagItems(b)| == |b|;
  }

  /** The signed list determines every field but the payload, and its length. */
  lemma SignedListInjective(a: TxFields, b: TxFields, rootA: seq<byte>, rootB: seq<byte>)
    requires SignedList(a, rootA) == SignedList(b, rootB)
    ensures a.(data := b.data) == b && |a.data| == |b.data| && rootA == rootB
  {
    var s, t := SignedList(a, rootA).items, SignedList(b, rootB).items;
    assert s[1] == t[1] && s[2] == t[2] && s[3] == t[3] && s[4] == t[4] && s[5] == t[5];
    assert s[6] == t[6] && s[7] == t[7] && s[8] == t[8];
    DecimalInjective(a.quantity, b.quantity);
    DecimalInjective(a.reward, b.reward);
    DecimalInjective(|a.data|, |b.data|);
    TagItemsInjective(a.tags, b.tags);
  }

  /** A signature commits to every field and to the payload: two different
      transactions with one signed message yield a collision of the deep hash, or of
      the Merkle hash. */
  lemma MessageBinds(sha384: Hash, sha256: Hash, a: TxFields, b: TxFields)
      returns (found: Finding, x: seq<byte>, y: seq<byte>)
    requires FixedWidth(sha384, 48) && FixedWidth(sha256, 32) && Fits(a) && Fits(b) && a != b
    requires SignatureData(sha384, sha256, a) == SignatureData(sha384, sha256, b)
    ensures match found
      case InDeepHash =>
        && Collides(sha384, x, y)
        && x in Preimages(sha384, SignedList(a, DataRootField(sha256, a.data)))
        && y in Preimages(sha384, SignedList(b, DataRootField(sha256, b.data)))
      case InDataRoot =>
        && Collides(sha256, x, y)
        && x in TreePreimages(sha256, DataTree(a.data)) && y in TreePreimages(sha256, DataTree(b.data))
  {
    hide SignedList, DeepHashSpec, DataRootSpec, TreePreimages, DataTree, Preimages, Fits;
    var rootA, rootB := DataRootField(sha256, a.data), DataRootField(sha256, b.data);
    RootWidth(sha256, a.data);
    RootWidth(sha256, b.data);
    SignedListSized(a, rootA);
    SignedListSized(b, rootB);
    if SignedList(a, rootA) != SignedList(b, rootB) {
      found := InDeepHash;
      x, y := DeepHashBinds(sha384, SignedList(a, rootA), SignedList(b, rootB));
    } else {
      SignedListInjective(a, b, rootA, rootB);
      assert a.data != b.data;
      found := InDataRoot;
      x, y := DataRootBinds(sha256, a.data, b.data);
    }
  }

  lemma RootWidth(sha256: Hash, data: seq<byte>)
    requires FixedWidth(sha256, 32)
    ensures |DataRootSpec(sha256, data)| == 32 && |DataRootField(sha256, data)| <= 32
  {
    hide DataTree, Payload, DataRootSpec;
    DataTreeSpellsPayload(sha256, data);
    NodeWidth(sha256, DataTree(data));
  }

  lemma NodeWidth(h: Hash, t: Tree)
    requires FixedWidth(h, 32)
    ensures |NodeOf(h, t).id| == 32
  {
  }
}
