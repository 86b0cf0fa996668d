/** The decision part of build_poe_tx: decoding, ordering, balancing and the final
    checks, from a request to the inputs, fee and change of the transaction. */
module BuildPoeTx {
  import opened Bytes
  import opened PoeTx
  import opened Selection
  import opened Balancer
  import opened Wrappers

  datatype Utxo = Utxo(txHash: string, index: nat, lovelace: u64)

  datatype Network = Testnet | Mainnet | Other(id: nat)

  /** What the bech32 decoder says about the change address. */
  datatype ChangeAddress = Unparsable | Parsed(network: Option<Network>, bytes: seq<byte>)

  datatype BuildRequest = BuildRequest(
    utxos: seq<Utxo>,
    mustSpend: seq<Utxo>,
    protocol: ProtocolParams,
    changeAddress: ChangeAddress,
    networkId: nat,
    bodyPrefix: seq<byte>,
    bodySuffix: seq<byte>,
    trailer: seq<byte>)

  datatype Built = Built(selected: seq<Candidate>, fee: u64, change: Option<u64>, totalSize: nat)

  /** The bech32 decoder only yields whole addresses. */
  ghost predicate ValidRequest(request: BuildRequest) {
    request.changeAddress.Parsed? ==> |request.changeAddress.bytes| >= MIN_ADDRESS_LEN
  }

  // ----- Decoding

  function HexDigit(c: char): (r: Option<nat>)
    ensures r.Some? ==> r.value < 16
  {
    if '0' <= c <= '9' then Some(c as int - '0' as int)
    else if 'a' <= c <= 'f' then Some(c as int - 'a' as int + 10)
    else if 'A' <= c <= 'F' then Some(c as int - 'A' as int + 10)
    else None
  }

  function HexDecode(s: string): Option<seq<byte>> {
    if |s| == 0 then Some([])
    else if |s| == 1 then None
    else
      var high, low, rest := HexDigit(s[0]), HexDigit(s[1]), HexDecode(s[2..]);
      if high.None? || low.None? || rest.None? then None
      else Some([16 * high.value + low.value] + rest.value)
  }

  function DecodeOne(u: Utxo): Result<Candidate, BuildError> {
    match HexDecode(u.txHash)
    case Some(raw) => if |raw| == 32 then Ok(Candidate(raw, u.index, u.lovelace)) else Err(InvalidUtxoHash(u.txHash))
    case None => Err(InvalidUtxoHash(u.txHash))
  }

  function DecodeAll(us: seq<Utxo>): (r: Result<seq<Candidate>, BuildError>)
    ensures r.Ok? ==> WellFormed(r.value) && |r.value| == |us|
    ensures r.Err? ==> r.error.InvalidUtxoHash?
  {
    if us == [] then Ok([]) else
      var c :- DecodeOne(us[0]);
      var rest :- DecodeAll(us[1..]);
      Ok([c] + rest)
  }

  function ParseChangeAddress(request: BuildRequest): Result<seq<byte>, BuildError> {
    match request.changeAddress
    case Unparsable => Err(InvalidAddress)
    case Parsed(network, bytes) =>
      var want := if request.networkId == 0 then Testnet
                  else if request.networkId == 1 then Mainnet
                  else Other(request.networkId);
      if network == Some(want) then Ok(bytes) else Err(NetworkMismatch(request.networkId))
  }

  predicate SameReference(a: Candidate, b: Candidate) {
    a.txId == b.txId && a.index == b.index
  }

  /** First index at or after `i` whose entry repeats the reference after it. */
  function FirstDuplicate(cs: seq<Candidate>, i: nat): (r: Option<nat>)
    ensures r.Some? ==> i <= r.value < |cs| - 1 && SameReference(cs[r.value], cs[r.value + 1])
    ensures r.None? ==> forall k | i <= k < |cs| - 1 :: !SameReference(cs[k], cs[k + 1])
    decreases |cs| - i
  {
    if i + 1 >= |cs| then None
    else if SameReference(cs[i], cs[i + 1]) then Some(i)
    else FirstDuplicate(cs, i + 1)
  }

  /** The caller's first spelling of a reference's transaction hash: a stable sort puts
      the entry that has it first among the entries of that reference. */
  function FirstSpelling(us: seq<Utxo>, c: Candidate): string {
    if us == [] then ""
    else if DecodeOne(us[0]).Ok? && SameReference(DecodeOne(us[0]).value, c) then us[0].txHash
    else FirstSpelling(us[1..], c)
  }

  lemma {:induction false} SpellsReference(us: seq<Utxo>, c: Candidate)
    requires DecodeAll(us).Ok? && c in DecodeAll(us).value
    ensures HexDecode(FirstSpelling(us, c)) == Some(c.txId)
  {
    hide HexDecode;
    if !SameReference(DecodeOne(us[0]).value, c) {
      SpellsReference(us[1..], c);
    }
  }

  /** The mandatory inputs in their fixed order, or the first repeated reference. */
  function DecodeForcedSpec(us: seq<Utxo>): Result<seq<Candidate>, BuildError> {
    var cs :- DecodeAll(us);
    var forced := Sort(ReferenceLeq, cs);
    match FirstDuplicate(forced, 0)
    case Some(k) => Err(DuplicateMustSpend(FirstSpelling(us, forced[k]), forced[k].index))
    case None => Ok(forced)
  }

  method DecodeForced(us: seq<Utxo>) returns (r: Result<seq<Candidate>, BuildError>)
    ensures r == DecodeForcedSpec(us)
  {
    var cs := DecodeAll(us);
    if cs.Err? {
      return Err(cs.error);
    }
    var forced := Sort(ReferenceLeq, cs.value);
    var k := 0;
    while k + 1 < |forced|
      invariant FirstDuplicate(forced, k) == FirstDuplicate(forced, 0)
    {
      if SameReference(forced[k], forced[k + 1]) {
        return Err(DuplicateMustSpend(FirstSpelling(us, forced[k]), forced[k].index));
      }
      k := k + 1;
    }
    return Ok(forced);
  }

  predicate Listed(c: Candidate, forced: seq<Candidate>) {
    exists i | 0 <= i < |forced| :: SameReference(forced[i], c)
  }

  function DropForcedDuplicates(cs: seq<Candidate>, forced: seq<Candidate>): (r: seq<Candidate>)
    ensures forall c | c in r :: c in cs && !Listed(c, forced)
  {
    if cs == [] then []
    else
      var rest := DropForcedDuplicates(cs[1..], forced);
      if Listed(cs[0], forced) then rest else [cs[0]] + rest
  }

  function CtxOf(request: BuildRequest, address: seq<byte>): BuildCtx {
    BuildCtx(request.protocol, address, request.bodyPrefix, request.bodySuffix, request.trailer)
  }

  // ----- The decision

  /** The ordered selection list: every mandatory input, then the rest by priority. */
  function OrderedList(request: BuildRequest): Result<(seq<Candidate>, nat), BuildError> {
    hide DecodeForcedSpec, DropForcedDuplicates, Sort;
    var candidates :- DecodeAll(request.utxos);
    if candidates == [] && request.mustSpend == [] then Err(NoUtxos) else
      var forced :- DecodeForcedSpec(request.mustSpend);
      Ok((forced + Prioritise(DropForcedDuplicates(candidates, forced)), |forced|))
  }

  function FeeBackstop(folded: nat, ceiling: u64): Option<BuildError> {
    if folded > ceiling then Some(ExcessiveFeeFold(Saturate(folded), ceiling)) else None
  }

  function SatSub(x: nat, y: nat): nat {
    if x < y then 0 else x - y
  }

  /** The two final checks on a balanced build. */
  function FinalChecks(ctx: BuildCtx, b: Balanced): Result<Built, BuildError> {
    var folded := SatSub(b.fee, LinearFee(ctx.protocol, b.totalSize));
    var backstop := FeeBackstop(folded, MaxFoldedResidual(ctx));
    if b.change.None? && backstop.Some? then Err(backstop.value)
    else if b.totalSize > ctx.protocol.maxTxSize then Err(TxTooLarge(b.totalSize, ctx.protocol.maxTxSize))
    else Ok(Built(b.selected, b.fee, b.change, b.totalSize))
  }

  lemma OrderedListShape(request: BuildRequest)
    ensures OrderedList(request).Ok? ==>
      && 0 < |OrderedList(request).value.0| && OrderedList(request).value.1 <= |OrderedList(request).value.0|
      && WellFormed(OrderedList(request).value.0)
  {
    if OrderedList(request).Ok? {
      var candidates := DecodeAll(request.utxos).value;
      var decoded := DecodeAll(request.mustSpend).value;
      var forced := DecodeForcedSpec(request.mustSpend).value;
      var rest := DropForcedDuplicates(candidates, forced);
      SortKeepsLength(ReferenceLeq, decoded);
      SortKeepsLength(PriorityLeq, rest);
      if decoded == [] {
        DropNothing(candidates);
      }
      SortKeepsWellFormed(ReferenceLeq, decoded);
      DropKeepsWellFormed(candidates, forced);
      SortKeepsWellFormed(PriorityLeq, rest);
    }
  }

  lemma SortKeepsLength(leq: Order, cs: seq<Candidate>)
    ensures |Sort(leq, cs)| == |cs|
  {
    assert |Sort(leq, cs)| == |multiset(Sort(leq, cs))| == |multiset(cs)|;
  }

  lemma DropKeepsWellFormed(cs: seq<Candidate>, forced: seq<Candidate>)
    requires WellFormed(cs)
    ensures WellFormed(DropForcedDuplicates(cs, forced))
  {
    var rest := DropForcedDuplicates(cs, forced);
    forall i | 0 <= i < |rest| ensures |rest[i].txId| == 32 {
      assert rest[i] in cs;
    }
  }

  lemma {:induction false} DropNothing(cs: seq<Candidate>)
    ensures DropForcedDuplicates(cs, []) == cs
  {
    if cs != [] {
      DropNothing(cs[1..]);
    }
  }

  lemma SortKeepsWellFormed(leq: Order, cs: seq<Candidate>)
    requires WellFormed(cs)
    ensures WellFormed(Sort(leq, cs))
  {
    var sorted := Sort(leq, cs);
    forall i | 0 <= i < |sorted| ensures |sorted[i].txId| == 32 {
      assert sorted[i] in multiset(sorted);
      assert sorted[i] in cs;
    }
  }

  ghost function ListOf(request: BuildRequest): (list: (seq<Candidate>, nat))
    requires OrderedList(request).Ok?
    ensures 0 < |list.0| && list.1 <= |list.0| && WellFormed(list.0)
  {
    OrderedListShape(request);
    OrderedList(request).value
  }

  /** What a request builds, as a function of the request. */
  ghost function BuildSpec(request: BuildRequest): Result<Built, BuildError> {
    var address :- ParseChangeAddress(request);
    var _ :- OrderedList(request);
    var list := ListOf(request);
    var ctx := CtxOf(request, address);
    var balanced :- BalanceSpec(ctx, list.0, TotalLovelace(list.0), list.1);
    FinalChecks(ctx, balanced)
  }

  method Build(request: BuildRequest) returns (r: Result<Built, BuildError>)
    requires ValidRequest(request)
    ensures r == BuildSpec(request)
  {
    hide BalanceSpec, FinalChecks, DecodeForcedSpec;
    var address := ParseChangeAddress(request);
    if address.Err? {
      return Err(address.error);
    }
    var candidates := DecodeAll(request.utxos);
    if candidates.Err? {
      return Err(candidates.error);
    }
    if candidates.value == [] && request.mustSpend == [] {
      return Err(NoUtxos);
    }
    var forced := DecodeForced(request.mustSpend);
    if forced.Err? {
      return Err(forced.error);
    }
    var ordered := forced.value + Prioritise(DropForcedDuplicates(candidates.value, forced.value));
    OrderedListShape(request);
    var ctx := CtxOf(request, address.value);
    var balanced := Balance(ctx, ordered, TotalLovelace(ordered), |forced.value|);
    if balanced.Err? {
      return Err(balanced.error);
    }
    return FinalChecks(ctx, balanced.value);
  }
}
