/** The data the builder works on, its saturating fee arithmetic, and the byte
    layout of the transaction it meters. */
module PoeTx {
  import opened Bytes
  import opened Cbor
  import opened Wrappers

  datatype ProtocolParams = ProtocolParams(minFeeA: u64, minFeeB: u64, coinsPerUtxoByte: u64, maxTxSize: u64)

  /** A spendable output whose transaction id has been decoded. */
  datatype Candidate = Candidate(txId: seq<byte>, index: nat, lovelace: u64)

  ghost predicate WellFormed(cs: seq<Candidate>) {
    forall i | 0 <= i < |cs| :: |cs[i].txId| == 32
  }

  // ----- Saturating u64 arithmetic (fee.rs)

  function Saturate(n: nat): u64 {
    if n <= U64_MAX then n else U64_MAX
  }

  /** The price of `n` bytes. */
  function Price(perByte: nat, n: nat): nat {
    perByte * n
  }

  lemma PriceMonotone(perByte: nat, x: nat, y: nat)
    requires x <= y
    ensures Price(perByte, x) <= Price(perByte, y)
  {
  }

  lemma PriceAdds(perByte: nat, x: nat, d: nat)
    ensures Price(perByte, x + d) == Price(perByte, x) + Price(perByte, d)
  {
  }

  const MIN_UTXO_OVERHEAD_BYTES := 160

  function LinearFee(p: ProtocolParams, size: nat): u64 {
    Saturate(Saturate(Price(p.minFeeA, size)) + p.minFeeB)
  }

  function MinAdaForOutput(p: ProtocolParams, outputSize: nat): u64 {
    Saturate(Price(p.coinsPerUtxoByte, outputSize + MIN_UTXO_OVERHEAD_BYTES))
  }

  lemma LinearFeeMonotone(p: ProtocolParams, x: nat, y: nat)
    requires x <= y
    ensures LinearFee(p, x) <= LinearFee(p, y)
  {
    hide Price;
    PriceMonotone(p.minFeeA, x, y);
  }

  /** `d` more bytes cost at most `d * minFeeA` more lovelace. */
  lemma LinearFeeStep(p: ProtocolParams, x: nat, d: nat)
    ensures LinearFee(p, x + d) <= LinearFee(p, x) + Price(p.minFeeA, d)
  {
    hide Price;
    PriceAdds(p.minFeeA, x, d);
  }

  // ----- The signed transaction (build.rs, signed_size)

  /** Everything about a build that the fee, the change and the inputs do not
      touch: the change address and the fixed bytes of the transaction. */
  datatype BuildCtx = BuildCtx(
    protocol: ProtocolParams,
    address: seq<byte>,
    bodyPrefix: seq<byte>,   // transaction and body headers up to the input array
    bodySuffix: seq<byte>,   // auxiliary-data hash, validity interval, network id
    trailer: seq<byte>)      // one key witness, the validity flag, auxiliary data

  /** A bech32 Cardano address is a header byte and at least one 28-byte hash. */
  const MIN_ADDRESS_LEN := 29

  ghost predicate ValidCtx(ctx: BuildCtx) {
    |ctx.address| >= MIN_ADDRESS_LEN
  }

  function InputBytes(c: Candidate): seq<byte> {
    Head(ARRAY, 2) + Head(BYTE_STRING, |c.txId|) + c.txId + Head(UNSIGNED, c.index)
  }

  function InputsBytes(cs: seq<Candidate>): seq<byte> {
    if cs == [] then [] else InputsBytes(cs[..|cs| - 1]) + InputBytes(cs[|cs| - 1])
  }

  /** A post-Alonzo output: the map {0: address, 1: coin}. */
  function OutputBytes(address: seq<byte>, coin: u64): seq<byte> {
    [0xA2, 0x00] + Head(BYTE_STRING, |address|) + address + [0x01] + Head(UNSIGNED, coin)
  }

  function OutputsBytes(ctx: BuildCtx, change: Option<u64>): seq<byte> {
    match change
    case None => Head(ARRAY, 0)
    case Some(coin) => Head(ARRAY, 1) + OutputBytes(ctx.address, coin)
  }

  function SignedTx(ctx: BuildCtx, selected: seq<Candidate>, fee: u64, change: Option<u64>): seq<byte> {
    ctx.bodyPrefix + Head(ARRAY, |selected|) + InputsBytes(selected)
    + [0x01] + OutputsBytes(ctx, change)
    + [0x02] + Head(UNSIGNED, fee)
    + ctx.bodySuffix + ctx.trailer
  }

  function SignedSize(ctx: BuildCtx, selected: seq<Candidate>, fee: u64, change: Option<u64>): nat {
    |SignedTx(ctx, selected, fee, change)|
  }

  function ChangeOutputSize(ctx: BuildCtx, coin: u64): nat {
    |OutputBytes(ctx.address, if coin == 0 then 1 else coin)|
  }

  function MinChangeValue(ctx: BuildCtx, change: u64): u64 {
    MinAdaForOutput(ctx.protocol, ChangeOutputSize(ctx, change))
  }

  // ----- The size form the fee fixpoint reasons with

  /** Bytes of a no-change transaction other than its fee coin. */
  function BaseSize(ctx: BuildCtx, selected: seq<Candidate>): nat {
    |ctx.bodyPrefix| + Width(|selected|) + |InputsBytes(selected)| + 3 + |ctx.bodySuffix| + |ctx.trailer|
  }

  /** Bytes a change output adds other than its coin. */
  function Framing(ctx: BuildCtx): nat {
    3 + Width(|ctx.address|) + |ctx.address|
  }

  lemma SizeForm(ctx: BuildCtx, selected: seq<Candidate>, fee: u64, change: Option<u64>)
    ensures SignedSize(ctx, selected, fee, change)
         == BaseSize(ctx, selected) + Width(fee)
            + (match change case None => 0 case Some(coin) => Framing(ctx) + Width(coin))
  {
  }

  /** One more input costs at least 36 bytes, more than every width change together. */
  lemma InputCost(ctx: BuildCtx, selected: seq<Candidate>, c: Candidate)
    requires |c.txId| == 32
    ensures BaseSize(ctx, selected + [c]) >= BaseSize(ctx, selected) + 36
  {
    assert (selected + [c])[..|selected|] == selected;
    WidthMonotone(|selected|, |selected| + 1);
  }
}
