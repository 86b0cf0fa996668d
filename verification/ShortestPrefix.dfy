/** Which prefix of the ordered list a build spends: the shortest that pays. */
module ShortestPrefix {
  import opened Bytes
  import opened Cbor
  import opened PoeTx
  import opened FeeFixpoint
  import opened Selection
  import opened Balancer

  // ----- The fee and the floor, in closed form

  /** `minFeeA` a byte and `minFeeB` besides, up to the largest amount. */
  lemma LinearFeeIsCapped(p: ProtocolParams, size: nat)
    ensures LinearFee(p, size)
         == if p.minFeeA * size + p.minFeeB <= U64_MAX then p.minFeeA * size + p.minFeeB else U64_MAX
    ensures p.minFeeB <= LinearFee(p, size)
  {
    assert Price(p.minFeeA, size) == p.minFeeA * size;
  }

  /** The ledger accepts an output of this value: its price covers its own bytes and the
      160 bytes of its entry, as far as an amount can say. */
  ghost predicate LedgerValid(ctx: BuildCtx, coin: nat)
    requires coin <= U64_MAX
  {
    coin == U64_MAX || coin >= ctx.protocol.coinsPerUtxoByte * (160 + |OutputBytes(ctx.address, coin)|)
  }

  lemma FloorIsLedgerMinimum(ctx: BuildCtx, coin: u64)
    ensures coin >= MinChangeValue(ctx, coin) <==> LedgerValid(ctx, coin)
  {
    hide Head;
    var p := ctx.protocol.coinsPerUtxoByte;
    assert |OutputBytes(ctx.address, if coin == 0 then 1 else coin)| == |OutputBytes(ctx.address, coin)| by {
      OutputLength(ctx.address, coin);
      OutputLength(ctx.address, if coin == 0 then 1 else coin);
    }
    assert Price(p, |OutputBytes(ctx.address, coin)| + 160) == p * (160 + |OutputBytes(ctx.address, coin)|);
  }

  lemma OutputLength(address: seq<byte>, coin: u64)
    ensures |OutputBytes(address, coin)| == 3 + Width(|address|) + |address| + Width(coin)
  {
  }

  lemma FloorMonotone(ctx: BuildCtx, x: u64, y: u64)
    requires x <= y
    ensures MinChangeValue(ctx, x) <= MinChangeValue(ctx, y)
  {
    hide OutputBytes, Price;
    var p := ctx.protocol.coinsPerUtxoByte;
    var a, b := if x == 0 then 1 else x, if y == 0 then 1 else y;
    OutputLength(ctx.address, a);
    OutputLength(ctx.address, b);
    WidthMonotone(a, b);
    PriceMonotone(p, |OutputBytes(ctx.address, a)| + 160, |OutputBytes(ctx.address, b)| + 160);
  }

  // ----- Selections that pay

  /** The selection pays its settled fee and the rest is a change the ledger accepts. */
  ghost predicate Pays(ctx: BuildCtx, selected: seq<Candidate>) {
    var m := MeteringOf(ctx, selected);
    Affordable(m) && SettledFee(m) < m.total && LedgerValid(ctx, m.total - SettledFee(m))
  }

  /** Settling keeps a change exactly when the selection pays; otherwise it asks for an
      input while there is one, and folds the residual when there is none. */
  lemma SettlesByPaying(ctx: BuildCtx, selected: seq<Candidate>, hasSpare: bool)
    requires ValidCtx(ctx)
    ensures var r := SettleSpec(ctx, selected, hasSpare);
      && (r.Some? <==> Affordable(MeteringOf(ctx, selected)))
      && (r.Some? && r.value.change.Some? && !r.value.changeBelowFloor <==> Pays(ctx, selected))
      && (r.Some? && !Pays(ctx, selected) ==> if hasSpare then r.value.changeBelowFloor else r.value.change.None?)
  {
    hide LinearFee, MinChangeValue, LedgerValid, SignedSize, TotalLovelace, KeptChange, FoldedResidual, FeeFor;
    var m := MeteringOf(ctx, selected);
    if Affordable(m) {
      var fee := SettledFee(m);
      SettledFeeCoversBody(m, fee);
      FloorIsLedgerMinimum(ctx, m.total - fee);
      SettleGuarantees(ctx, selected, hasSpare);
    }
  }

  lemma EndsSearchByPaying(ctx: BuildCtx, ordered: seq<Candidate>, take: nat)
    requires ValidCtx(ctx) && take < |ordered|
    ensures EndsSearch(ctx, ordered, take) <==> Pays(ctx, ordered[..take])
  {
    hide SettleSpec, Pays, Affordable;
    SettlesByPaying(ctx, ordered[..take], true);
    SettleGuaranteesChange(ctx, ordered[..take]);
  }

  lemma SettleGuaranteesChange(ctx: BuildCtx, selected: seq<Candidate>)
    requires ValidCtx(ctx)
    ensures SettleSpec(ctx, selected, true).Some? ==> SettleSpec(ctx, selected, true).value.change.Some?
  {
    hide SettleSpec, KeptChange, FoldedResidual, FeeFor;
    SettleGuarantees(ctx, selected, true);
  }

  /** What pays is worth at least the constant fee and the smallest floor. */
  lemma PayingIsWorth(ctx: BuildCtx, selected: seq<Candidate>)
    requires Pays(ctx, selected)
    ensures TotalLovelace(selected) >= Saturate(ctx.protocol.minFeeB + MinChangeValue(ctx, 0))
  {
    hide LedgerValid, MinChangeValue, LinearFee, TotalLovelace, Affordable;
    var m := MeteringOf(ctx, selected);
    var fee := SettledFee(m);
    var change := m.total - fee;
    SettledFeeRange(m, fee);
    LinearFeeIsCapped(m.params, m.frame + 2);
    FloorIsLedgerMinimum(ctx, change);
    FloorMonotone(ctx, 0, change);
  }

  lemma {:induction false} CoverMisses(ordered: seq<Candidate>, target: u64, n: nat, t: nat)
    requires n <= t <= |ordered| && (CoverFrom(ordered, target, n).Some? ==> t < CoverFrom(ordered, target, n).value)
    ensures TotalLovelace(ordered[..t]) < target
    decreases t - n
  {
    if TotalLovelace(ordered[..n]) < target && n < t {
      CoverMisses(ordered, target, n + 1, t);
    }
  }

  /** No prefix shorter than the one the search starts at pays. */
  lemma StartMissesNothing(ctx: BuildCtx, ordered: seq<Candidate>, forcedCount: nat, t: nat)
    requires 0 < |ordered| && forcedCount <= |ordered|
    requires 1 <= t && forcedCount <= t < StartTake(ctx, ordered, forcedCount)
    ensures !Pays(ctx, ordered[..t])
  {
    hide Pays, MinChangeValue;
    CoverMisses(ordered, Saturate(ctx.protocol.minFeeB + MinChangeValue(ctx, 0)), 1, t);
    if Pays(ctx, ordered[..t]) {
      PayingIsWorth(ctx, ordered[..t]);
    }
  }

  /** The length of the shortest prefix that pays and holds the mandatory inputs, or the
      whole list. */
  ghost predicate IsShortest(ctx: BuildCtx, ordered: seq<Candidate>, forcedCount: nat, take: nat) {
    && 1 <= take <= |ordered| && forcedCount <= take
    && (take < |ordered| ==> Pays(ctx, ordered[..take]))
    && forall t | 1 <= t && forcedCount <= t < take :: !Pays(ctx, ordered[..t])
  }

  lemma FinalTakeIsShortest(ctx: BuildCtx, ordered: seq<Candidate>, forcedCount: nat)
    requires ValidCtx(ctx) && 0 < |ordered| && forcedCount <= |ordered|
    ensures IsShortest(ctx, ordered, forcedCount, FinalTake(ctx, ordered, StartTake(ctx, ordered, forcedCount)))
  {
    hide Pays, StartTake, EndsSearch;
    var start := StartTake(ctx, ordered, forcedCount);
    var take := FinalTake(ctx, ordered, start);
    forall t | 1 <= t && forcedCount <= t < take ensures !Pays(ctx, ordered[..t]) {
      if t < start {
        StartMissesNothing(ctx, ordered, forcedCount, t);
      } else {
        EndsSearchByPaying(ctx, ordered, t);
      }
    }
    if take < |ordered| {
      EndsSearchByPaying(ctx, ordered, take);
    }
  }

  /** A balance spends the shortest prefix that pays, or everything when none does, and
      fails exactly when everything cannot pay its fee either. */
  lemma BalanceTakesShortest(ctx: BuildCtx, ordered: seq<Candidate>, available: u64, forcedCount: nat)
    requires ValidCtx(ctx) && 0 < |ordered| && forcedCount <= |ordered|
    ensures var r := BalanceSpec(ctx, ordered, available, forcedCount);
      && (r.Ok? ==> r.value.selected <= ordered && IsShortest(ctx, ordered, forcedCount, |r.value.selected|)
                    && (r.value.change.Some? <==> Pays(ctx, r.value.selected)))
      && (r.Err? <==> IsShortest(ctx, ordered, forcedCount, |ordered|) && !Affordable(MeteringOf(ctx, ordered)))
  {
    hide Pays, SettleSpec, StartTake, FinalTake, NoChangeFee, Affordable, TotalLovelace;
    var take := FinalTake(ctx, ordered, StartTake(ctx, ordered, forcedCount));
    FinalTakeIsShortest(ctx, ordered, forcedCount);
    SettlesByPaying(ctx, ordered[..take], take < |ordered|);
    assert ordered[..|ordered|] == ordered;
    if take < |ordered| {
      PayingIsAffordable(ctx, ordered[..take]);
    }
  }

  lemma PayingIsAffordable(ctx: BuildCtx, selected: seq<Candidate>)
    ensures Pays(ctx, selected) ==> Affordable(MeteringOf(ctx, selected))
  {
  }
}
