/** Balancing selection, fee and change (build.rs). The methods follow the loops of
    the source; the ghost functions say what they compute without those loops. */
module Balancer {
  import opened Bytes
  import opened Cbor
  import opened PoeTx
  import opened Orbits
  import opened FeeFixpoint
  import opened Selection
  import opened Wrappers

  datatype BuildError =
    | InsufficientFunds(available: u64, fee: u64)
    | TxTooLarge(size: nat, max: u64)
    | InvalidAddress
    | NetworkMismatch(networkId: nat)
    | InvalidUtxoHash(txHash: string)
    | NoUtxos
    | DuplicateMustSpend(txHash: string, index: nat)
    | ExcessiveFeeFold(folded: u64, ceiling: u64)

  datatype Settled = Settled(fee: u64, change: Option<u64>, totalSize: nat, changeBelowFloor: bool)

  datatype Balanced = Balanced(selected: seq<Candidate>, fee: u64, change: Option<u64>, totalSize: nat)

  /** The fee iteration of a selection. */
  function MeteringOf(ctx: BuildCtx, selected: seq<Candidate>): Metering {
    Metering(ctx.protocol, BaseSize(ctx, selected) + Framing(ctx), TotalLovelace(selected))
  }

  lemma MeteredSize(ctx: BuildCtx, selected: seq<Candidate>, fee: u64)
    requires fee < TotalLovelace(selected)
    ensures LinearFee(ctx.protocol, SignedSize(ctx, selected, fee, Some(TotalLovelace(selected) - fee)))
         == Implied(MeteringOf(ctx, selected), fee)
  {
    hide Width, SignedSize, BaseSize, Framing, LinearFee, TotalLovelace;
    SizeForm(ctx, selected, fee, Some(TotalLovelace(selected) - fee));
  }

  // ----- A fixed selection

  function FoldResidual(ctx: BuildCtx, selected: seq<Candidate>, total: u64): Option<Settled> {
    var size := SignedSize(ctx, selected, total, None);
    if total < LinearFee(ctx.protocol, size) then None
    else Some(Settled(total, None, size, false))
  }

  function KeepOrFoldChange(ctx: BuildCtx, selected: seq<Candidate>, hasSpare: bool,
      total: u64, fee: u64, change: u64, size: nat): Option<Settled>
  {
    if change < MinChangeValue(ctx, change) then
      if hasSpare then Some(Settled(fee, Some(change), size, true))
      else FoldResidual(ctx, selected, total)
    else Some(Settled(fee, Some(change), size, false))
  }

  /** What settling must return: nothing when some fee of the iteration cannot be
      paid, otherwise the outcome of charging the settled fee. */
  ghost function SettleSpec(ctx: BuildCtx, selected: seq<Candidate>, hasSpare: bool): Option<Settled> {
    var m := MeteringOf(ctx, selected);
    if !Affordable(m) then None else
      var fee := SettledFee(m);
      assert fee < m.total by { SettledFeeCoversBody(m, fee); }
      var change := m.total - fee;
      KeepOrFoldChange(ctx, selected, hasSpare, m.total, fee, change, SignedSize(ctx, selected, fee, Some(change)))
  }

  const MICRO_BALANCE_STEPS := 16

  /** Index of the first occurrence of `x`. */
  method Position(xs: seq<nat>, x: nat) returns (r: Option<nat>)
    ensures r.Some? ==> r.value < |xs| && xs[r.value] == x
    ensures r.None? ==> x !in xs
  {
    for i := 0 to |xs|
      invariant x !in xs[..i]
    {
      if xs[i] == x {
        return Some(i);
      }
    }
    return None;
  }

  method MaxIndex(xs: seq<nat>) returns (top: nat)
    requires xs != []
    ensures top < |xs| && forall i | 0 <= i < |xs| :: xs[i] <= xs[top]
  {
    top := 0;
    for i := 1 to |xs|
      invariant top < |xs| && forall j | 0 <= j < i :: xs[j] <= xs[top]
    {
      if xs[i] > xs[top] {
        top := i;
      }
    }
  }

  /** Charge the largest fee of the cycle that closes at `seen[entry]`. The charged fee
      covers the body it is charged on: the source's assertion cannot fail. */
  method ChargeCycle(ctx: BuildCtx, selected: seq<Candidate>, hasSpare: bool, seen: seq<nat>, entry: nat)
      returns (r: Option<Settled>)
    requires entry < |seen| && FeeAt(MeteringOf(ctx, selected), |seen|) == seen[entry]
    requires forall k | 0 <= k < |seen| ::
      seen[k] == FeeAt(MeteringOf(ctx, selected), k) && seen[k] < TotalLovelace(selected)
    ensures r == SettleSpec(ctx, selected, hasSpare)
  {
    hide LinearFee, Width, SignedSize, TotalLovelace, KeepOrFoldChange, FeeAt, Implied, SettleSpec;
    ghost var m := MeteringOf(ctx, selected);
    var total := TotalLovelace(selected);
    var cycle := seen[entry..];
    var top := MaxIndex(cycle);
    var fee: u64 := cycle[top];
    assert fee == seen[entry + top];
    SeenCycleSettles(m, seen, entry, top);
    SettledSpec(ctx, selected, hasSpare, fee);
    var change := total - fee;
    var size := SignedSize(ctx, selected, fee, Some(change));
    MeteredSize(ctx, selected, fee);
    SettledFeeCoversBody(m, fee);
    assert LinearFee(ctx.protocol, size) <= fee;
    r := KeepOrFoldChange(ctx, selected, hasSpare, total, fee, change, size);
  }

  /** The iteration of build.rs, with its step assertion. It returns exactly what
      SettleSpec says, and the assertion cannot fail. */
  method Settle(ctx: BuildCtx, selected: seq<Candidate>, hasSpare: bool) returns (r: Option<Settled>)
    ensures r == SettleSpec(ctx, selected, hasSpare)
  {
    hide LinearFee, Width, SignedSize, TotalLovelace, KeepOrFoldChange, FeeAt, Implied, SettleSpec;
    var total := TotalLovelace(selected);
    ghost var m := MeteringOf(ctx, selected);
    var fee := LinearFee(ctx.protocol, 0);
    var seen: seq<nat> := [];
    FeeAtNext(m, 0);
    while true
      invariant fee == FeeAt(m, |seen|) && fee !in seen && Distinct(seen)
      invariant forall k | 0 <= k < |seen| :: seen[k] == FeeAt(m, k) && seen[k] < total
      invariant |seen| < MICRO_BALANCE_STEPS
      decreases MICRO_BALANCE_STEPS - |seen|
    {
      if total <= fee {
        assert FeeAt(m, |seen|) >= m.total;
        assert SettleSpec(ctx, selected, hasSpare) == None by { UnpaidSpec(ctx, selected, hasSpare); }
        return None;
      }
      var change := total - fee;
      var size := SignedSize(ctx, selected, fee, Some(change));
      var required := LinearFee(ctx.protocol, size);
      MeteredSize(ctx, selected, fee);
      ghost var n := |seen|;
      FeeAtNext(m, n);
      assert FeeAt(m, n + 1) == required;
      if required == fee {
        SettlesAt(m, n, n + 1, n);
        SettledSpec(ctx, selected, hasSpare, fee);
        r := KeepOrFoldChange(ctx, selected, hasSpare, total, fee, change, size);
        return;
      }
      seen := seen + [fee];
      FewDistinctFees(m, seen);
      var entry := Position(seen, required);
      if entry.Some? {
        r := ChargeCycle(ctx, selected, hasSpare, seen, entry.value);
        return;
      }
      assert |seen| < MICRO_BALANCE_STEPS;
      fee := required;
    }
  }

  /** A fee the iteration settles at is the settled fee. */
  lemma SettlesAt(m: Metering, i: nat, j: nat, top: nat)
    requires i <= top < j && FeeAt(m, i) == FeeAt(m, j)
    requires forall k: nat | k < j :: FeeAt(m, k) < m.total
    requires forall k: nat | i <= k < j :: FeeAt(m, k) <= FeeAt(m, top)
    ensures Affordable(m) && SettledFee(m) == FeeAt(m, top)
  {
    hide Step, StartFee, Orbit;
    CycleSettled(m, i, j, top);
    LimitUnique(Step(m), StartFee(m), SettledFee(m), FeeAt(m, top));
  }

  lemma SeenCycleSettles(m: Metering, seen: seq<nat>, entry: nat, top: nat)
    requires entry + top < |seen| && FeeAt(m, |seen|) == seen[entry]
    requires forall k | 0 <= k < |seen| :: seen[k] == FeeAt(m, k) && seen[k] < m.total
    requires forall i | 0 <= i < |seen[entry..]| :: seen[entry..][i] <= seen[entry..][top]
    ensures Affordable(m) && SettledFee(m) == seen[entry + top]
  {
    hide FeeAt;
    forall i: nat | entry <= i < |seen| ensures FeeAt(m, i) <= FeeAt(m, entry + top) {
      assert seen[entry..][i - entry] == seen[i] && seen[entry..][top] == seen[entry + top];
    }
    SettlesAt(m, entry, |seen|, entry + top);
  }

  lemma UnpaidSpec(ctx: BuildCtx, selected: seq<Candidate>, hasSpare: bool)
    requires !Affordable(MeteringOf(ctx, selected))
    ensures SettleSpec(ctx, selected, hasSpare) == None
  {
  }

  lemma SettledSpec(ctx: BuildCtx, selected: seq<Candidate>, hasSpare: bool, fee: u64)
    requires Affordable(MeteringOf(ctx, selected)) && SettledFee(MeteringOf(ctx, selected)) == fee
    ensures fee < TotalLovelace(selected)
    ensures var change := TotalLovelace(selected) - fee;
      SettleSpec(ctx, selected, hasSpare)
      == KeepOrFoldChange(ctx, selected, hasSpare, TotalLovelace(selected), fee, change,
                          SignedSize(ctx, selected, fee, Some(change)))
  {
    hide KeepOrFoldChange, SignedSize, TotalLovelace;
    SettledFeeCoversBody(MeteringOf(ctx, selected), fee);
  }

  /** The dust ceiling of the backstop. */
  function MaxFoldedResidual(ctx: BuildCtx): u64 {
    var widest := ChangeOutputSize(ctx, U64_MAX);
    Saturate(MinAdaForOutput(ctx.protocol, widest) + Saturate(Price(ctx.protocol.minFeeA, widest + 8)))
  }

  // ----- What a settled selection guarantees

  /** A kept change: value is conserved, the size is the emitted body's, the fee
      covers it and overpays at most eight bytes, and the floor flag is truthful. */
  ghost predicate KeptChange(ctx: BuildCtx, selected: seq<Candidate>, s: Settled)
  {
    s.change.Some? ==>
      && s.change.value > 0 && s.fee + s.change.value == TotalLovelace(selected)
      && s.totalSize == SignedSize(ctx, selected, s.fee, s.change)
      && LinearFee(ctx.protocol, s.totalSize) <= s.fee
      && s.fee <= LinearFee(ctx.protocol, s.totalSize) + Price(ctx.protocol.minFeeA, 8)
      && (s.changeBelowFloor <==> s.change.value < MinChangeValue(ctx, s.change.value))
  }

  /** A folded residual: the whole selection is the fee, and what it pays over the
      linear fee is below the widest floor plus the price of the widest output. */
  ghost predicate FoldedResidual(ctx: BuildCtx, selected: seq<Candidate>, s: Settled)
  {
    s.change.None? ==>
      && s.fee == TotalLovelace(selected) && !s.changeBelowFloor
      && s.totalSize == SignedSize(ctx, selected, s.fee, None)
      && LinearFee(ctx.protocol, s.totalSize) <= s.fee
      && s.fee - LinearFee(ctx.protocol, s.totalSize)
         <= Saturate(MinAdaForOutput(ctx.protocol, ChangeOutputSize(ctx, U64_MAX))
              + Price(ctx.protocol.minFeeA, ChangeOutputSize(ctx, U64_MAX)))
  }

  /** The no-change shape is cheaper than any fee the change-bearing shape settles at. */
  lemma FoldIsAffordable(ctx: BuildCtx, selected: seq<Candidate>)
    requires ValidCtx(ctx) && Affordable(MeteringOf(ctx, selected))
    ensures LinearFee(ctx.protocol, SignedSize(ctx, selected, TotalLovelace(selected), None))
         < TotalLovelace(selected)
  {
    var m := MeteringOf(ctx, selected);
    var fee := SettledFee(m);
    SettledFeeRange(m, fee);
    SettledFeeCoversBody(m, fee);
    SizeForm(ctx, selected, m.total, None);
    LinearFeeMonotone(ctx.protocol, BaseSize(ctx, selected) + Width(m.total), m.frame + 2);
  }

  lemma FoldBound(ctx: BuildCtx, selected: seq<Candidate>)
    requires ValidCtx(ctx) && Affordable(MeteringOf(ctx, selected))
    requires
      var m := MeteringOf(ctx, selected);
      var fee := SettledFee(m);
      fee < m.total && m.total - fee < MinChangeValue(ctx, m.total - fee)
    ensures
      var total := TotalLovelace(selected);
      var widest := ChangeOutputSize(ctx, U64_MAX);
      total - LinearFee(ctx.protocol, SignedSize(ctx, selected, total, None))
        <= Saturate(MinAdaForOutput(ctx.protocol, widest) + Price(ctx.protocol.minFeeA, widest))
  {
    hide Price, LinearFee, SignedSize;
    var m := MeteringOf(ctx, selected);
    var p := ctx.protocol;
    var fee := SettledFee(m);
    var change: u64 := m.total - fee;
    var widest := ChangeOutputSize(ctx, U64_MAX);
    var foldedSize := SignedSize(ctx, selected, m.total, None);
    SizeForm(ctx, selected, m.total, None);
    // The fee is at most the no-change fee plus the widest output's bytes.
    SettledFeeRange(m, fee);
    assert m.frame + Width(m.total) + 9 == foldedSize + widest;
    LinearFeeStep(p, foldedSize, widest);
    assert fee <= LinearFee(p, foldedSize) + Price(p.minFeeA, widest);
    // The change is below the widest floor.
    PriceMonotone(p.coinsPerUtxoByte, ChangeOutputSize(ctx, change) + MIN_UTXO_OVERHEAD_BYTES,
                  widest + MIN_UTXO_OVERHEAD_BYTES);
    assert change < MinAdaForOutput(p, widest);
  }

  /** What settling promises, for every selection and parameter set. */
  lemma SettleGuarantees(ctx: BuildCtx, selected: seq<Candidate>, hasSpare: bool)
    requires ValidCtx(ctx)
    ensures
      var m := MeteringOf(ctx, selected);
      match SettleSpec(ctx, selected, hasSpare)
      case None => !Affordable(m) && TotalLovelace(selected) <= FeeFor(m, 18)
      case Some(s) =>
        && Affordable(m)
        && KeptChange(ctx, selected, s) && FoldedResidual(ctx, selected, s)
        && (s.changeBelowFloor ==> hasSpare) && (s.change.None? ==> !hasSpare)
        && FeeFor(m, 2) <= s.fee
        && (s.change.Some? ==> s.fee <= FeeFor(m, 18))
  {
    hide Price, LinearFee, MinAdaForOutput, ChangeOutputSize, Width, TotalLovelace, SignedTx, FeeFor, CoinWidths;
    var m := MeteringOf(ctx, selected);
    if !Affordable(m) {
      UnaffordableTotal(m);
    } else {
      var fee := SettledFee(m);
      SettledFeeCoversBody(m, fee);
      SettledFeeRange(m, fee);
      MeteredSize(ctx, selected, fee);
      var change := m.total - fee;
      if change < MinChangeValue(ctx, change) && !hasSpare {
        FoldIsAffordable(ctx, selected);
        FoldBound(ctx, selected);
      }
    }
  }

  // ----- Growing the selection

  function NoChangeFee(ctx: BuildCtx, selected: seq<Candidate>): u64 {
    LinearFee(ctx.protocol, SignedSize(ctx, selected, TotalLovelace(selected), None))
  }

  /** Whether the prefix of length `take` ends the search. */
  ghost predicate EndsSearch(ctx: BuildCtx, ordered: seq<Candidate>, take: nat)
    requires take <= |ordered|
  {
    take == |ordered| ||
    match SettleSpec(ctx, ordered[..take], true)
    case None => false
    case Some(s) => !s.changeBelowFloor
  }

  /** The shortest prefix at least `take` long that ends the search. */
  ghost function FinalTake(ctx: BuildCtx, ordered: seq<Candidate>, take: nat): (r: nat)
    requires take <= |ordered|
    ensures take <= r <= |ordered| && EndsSearch(ctx, ordered, r)
    ensures forall t | take <= t < r :: !EndsSearch(ctx, ordered, t)
    decreases |ordered| - take
  {
    assert EndsSearch(ctx, ordered, |ordered|);
    hide EndsSearch;
    if EndsSearch(ctx, ordered, take) then take else FinalTake(ctx, ordered, take + 1)
  }

  function StartTake(ctx: BuildCtx, ordered: seq<Candidate>, forcedCount: nat): (take: nat)
    requires 0 < |ordered| && forcedCount <= |ordered|
    ensures 1 <= take <= |ordered| && forcedCount <= take
  {
    var target := Saturate(ctx.protocol.minFeeB + MinChangeValue(ctx, 0));
    CoverFromRange(ordered, target, 1);
    var covered := match CoverFrom(ordered, target, 1) case Some(n) => n case None => |ordered|;
    if covered < forcedCount then forcedCount else covered
  }

  lemma {:induction false} CoverFromRange(ordered: seq<Candidate>, target: u64, n: nat)
    ensures CoverFrom(ordered, target, n).Some? ==> n <= CoverFrom(ordered, target, n).value <= |ordered|
    decreases |ordered| - n
  {
    if n <= |ordered| && TotalLovelace(ordered[..n]) < target {
      CoverFromRange(ordered, target, n + 1);
    }
  }

  /** The balanced build of the shortest prefix that ends the search. */
  ghost function BalanceSpec(ctx: BuildCtx, ordered: seq<Candidate>, available: u64, forcedCount: nat)
      : Result<Balanced, BuildError>
    requires 0 < |ordered| && forcedCount <= |ordered|
  {
    var take := FinalTake(ctx, ordered, StartTake(ctx, ordered, forcedCount));
    var selected := ordered[..take];
    match SettleSpec(ctx, selected, take < |ordered|)
    case None => Err(InsufficientFunds(available, NoChangeFee(ctx, selected)))
    case Some(s) => Ok(Balanced(selected, s.fee, s.change, s.totalSize))
  }

  lemma FinalTakeStep(ctx: BuildCtx, ordered: seq<Candidate>, take: nat)
    requires take <= |ordered|
    ensures EndsSearch(ctx, ordered, take) ==> FinalTake(ctx, ordered, take) == take
    ensures !EndsSearch(ctx, ordered, take) ==>
      take < |ordered| && FinalTake(ctx, ordered, take) == FinalTake(ctx, ordered, take + 1)
  {
  }

  /** The fee range the monotonicity argument needs. */
  lemma SettledRange(ctx: BuildCtx, selected: seq<Candidate>, hasSpare: bool)
    requires ValidCtx(ctx)
    ensures var r := SettleSpec(ctx, selected, hasSpare);
      var m := MeteringOf(ctx, selected);
      r.Some? ==> FeeFor(m, 2) <= r.value.fee && (r.value.changeBelowFloor ==> r.value.fee <= FeeFor(m, 18))
  {
    hide FeeFor, MeteringOf;
    SettleGuarantees(ctx, selected, hasSpare);
  }

  /** A longer prefix's narrowest fee is at least a shorter prefix's widest. */
  lemma FeeForGrows(ctx: BuildCtx, ordered: seq<Candidate>, take: nat)
    requires take < |ordered| && |ordered[take].txId| == 32
    ensures FeeFor(MeteringOf(ctx, ordered[..take]), 18) <= FeeFor(MeteringOf(ctx, ordered[..take + 1]), 2)
  {
    hide BaseSize, LinearFee;
    assert ordered[..take + 1] == ordered[..take] + [ordered[take]];
    InputCost(ctx, ordered[..take], ordered[take]);
    LinearFeeMonotone(ctx.protocol, MeteringOf(ctx, ordered[..take]).frame + 18,
                      MeteringOf(ctx, ordered[..take + 1]).frame + 2);
  }

  /** The input-adding loop of build.rs, with its assertion and its iteration bound.
      The fee never decreases and the bound is never exhausted. */
  method Balance(ctx: BuildCtx, ordered: seq<Candidate>, available: u64, forcedCount: nat)
      returns (r: Result<Balanced, BuildError>)
    requires ValidCtx(ctx) && WellFormed(ordered)
    requires 0 < |ordered| && forcedCount <= |ordered|
    ensures r == BalanceSpec(ctx, ordered, available, forcedCount)
  {
    hide SettleSpec, FeeFor, MeteringOf, NoChangeFee, FinalTake, LinearFee, MinChangeValue;
    var target := Saturate(ctx.protocol.minFeeB + MinChangeValue(ctx, 0));
    var prefix := Cover(ordered, target);
    var take := match prefix case Some(n) => n case None => |ordered|;
    if take < forcedCount {
      take := forcedCount;
    }
    if take < 1 {
      take := 1;
    }
    ghost var start := take;
    assert start == StartTake(ctx, ordered, forcedCount);
    var bound := |ordered| + 2;
    var prevFee: u64 := 0;
    var i := 0;
    while i < bound
      invariant start + i == take <= |ordered|
      invariant prevFee <= FeeFor(MeteringOf(ctx, ordered[..take]), 2)
      invariant FinalTake(ctx, ordered, start) == FinalTake(ctx, ordered, take)
    {
      var selected := ordered[..take];
      var hasSpare := take < |ordered|;
      var settled := Settle(ctx, selected, hasSpare);
      SettledRange(ctx, selected, hasSpare);
      FinalTakeStep(ctx, ordered, take);
      match settled {
        case None =>
          if hasSpare {
            FeeForMonotone(MeteringOf(ctx, selected), 2, 18);
            FeeForGrows(ctx, ordered, take);
            take := take + 1;
          } else {
            return Err(InsufficientFunds(available, NoChangeFee(ctx, selected)));
          }
        case Some(s) =>
          assert s.fee >= prevFee;
          prevFee := s.fee;
          if s.changeBelowFloor && hasSpare {
            FeeForGrows(ctx, ordered, take);
            take := take + 1;
          } else {
            return Ok(Balanced(selected, s.fee, s.change, s.totalSize));
          }
      }
      i := i + 1;
    }
    r := Err(InsufficientFunds(available, prevFee));
    assert false;
  }
}
