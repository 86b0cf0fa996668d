/** What build_poe_tx promises about every request. */
module BuildTheorems {
  import opened Bytes
  import opened PoeTx
  import opened Orbits
  import opened FeeFixpoint
  import opened Selection
  import opened Balancer
  import opened ShortestPrefix
  import opened BuildPoeTx
  import opened Wrappers

  // ----- Across selections

  lemma {:induction false} FeeForGrowsFar(ctx: BuildCtx, ordered: seq<Candidate>, t: nat, u: nat)
    requires WellFormed(ordered) && t < u <= |ordered|
    ensures FeeFor(MeteringOf(ctx, ordered[..t]), 18) <= FeeFor(MeteringOf(ctx, ordered[..u]), 2)
    decreases u
  {
    hide FeeFor, MeteringOf;
    FeeForGrows(ctx, ordered, u - 1);
    if t < u - 1 {
      FeeForGrowsFar(ctx, ordered, t, u - 1);
      FeeForMonotone(MeteringOf(ctx, ordered[..u - 1]), 2, 18);
    }
  }

  /** Adding inputs never lowers the fee, whether either selection converged, was
      resolved from a cycle, or (the longer one) folded its change. */
  lemma FeesNeverDecrease(ctx: BuildCtx, ordered: seq<Candidate>, t: nat, u: nat, spare: bool)
    requires ValidCtx(ctx) && WellFormed(ordered) && t < u <= |ordered|
    ensures SettleSpec(ctx, ordered[..t], true).Some? && SettleSpec(ctx, ordered[..u], spare).Some? ==>
      SettleSpec(ctx, ordered[..t], true).value.fee <= SettleSpec(ctx, ordered[..u], spare).value.fee
  {
    hide FeeFor, MeteringOf, SettleSpec, KeptChange, FoldedResidual;
    SettleGuarantees(ctx, ordered[..t], true);
    SettleGuarantees(ctx, ordered[..u], spare);
    FeeForGrowsFar(ctx, ordered, t, u);
  }

  // ----- A whole balance

  ghost predicate ChangeClearsFloor(ctx: BuildCtx, b: Balanced) {
    b.change.Some? ==>
      && b.change.value >= MinChangeValue(ctx, b.change.value)
      && b.fee <= LinearFee(ctx.protocol, b.totalSize) + Price(ctx.protocol.minFeeA, 8)
  }

  ghost function Returned(change: Option<u64>): nat {
    match change case None => 0 case Some(c) => c
  }

  /** What a settled selection that ends the search becomes. */
  ghost predicate SoundBuild(ctx: BuildCtx, b: Balanced) {
    && b.fee + Returned(b.change) == TotalLovelace(b.selected)
    && b.totalSize == SignedSize(ctx, b.selected, b.fee, b.change)
    && LinearFee(ctx.protocol, b.totalSize) <= b.fee
    && ChangeClearsFloor(ctx, b)
  }

  lemma SettledIsSound(ctx: BuildCtx, selected: seq<Candidate>, s: Settled)
    requires KeptChange(ctx, selected, s) && FoldedResidual(ctx, selected, s) && !s.changeBelowFloor
    ensures SoundBuild(ctx, Balanced(selected, s.fee, s.change, s.totalSize))
  {
    hide SignedSize, LinearFee, MinChangeValue, TotalLovelace, MinAdaForOutput, ChangeOutputSize, Price;
  }

  lemma BalanceGuarantees(ctx: BuildCtx, ordered: seq<Candidate>, available: u64, forcedCount: nat)
    requires ValidCtx(ctx) && 0 < |ordered| && forcedCount <= |ordered|
    ensures
      match BalanceSpec(ctx, ordered, available, forcedCount)
      case Ok(b) =>
        && b.selected <= ordered && |b.selected| >= forcedCount && |b.selected| >= 1
        && SoundBuild(ctx, b)
        && (b.change.None? ==> b.selected == ordered)
        && FoldedResidual(ctx, b.selected, Settled(b.fee, b.change, b.totalSize, false))
      case Err(e) =>
        && e == InsufficientFunds(available, NoChangeFee(ctx, ordered))
        && !Affordable(MeteringOf(ctx, ordered))
        && TotalLovelace(ordered) <= FeeFor(MeteringOf(ctx, ordered), 18)
  {
    hide FeeFor, MeteringOf, NoChangeFee, SettleSpec, TotalLovelace, KeptChange, FoldedResidual, SoundBuild, Affordable,
      StartTake, FinalTake;
    var take := FinalTake(ctx, ordered, StartTake(ctx, ordered, forcedCount));
    var selected := ordered[..take];
    assert ordered[..|ordered|] == ordered;
    SettleGuarantees(ctx, selected, take < |ordered|);
    var r := SettleSpec(ctx, selected, take < |ordered|);
    if r.Some? {
      assert !r.value.changeBelowFloor;
      SettledIsSound(ctx, selected, r.value);
    }
  }

  /** The residual a fold absorbs is within the backstop's ceiling, even without the
      eight bytes of slack the ceiling adds. */
  lemma FoldWithinCeiling(ctx: BuildCtx, selected: seq<Candidate>, s: Settled)
    requires FoldedResidual(ctx, selected, s) && s.change.None?
    ensures s.fee - LinearFee(ctx.protocol, s.totalSize) <= MaxFoldedResidual(ctx)
  {
    hide LinearFee, MinAdaForOutput, ChangeOutputSize, SignedSize, Price;
    var widest := ChangeOutputSize(ctx, U64_MAX);
    PriceMonotone(ctx.protocol.minFeeA, widest, widest + 8);
  }

  // ----- A whole build

  /** Every successful build conserves value, keeps change only at or above its floor,
      folds only with every input selected, and pays for the body it emits. */
  lemma BuildIsSound(request: BuildRequest)
    requires ValidRequest(request)
    ensures BuildSpec(request).Ok? ==>
      var b := BuildSpec(request).value;
      var list := ListOf(request);
      var ctx := CtxOf(request, request.changeAddress.bytes);
      && b.selected <= list.0 && |b.selected| >= list.1
      && SoundBuild(ctx, Balanced(b.selected, b.fee, b.change, b.totalSize))
      && (b.change.None? ==> b.selected == list.0)
      && b.totalSize <= request.protocol.maxTxSize
  {
    hide BalanceSpec, LinearFee, TotalLovelace, OrderedList, SoundBuild, FoldedResidual, MaxFoldedResidual;
    if BuildSpec(request).Ok? {
      var list := ListOf(request);
      BalanceGuarantees(CtxOf(request, request.changeAddress.bytes), list.0, TotalLovelace(list.0), list.1);
    }
  }

  /** The fee backstop never fires, and an underfunded build had every input selected
      and no more than the widest change-bearing shape's fee. */
  lemma BuildFailures(request: BuildRequest)
    requires ValidRequest(request)
    ensures BuildSpec(request).Err? ==> !BuildSpec(request).error.ExcessiveFeeFold?
    ensures BuildSpec(request).Err? && BuildSpec(request).error.TxTooLarge? ==>
      BuildSpec(request).error.size > BuildSpec(request).error.max == request.protocol.maxTxSize
    ensures BuildSpec(request).Err? && BuildSpec(request).error.InsufficientFunds? ==>
      && OrderedList(request).Ok?
      && var all := ListOf(request).0;
         var ctx := CtxOf(request, request.changeAddress.bytes);
         && BuildSpec(request).error
            == InsufficientFunds(TotalLovelace(all),
                                 LinearFee(request.protocol, |SignedTx(ctx, all, TotalLovelace(all), None)|))
         && TotalLovelace(all) <= FeeFor(MeteringOf(ctx, all), 18)
  {
    hide BalanceSpec, SignedSize, LinearFee, TotalLovelace, MeteringOf, FeeFor, NoChangeFee, ChangeClearsFloor,
      FoldedResidual, MaxFoldedResidual, DropForcedDuplicates, Sort, DecodeForcedSpec;
    OrderedListErrors(request);
    hide SignedTx;
    if ParseChangeAddress(request).Ok? && OrderedList(request).Ok? {
      var list := ListOf(request);
      var ctx := CtxOf(request, request.changeAddress.bytes);
      BalanceGuarantees(ctx, list.0, TotalLovelace(list.0), list.1);
      ReportedFee(ctx, list.0);
      var r := BalanceSpec(ctx, list.0, TotalLovelace(list.0), list.1);
      if r.Ok? && r.value.change.None? {
        FoldWithinCeiling(ctx, r.value.selected, Settled(r.value.fee, r.value.change, r.value.totalSize, false));
      }
    }
  }

  lemma ReportedFee(ctx: BuildCtx, all: seq<Candidate>)
    ensures NoChangeFee(ctx, all) == LinearFee(ctx.protocol, |SignedTx(ctx, all, TotalLovelace(all), None)|)
  {
  }

  lemma OrderedListErrors(request: BuildRequest)
    ensures OrderedList(request).Err? ==>
      var e := OrderedList(request).error;
      e.InvalidUtxoHash? || e.NoUtxos? || e.DuplicateMustSpend?
  {
    hide DropForcedDuplicates, Sort, FirstDuplicate;
  }

  /** A caller can rule the error out beforehand: inputs worth more than the linear fee of
      all of them with the widest coins are never reported as insufficient. */
  lemma FundedNeverInsufficient(request: BuildRequest)
    requires ValidRequest(request) && ParseChangeAddress(request).Ok? && OrderedList(request).Ok?
    requires
      var all := ListOf(request).0;
      var ctx := CtxOf(request, request.changeAddress.bytes);
      TotalLovelace(all) > LinearFee(request.protocol, BaseSize(ctx, all) + Framing(ctx) + 18)
    ensures BuildSpec(request).Err? ==> !BuildSpec(request).error.InsufficientFunds?
  {
    hide BuildSpec, LinearFee, BaseSize, Framing, TotalLovelace, OrderedList;
    BuildFailures(request);
  }

  /** A build spends the shortest prefix of the list that holds the mandatory inputs and
      pays, or everything; it returns a change exactly when what it spends pays. */
  lemma BuildTakesShortest(request: BuildRequest)
    requires ValidRequest(request)
    ensures BuildSpec(request).Ok? ==>
      var b := BuildSpec(request).value;
      var list := ListOf(request);
      var ctx := CtxOf(request, request.changeAddress.bytes);
      && b.selected <= list.0 && IsShortest(ctx, list.0, list.1, |b.selected|)
      && (b.change.Some? <==> Pays(ctx, b.selected))
  {
    hide BalanceSpec, OrderedList, IsShortest, Pays, LinearFee, MaxFoldedResidual, TotalLovelace;
    if BuildSpec(request).Ok? {
      var list := ListOf(request);
      var ctx := CtxOf(request, request.changeAddress.bytes);
      BalanceTakesShortest(ctx, list.0, TotalLovelace(list.0), list.1);
    }
  }

  /** Insufficient funds exactly when no shorter prefix that holds the mandatory inputs
      pays and the whole list cannot pay its own fees. */
  lemma UnderfundedExactly(request: BuildRequest)
    requires ValidRequest(request) && ParseChangeAddress(request).Ok? && OrderedList(request).Ok?
    ensures
      var list := ListOf(request);
      var ctx := CtxOf(request, request.changeAddress.bytes);
      (BuildSpec(request).Err? && BuildSpec(request).error.InsufficientFunds?)
      <==> IsShortest(ctx, list.0, list.1, |list.0|) && !Affordable(MeteringOf(ctx, list.0))
  {
    hide OrderedList, BalanceSpec, NoChangeFee, Affordable, MeteringOf, IsShortest, Pays, TotalLovelace,
      MaxFoldedResidual, LinearFee, SoundBuild, FoldedResidual;
    var list := ListOf(request);
    var ctx := CtxOf(request, request.changeAddress.bytes);
    BalanceTakesShortest(ctx, list.0, TotalLovelace(list.0), list.1);
    BalanceGuarantees(ctx, list.0, TotalLovelace(list.0), list.1);
  }

  /** The sum is conserved exactly when it fits the amount type. */
  lemma ConservesExactly(request: BuildRequest)
    requires ValidRequest(request)
    ensures BuildSpec(request).Ok? ==>
      var b := BuildSpec(request).value;
      (b.fee + Returned(b.change) == Sum(b.selected) <==> Sum(b.selected) <= U64_MAX)
  {
    hide BuildSpec, SignedSize, LinearFee, OrderedList, ChangeClearsFloor;
    BuildIsSound(request);
    if BuildSpec(request).Ok? {
      TotalIsSaturatedSum(BuildSpec(request).value.selected);
    }
  }

  // ----- Each reference is spent once, every mandatory one is spent

  ghost predicate DistinctReferences(cs: seq<Candidate>) {
    forall i, j | 0 <= i < j < |cs| :: !SameReference(cs[i], cs[j])
  }

  /** Occurrences of a reference. */
  ghost function Count(cs: seq<Candidate>, c: Candidate): nat {
    if cs == [] then 0 else (if SameReference(cs[0], c) then 1 else 0) + Count(cs[1..], c)
  }

  lemma {:induction false} CountAppend(xs: seq<Candidate>, ys: seq<Candidate>, c: Candidate)
    ensures Count(xs + ys, c) == Count(xs, c) + Count(ys, c)
  {
    if xs == [] {
      assert xs + ys == ys;
    } else {
      assert (xs + ys)[1..] == xs[1..] + ys;
      CountAppend(xs[1..], ys, c);
    }
  }

  lemma {:induction false} CountInsert(leq: Order, x: Candidate, cs: seq<Candidate>, c: Candidate)
    ensures Count(Insert(leq, x, cs), c) == Count([x], c) + Count(cs, c)
  {
    if cs == [] || leq(x, cs[0]) {
      CountAppend([x], cs, c);
    } else {
      var rest := Insert(leq, x, cs[1..]);
      CountInsert(leq, x, cs[1..], c);
      assert ([cs[0]] + rest)[1..] == rest;
    }
  }

  lemma {:induction false} CountSort(leq: Order, cs: seq<Candidate>, c: Candidate)
    ensures Count(Sort(leq, cs), c) == Count(cs, c)
  {
    if cs != [] {
      CountSort(leq, cs[1..], c);
      CountInsert(leq, cs[0], Sort(leq, cs[1..]), c);
    }
  }

  lemma {:induction false} CountDrop(cs: seq<Candidate>, forced: seq<Candidate>, c: Candidate)
    ensures Count(DropForcedDuplicates(cs, forced), c) == if Listed(c, forced) then 0 else Count(cs, c)
  {
    if cs != [] {
      CountDrop(cs[1..], forced, c);
      var rest := DropForcedDuplicates(cs[1..], forced);
      if !Listed(cs[0], forced) {
        assert ([cs[0]] + rest)[1..] == rest;
      }
      if SameReference(cs[0], c) {
        ListedSame(cs[0], c, forced);
      }
    }
  }

  lemma ListedSame(a: Candidate, b: Candidate, forced: seq<Candidate>)
    requires SameReference(a, b)
    ensures Listed(a, forced) <==> Listed(b, forced)
  {
    forall i | 0 <= i < |forced| ensures SameReference(forced[i], a) <==> SameReference(forced[i], b) {
    }
  }

  lemma {:induction false} CountListed(cs: seq<Candidate>, c: Candidate)
    ensures Count(cs, c) > 0 <==> Listed(c, cs)
  {
    if cs != [] {
      CountListed(cs[1..], c);
      if Listed(c, cs[1..]) {
        var i :| 0 <= i < |cs[1..]| && SameReference(cs[1..][i], c);
        assert SameReference(cs[i + 1], c);
      }
      if Listed(c, cs) && !SameReference(cs[0], c) {
        var i :| 0 <= i < |cs| && SameReference(cs[i], c);
        assert SameReference(cs[1..][i - 1], c);
      }
    }
  }

  lemma {:induction false} DistinctCounts(cs: seq<Candidate>, c: Candidate)
    requires DistinctReferences(cs)
    ensures Count(cs, c) <= 1
  {
    if cs != [] {
      DistinctCounts(cs[1..], c);
      if SameReference(cs[0], c) {
        CountListed(cs[1..], c);
      }
    }
  }

  lemma {:induction false} CountsDistinct(cs: seq<Candidate>)
    requires forall c :: Count(cs, c) <= 1
    ensures DistinctReferences(cs)
  {
    if cs != [] {
      forall c ensures Count(cs[1..], c) <= 1 {
        assert Count(cs, c) <= 1;
      }
      CountsDistinct(cs[1..]);
      forall j | 1 <= j < |cs| ensures !SameReference(cs[0], cs[j]) {
        CountListed(cs[1..], cs[0]);
        assert Count(cs, cs[0]) <= 1;
        if SameReference(cs[0], cs[j]) {
          assert SameReference(cs[1..][j - 1], cs[0]);
        }
      }
    }
  }

  /** A reference-sorted list with no adjacent repetition has no repetition. */
  lemma AdjacentSuffices(cs: seq<Candidate>)
    requires Sorted(ReferenceLeq, cs)
    requires forall k | 0 <= k < |cs| - 1 :: !SameReference(cs[k], cs[k + 1])
    ensures DistinctReferences(cs)
  {
    forall i, j | 0 <= i < j < |cs| ensures !SameReference(cs[i], cs[j]) {
      if SameReference(cs[i], cs[j]) {
        assert ReferenceLeq(cs[i], cs[i + 1]);
        assert i + 1 == j || ReferenceLeq(cs[i + 1], cs[j]);
        BytesTotal(cs[i].txId, cs[i + 1].txId);
      }
    }
  }

  lemma ForcedDistinct(us: seq<Utxo>)
    requires DecodeForcedSpec(us).Ok?
    ensures DistinctReferences(DecodeForcedSpec(us).value)
  {
    OrdersAreTotal();
    SortSorted(ReferenceLeq, DecodeAll(us).value);
    AdjacentSuffices(DecodeForcedSpec(us).value);
  }

  /** Given candidates without repeated references, the ordered list repeats none,
      however the mandatory and optional lists overlap. */
  lemma OrderedListDistinct(request: BuildRequest)
    requires OrderedList(request).Ok? && DistinctReferences(DecodeAll(request.utxos).value)
    ensures DistinctReferences(ListOf(request).0)
  {
    hide Sort, DropForcedDuplicates, DecodeForcedSpec;
    var candidates := DecodeAll(request.utxos).value;
    var forced := DecodeForcedSpec(request.mustSpend).value;
    var rest := DropForcedDuplicates(candidates, forced);
    ForcedDistinct(request.mustSpend);
    forall c ensures Count(forced + Prioritise(rest), c) <= 1 {
      CountAppend(forced, Prioritise(rest), c);
      CountSort(PriorityLeq, rest, c);
      CountDrop(candidates, forced, c);
      CountListed(forced, c);
      DistinctCounts(forced, c);
      DistinctCounts(candidates, c);
    }
    CountsDistinct(forced + Prioritise(rest));
  }

  /** A build spends every mandatory reference and no reference twice. */
  lemma SpendsMandatoryOnce(request: BuildRequest)
    requires ValidRequest(request)
    ensures BuildSpec(request).Ok? ==>
      && OrderedList(request).Ok?
      && (DistinctReferences(DecodeAll(request.utxos).value) ==> DistinctReferences(BuildSpec(request).value.selected))
      && (forall c | c in DecodeAll(request.mustSpend).value :: c in BuildSpec(request).value.selected)
  {
    hide SignedSize, LinearFee, ChangeClearsFloor, BalanceSpec, FinalChecks, Sort, DropForcedDuplicates, TotalLovelace;
    BuildIsSound(request);
    if BuildSpec(request).Ok? {
      if DistinctReferences(DecodeAll(request.utxos).value) {
        OrderedListDistinct(request);
      }
      ForcedAreSelected(request, BuildSpec(request).value.selected);
    }
  }

  lemma ForcedAreSelected(request: BuildRequest, selected: seq<Candidate>)
    requires OrderedList(request).Ok? && selected <= ListOf(request).0 && ListOf(request).1 <= |selected|
    ensures forall c | c in DecodeAll(request.mustSpend).value :: c in selected
  {
    hide Sort, DropForcedDuplicates;
    var decoded := DecodeAll(request.mustSpend).value;
    var forced := DecodeForcedSpec(request.mustSpend).value;
    assert multiset(forced) == multiset(decoded);
    forall c | c in decoded ensures c in selected {
      assert c in multiset(decoded);
      assert c in forced;
      var i :| 0 <= i < |forced| && forced[i] == c;
      assert ListOf(request).0[i] == c && selected[i] == ListOf(request).0[i];
    }
  }

  // ----- Some selections have no exact fee

  const BOUNDARY := Metering(ProtocolParams(44, 155381, 4310, 16384), 300, 4295136396)

  lemma BoundaryImplies(fee: nat)
    requires fee < BOUNDARY.total
    ensures 0x1_0000 <= Implied(BOUNDARY, fee) < 0x1_0000_0000
    ensures 0x1_0000 <= fee <= 169100 ==> Implied(BOUNDARY, fee) == 169197
    ensures 169100 < fee < 0x1_0000_0000 && BOUNDARY.total - fee >= 0x1_0000 ==> Implied(BOUNDARY, fee) == 169021
    ensures Implied(BOUNDARY, fee) <= 169373
  {
    CoinWidthsRange(BOUNDARY, fee);
    assert Implied(BOUNDARY, fee) == 44 * (300 + CoinWidths(BOUNDARY, fee)) + 155381;
  }

  /** A total one fee step above the four-byte coin boundary has no fixpoint: the
      narrow fee implies the wide one and the wide fee the narrow one. */
  lemma FixpointMayNotExist()
    ensures Affordable(BOUNDARY) && IsSettledFee(BOUNDARY, 169197)
    ensures forall fee: nat | fee < BOUNDARY.total :: Implied(BOUNDARY, fee) != fee
  {
    hide Implied, IsSettledFee, Affordable, FeeAt;
    forall fee: nat | fee < BOUNDARY.total ensures Implied(BOUNDARY, fee) != fee {
      BoundaryImplies(fee);
    }
    BoundaryImplies(155381);
    BoundaryImplies(169197);
    BoundaryImplies(169021);
    BoundaryStart();
    FeeAtNext(BOUNDARY, 0);
    FeeAtNext(BOUNDARY, 1);
    FeeAtNext(BOUNDARY, 2);
    CycleSettled(BOUNDARY, 1, 3, 1);
  }

  lemma BoundaryStart()
    ensures FeeAt(BOUNDARY, 0) == 155381
  {
    assert Price(44, 0) == 0;
    FeeAtNext(BOUNDARY, 0);
  }

  // The same, as a selection of one input.

  const CYCLING_CTX := BuildCtx(BOUNDARY.params, seq(29, i => 0), [], [], seq(226, i => 0))

  const CYCLING_INPUT := Candidate(seq(32, i => 0), 0, 4295136396)

  lemma CyclingMetering()
    ensures ValidCtx(CYCLING_CTX) && TotalLovelace([CYCLING_INPUT]) == BOUNDARY.total
    ensures MeteringOf(CYCLING_CTX, [CYCLING_INPUT]) == BOUNDARY
  {
    assert [CYCLING_INPUT][..0] == [];
    assert |InputsBytes([CYCLING_INPUT])| == |InputBytes(CYCLING_INPUT)| == 36;
  }

  /** The linear fee of the body that charges `fee` and returns the rest. */
  ghost function BodyFee(ctx: BuildCtx, selected: seq<Candidate>, fee: u64): u64
    requires fee < TotalLovelace(selected)
  {
    LinearFee(ctx.protocol, SignedSize(ctx, selected, fee, Some(TotalLovelace(selected) - fee)))
  }

  /** Every selection metered so has no exact fee; it is charged the larger fee of its
      cycle, four bytes over its own body's. */
  lemma MeteredSelectionCycles(ctx: BuildCtx, selected: seq<Candidate>)
    requires MeteringOf(ctx, selected) == BOUNDARY
    ensures Affordable(BOUNDARY) && SettledFee(BOUNDARY) == 169197 < TotalLovelace(selected)
    ensures BodyFee(ctx, selected, 169197) + 4 * 44 == 169197
    ensures forall fee: u64 | fee < TotalLovelace(selected) :: BodyFee(ctx, selected, fee) != fee
  {
    hide SignedSize, Affordable, IsSettledFee, Implied, TotalLovelace, SettledFee, LinearFee;
    FixpointMayNotExist();
    SettledIs(BOUNDARY, 169197);
    BoundaryImplies(169197);
    MeteredSize(ctx, selected, 169197);
    forall fee: u64 | fee < TotalLovelace(selected) ensures BodyFee(ctx, selected, fee) != fee {
      MeteredSize(ctx, selected, fee);
    }
  }

  /** Such a selection exists: this single input is charged the larger fee of its cycle
      and keeps the rest as change, and no fee at all would be exact for it. */
  lemma CyclingSelection()
    ensures ValidCtx(CYCLING_CTX) && TotalLovelace([CYCLING_INPUT]) == 4295136396
    ensures BodyFee(CYCLING_CTX, [CYCLING_INPUT], 169197) + 4 * 44 == 169197
    ensures forall fee: u64 | fee < TotalLovelace([CYCLING_INPUT]) :: BodyFee(CYCLING_CTX, [CYCLING_INPUT], fee) != fee
    ensures SettleSpec(CYCLING_CTX, [CYCLING_INPUT], false)
         == Some(Settled(169197, Some(4294967199),
                         SignedSize(CYCLING_CTX, [CYCLING_INPUT], 169197, Some(4294967199)), false))
  {
    hide SettleSpec, SignedSize, MeteringOf, Affordable, SettledFee, TotalLovelace, MinChangeValue, BodyFee;
    CyclingMetering();
    MeteredSelectionCycles(CYCLING_CTX, [CYCLING_INPUT]);
    SettledSpec(CYCLING_CTX, [CYCLING_INPUT], false, 169197);
    CyclingFloor(4294967199);
  }

  lemma CyclingFloor(change: u64)
    ensures MinChangeValue(CYCLING_CTX, change) < 1_000_000
  {
    assert |OutputBytes(CYCLING_CTX.address, change)| <= 43;
  }

  lemma SettledIs(m: Metering, fee: nat)
    requires Affordable(m) && IsSettledFee(m, fee)
    ensures SettledFee(m) == fee
  {
    hide Step, StartFee;
    LimitUnique(Step(m), StartFee(m), SettledFee(m), fee);
  }
}
