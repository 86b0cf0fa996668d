/** The fee iteration of a fixed selection, as an orbit.

    Charging a fee fixes the change, both coins fix the size, and the size implies
    the next fee. The orbit has finitely many values, so it is eventually periodic;
    a fixpoint is a period of length one. The fee to charge is the largest value
    the orbit takes infinitely often. */
module FeeFixpoint {
  import opened Bytes
  import opened Cbor
  import opened PoeTx
  import opened Orbits

  /** `frame` is the change-bearing size without its fee and change coins. */
  datatype Metering = Metering(params: ProtocolParams, frame: nat, total: u64)

  /** Bytes the fee and the change it leaves take. */
  function CoinWidths(m: Metering, fee: nat): nat
    requires fee < m.total
  {
    Width(fee) + Width(m.total - fee)
  }

  /** The linear fee of the body that charges `fee` and returns the rest. */
  function Implied(m: Metering, fee: nat): u64
    requires fee < m.total
  {
    LinearFee(m.params, m.frame + CoinWidths(m, fee))
  }

  function StartFee(m: Metering): u64 {
    LinearFee(m.params, 0)
  }

  /** One step of the iteration; a fee that cannot be paid stays where it is. */
  function Step(m: Metering): nat -> nat {
    (fee: nat) => if fee < m.total then Implied(m, fee) else fee
  }

  ghost function FeeAt(m: Metering, k: nat): nat {
    Orbit(Step(m), StartFee(m), k)
  }

  /** The selection can pay every fee the iteration asks for. */
  ghost predicate Affordable(m: Metering) {
    forall k: nat :: FeeAt(m, k) < m.total
  }

  ghost predicate IsSettledFee(m: Metering, fee: nat) {
    IsLimit(Step(m), StartFee(m), fee)
  }

  lemma FeeAtNext(m: Metering, k: nat)
    ensures FeeAt(m, 0) == LinearFee(m.params, 0)
    ensures FeeAt(m, k) < m.total ==> FeeAt(m, k + 1) == Implied(m, FeeAt(m, k))
  {
  }

  /** A covered, closed cycle makes the selection affordable and settles its largest fee. */
  lemma CycleSettled(m: Metering, i: nat, j: nat, top: nat)
    requires i <= top < j && FeeAt(m, i) == FeeAt(m, j)
    requires forall k: nat | k < j :: FeeAt(m, k) < m.total
    requires forall k: nat | i <= k < j :: FeeAt(m, k) <= FeeAt(m, top)
    ensures Affordable(m) && IsSettledFee(m, FeeAt(m, top))
  {
    hide Step, StartFee;
    var step, start := Step(m), StartFee(m);
    assert Closes(step, start, i, j);
    forall k: nat | k < j ensures Orbit(step, start, k) < m.total {
      assert FeeAt(m, k) < m.total;
    }
    CycleBound(step, start, i, j, m.total);
    forall k: nat ensures FeeAt(m, k) < m.total {
      assert Orbit(step, start, k) < m.total;
    }
    forall k: nat | i <= k < j ensures Orbit(step, start, k) <= Orbit(step, start, top) {
      assert FeeAt(m, k) <= FeeAt(m, top);
    }
    CycleMaximumIsLimit(step, start, i, j, top);
  }

  // ----- The orbit takes at most thirteen values

  /** The sums two head widths can have. */
  const WIDTH_SUMS: seq<nat> := [2, 3, 4, 5, 6, 7, 8, 10, 11, 12, 14, 18]

  lemma WidthSum(x: nat, y: nat)
    ensures Width(x) + Width(y) in WIDTH_SUMS
  {
    var s := Width(x) + Width(y);
    assert s in [2, 3, 4, 5, 6, 7, 8, 10, 11, 12, 14, 18];
  }

  lemma CoinWidthsRange(m: Metering, fee: nat)
    requires fee < m.total
    ensures CoinWidths(m, fee) in WIDTH_SUMS
    ensures 2 <= CoinWidths(m, fee) <= Width(m.total) + 9 <= 18
  {
    WidthMonotone(fee, m.total);
    WidthSum(fee, m.total - fee);
  }

  ghost function FeeFor(m: Metering, widths: nat): nat {
    LinearFee(m.params, m.frame + widths)
  }

  lemma FeeForMonotone(m: Metering, x: nat, y: nat)
    requires x <= y
    ensures FeeFor(m, x) <= FeeFor(m, y)
  {
    LinearFeeMonotone(m.params, m.frame + x, m.frame + y);
  }

  /** The start value and the linear fee of every width sum. */
  ghost function PossibleFees(m: Metering): set<nat> {
    Elements([StartFee(m)] + FeesFor(m))
  }

  ghost function FeesFor(m: Metering): (fees: seq<nat>)
    ensures |fees| == |WIDTH_SUMS|
  {
    seq(|WIDTH_SUMS|, (i: nat) requires i < |WIDTH_SUMS| => FeeFor(m, WIDTH_SUMS[i]))
  }

  lemma FewPossibleFees(m: Metering)
    ensures |PossibleFees(m)| <= 13
  {
    ElementsSize([StartFee(m)] + FeesFor(m));
  }

  lemma WidthSumPossible(m: Metering, s: nat)
    requires s in WIDTH_SUMS
    ensures FeeFor(m, s) in PossibleFees(m)
  {
    hide FeeFor, StartFee;
    var i :| 0 <= i < |WIDTH_SUMS| && WIDTH_SUMS[i] == s;
    assert FeesFor(m)[i] == FeeFor(m, s);
    assert ([StartFee(m)] + FeesFor(m))[i + 1] == FeeFor(m, s);
  }

  lemma {:induction false} FeePossible(m: Metering, k: nat)
    requires forall i: nat | i < k :: FeeAt(m, i) < m.total
    ensures FeeAt(m, k) in PossibleFees(m)
  {
    if k > 0 {
      var before := FeeAt(m, k - 1);
      CoinWidthsRange(m, before);
      assert FeeAt(m, k) == FeeFor(m, CoinWidths(m, before));
      WidthSumPossible(m, CoinWidths(m, before));
    } else {
      assert ([StartFee(m)] + FeesFor(m))[0] == StartFee(m);
    }
  }

  /** Pairwise different fees of the iteration number at most thirteen. */
  lemma FewDistinctFees(m: Metering, fees: seq<nat>)
    requires Distinct(fees)
    requires forall k | 0 <= k < |fees| :: fees[k] == FeeAt(m, k) && fees[k] < m.total
    ensures |fees| <= 13
  {
    forall fee | fee in fees ensures fee in PossibleFees(m) {
      var k :| 0 <= k < |fees| && fees[k] == fee;
      FeePossible(m, k);
    }
    FewPossibleFees(m);
    DistinctWithin(fees, PossibleFees(m));
  }

  /** An affordable selection always has a settled fee. */
  ghost function SettledFee(m: Metering): (fee: nat)
    requires Affordable(m)
    ensures IsSettledFee(m, fee)
  {
    SettledFeeExists(m);
    var fee: nat :| IsSettledFee(m, fee);
    fee
  }

  lemma SettledFeeExists(m: Metering)
    requires Affordable(m)
    ensures exists fee: nat :: IsSettledFee(m, fee)
  {
    forall k: nat ensures Orbit(Step(m), StartFee(m), k) in PossibleFees(m) {
      assert forall i: nat :: FeeAt(m, i) < m.total;
      FeePossible(m, k);
    }
    LimitExists(Step(m), StartFee(m), PossibleFees(m));
    var fee: nat :| IsLimit(Step(m), StartFee(m), fee);
    assert IsSettledFee(m, fee);
  }

  // ----- What the settled fee pays for

  /** The settled fee is the fee a predecessor no larger than itself implies, and
      implies a fee no larger than itself. */
  lemma SettledNeighbours(m: Metering, fee: nat) returns (before: nat)
    requires Affordable(m) && IsSettledFee(m, fee)
    ensures FeeFor(m, 2) <= before <= fee < m.total
    ensures fee == Implied(m, before) && Implied(m, fee) <= fee
  {
    hide FeeFor;
    var step, start := Step(m), StartFee(m);
    var from: nat :| DominatesFrom(step, start, fee, from);
    assert VisitedAfter(step, start, fee, from + 2);
    var k: nat :| k >= from + 2 && Orbit(step, start, k) == fee;
    assert FeeAt(m, k) == fee && FeeAt(m, k - 1) < m.total && FeeAt(m, k - 2) < m.total;
    assert Orbit(step, start, k + 1) == step(fee);
    before := Orbit(step, start, k - 1);
    ImpliedAtLeast(m, FeeAt(m, k - 2));
  }

  /** The settled fee covers the body it is charged on, and overpays it by at most
      the widest single coin step: eight bytes. */
  lemma SettledFeeCoversBody(m: Metering, fee: nat)
    requires Affordable(m) && IsSettledFee(m, fee)
    ensures fee < m.total
    ensures Implied(m, fee) <= fee <= Implied(m, fee) + Price(m.params.minFeeA, 8)
  {
    hide Price, LinearFee;
    var before := SettledNeighbours(m, fee);
    WidthMonotone(before, fee);
    var size := m.frame + CoinWidths(m, fee);
    assert m.frame + CoinWidths(m, before) <= size + 8;
    LinearFeeMonotone(m.params, m.frame + CoinWidths(m, before), size + 8);
    LinearFeeStep(m.params, size, 8);
  }

  const STEEP: u64 := 0x2000_0000

  const STEEPEST := Metering(ProtocolParams(STEEP, 0, 0, 16384), 300, STEEP * 318 + 1)

  lemma SteepestImplies()
    ensures Implied(STEEPEST, 0) == STEEP * 310
    ensures Implied(STEEPEST, STEEP * 310) == STEEP * 318
    ensures Implied(STEEPEST, STEEP * 318) == STEEP * 310
  {
  }

  /** The eight bytes are attained: this iteration alternates between two fees, settles at
      the larger, and so overpays the body that keeps one lovelace of change by all of them. */
  lemma OverpayIsTight()
    ensures Affordable(STEEPEST) && IsSettledFee(STEEPEST, STEEP * 318)
    ensures STEEP * 318 == Implied(STEEPEST, STEEP * 318) + Price(STEEPEST.params.minFeeA, 8)
  {
    hide Implied, Affordable, IsSettledFee, FeeAt;
    SteepestImplies();
    FeeAtNext(STEEPEST, 0);
    SteepestStart();
    FeeAtNext(STEEPEST, 1);
    FeeAtNext(STEEPEST, 2);
    CycleSettled(STEEPEST, 1, 3, 2);
  }

  lemma SteepestStart()
    ensures FeeAt(STEEPEST, 0) == 0
  {
    assert Price(STEEP, 0) == 0;
  }

  /** Some fee is exact exactly when the linear fee of some sum of two coin widths can be
      paid and leaves coins of that very sum. */
  lemma ExactFeeExistsIff(m: Metering)
    ensures (exists fee: nat :: fee < m.total && Implied(m, fee) == fee)
       <==> exists w :: w in WIDTH_SUMS && FeeFor(m, w) < m.total && CoinWidths(m, FeeFor(m, w)) == w
  {
    hide LinearFee, Width;
    if fee: nat :| fee < m.total && Implied(m, fee) == fee {
      CoinWidthsRange(m, fee);
      var w := CoinWidths(m, fee);
      assert FeeFor(m, w) == fee;
      assert w in WIDTH_SUMS && FeeFor(m, w) < m.total && CoinWidths(m, FeeFor(m, w)) == w;
    }
    if w :| w in WIDTH_SUMS && FeeFor(m, w) < m.total && CoinWidths(m, FeeFor(m, w)) == w {
      assert Implied(m, FeeFor(m, w)) == FeeFor(m, w);
    }
  }

  /** Charging a fixpoint is charging the exact linear fee, and only then. */
  lemma ExactIffFixpoint(m: Metering, fee: nat)
    requires Affordable(m) && IsSettledFee(m, fee)
    ensures fee < m.total
    ensures Implied(m, fee) == fee <==> forall g: nat | IsRecurrent(m, g) :: g == fee
  {
    var before := SettledNeighbours(m, fee);
    if Implied(m, fee) == fee {
      forall g: nat | IsRecurrent(m, g) ensures g == fee {
        assert VisitedAfter(Step(m), StartFee(m), fee, 0);
        var k: nat :| Orbit(Step(m), StartFee(m), k) == fee;
        StaysAt(m, fee, k, k);
        assert VisitedAfter(Step(m), StartFee(m), g, k);
        var j: nat :| j >= k && Orbit(Step(m), StartFee(m), j) == g;
        StaysAt(m, fee, k, j);
      }
    } else {
      var next := Implied(m, fee);
      forall from: nat ensures VisitedAfter(Step(m), StartFee(m), next, from) {
        assert VisitedAfter(Step(m), StartFee(m), fee, from);
        var k: nat :| k >= from && Orbit(Step(m), StartFee(m), k) == fee;
        assert Orbit(Step(m), StartFee(m), k + 1) == next;
      }
      assert IsRecurrent(m, next);
    }
  }

  ghost predicate IsRecurrent(m: Metering, fee: nat) {
    forall from: nat :: VisitedAfter(Step(m), StartFee(m), fee, from)
  }

  lemma {:induction false} StaysAt(m: Metering, fee: nat, k: nat, j: nat)
    requires fee < m.total && Implied(m, fee) == fee && FeeAt(m, k) == fee && j >= k
    ensures FeeAt(m, j) == fee
  {
    if j > k {
      StaysAt(m, fee, k, j - 1);
    }
  }

  /** The settled fee lies between the narrowest and the widest shapes' fees. */
  lemma SettledFeeRange(m: Metering, fee: nat)
    requires Affordable(m) && IsSettledFee(m, fee)
    ensures FeeFor(m, 2) <= fee <= FeeFor(m, Width(m.total) + 9) <= FeeFor(m, 18)
  {
    var before := SettledNeighbours(m, fee);
    CoinWidthsRange(m, before);
    FeeForMonotone(m, 2, CoinWidths(m, before));
    FeeForMonotone(m, CoinWidths(m, before), Width(m.total) + 9);
    FeeForMonotone(m, Width(m.total) + 9, 18);
  }

  lemma ImpliedAtLeast(m: Metering, fee: nat)
    requires fee < m.total
    ensures FeeFor(m, 2) <= Implied(m, fee)
  {
    CoinWidthsRange(m, fee);
    FeeForMonotone(m, 2, CoinWidths(m, fee));
  }

  /** Away from the coin-width boundaries the fee is exact: it is enough that the total
      pays the widest shape and that neither coin changes width between the narrowest
      and the widest shape's fee. */
  lemma ExactAwayFromBoundaries(m: Metering)
    requires FeeFor(m, 18) < m.total
    requires Width(FeeFor(m, 2)) == Width(FeeFor(m, 18))
    requires FeeFor(m, 2) < m.total && Width(m.total - FeeFor(m, 2)) == Width(m.total - FeeFor(m, 18))
    ensures Affordable(m) && SettledFee(m) < m.total
    ensures Implied(m, SettledFee(m)) == SettledFee(m)
  {
    hide FeeFor, Width, LinearFee;
    FeeForMonotone(m, 2, 18);
    if !Affordable(m) {
      UnaffordableTotal(m);
    }
    var fee := SettledFee(m);
    var before := SettledNeighbours(m, fee);
    SettledFeeRange(m, fee);
    SameWidths(m, before, fee);
  }

  lemma SameWidths(m: Metering, x: nat, y: nat)
    requires FeeFor(m, 2) <= x <= y <= FeeFor(m, 18) < m.total
    requires Width(FeeFor(m, 2)) == Width(FeeFor(m, 18))
    requires Width(m.total - FeeFor(m, 2)) == Width(m.total - FeeFor(m, 18))
    ensures CoinWidths(m, x) == CoinWidths(m, y)
  {
    hide FeeFor, Width;
    var low, high := FeeFor(m, 2), FeeFor(m, 18);
    WidthMonotone(low, x);
    WidthMonotone(x, y);
    WidthMonotone(y, high);
    WidthMonotone(m.total - high, m.total - y);
    WidthMonotone(m.total - y, m.total - x);
    WidthMonotone(m.total - x, m.total - low);
  }

  /** A selection that cannot pay holds at most the widest shape's fee. */
  lemma UnaffordableTotal(m: Metering)
    requires !Affordable(m)
    ensures m.total <= FeeFor(m, 18)
  {
    var k: nat :| FeeAt(m, k) >= m.total;
    FirstUnpaid(m, k);
  }

  lemma {:induction false} FirstUnpaid(m: Metering, k: nat)
    requires FeeAt(m, k) >= m.total
    ensures m.total <= FeeFor(m, 18)
  {
    if k == 0 {
      LinearFeeMonotone(m.params, 0, m.frame + 18);
    } else {
      var before := FeeAt(m, k - 1);
      if before >= m.total {
        FirstUnpaid(m, k - 1);
      } else {
        CoinWidthsRange(m, before);
        FeeForMonotone(m, CoinWidths(m, before), 18);
      }
    }
  }
}
