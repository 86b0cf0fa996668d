/** What a row remembers: its fields, after any run, told by the steps of the run. */
module RowHistory {
  import opened Ledger
  import opened LedgerTheorems
  import opened Wrappers
  import Handoff

  // ----- Which steps take effect on a row

  /** The guard of a single-row update: the statuses it names, and the height it can store. */
  predicate Admits(a: Attempt, s: Transition)
    requires s.IsRowUpdate()
  {
    match s
    case MarkBroadcast(_, _) => a.status == Recorded
    case RefreshBroadcast(_, _) => a.status in {Recorded, Broadcast, Stuck}
    case MarkStuck(_) => a.status == Broadcast
    case MarkConfirmed(_, height, _, _) =>
      && height < 0x8000_0000_0000_0000
      && (a.status in {Broadcast, Stuck, Superseded} || (a.status == Confirmed && a.blockHeight != Some(height)))
    case MarkAbandoned(_) => a.status in {Recorded, Broadcast, Stuck, Superseded}
    case Repin(_, height, _, _) => height < 0x8000_0000_0000_0000 && a.status in {Broadcast, Stuck, Superseded}
    case RepinConfirmed(_, height, _) =>
      height < 0x8000_0000_0000_0000 && a.status == Confirmed && a.blockHeight != Some(height)
    case StampYield(_, _) => true
  }

  predicate Takes(t: Table, s: Transition, i: Id) {
    i in t && s.IsRowUpdate() && s.id == i && Admits(t[i], s)
  }

  /** The attempt is seen in a block. */
  predicate Sights(t: Table, s: Transition, i: Id) {
    Takes(t, s, i) && (s.MarkConfirmed? || s.Repin? || s.RepinConfirmed?)
  }

  /** The attempt's bytes go to the node, for the first time or again. */
  predicate Transmits(t: Table, s: Transition, i: Id) {
    Takes(t, s, i) && (s.MarkBroadcast? || s.RefreshBroadcast?)
  }

  predicate Yields(t: Table, s: Transition, i: Id) {
    Takes(t, s, i) && s.StampYield?
  }

  /** A confirmed row goes back on the wire. */
  predicate Reverses(t: Table, s: Transition, i: Id)
    requires TxHashesUnique(t)
  {
    i in t && i in Apply(t, s) && t[i].status.Confirmed? && !Apply(t, s)[i].status.Confirmed?
  }

  /** The attempt is confirmed, or confirmed again elsewhere. */
  predicate Confirms(t: Table, s: Transition, i: Id) {
    Takes(t, s, i) && s.MarkConfirmed?
  }

  /** A row is given up. */
  predicate Abandons(t: Table, s: Transition, i: Id)
    requires TxHashesUnique(t)
  {
    i in t && i in Apply(t, s) && !t[i].status.Abandoned? && Apply(t, s)[i].status.Abandoned?
  }

  function SightedHeight(s: Transition): nat
    requires s.MarkConfirmed? || s.Repin? || s.RepinConfirmed?
  {
    s.height
  }

  function SightedTime(s: Transition): Option<Time>
    requires s.MarkConfirmed? || s.Repin? || s.RepinConfirmed?
  {
    if s.MarkConfirmed? then Some(s.time) else s.blockTime
  }

  // ----- One step

  /** What the hint is reset by: a landing, a death, or a reversal. */
  predicate Resets(t: Table, s: Transition, i: Id)
    requires TxHashesUnique(t)
  {
    (Takes(t, s, i) && (s.MarkConfirmed? || s.MarkAbandoned?)) || Reverses(t, s, i)
  }

  /** What a step leaves of a row's memory, told by what it is to the row. */
  predicate RowRemembers(a: Attempt, b: Attempt, s: Transition, sighted: bool, dropped: bool, transmitted: bool,
      yielded: bool, reset: bool)
    requires sighted ==> s.MarkConfirmed? || s.Repin? || s.RepinConfirmed?
    requires (transmitted ==> s.MarkBroadcast? || s.RefreshBroadcast?) && (yielded ==> s.StampYield?)
  {
    && !(sighted && dropped)
    && (sighted ==> b.blockHeight == Some(SightedHeight(s)) && b.blockTime == SightedTime(s))
    && (dropped ==> b.blockHeight == None && b.blockTime == None)
    && (!sighted && !dropped ==> b.blockHeight == a.blockHeight && b.blockTime == a.blockTime)
    && (sighted && a.firstSeen.None? ==> !s.RepinConfirmed? && b.firstSeen == Some(s.now))
    && (!sighted || a.firstSeen.Some? ==> b.firstSeen == a.firstSeen)
    && b.mempoolEnteredAt == (if transmitted then Some(s.now) else a.mempoolEnteredAt)
    && b.yieldCount == a.yieldCount + (if yielded then 1 else 0)
    && !(yielded && reset)
    && b.nextAttemptAfter == (if yielded then Some(s.until) else if reset then None else a.nextAttemptAfter)
  }

  ghost predicate Remembers(t: Table, s: Transition, i: Id)
    requires TxHashesUnique(t) && i in t && i in Apply(t, s)
  {
    && RowRemembers(t[i], Apply(t, s)[i], s, Sights(t, s, i), Reverses(t, s, i) || Abandons(t, s, i),
                    Transmits(t, s, i), Yields(t, s, i), Resets(t, s, i))
    && (Apply(t, s)[i].status.Confirmed? <==> Confirms(t, s, i) || (t[i].status.Confirmed? && !Reverses(t, s, i)))
  }

  /** The status an update sets, if it sets one. */
  function StatusSet(s: Transition): Option<Status> {
    if s.MarkBroadcast? || s.RefreshBroadcast? then Some(Broadcast)
    else if s.MarkStuck? then Some(Stuck)
    else if s.MarkConfirmed? then Some(Confirmed)
    else if s.MarkAbandoned? then Some(Abandoned)
    else None
  }

  /** The guards admit what the updates accept, and nothing more; no update of a single row
      touches its link. */
  lemma AdmitsIff(a: Attempt, s: Transition)
    requires s.IsRowUpdate()
    ensures RowAfter(a, s).Some? <==> Admits(a, s)
    ensures Admits(a, s) ==>
      var b := RowAfter(a, s).value;
      && b.status == (if StatusSet(s).Some? then StatusSet(s).value else a.status) && b.supersededBy == a.supersededBy
  {
  }

  lemma RowUpdateRemembers(a: Attempt, s: Transition)
    requires RowOk(a) && s.IsRowUpdate() && RowAfter(a, s).Some?
    ensures var b := RowAfter(a, s).value;
      RowRemembers(a, b, s, s.MarkConfirmed? || s.Repin? || s.RepinConfirmed?, s.MarkAbandoned?,
                   s.MarkBroadcast? || s.RefreshBroadcast?, s.StampYield?, s.MarkConfirmed? || s.MarkAbandoned?)
    ensures var b := RowAfter(a, s).value;
      && (b.status.Confirmed? <==> a.status.Confirmed? || s.MarkConfirmed?)
      && (!a.status.Abandoned? && b.status.Abandoned? <==> s.MarkAbandoned?)
  {
  }

  lemma UpdateRemembers(t: Table, s: Transition, i: Id)
    requires Inv(t) && TxHashesUnique(t) && s.IsRowUpdate() && i in t
    ensures i in Apply(t, s) && Remembers(t, s, i)
  {
    hide LinksOk, OneActivePerRecord, TxHashesUnique, RowAfter, Admits, RowRemembers, RowOk;
    if s.id == i {
      AdmitsIff(t[i], s);
      if Admits(t[i], s) {
        RowUpdateRemembers(t[i], s);
      } else {
        NothingToRemember(t[i], t[i], s);
      }
    } else {
      NothingToRemember(t[i], t[i], s);
    }
  }

  /** A step that is nothing to the row leaves its memory alone. */
  lemma NothingToRemember(a: Attempt, b: Attempt, s: Transition)
    requires b == a.(status := b.status, supersededBy := b.supersededBy)
    ensures RowRemembers(a, b, s, false, false, false, false, false)
  {
  }

  lemma RecordRemembers(t: Table, id: Id, a: NewAttempt, claimed: bool, i: Id)
    requires Inv(t) && i in t
    ensures i in Apply(t, Record(id, a, claimed)) && Remembers(t, Record(id, a, claimed), i)
  {
    hide RowsOk, LinksOk, OneActivePerRecord, TxHashesUnique, InputsIntersect, HasActive, HasTx;
  }

  lemma RejectRemembers(t: Table, id: Id, originalTx: TxHash, i: Id)
    requires Inv(t) && i in t
    ensures i in Apply(t, RejectReplacement(id, originalTx)) && Remembers(t, RejectReplacement(id, originalTx), i)
  {
    hide RowsOk, LinksOk, OneActivePerRecord, TxHashesUnique;
  }

  lemma RevertRemembers(t: Table, id: Id, txHash: TxHash, height: nat, i: Id)
    requires Inv(t) && i in t
    ensures i in Apply(t, Revert(id, txHash, height)) && Remembers(t, Revert(id, txHash, height), i)
  {
    hide RowsOk, LinksOk, OneActivePerRecord, TxHashesUnique;
  }

  lemma StepRemembers(t: Table, s: Transition, i: Id)
    requires Inv(t) && i in t
    ensures TxHashesUnique(t) && i in Apply(t, s) && Remembers(t, s, i)
  {
    hide Inv, Apply, Remembers;
    InvHasUniqueTxs(t);
    match s
    case Record(id, a, claimed) => RecordRemembers(t, id, a, claimed, i);
    case RejectReplacement(id, originalTx) => RejectRemembers(t, id, originalTx, i);
    case Revert(id, txHash, height) => RevertRemembers(t, id, txHash, height, i);
    case _ => UpdateRemembers(t, s, i);
  }

  // ----- Over a run from the empty table

  /** The table before step `k`. */
  function Before(steps: seq<Transition>, k: nat): Table
    requires k <= |steps|
  {
    Run(map[], steps[..k])
  }

  lemma BeforeNext(steps: seq<Transition>, n: nat)
    requires n < |steps|
    ensures Inv(Before(steps, n)) && TxHashesUnique(Before(steps, n))
    ensures Before(steps, n + 1) == Apply(Before(steps, n), steps[n])
  {
    hide Inv, Apply, TxHashesUnique, Run;
    EveryRunKeepsInv([]);
    EveryRunKeepsInv(steps[..n]);
    InvHasUniqueTxs(Before(steps, n));
    assert Run(map[], []) == map[] by { EmptyRun(); }
    RunThen(map[], steps[..n], steps[n]);
    assert steps[..n + 1] == steps[..n] + [steps[n]];
  }

  lemma EmptyRun()
    ensures Run(map[], []) == map[]
  {
  }

  ghost predicate SightsAt(steps: seq<Transition>, k: nat, i: Id) {
    k < |steps| && Sights(Before(steps, k), steps[k], i)
  }

  ghost predicate ConfirmsAt(steps: seq<Transition>, k: nat, i: Id) {
    k < |steps| && Confirms(Before(steps, k), steps[k], i)
  }

  ghost predicate ReversesAt(steps: seq<Transition>, k: nat, i: Id) {
    k < |steps| && TxHashesUnique(Before(steps, k)) && Reverses(Before(steps, k), steps[k], i)
  }

  ghost predicate DropsAt(steps: seq<Transition>, k: nat, i: Id) {
    && k < |steps| && TxHashesUnique(Before(steps, k))
    && (Reverses(Before(steps, k), steps[k], i) || Abandons(Before(steps, k), steps[k], i))
  }

  ghost predicate TransmitsAt(steps: seq<Transition>, k: nat, i: Id) {
    k < |steps| && Transmits(Before(steps, k), steps[k], i)
  }

  ghost predicate YieldsAt(steps: seq<Transition>, k: nat, i: Id) {
    k < |steps| && Yields(Before(steps, k), steps[k], i)
  }

  ghost predicate ResetsAt(steps: seq<Transition>, k: nat, i: Id) {
    && k < |steps| && TxHashesUnique(Before(steps, k)) && Resets(Before(steps, k), steps[k], i)
  }

  /** Of the first `n` steps, step `k` is the last sighting, and nothing has undone it. */
  ghost predicate Standing(steps: seq<Transition>, n: nat, k: nat, i: Id) {
    k < n && SightsAt(steps, k, i) && forall j | k < j < n :: !SightsAt(steps, j, i) && !DropsAt(steps, j, i)
  }

  /** Step `k` is the first sighting. */
  ghost predicate FirstSighting(steps: seq<Transition>, n: nat, k: nat, i: Id) {
    k < n && SightsAt(steps, k, i) && forall j | 0 <= j < k :: !SightsAt(steps, j, i)
  }

  /** Step `k` confirms the attempt, and nothing has reversed it. */
  ghost predicate ConfirmedSince(steps: seq<Transition>, n: nat, k: nat, i: Id) {
    k < n && ConfirmsAt(steps, k, i) && forall j | k < j < n :: !ReversesAt(steps, j, i)
  }

  ghost predicate LastSend(steps: seq<Transition>, n: nat, k: nat, i: Id) {
    k < n && TransmitsAt(steps, k, i) && forall j | k < j < n :: !TransmitsAt(steps, j, i)
  }

  /** Step `k` is the last yield, and nothing has reset its hint. */
  ghost predicate Hinted(steps: seq<Transition>, n: nat, k: nat, i: Id) {
    k < n && YieldsAt(steps, k, i) && forall j | k < j < n :: !YieldsAt(steps, j, i) && !ResetsAt(steps, j, i)
  }

  ghost function YieldsUpTo(steps: seq<Transition>, n: nat, i: Id): nat {
    if n == 0 then 0 else YieldsUpTo(steps, n - 1, i) + if YieldsAt(steps, n - 1, i) then 1 else 0
  }

  /** The pin is the last sighting's, and there is none unless a sighting stands. */
  ghost predicate PinTold(steps: seq<Transition>, n: nat, i: Id, a: Attempt) {
    && (a.blockHeight.Some? <==> exists k: nat :: Standing(steps, n, k, i))
    && (a.blockHeight.None? ==> a.blockTime.None?)
    && forall k: nat | Standing(steps, n, k, i) ::
         a.blockHeight == Some(SightedHeight(steps[k])) && a.blockTime == SightedTime(steps[k])
  }

  ghost predicate ConfirmedTold(steps: seq<Transition>, n: nat, i: Id, a: Attempt) {
    a.status.Confirmed? <==> exists k: nat :: ConfirmedSince(steps, n, k, i)
  }

  ghost predicate FirstSeenTold(steps: seq<Transition>, n: nat, i: Id, a: Attempt) {
    && (a.firstSeen.Some? <==> exists k: nat :: FirstSighting(steps, n, k, i))
    && forall k: nat | FirstSighting(steps, n, k, i) ::
         !steps[k].RepinConfirmed? && a.firstSeen == Some(steps[k].now)
  }

  ghost predicate SendTold(steps: seq<Transition>, n: nat, i: Id, a: Attempt) {
    && (a.mempoolEnteredAt.Some? <==> exists k: nat :: LastSend(steps, n, k, i))
    && forall k: nat | LastSend(steps, n, k, i) :: a.mempoolEnteredAt == Some(steps[k].now)
  }

  ghost predicate HintTold(steps: seq<Transition>, n: nat, i: Id, a: Attempt) {
    && (a.nextAttemptAfter.Some? <==> exists k: nat :: Hinted(steps, n, k, i))
    && (forall k: nat | Hinted(steps, n, k, i) :: a.nextAttemptAfter == Some(steps[k].until))
    && a.yieldCount == YieldsUpTo(steps, n, i)
  }

  // ----- One step further

  lemma PinToldOn(steps: seq<Transition>, n: nat, i: Id, a: Attempt, b: Attempt)
    requires n < |steps| && PinTold(steps, n, i, a)
    requires !(SightsAt(steps, n, i) && DropsAt(steps, n, i))
    requires SightsAt(steps, n, i) ==>
      b.blockHeight == Some(SightedHeight(steps[n])) && b.blockTime == SightedTime(steps[n])
    requires DropsAt(steps, n, i) ==> b.blockHeight == None && b.blockTime == None
    requires !SightsAt(steps, n, i) && !DropsAt(steps, n, i) ==>
      b.blockHeight == a.blockHeight && b.blockTime == a.blockTime
    ensures PinTold(steps, n + 1, i, b)
  {
    hide SightsAt, DropsAt;
    if SightsAt(steps, n, i) {
      assert Standing(steps, n + 1, n, i);
    } else if !DropsAt(steps, n, i) {
      var m := n + 1;
      forall k: nat ensures Standing(steps, m, k, i) <==> Standing(steps, n, k, i) {
      }
    }
  }

  lemma ConfirmedToldOn(steps: seq<Transition>, n: nat, i: Id, a: Attempt, b: Attempt)
    requires n < |steps| && ConfirmedTold(steps, n, i, a) && !(ConfirmsAt(steps, n, i) && ReversesAt(steps, n, i))
    requires b.status.Confirmed? <==>
      ConfirmsAt(steps, n, i) || (a.status.Confirmed? && !ReversesAt(steps, n, i))
    ensures ConfirmedTold(steps, n + 1, i, b)
  {
    hide ConfirmsAt, ReversesAt;
    if ConfirmsAt(steps, n, i) {
      assert ConfirmedSince(steps, n + 1, n, i);
    } else if !ReversesAt(steps, n, i) {
      var m := n + 1;
      forall k: nat ensures ConfirmedSince(steps, m, k, i) <==> ConfirmedSince(steps, n, k, i) {
      }
    }
  }

  lemma FirstSeenToldOn(steps: seq<Transition>, n: nat, i: Id, a: Attempt, b: Attempt)
    requires n < |steps| && FirstSeenTold(steps, n, i, a)
    requires SightsAt(steps, n, i) && a.firstSeen.None? ==>
      !steps[n].RepinConfirmed? && b.firstSeen == Some(steps[n].now)
    requires !SightsAt(steps, n, i) || a.firstSeen.Some? ==> b.firstSeen == a.firstSeen
    ensures FirstSeenTold(steps, n + 1, i, b)
  {
    hide SightsAt;
    if a.firstSeen.Some? {
      var k: nat :| FirstSighting(steps, n, k, i);
      assert FirstSighting(steps, n + 1, k, i);
      var m := n + 1;
      forall k: nat ensures FirstSighting(steps, m, k, i) <==> FirstSighting(steps, n, k, i) {
      }
    } else {
      NoneSighted(steps, n, i);
      if SightsAt(steps, n, i) {
        assert FirstSighting(steps, n + 1, n, i);
      }
    }
  }

  /** With no first sighting there is none. */
  lemma {:induction false} NoneSighted(steps: seq<Transition>, n: nat, i: Id)
    requires forall k: nat :: !FirstSighting(steps, n, k, i)
    ensures forall k: nat | k < n :: !SightsAt(steps, k, i)
  {
    hide SightsAt;
    if n > 0 {
      var m := n - 1;
      forall k: nat ensures !FirstSighting(steps, m, k, i) {
        assert !FirstSighting(steps, n, k, i);
      }
      NoneSighted(steps, m, i);
      assert !FirstSighting(steps, n, n - 1, i);
    }
  }

  lemma SendToldOn(steps: seq<Transition>, n: nat, i: Id, a: Attempt, b: Attempt)
    requires n < |steps| && SendTold(steps, n, i, a)
    requires b.mempoolEnteredAt == if TransmitsAt(steps, n, i) then Some(steps[n].now) else a.mempoolEnteredAt
    ensures SendTold(steps, n + 1, i, b)
  {
    hide TransmitsAt;
    if TransmitsAt(steps, n, i) {
      assert LastSend(steps, n + 1, n, i);
    } else {
      var m := n + 1;
      forall k: nat ensures LastSend(steps, m, k, i) <==> LastSend(steps, n, k, i) {
      }
    }
  }

  lemma HintToldOn(steps: seq<Transition>, n: nat, i: Id, a: Attempt, b: Attempt)
    requires n < |steps| && HintTold(steps, n, i, a) && !(YieldsAt(steps, n, i) && ResetsAt(steps, n, i))
    requires b.nextAttemptAfter == if YieldsAt(steps, n, i) then Some(steps[n].until)
                                   else if ResetsAt(steps, n, i) then None else a.nextAttemptAfter
    requires b.yieldCount == a.yieldCount + if YieldsAt(steps, n, i) then 1 else 0
    ensures HintTold(steps, n + 1, i, b)
  {
    hide YieldsAt, ResetsAt;
    if YieldsAt(steps, n, i) {
      assert Hinted(steps, n + 1, n, i);
    } else if !ResetsAt(steps, n, i) {
      var m := n + 1;
      forall k: nat ensures Hinted(steps, m, k, i) <==> Hinted(steps, n, k, i) {
      }
    }
  }

  ghost predicate AllTold(steps: seq<Transition>, n: nat, i: Id, a: Attempt) {
    && PinTold(steps, n, i, a) && ConfirmedTold(steps, n, i, a) && FirstSeenTold(steps, n, i, a)
    && SendTold(steps, n, i, a) && HintTold(steps, n, i, a)
  }

  lemma ToldOn(steps: seq<Transition>, n: nat, i: Id)
    requires n < |steps| && i in Before(steps, n) && AllTold(steps, n, i, Before(steps, n)[i])
    ensures i in Before(steps, n + 1) && AllTold(steps, n + 1, i, Before(steps, n + 1)[i])
  {
    hide PinTold, ConfirmedTold, FirstSeenTold, SendTold, HintTold, Before, Sights, Confirms, Transmits, Yields, Resets,
      Reverses, Abandons, Inv, TxHashesUnique, Apply;
    BeforeNext(steps, n);
    StepRemembers(Before(steps, n), steps[n], i);
    var a, b := Before(steps, n)[i], Before(steps, n + 1)[i];
    SightKinds(Before(steps, n), steps[n], i);
    PinToldOn(steps, n, i, a, b);
    ConfirmedToldOn(steps, n, i, a, b);
    FirstSeenToldOn(steps, n, i, a, b);
    SendToldOn(steps, n, i, a, b);
    HintToldOn(steps, n, i, a, b);
  }

  lemma SightKinds(t: Table, s: Transition, i: Id)
    ensures Sights(t, s, i) ==> s.MarkConfirmed? || s.Repin? || s.RepinConfirmed?
    ensures Confirms(t, s, i) ==> Sights(t, s, i)
    ensures Transmits(t, s, i) ==> s.MarkBroadcast? || s.RefreshBroadcast?
    ensures Yields(t, s, i) ==> s.StampYield?
  {
  }

  // ----- From the first step

  lemma NewRowIsBlank(t: Table, s: Transition, i: Id)
    requires TxHashesUnique(t) && i !in t && i in Apply(t, s)
    ensures s.Record? && Apply(t, s)[i].base == s.attempt
    ensures var b := Apply(t, s)[i];
      && b.status == Recorded && b.supersededBy == None && b.mempoolEnteredAt == None && b.firstSeen == None
      && b.blockHeight == None && b.blockTime == None && b.nextAttemptAfter == None && b.yieldCount == 0
  {
    hide TxHashesUnique, OneActivePerRecord, InputsIntersect, HasActive, HasTx, RowAfter, RejectRow, UnsupersedeRow,
      RevertRow;
  }

  /** None of the first `n` steps is anything to the row. */
  ghost predicate Untouched(steps: seq<Transition>, n: nat, i: Id) {
    forall k: nat | k < n ::
      && !SightsAt(steps, k, i) && !ConfirmsAt(steps, k, i) && !TransmitsAt(steps, k, i) && !YieldsAt(steps, k, i)
  }

  lemma AbsentUntouched(steps: seq<Transition>, n: nat, i: Id)
    requires n < |steps| && i !in Before(steps, n) && Untouched(steps, n, i)
    ensures Untouched(steps, n + 1, i)
  {
    hide Before;
  }

  lemma BlankTold(steps: seq<Transition>, n: nat, i: Id, b: Attempt)
    requires Untouched(steps, n, i) && b.status == Recorded && b.mempoolEnteredAt == None && b.firstSeen == None
    requires b.blockHeight == None && b.blockTime == None && b.nextAttemptAfter == None && b.yieldCount == 0
    ensures AllTold(steps, n, i, b)
  {
    hide SightsAt, ConfirmsAt, TransmitsAt, YieldsAt, DropsAt, ReversesAt, ResetsAt;
    NoYields(steps, n, i);
  }

  lemma {:induction false} NoYields(steps: seq<Transition>, n: nat, i: Id)
    requires Untouched(steps, n, i)
    ensures YieldsUpTo(steps, n, i) == 0
  {
    hide SightsAt, ConfirmsAt, TransmitsAt, YieldsAt;
    if n > 0 {
      NoYields(steps, n - 1, i);
    }
  }

  lemma {:induction false} RowsTold(steps: seq<Transition>, n: nat, i: Id)
    requires n <= |steps|
    ensures i in Before(steps, n) ==> AllTold(steps, n, i, Before(steps, n)[i])
    ensures i !in Before(steps, n) ==> Untouched(steps, n, i)
  {
    hide AllTold, Untouched, Before, Apply, Inv, TxHashesUnique;
    if n == 0 {
      assert Before(steps, 0) == map[] && Untouched(steps, 0, i) by { NothingBefore(steps, i); }
    } else {
      RowsTold(steps, n - 1, i);
      BeforeNext(steps, n - 1);
      var t := Before(steps, n - 1);
      if i in t {
        ToldOn(steps, n - 1, i);
      } else {
        AbsentUntouched(steps, n - 1, i);
        if i in Before(steps, n) {
          NewRowIsBlank(t, steps[n - 1], i);
          BlankTold(steps, n, i, Before(steps, n)[i]);
        }
      }
    }
  }

  lemma NothingBefore(steps: seq<Transition>, i: Id)
    ensures Before(steps, 0) == map[] && Untouched(steps, 0, i)
  {
  }

  /** After any run, a row's pin is the height and time of its last sighting, absent unless
      one stands since the last reversal or abandonment; it is confirmed exactly when a
      confirmation has not been reversed since; its first sighting and its mempool entry are
      stamped by its first sighting and its last send; and its hint and its yields are those
      of the yields in effect on it. */
  lemma RowHistoryTold(steps: seq<Transition>, i: Id)
    requires i in Run(map[], steps)
    ensures AllTold(steps, |steps|, i, Run(map[], steps)[i])
  {
    hide AllTold;
    RowsTold(steps, |steps|, i);
    assert steps[..|steps|] == steps;
  }

  // ----- What the passes select

  /** Seen in a block, and nothing undid it. */
  ghost predicate SeenInBlock(steps: seq<Transition>, i: Id) {
    exists k: nat :: Standing(steps, |steps|, k, i)
  }

  ghost predicate HeldBack(steps: seq<Transition>, i: Id, now: Time) {
    exists k: nat :: Hinted(steps, |steps|, k, i) && steps[k].until > now
  }

  ghost predicate LastSentBefore(steps: seq<Transition>, i: Id, moment: Time) {
    exists k: nat :: LastSend(steps, |steps|, k, i) && steps[k].now < moment
  }

  /** Which attempts the two confirm passes and the alert pass select, before their limits:
      told by what happened to the attempt, not by its row. */
  lemma PassesTold(steps: seq<Transition>, i: Id, now: Time, alertAfter: nat)
    requires i in Run(map[], steps)
    ensures var a := Run(map[], steps)[i];
      var waiting := a.status in {Broadcast, Stuck, Superseded};
      && (Handoff.OnChainSelected(a, now) <==>
            (waiting || a.status.Confirmed?) && SeenInBlock(steps, i) && !HeldBack(steps, i, now))
      && (Handoff.ReconcileSelected(a, now) <==> waiting && !SeenInBlock(steps, i) && !HeldBack(steps, i, now))
      && (Handoff.AlertSelected(a, now, alertAfter) <==>
            waiting && !SeenInBlock(steps, i) && LastSentBefore(steps, i, now - alertAfter))
  {
    hide Run, Standing, Hinted, LastSend, ConfirmedTold, FirstSeenTold;
    RowHistoryTold(steps, i);
  }
}
