/** The replacement handoff and what undoes it; a reversal that breaks the stronger
    invariant; what the loaders see over every run. */
module Handoff {
  import opened Ledger
  import opened LedgerTheorems
  import opened Wrappers

  /** The record's one active broadcaster is this row. */
  predicate SoleBroadcaster(t: Table, record: Option<Id>, id: Id) {
    id in t && forall i | i in t :: t[i].base.recordId == record && Active(t, i) <==> i == id
  }

  /** A handoff within a record never meets the one-active index, and moves the role
      from the original to the replacement. */
  lemma HandoffMovesRole(t: Table, id: Id, a: NewAttempt, original: Id)
    requires Inv(t) && a.recordId.Some? && a.replacesTx.Some? && LoadByTxHash(t, a.replacesTx.value) == Some(original)
    requires t[original].base.recordId == a.recordId && SupersedeSpec(t, id, a).Ok?
    ensures SoleBroadcaster(t, a.recordId, original)
    ensures Insert(SupersedeSpec(t, id, a).value, id, a) != Err(OneActiveViolation)
    ensures RecordSpec(t, id, a, true).1 == RecordedAs(id) ==>
      SoleBroadcaster(RecordSpec(t, id, a, true).0, a.recordId, id)
  {
    hide LinksOk, RowsOk, TxHashesUnique, InputsIntersect, HasTx;
    var handed := SupersedeSpec(t, id, a).value;
    assert Active(t, original);
    forall i | i in t && t[i].base.recordId == a.recordId && Active(t, i) ensures i == original {
    }
    assert handed == t[original := MarkSupersededRow(t[original], id).value];
    forall i | i in handed && handed[i].base.recordId == a.recordId ensures !Active(handed, i) {
      if i != original {
        assert Active(handed, i) == Active(t, i);
      }
    }
    assert !HasActive(handed, a.recordId);
    if RecordSpec(t, id, a, true).1 == RecordedAs(id) {
      var u := RecordSpec(t, id, a, true).0;
      assert u == handed[id := NewRow(a, |handed|)];
      forall i | i in u ensures u[i].base.recordId == a.recordId && Active(u, i) <==> i == id {
        if i != id {
          assert Active(u, i) == Active(handed, i);
        }
      }
    }
  }

  /** A rejected replacement gives the role back exactly when the original still waits
      on it and nobody else on the record took the role meanwhile. */
  lemma RejectRestoresIff(t: Table, replacement: Id, original: Id)
    requires Inv(t) && replacement in t && original in t
    requires !t[replacement].status.IsTerminal()
    ensures RejectSpec(t, replacement, t[original].base.txHash).1 <==>
      && t[original].status.Superseded? && t[original].supersededBy == Some(replacement)
      && (forall i | i in t && i != replacement && t[original].base.recordId.Some? ::
            t[i].base.recordId == t[original].base.recordId ==> !Active(t, i))
  {
    hide RowsOk, RowOk;
    var o := t[original];
    assert LoadByTxHash(t, o.base.txHash) == Some(original);
    var abandoned := t[replacement := RejectRow(t[replacement]).value];
    if o.status.Superseded? && o.supersededBy == Some(replacement) {
      assert LinkOk(o, t[replacement]);
      assert original != replacement;
      var restored := abandoned[original := UnsupersedeRow(o, replacement).value];
      assert !Active(restored, replacement) && Active(restored, original);
      assert forall i | i in t && i != replacement && i != original :: restored[i] == t[i];
      RestoredTableIff(t, restored, replacement, original);
    } else {
      RejectedIsNotSuperseded(t[replacement], replacement);
    }
  }

  lemma RestoredTableIff(t: Table, restored: Table, replacement: Id, original: Id)
    requires OneActivePerRecord(t) && t.Keys == restored.Keys && replacement in t && original in t
    requires forall i | i in t && i != replacement && i != original :: restored[i] == t[i]
    requires !Active(restored, replacement) && Active(restored, original) && !Active(t, original)
    requires restored[original].base == t[original].base
    ensures OneActivePerRecord(restored) <==>
      forall i | i in t && i != replacement && t[original].base.recordId.Some? ::
        t[i].base.recordId == t[original].base.recordId ==> !Active(t, i)
  {
    var record := t[original].base.recordId;
    if i :| i in t && i != replacement && record.Some? && t[i].base.recordId == record && Active(t, i) {
      assert Active(restored, i) && Active(restored, original) && i != original;
    } else {
      forall i, j | i in restored && j in restored && Active(restored, i) && Active(restored, j)
        ensures restored[i].base.recordId.Some? && restored[i].base.recordId == restored[j].base.recordId ==> i == j
      {
        assert i != replacement && j != replacement;
        if i != original && j != original {
          assert Active(t, i) && Active(t, j);
        }
      }
    }
  }

  /** So a replacement rejected while it is the active broadcaster always restores the
      original it superseded. */
  lemma ActiveReplacementRestores(t: Table, replacement: Id, original: Id)
    requires Inv(t) && LinksWithinRecord(t) && replacement in t && original in t && Active(t, replacement)
    requires t[original].status.Superseded? && t[original].supersededBy == Some(replacement)
    ensures RejectSpec(t, replacement, t[original].base.txHash).1
  {
    hide LinksOk, RowsOk, RejectSpec;
    RejectRestoresIff(t, replacement, original);
    assert t[replacement].base.recordId == t[original].base.recordId;
  }

  /** What a restored original looks like: nothing supersedes it, and it is on the wire
      if it was ever sent. */
  function Restored(a: Attempt): Attempt {
    a.(status := if a.mempoolEnteredAt.None? then Recorded else Broadcast, supersededBy := None)
  }

  /** Rejecting a replacement right after the handoff undoes the handoff: the original
      is the active broadcaster again, and only the dead replacement is left behind. An
      original no reversal put back on the wire is as it was, but no longer stuck. */
  lemma RejectUndoesHandoff(t: Table, id: Id, a: NewAttempt, original: Id)
    requires Inv(t) && a.replacesTx.Some? && LoadByTxHash(t, a.replacesTx.value) == Some(original)
    requires RecordSpec(t, id, a, true).1 == RecordedAs(id)
    ensures RejectSpec(RecordSpec(t, id, a, true).0, id, a.replacesTx.value)
         == (t[original := Restored(t[original])][id := NewRow(a, |t|).(status := Abandoned)], true)
    ensures RowOnWire(t[original]) ==>
      var a := t[original];
      Restored(a) == a.(status := if a.status.Stuck? then Broadcast else a.status)
  {
    hide LinksOk, OneActivePerRecord, InputsIntersect, HasTx, HasActive, TxHashesUnique, RecordSpec, RowOk;
    var u := RecordSpec(t, id, a, true).0;
    RecordKeepsInv(t, id, a, true);
    HandoffTable(t, id, a, original);
    assert LoadByTxHash(u, a.replacesTx.value) == Some(original) by {
      LoadAfterHandoff(u, original, a.replacesTx.value);
    }
    RestoredOriginal(t[original], id);
    var restored := u[id := RejectRow(u[id]).value][original := Restored(t[original])];
    assert restored == t[original := Restored(t[original])][id := NewRow(a, |t|).(status := Abandoned)];
    RestoredHasOneActive(t, restored, original, id);
  }

  lemma HandoffTable(t: Table, id: Id, a: NewAttempt, original: Id)
    requires Inv(t) && a.replacesTx.Some? && LoadByTxHash(t, a.replacesTx.value) == Some(original)
    requires RecordSpec(t, id, a, true).1 == RecordedAs(id)
    ensures id !in t && t[original].status.IsActiveBroadcaster()
    ensures RecordSpec(t, id, a, true).0
         == t[original := MarkSupersededRow(t[original], id).value][id := NewRow(a, |t|)]
  {
    hide LinksOk, OneActivePerRecord, InputsIntersect, HasTx, HasActive, TxHashesUnique, RowsOk;
    SameRowsSameCount(t, t[original := MarkSupersededRow(t[original], id).value]);
  }

  lemma LoadAfterHandoff(u: Table, original: Id, txHash: TxHash)
    requires TxHashesUnique(u) && original in u && u[original].base.txHash == txHash
    ensures LoadByTxHash(u, txHash) == Some(original)
  {
  }

  lemma RestoredOriginal(a: Attempt, heir: Id)
    requires RowOk(a) && a.status.IsActiveBroadcaster()
    ensures UnsupersedeRow(MarkSupersededRow(a, heir).value, heir) == Some(Restored(a))
    ensures RowOnWire(a) ==> Restored(a) == a.(status := if a.status.Stuck? then Broadcast else a.status)
  {
  }

  lemma RestoredHasOneActive(t: Table, restored: Table, original: Id, id: Id)
    requires OneActivePerRecord(t) && original in t && Active(t, original) && id !in t && restored.Keys == t.Keys + {id}
    requires restored[original].base == t[original].base && !Active(restored, id)
    requires forall i | i in t && i != original :: restored[i] == t[i]
    ensures OneActivePerRecord(restored)
  {
    forall i, j | i in restored && j in restored && Active(restored, i) && Active(restored, j)
      ensures restored[i].base.recordId.Some? && restored[i].base.recordId == restored[j].base.recordId ==> i == j
    {
      assert Active(t, i) && Active(t, j);
    }
  }

  // ----- A reversal that is not clean

  const PUBLISH := NewAttempt(Publish, Some(7), 1, 100, 0, [InputRef(5, 0)], None)
  const REPLACE := NewAttempt(Replacement, Some(7), 1, 101, 0, [InputRef(5, 0)], Some(100))

  const RECORDED: Table := map[0 := NewRow(PUBLISH, 0)]
  const HANDED: Table := map[0 := RECORDED[0].(status := Superseded, supersededBy := Some(1)), 1 := NewRow(REPLACE, 1)]
  const LANDED: Table :=
    HANDED[0 := HANDED[0].(status := Confirmed, blockHeight := Some(9), blockTime := Some(0), firstSeen := Some(0))]
  const SETTLED: Table := LANDED[1 := LANDED[1].(status := Abandoned)]

  const REVERTED: Table :=
    SETTLED[0 := SETTLED[0].(status := Broadcast, blockHeight := None, blockTime := None)]

  /** A run after which an attempt on the wire has no mempool entry and is superseded: an
      original never marked broadcast is superseded, lands anyway, its replacement dies,
      and a reorg takes the original off the chain. */
  lemma RevertCanBreakWireInv()
    ensures var run := [Record(0, PUBLISH, true), Record(1, REPLACE, true), MarkConfirmed(0, 9, 0, 0), MarkAbandoned(1),
                        Revert(0, 100, 9)];
      && Run(map[], run[..4]) == SETTLED && WireInv(SETTLED)
      && Run(map[], run) == REVERTED && Inv(REVERTED) && !WireInv(REVERTED)
  {
    hide Apply, TxHashesUnique, Inv, RevertSpec;
    var run := [Record(0, PUBLISH, true), Record(1, REPLACE, true), MarkConfirmed(0, 9, 0, 0), MarkAbandoned(1),
                Revert(0, 100, 9)];
    EmptyRecorded();
    RecordedHanded();
    HandedSettled();
    SettledReverted();
    RunOfFour(run[..4]);
    RunOfFive(run);
    EveryRunKeepsInv(run[..4]);
    EveryRunKeepsInv(run);
    assert !RowOnWire(REVERTED[0]);
    assert RowOnWire(SETTLED[0]) && RowOnWire(SETTLED[1]);
  }

  lemma RunOfFour(run: seq<Transition>)
    requires run == [Record(0, PUBLISH, true), Record(1, REPLACE, true), MarkConfirmed(0, 9, 0, 0), MarkAbandoned(1)]
    ensures Run(map[], run) == SETTLED
  {
    hide Apply, TxHashesUnique;
    EmptyRecorded();
    RecordedHanded();
    HandedSettled();
    assert run[2..][1..] == run[3..] && run[1..][1..] == run[2..];
    assert Run(SETTLED, run[3..][1..]) == SETTLED;
    assert Run(LANDED, run[3..]) == SETTLED;
    assert Run(HANDED, run[2..]) == SETTLED;
    assert Run(RECORDED, run[1..]) == SETTLED;
  }

  lemma EmptyInv()
    ensures Inv(map[])
  {
    RunKeepsInv(map[], []);
  }

  lemma RunOfFive(run: seq<Transition>)
    requires |run| == 5 && run[4] == Revert(0, 100, 9)
    requires run[..4]
          == [Record(0, PUBLISH, true), Record(1, REPLACE, true), MarkConfirmed(0, 9, 0, 0), MarkAbandoned(1)]
    ensures Run(map[], run) == REVERTED
  {
    hide Apply, TxHashesUnique, Inv, Run;
    EmptyInv();
    SettledReverted();
    RunOfFour(run[..4]);
    RunThen(map[], run[..4], run[4]);
    assert run == run[..4] + [run[4]];
  }

  lemma SettledReverted()
    ensures TxHashesUnique(SETTLED) && TxHashesUnique(REVERTED) && Apply(SETTLED, Revert(0, 100, 9)) == REVERTED
  {
  }

  lemma EmptyRecorded()
    ensures TxHashesUnique(map[]) && TxHashesUnique(RECORDED)
    ensures Apply(map[], Record(0, PUBLISH, true)) == RECORDED
  {
  }

  lemma RecordedHanded()
    ensures TxHashesUnique(RECORDED) && TxHashesUnique(HANDED)
    ensures Apply(RECORDED, Record(1, REPLACE, true)) == HANDED
  {
    assert LoadByTxHash(RECORDED, 100) == Some(0);
    assert REPLACE.spentInputs[0] == RECORDED[0].base.spentInputs[0];
    var handed := RECORDED[0 := MarkSupersededRow(RECORDED[0], 1).value];
    assert |handed| == 1;
    assert !HasActive(handed, Some(7)) && !HasTx(handed, 101);
    assert handed[1 := NewRow(REPLACE, 1)] == HANDED;
  }

  lemma HandedSettled()
    ensures TxHashesUnique(HANDED) && Apply(HANDED, MarkConfirmed(0, 9, 0, 0)) == LANDED
    ensures TxHashesUnique(LANDED) && Apply(LANDED, MarkAbandoned(1)) == SETTLED
  {
  }

  // ----- The loaders

  predicate Deferred(a: Attempt, now: Time) {
    a.nextAttemptAfter.Some? && a.nextAttemptAfter.value > now
  }

  /** Selected by the pass over attempts on the chain. */
  predicate OnChainSelected(a: Attempt, now: Time) {
    && (a.status.Broadcast? || a.status.Stuck? || a.status.Superseded? || a.status.Confirmed?)
    && a.blockHeight.Some? && !Deferred(a, now)
  }

  /** Selected by the pass over attempts still waiting. */
  predicate ReconcileSelected(a: Attempt, now: Time) {
    && (a.status.Broadcast? || a.status.Stuck? || a.status.Superseded?)
    && a.blockHeight.None? && !Deferred(a, now)
  }

  /** Selected for a stuck alert. */
  predicate AlertSelected(a: Attempt, now: Time, alertAfter: nat) {
    && (a.status.Broadcast? || a.status.Stuck? || a.status.Superseded?)
    && a.blockHeight.None?
    && a.mempoolEnteredAt.Some? && a.mempoolEnteredAt.value < now - alertAfter
  }

  /** A row with a mempool entry is in exactly one of the two passes, unless it is dead
      or deferred. */
  lemma SentRowSelected(a: Attempt, now: Time)
    requires RowOk(a) && a.mempoolEnteredAt.Some?
    ensures !(OnChainSelected(a, now) && ReconcileSelected(a, now))
    ensures OnChainSelected(a, now) || ReconcileSelected(a, now) <==> !a.status.Abandoned? && !Deferred(a, now)
  {
  }

  /** The transition sends the attempt's bytes to the node, for the first time or again. */
  predicate Sends(s: Transition) {
    s.MarkBroadcast? || s.RefreshBroadcast?
  }

  /** No later send of the attempt is stamped earlier. */
  predicate SendsNotBefore(steps: seq<Transition>, id: Id, sent: Time) {
    forall s | s in steps && Sends(s) && s.id == id :: s.now >= sent
  }

  ghost predicate EnteredSince(t: Table, id: Id, sent: Time) {
    id in t && t[id].mempoolEnteredAt.Some? && t[id].mempoolEnteredAt.value >= sent
  }

  lemma StepKeepsEntry(t: Table, s: Transition, id: Id, sent: Time)
    requires Inv(t) && EnteredSince(t, id, sent) && (Sends(s) && s.id == id ==> s.now >= sent)
    ensures EnteredSince(Apply(t, s), id, sent)
  {
    hide RowOk, LinksOk, OneActivePerRecord, TxHashesUnique, InputsIntersect, HasActive, HasTx;
  }

  lemma {:induction false} RunKeepsEntry(t: Table, steps: seq<Transition>, id: Id, sent: Time)
    requires Inv(t) && EnteredSince(t, id, sent) && SendsNotBefore(steps, id, sent)
    ensures EnteredSince(Run(t, steps), id, sent)
    decreases |steps|
  {
    hide Inv, Apply, EnteredSince;
    if steps != [] {
      InvHasUniqueTxs(t);
      assert steps[0] in steps;
      StepKeepsEntry(t, steps[0], id, sent);
      StepKeepsInv(t, steps[0]);
      RunKeepsEntry(Apply(t, steps[0]), steps[1..], id, sent);
    }
  }

  /** Once sent, an attempt is never lost from sight: after any further run it is in
      exactly one of the two passes, before their limits, unless it is dead or deferred,
      and no alert is raised for it before the threshold has passed since that send. */
  lemma EverySentAttemptWatched(t: Table, s: Transition, after: seq<Transition>, now: Time, alertAfter: nat)
    requires Inv(t) && Sends(s) && s.id in t && RowAfter(t[s.id], s).Some? && SendsNotBefore(after, s.id, s.now)
    ensures var u := Run(Apply(t, s), after);
      && s.id in u
      && !(OnChainSelected(u[s.id], now) && ReconcileSelected(u[s.id], now))
      && (OnChainSelected(u[s.id], now) || ReconcileSelected(u[s.id], now) <==>
            !u[s.id].status.Abandoned? && !Deferred(u[s.id], now))
      && (AlertSelected(u[s.id], now, alertAfter) ==> now > s.now + alertAfter)
  {
    hide OnChainSelected, ReconcileSelected, Deferred, RowOk, LinksOk, OneActivePerRecord, TxHashesUnique;
    var sent := Apply(t, s);
    StepKeepsInv(t, s);
    RunKeepsEntry(sent, after, s.id, s.now);
    RunKeepsInv(sent, after);
    SentRowSelected(Run(sent, after)[s.id], now);
  }
}
