/** When an attempt is recorded, and what it is told when it is not. */
module Recording {
  import opened Ledger
  import opened Wrappers

  /** The two attempts spend a common input. */
  ghost predicate Conflict(a: seq<InputRef>, b: seq<InputRef>) {
    exists x :: x in a && x in b
  }

  lemma ConflictIff(a: seq<InputRef>, b: seq<InputRef>)
    ensures InputsIntersect(a, b) <==> Conflict(a, b)
  {
    if x :| x in a && x in b {
      var l, r :| 0 <= l < |a| && 0 <= r < |b| && a[l] == x && b[r] == x;
    }
    if l, r :| 0 <= l < |a| && 0 <= r < |b| && a[l] == b[r] {
      assert a[l] in a && a[l] in b;
    }
  }

  /** The row is the original the attempt replaces. */
  predicate IsOriginal(t: Table, a: NewAttempt, o: Id) {
    o in t && a.replacesTx == Some(t[o].base.txHash)
  }

  /** The original can step down for it: it still broadcasts, and they conflict. */
  ghost predicate StepsDown(t: Table, a: NewAttempt, o: Id) {
    && IsOriginal(t, a, o) && t[o].status in {Recorded, Broadcast, Stuck}
    && Conflict(a.spentInputs, t[o].base.spentInputs)
  }

  /** The attempt may go ahead: it replaces nothing, or its original can step down. */
  ghost predicate MayProceed(t: Table, a: NewAttempt) {
    a.replacesTx == None || exists o :: StepsDown(t, a, o)
  }

  /** Someone other than its original broadcasts for its record. */
  predicate RecordTaken(t: Table, a: NewAttempt) {
    && a.recordId.Some?
    && exists i | i in t && !IsOriginal(t, a, i) ::
         t[i].base.recordId == a.recordId && t[i].status in {Recorded, Broadcast, Stuck}
  }

  predicate TxKnown(t: Table, a: NewAttempt) {
    exists i :: i in t && t[i].base.txHash == a.txHash
  }

  /** A split has no record, and nothing else lacks one. */
  predicate Malformed(a: NewAttempt) {
    (a.kind == Split) != (a.recordId == None)
  }

  const FEE_LIMIT := 0x8000_0000_0000_0000

  /** What each answer means, for every table and attempt; only a recorded attempt leaves a
      trace. */
  ghost predicate Answers(t: Table, id: Id, a: NewAttempt, claimed: bool, u: Table, outcome: RecordOutcome) {
    && (outcome == DoesNotConflict <==>
          exists o :: IsOriginal(t, a, o) && !Conflict(a.spentInputs, t[o].base.spentInputs))
    && (outcome == Failed(FeeOverflow) <==> MayProceed(t, a) && a.fee >= FEE_LIMIT)
    && (outcome == Failed(ConstraintViolation) <==>
          && MayProceed(t, a) && a.fee < FEE_LIMIT
          && (Malformed(a) || id in t || (!RecordTaken(t, a) && TxKnown(t, a))))
    && (outcome == RecordedAs(id) <==>
          && MayProceed(t, a) && a.fee < FEE_LIMIT && !Malformed(a) && id !in t
          && !RecordTaken(t, a) && !TxKnown(t, a) && claimed)
    && (outcome.RecordedAs? || outcome.DoesNotConflict? || outcome.LostGeneration?
        || outcome == Failed(FeeOverflow) || outcome == Failed(ConstraintViolation))
    && (outcome.RecordedAs? ==> outcome.id == id)
    && (!outcome.RecordedAs? ==> u == t)
  }

  /** The insert after a handoff, or without one. */
  lemma InsertAnswers(t: Table, handed: Table, id: Id, a: NewAttempt)
    requires handed.Keys == t.Keys && forall i | i in t :: handed[i].base == t[i].base
    requires forall i | i in t :: Active(handed, i) <==> Active(t, i) && !IsOriginal(t, a, i)
    ensures Insert(handed, id, a) == Err(FeeOverflow) <==> a.fee >= FEE_LIMIT
    ensures Insert(handed, id, a) == Err(OneActiveViolation) <==>
      a.fee < FEE_LIMIT && !Malformed(a) && id !in t && RecordTaken(t, a)
    ensures Insert(handed, id, a).Ok? <==>
      a.fee < FEE_LIMIT && !Malformed(a) && id !in t && !RecordTaken(t, a) && !TxKnown(t, a)
  {
    assert HasActive(handed, a.recordId) <==> RecordTaken(t, a) by {
      if i :| i in handed && handed[i].base.recordId == a.recordId && Active(handed, i) {
        assert Active(t, i) && !IsOriginal(t, a, i);
      }
      if i :| i in t && !IsOriginal(t, a, i) && t[i].base.recordId == a.recordId && Active(t, i) {
        assert Active(handed, i);
      }
    }
    assert HasTx(handed, a.txHash) <==> TxKnown(t, a);
  }

  lemma RecordAnswers(t: Table, id: Id, a: NewAttempt, claimed: bool)
    requires TxHashesUnique(t)
    ensures Answers(t, id, a, claimed, RecordSpec(t, id, a, claimed).0, RecordSpec(t, id, a, claimed).1)
  {
    hide InputsIntersect, Insert, Conflict;
    if a.replacesTx.None? {
      InsertAnswers(t, t, id, a);
    } else {
      match LoadByTxHash(t, a.replacesTx.value)
      case None =>
      case Some(o) =>
        ConflictIff(a.spentInputs, t[o].base.spentInputs);
        assert IsOriginal(t, a, o);
        assert forall i | IsOriginal(t, a, i) :: i == o;
        if MarkSupersededRow(t[o], id).Some? {
          assert Conflict(a.spentInputs, t[o].base.spentInputs) ==> StepsDown(t, a, o);
          InsertAnswers(t, t[o := MarkSupersededRow(t[o], id).value], id, a);
        }
    }
  }
}
