/** The superseded-by links of the ledger: no cycles, and no way out of the record. */
module LedgerLinks {
  import opened Ledger
  import opened LedgerTheorems
  import opened Wrappers

  /** Each row of the path points at the next. */
  predicate LinkPath(t: Table, path: seq<Id>) {
    && (forall k | 0 <= k < |path| :: path[k] in t)
    && (forall k | 0 <= k < |path| - 1 :: t[path[k]].supersededBy == Some(path[k + 1]))
  }

  lemma {:induction false} PathAscends(t: Table, path: seq<Id>, i: nat, j: nat)
    requires Inv(t) && LinkPath(t, path) && i < j < |path|
    ensures t[path[i]].createdAt < t[path[j]].createdAt
    decreases j
  {
    hide RowOk, TxHashesUnique, OneActivePerRecord, InputsIntersect;
    assert t[path[j - 1]].supersededBy == Some(path[j]);
    assert LinkOk(t[path[j - 1]], t[path[j]]);
    if i < j - 1 {
      PathAscends(t, path, i, j - 1);
    }
  }

  /** No walk along the links visits a row twice. */
  lemma NoCycles(t: Table, path: seq<Id>)
    requires Inv(t) && LinkPath(t, path)
    ensures forall i, j | 0 <= i < j < |path| :: path[i] != path[j]
  {
    forall i, j | 0 <= i < j < |path| ensures path[i] != path[j] {
      PathAscends(t, path, i, j);
    }
  }

  /** Following the links from a row always ends, at a row that nothing supersedes. */
  function LastHeir(t: Table, id: Id): (last: Id)
    requires Inv(t) && id in t
    ensures last in t && t[last].supersededBy.None? && t[id].createdAt <= t[last].createdAt
    ensures LinksWithinRecord(t) ==> t[last].base.recordId == t[id].base.recordId
    decreases |t| - t[id].createdAt
  {
    match t[id].supersededBy
    case None => id
    case Some(heir) =>
      assert LinkOk(t[id], t[heir]);
      LastHeir(t, heir)
  }

  /** A replacement names an original of its own record. */
  predicate NamesOwnRecord(t: Table, s: Transition)
    requires TxHashesUnique(t)
  {
    s.Record? && s.attempt.replacesTx.Some? && HasTx(t, s.attempt.replacesTx.value) ==>
      t[LoadByTxHash(t, s.attempt.replacesTx.value).value].base.recordId == s.attempt.recordId
  }

  lemma WithinRecordKept(t: Table, u: Table)
    requires LinksWithinRecord(t) && LinksOk(t) && SameRows(t, u)
    requires forall i | i in t :: u[i].supersededBy.None? || u[i].supersededBy == t[i].supersededBy
    ensures LinksWithinRecord(u)
  {
  }

  lemma RejectKeepsRecords(t: Table, id: Id, originalTx: TxHash)
    requires Inv(t) && LinksWithinRecord(t)
    ensures LinksWithinRecord(RejectSpec(t, id, originalTx).0)
  {
    hide LinksOk, OneActivePerRecord, TxHashesUnique, RowsOk, LinksWithinRecord;
    WithinRecordKept(t, RejectSpec(t, id, originalTx).0);
  }

  /** Recording keeps links within records exactly when the handoff, if there is one,
      stays within its record. */
  lemma RecordKeepsRecordsIff(t: Table, id: Id, a: NewAttempt, claimed: bool)
    requires Inv(t) && LinksWithinRecord(t)
    ensures RecordSpec(t, id, a, claimed).1 != RecordedAs(id) ==> RecordSpec(t, id, a, claimed).0 == t
    ensures RecordSpec(t, id, a, claimed).1 == RecordedAs(id) ==>
              (LinksWithinRecord(RecordSpec(t, id, a, claimed).0) <==> NamesOwnRecord(t, Record(id, a, claimed)))
  {
    hide OneActivePerRecord, TxHashesUnique, RowsOk, HasActive, InputsIntersect, HasTx, LinkOk;
    var (u, outcome) := RecordSpec(t, id, a, claimed);
    if outcome == RecordedAs(id) && a.replacesTx.Some? {
      var original := LoadByTxHash(t, a.replacesTx.value).value;
      assert u[original].supersededBy == Some(id) && u[id].base == a && id !in t;
      assert forall i | i in t && i != original :: u[i] == t[i];
    }
  }

  lemma UpdateKeepsRecords(t: Table, id: Id, b: Attempt)
    requires Inv(t) && LinksWithinRecord(t) && id in t
    requires b.base == t[id].base && b.createdAt == t[id].createdAt && b.supersededBy == t[id].supersededBy
    ensures LinksWithinRecord(t[id := b])
  {
    hide LinksWithinRecord, TxHashesUnique, RowsOk, OneActivePerRecord, LinksOk;
    WithinRecordKept(t, t[id := b]);
  }

  lemma StepKeepsRecords(t: Table, s: Transition)
    requires Inv(t) && LinksWithinRecord(t) && NamesOwnRecord(t, s)
    ensures LinksWithinRecord(Apply(t, s))
  {
    hide LinksOk, OneActivePerRecord, TxHashesUnique, LinksWithinRecord, RowAfter, RowOk, RecordSpec, RejectSpec,
      RowsOk;
    match s
    case Record(id, a, claimed) => RecordKeepsRecordsIff(t, id, a, claimed);
    case RejectReplacement(id, originalTx) => RejectKeepsRecords(t, id, originalTx);
    case Revert(id, txHash, height) =>
      if RevertSpec(t, id, txHash, height).1 {
        RowOfInv(t, id);
        RevertedRow(t[id], txHash, height);
        DescendsKeepsIdentity(t[id], RevertRow(t[id], txHash, height).value);
        UpdateKeepsRecords(t, id, RevertRow(t[id], txHash, height).value);
      }
    case _ =>
      if s.id in t && RowAfter(t[s.id], s).Some? {
        RowOfInv(t, s.id);
        RowTransition(t[s.id], s);
        UpdateKeepsRecords(t, s.id, RowAfter(t[s.id], s).value);
      }
  }

  /** Every replacement of the run names an original of its own record. */
  predicate RunNamesOwnRecords(t: Table, steps: seq<Transition>)
    decreases |steps|
  {
    steps == [] || !TxHashesUnique(t)
    || (NamesOwnRecord(t, steps[0]) && RunNamesOwnRecords(Apply(t, steps[0]), steps[1..]))
  }

  /** Over every such run, links stay within their record. */
  lemma {:induction false} RunKeepsRecords(t: Table, steps: seq<Transition>)
    requires Inv(t) && LinksWithinRecord(t) && RunNamesOwnRecords(t, steps)
    ensures Inv(Run(t, steps)) && LinksWithinRecord(Run(t, steps))
    decreases |steps|
  {
    hide Inv, Apply, LinksWithinRecord, NamesOwnRecord;
    if steps != [] {
      InvHasUniqueTxs(t);
      StepKeepsInv(t, steps[0]);
      StepKeepsRecords(t, steps[0]);
      RunKeepsRecords(Apply(t, steps[0]), steps[1..]);
    }
  }

  lemma EveryRunKeepsRecords(steps: seq<Transition>)
    requires RunNamesOwnRecords(map[], steps)
    ensures LinksWithinRecord(Run(map[], steps))
  {
    RunKeepsRecords(map[], steps);
  }

  const ORIGINAL := NewAttempt(Publish, Some(7), 1, 100, 0, [InputRef(5, 0)], None)
  const FOREIGN := NewAttempt(Replacement, Some(8), 1, 101, 0, [InputRef(5, 0)], Some(100))

  /** The assumption is needed: nothing in the handoff compares the records, and a
      replacement recorded for another record takes the link out of its own. */
  lemma ForeignHandoffLeavesRecord()
    ensures !LinksWithinRecord(Run(map[], [Record(0, ORIGINAL, true), Record(1, FOREIGN, true)]))
  {
    hide Apply, LinksWithinRecord;
    var run := [Record(0, ORIGINAL, true), Record(1, FOREIGN, true)];
    var recorded: Table := map[0 := NewRow(ORIGINAL, 0)];
    var handed := recorded[0 := MarkSupersededRow(recorded[0], 1).value][1 := NewRow(FOREIGN, 1)];
    FirstRecorded(recorded);
    ForeignRecorded(recorded, handed);
    assert Run(handed, run[1..][1..]) == handed;
    assert Run(recorded, run[1..]) == handed;
  }

  lemma FirstRecorded(recorded: Table)
    requires recorded == map[0 := NewRow(ORIGINAL, 0)]
    ensures TxHashesUnique(map[]) && TxHashesUnique(recorded) && Apply(map[], Record(0, ORIGINAL, true)) == recorded
  {
  }

  lemma ForeignRecorded(recorded: Table, handed: Table)
    requires recorded == map[0 := NewRow(ORIGINAL, 0)]
    requires handed == recorded[0 := MarkSupersededRow(recorded[0], 1).value][1 := NewRow(FOREIGN, 1)]
    ensures TxHashesUnique(recorded) && Apply(recorded, Record(1, FOREIGN, true)) == handed
    ensures TxHashesUnique(handed) && !LinksWithinRecord(handed)
  {
    assert LoadByTxHash(recorded, 100) == Some(0);
    assert FOREIGN.spentInputs[0] == recorded[0].base.spentInputs[0];
    var down := recorded[0 := MarkSupersededRow(recorded[0], 1).value];
    assert |down| == 1 && !HasActive(down, Some(8)) && !HasTx(down, 101);
    assert handed[0].supersededBy == Some(1);
  }
}
