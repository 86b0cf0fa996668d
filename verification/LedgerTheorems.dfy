/** What every run of the ledger keeps, and what the handoff and its reversal do. */
module LedgerTheorems {
  import opened Ledger
  import opened Wrappers

  // ----- Single-row transitions

  /** What a later version of a row may not change. */
  predicate Descends(a: Attempt, b: Attempt) {
    && b.base == a.base && b.createdAt == a.createdAt
    && (a.firstSeen.Some? ==> b.firstSeen == a.firstSeen)
    && (a.status.Abandoned? ==> b.(nextAttemptAfter := a.nextAttemptAfter, yieldCount := a.yieldCount) == a)
    && (a.mempoolEnteredAt.Some? ==> b.mempoolEnteredAt.Some?)
    && a.yieldCount <= b.yieldCount
  }

  lemma RowTransition(a: Attempt, s: Transition)
    requires RowOk(a) && s.IsRowUpdate() && RowAfter(a, s).Some?
    ensures var b := RowAfter(a, s).value;
      && RowOk(b) && Descends(a, b) && b.supersededBy == a.supersededBy
      && (a.status.Confirmed? ==> b.status.Confirmed?) && (RowOnWire(a) ==> RowOnWire(b))
      && (b.status.IsActiveBroadcaster() ==> a.status.IsActiveBroadcaster())
  {
  }

  // ----- The four parts of the invariant, across a change of rows

  /** The same rows, each still the same attempt. */
  predicate SameRows(t: Table, u: Table) {
    t.Keys == u.Keys && forall i | i in t :: u[i].base == t[i].base && u[i].createdAt == t[i].createdAt
  }

  lemma SameRowsSameCount(t: Table, u: Table)
    requires SameRows(t, u)
    ensures |u| == |t|
  {
    assert |t| == |t.Keys| && |u| == |u.Keys|;
  }

  lemma SameRowsSameTxs(t: Table, u: Table)
    requires SameRows(t, u) && TxHashesUnique(t)
    ensures TxHashesUnique(u)
  {
  }

  lemma LinkDependsOnBase(a: Attempt, b: Attempt, c: Attempt, d: Attempt)
    requires c.base == a.base && c.createdAt == a.createdAt && d.base == b.base && d.createdAt == b.createdAt
    ensures LinkOk(a, b) <==> LinkOk(c, d)
  {
  }

  lemma LinksKept(t: Table, u: Table)
    requires LinksOk(t) && SameRows(t, u)
    requires forall i | i in t :: u[i].supersededBy.None? || u[i].supersededBy == t[i].supersededBy
    ensures LinksOk(u)
  {
    hide LinkOk;
    forall i | i in u && u[i].supersededBy.Some?
      ensures u[i].supersededBy.value in u && LinkOk(u[i], u[u[i].supersededBy.value])
    {
      var heir := t[i].supersededBy.value;
      LinkDependsOnBase(t[i], t[heir], u[i], u[heir]);
    }
  }

  lemma FewerActive(t: Table, u: Table)
    requires OneActivePerRecord(t) && SameRows(t, u)
    requires forall i | i in t && Active(u, i) :: Active(t, i)
    ensures OneActivePerRecord(u)
  {
  }

  /** Replacing one row by an acceptable version of itself keeps the invariant. */
  lemma UpdateKeepsInv(t: Table, id: Id, b: Attempt)
    requires Inv(t) && id in t && RowOk(b) && b.base == t[id].base && b.createdAt == t[id].createdAt
    requires b.status.IsActiveBroadcaster() ==> Active(t, id)
    requires b.supersededBy.None? || b.supersededBy == t[id].supersededBy
    ensures Inv(t[id := b])
  {
    hide RowOk, LinksOk, OneActivePerRecord, TxHashesUnique;
    var u := t[id := b];
    SameRowsSameCount(t, u);
    SameRowsSameTxs(t, u);
    LinksKept(t, u);
    FewerActive(t, u);
  }

  // ----- Recording

  lemma InsertCount(t: Table, id: Id, a: Attempt)
    requires id !in t
    ensures |t[id := a]| == |t| + 1
  {
    assert t[id := a].Keys == t.Keys + {id};
    assert |t| == |t.Keys| && |t[id := a]| == |t[id := a].Keys|;
  }

  lemma InsertedIsOnlyActive(t: Table, id: Id, row: Attempt)
    requires OneActivePerRecord(t) && id !in t && !HasActive(t, row.base.recordId)
    ensures OneActivePerRecord(t[id := row])
  {
    var u := t[id := row];
    forall i, j | i in u && j in u && Active(u, i) && Active(u, j)
      ensures u[i].base.recordId.Some? && u[i].base.recordId == u[j].base.recordId ==> i == j
    {
      assert i != id ==> Active(t, i);
      assert j != id ==> Active(t, j);
    }
  }

  lemma InsertedIsOnlyTx(t: Table, id: Id, row: Attempt)
    requires TxHashesUnique(t) && id !in t && !HasTx(t, row.base.txHash)
    ensures TxHashesUnique(t[id := row])
  {
  }

  /** A new row enters a table that holds no active broadcaster for its record. Its
      rows may already point at the newcomer, if the newcomer replaces them. */
  lemma InsertKeepsInv(t: Table, id: Id, a: NewAttempt)
    requires TxHashesUnique(t) && OneActivePerRecord(t) && RowsOk(t) && Insert(t, id, a).Ok?
    requires LinksOk(t[id := NewRow(a, |t|)])
    ensures Inv(Insert(t, id, a).value)
  {
    hide LinksOk, OneActivePerRecord, TxHashesUnique, HasActive, HasTx;
    var row := NewRow(a, |t|);
    InsertCount(t, id, row);
    InsertedIsOnlyActive(t, id, row);
    InsertedIsOnlyTx(t, id, row);
  }

  lemma LinksIgnoreNewRow(t: Table, id: Id, row: Attempt)
    requires LinksOk(t) && id !in t && row.supersededBy.None?
    ensures LinksOk(t[id := row])
  {
    hide LinkOk;
  }

  lemma LinksOfHandoff(t: Table, original: Id, id: Id, row: Attempt)
    requires LinksOk(t) && RowsOk(t) && original in t && id !in t
    requires row.supersededBy.None? && row.createdAt == |t| && row.base.replacesTx == Some(t[original].base.txHash)
    requires InputsIntersect(row.base.spentInputs, t[original].base.spentInputs)
    ensures LinksOk(t[original := t[original].(status := Superseded, supersededBy := Some(id))][id := row])
  {
    hide InputsIntersect, RowOk;
    var u := t[original := t[original].(status := Superseded, supersededBy := Some(id))][id := row];
    forall i | i in u && u[i].supersededBy.Some?
      ensures u[i].supersededBy.value in u && LinkOk(u[i], u[u[i].supersededBy.value])
    {
      if i != original {
        var heir := t[i].supersededBy.value;
        assert LinkOk(t[i], t[heir]);
      }
    }
  }

  /** The handoff: the original steps down and its replacement steps in. */
  lemma HandoffKeepsInv(t: Table, id: Id, a: NewAttempt, original: Id)
    requires Inv(t) && original in t && MarkSupersededRow(t[original], id).Some?
    requires a.replacesTx == Some(t[original].base.txHash)
    requires InputsIntersect(a.spentInputs, t[original].base.spentInputs)
    requires Insert(t[original := MarkSupersededRow(t[original], id).value], id, a).Ok?
    ensures Inv(Insert(t[original := MarkSupersededRow(t[original], id).value], id, a).value)
  {
    hide InputsIntersect, LinksOk, OneActivePerRecord, TxHashesUnique, HasActive, HasTx;
    var down := MarkSupersededRow(t[original], id).value;
    var handed := t[original := down];
    SameRowsSameCount(t, handed);
    SameRowsSameTxs(t, handed);
    FewerActive(t, handed);
    LinksOfHandoff(t, original, id, NewRow(a, |t|));
    InsertKeepsInv(handed, id, a);
  }

  lemma RecordKeepsInv(t: Table, id: Id, a: NewAttempt, claimed: bool)
    requires Inv(t)
    ensures Inv(RecordSpec(t, id, a, claimed).0)
  {
    hide InputsIntersect, RowsOk, LinksOk, OneActivePerRecord, TxHashesUnique, HasActive, HasTx;
    match SupersedeSpec(t, id, a)
    case Err(_) =>
    case Ok(handed) =>
      if Insert(handed, id, a).Ok? {
        if a.replacesTx.None? {
          LinksIgnoreNewRow(t, id, NewRow(a, |t|));
          InsertKeepsInv(t, id, a);
        } else {
          HandoffKeepsInv(t, id, a, LoadByTxHash(t, a.replacesTx.value).value);
        }
      }
  }

  // ----- Rejecting a replacement

  lemma UnsupersedeKeepsInv(t: Table, id: Id, heir: Id)
    requires Inv(t) && id in t && UnsupersedeRow(t[id], heir).Some?
    requires OneActivePerRecord(t[id := UnsupersedeRow(t[id], heir).value])
    ensures Inv(t[id := UnsupersedeRow(t[id], heir).value])
  {
    hide LinksOk, OneActivePerRecord, TxHashesUnique;
    var b := UnsupersedeRow(t[id], heir).value;
    var u := t[id := b];
    SameRowsSameCount(t, u);
    SameRowsSameTxs(t, u);
    LinksKept(t, u);
    RestoredRowOk(t[id], heir);
    hide RowOk, UnsupersedeRow;
  }

  lemma RestoredRowOk(a: Attempt, heir: Id)
    requires RowOk(a) && UnsupersedeRow(a, heir).Some?
    ensures RowOk(UnsupersedeRow(a, heir).value)
  {
  }

  lemma RejectRowKeepsInv(t: Table, id: Id)
    requires Inv(t) && id in t
    ensures Inv(UpdateRow(t, id, RejectRow(t[id])))
  {
    hide LinksOk, OneActivePerRecord;
    if RejectRow(t[id]).Some? {
      UpdateKeepsInv(t, id, RejectRow(t[id]).value);
    }
  }

  lemma RejectKeepsInv(t: Table, replacement: Id, originalTx: TxHash)
    requires Inv(t)
    ensures Inv(RejectSpec(t, replacement, originalTx).0)
  {
    hide RejectRow, UnsupersedeRow, OneActivePerRecord, RowOk, LinksOk;
    if replacement in t {
      RejectRowKeepsInv(t, replacement);
      var abandoned := UpdateRow(t, replacement, RejectRow(t[replacement]));
      var original := LoadByTxHash(t, originalTx);
      if original.Some? && UnsupersedeRow(abandoned[original.value], replacement).Some? {
        var restored := UnsupersedeRow(abandoned[original.value], replacement).value;
        if OneActivePerRecord(abandoned[original.value := restored]) {
          UnsupersedeKeepsInv(abandoned, original.value, replacement);
        }
      }
    }
  }

  // ----- Reversing a confirmation

  lemma RevertedRow(a: Attempt, txHash: TxHash, height: nat)
    requires RowOk(a) && RevertRow(a, txHash, height).Some?
    ensures var b := RevertRow(a, txHash, height).value;
      && RowOk(b) && Descends(a, b) && b.supersededBy == a.supersededBy && b.base == a.base
      && (RowOnWire(b) <==> a.mempoolEnteredAt.Some? && a.supersededBy.None?)
  {
  }

  lemma RevertKeepsInv(t: Table, id: Id, txHash: TxHash, height: nat)
    requires Inv(t)
    ensures Inv(RevertSpec(t, id, txHash, height).0)
    ensures Extends(t, RevertSpec(t, id, txHash, height).0)
  {
    hide LinksOk, OneActivePerRecord, TxHashesUnique, RowOk, RevertRow, Descends;
    forall i | i in t ensures Descends(t[i], t[i]) {
      DescendsReflexive(t[i]);
    }
    if RevertSpec(t, id, txHash, height).1 {
      var u := RevertSpec(t, id, txHash, height).0;
      RevertedRow(t[id], txHash, height);
      DescendsKeepsIdentity(t[id], u[id]);
      SameRowsSameCount(t, u);
      SameRowsSameTxs(t, u);
      LinksKept(t, u);
    }
  }

  lemma DescendsKeepsIdentity(a: Attempt, b: Attempt)
    requires Descends(a, b)
    ensures b.base == a.base && b.createdAt == a.createdAt
  {
  }

  // ----- Every run

  lemma StepKeepsInv(t: Table, s: Transition)
    requires Inv(t)
    ensures Inv(Apply(t, s))
  {
    hide RecordSpec, RejectSpec, RevertSpec, RowAfter, RowOk, LinksOk, OneActivePerRecord, TxHashesUnique;
    match s
    case Record(id, a, claimed) => RecordKeepsInv(t, id, a, claimed);
    case RejectReplacement(id, originalTx) => RejectKeepsInv(t, id, originalTx);
    case Revert(id, txHash, height) => RevertKeepsInv(t, id, txHash, height);
    case _ =>
      if s.id in t && RowAfter(t[s.id], s).Some? {
        RowTransition(t[s.id], s);
        UpdateKeepsInv(t, s.id, RowAfter(t[s.id], s).value);
      }
  }

  /** The table after a run. A table with duplicate transactions, which no run
      produces, is left alone. */
  function Run(t: Table, steps: seq<Transition>): Table
    decreases |steps|
  {
    if steps == [] || !TxHashesUnique(t) then t else Run(Apply(t, steps[0]), steps[1..])
  }

  lemma {:induction false} RunThen(t: Table, steps: seq<Transition>, s: Transition)
    requires Inv(t)
    ensures Inv(Run(t, steps)) && Run(t, steps + [s]) == Apply(Run(t, steps), s)
    decreases |steps|
  {
    hide Inv, Apply;
    InvHasUniqueTxs(t);
    if steps == [] {
      assert [s][1..] == [] && [] + [s] == [s];
    } else {
      StepKeepsInv(t, steps[0]);
      RunThen(Apply(t, steps[0]), steps[1..], s);
      assert (steps + [s])[1..] == steps[1..] + [s];
    }
  }

  /** Over every interleaving, from the empty table. */
  lemma {:induction false} RunKeepsInv(t: Table, steps: seq<Transition>)
    requires Inv(t)
    ensures Inv(Run(t, steps))
    decreases |steps|
  {
    hide OneActivePerRecord, LinksOk, RowOk;
    if steps != [] {
      StepKeepsInv(t, steps[0]);
      RunKeepsInv(Apply(t, steps[0]), steps[1..]);
    }
  }

  lemma EveryRunKeepsInv(steps: seq<Transition>)
    ensures Inv(Run(map[], steps))
  {
    RunKeepsInv(map[], steps);
  }

  /** No row is lost, none changes what it is, abandoned rows stay abandoned, and the
      first sighting is set once. */
  ghost predicate Extends(t: Table, u: Table) {
    forall i | i in t :: i in u && Descends(t[i], u[i])
  }

  lemma RejectDescends(a: Attempt)
    ensures RejectRow(a).Some? ==> Descends(a, RejectRow(a).value)
  {
  }

  lemma UnsupersedeDescends(a: Attempt, heir: Id)
    ensures UnsupersedeRow(a, heir).Some? ==> Descends(a, UnsupersedeRow(a, heir).value)
  {
  }

  lemma DescendsTransitive(a: Attempt, b: Attempt, c: Attempt)
    requires Descends(a, b) && Descends(b, c)
    ensures Descends(a, c)
  {
  }

  lemma RejectExtends(t: Table, id: Id, originalTx: TxHash)
    requires TxHashesUnique(t)
    ensures Extends(t, RejectSpec(t, id, originalTx).0)
  {
    hide Descends, RejectRow, UnsupersedeRow, OneActivePerRecord, TxHashesUnique;
    forall i | i in t ensures Descends(t[i], t[i]) {
      DescendsReflexive(t[i]);
    }
    if id in t {
      RejectDescends(t[id]);
      RejectedIsNotSuperseded(t[id], id);
      var original := LoadByTxHash(t, originalTx);
      if original.Some? {
        UnsupersedeDescends(t[original.value], id);
      }
    }
  }

  lemma RecordExtends(t: Table, id: Id, a: NewAttempt, claimed: bool)
    requires TxHashesUnique(t)
    ensures Extends(t, RecordSpec(t, id, a, claimed).0)
  {
    hide Descends, MarkSupersededRow, InputsIntersect, TxHashesUnique, HasActive, HasTx;
    forall i | i in t ensures Descends(t[i], t[i]) {
      DescendsReflexive(t[i]);
    }
    var original := if a.replacesTx.None? then None else LoadByTxHash(t, a.replacesTx.value);
    if original.Some? {
      SupersedeDescends(t[original.value], id);
    }
  }

  lemma StepExtends(t: Table, s: Transition)
    requires Inv(t)
    ensures Extends(t, Apply(t, s))
  {
    hide RowOk, OneActivePerRecord, LinksOk, Descends, RowAfter, RecordSpec, RejectSpec, RevertSpec, TxHashesUnique;
    match s
    case Record(id, a, claimed) => RecordExtends(t, id, a, claimed);
    case RejectReplacement(id, originalTx) => RejectExtends(t, id, originalTx);
    case Revert(id, txHash, height) => RevertKeepsInv(t, id, txHash, height);
    case _ =>
      forall i | i in t ensures Descends(t[i], t[i]) {
        DescendsReflexive(t[i]);
      }
      if s.id in t && RowAfter(t[s.id], s).Some? {
        RowTransition(t[s.id], s);
      }
  }

  /** Whatever runs next, every row lives on as the same attempt. */
  lemma {:induction false} RunExtends(t: Table, steps: seq<Transition>)
    requires Inv(t)
    ensures Extends(t, Run(t, steps))
    decreases |steps|
  {
    hide Inv, Descends, Apply;
    if steps == [] {
      forall i | i in t ensures Descends(t[i], t[i]) {
        DescendsReflexive(t[i]);
      }
    } else {
      InvHasUniqueTxs(t);
      var u := Apply(t, steps[0]);
      StepKeepsInv(t, steps[0]);
      StepExtends(t, steps[0]);
      RunExtends(u, steps[1..]);
      var v := Run(u, steps[1..]);
      forall i | i in t ensures i in v && Descends(t[i], v[i]) {
        DescendsTransitive(t[i], u[i], v[i]);
      }
    }
  }

  /** The reversal takes effect on this row: it names the row's own transaction and its
      pinned height, and no other row of the record is active. */
  predicate ReversesRow(t: Table, s: Transition, id: Id)
    requires id in t
  {
    && s.Revert? && s.id == id && t[id].base.txHash == s.txHash && t[id].blockHeight == Some(s.height)
    && forall i | i in t && i != id && t[id].base.recordId.Some? ::
         t[i].base.recordId == t[id].base.recordId ==> !Active(t, i)
  }

  /** A confirmed row stays confirmed across a step exactly unless the step is a reversal
      that takes effect on it: a stale one, of another transaction or height, does not. */
  lemma StepKeepsConfirmedIff(t: Table, s: Transition, id: Id)
    requires Inv(t) && id in t && t[id].status.Confirmed?
    ensures id in Apply(t, s) && Apply(t, s)[id].supersededBy == t[id].supersededBy
    ensures Apply(t, s)[id].status.Confirmed? <==> !ReversesRow(t, s, id)
  {
    hide RowOk, LinksOk, TxHashesUnique, RowAfter, InputsIntersect, HasActive, HasTx, RecordSpec, RejectSpec,
      RevertSpec, ReversesRow;
    match s
    case Record(other, a, claimed) => RecordKeepsConfirmed(t, other, a, claimed, id);
    case RejectReplacement(other, originalTx) => RejectKeepsConfirmed(t, other, originalTx, id);
    case Revert(_, _, _) => RevertReversesIff(t, s, id);
    case _ =>
      NoReversal(t, s, id);
      if s.id == id && RowAfter(t[id], s).Some? {
        RowTransition(t[id], s);
      }
  }

  lemma NoReversal(t: Table, s: Transition, id: Id)
    requires id in t && !s.Revert?
    ensures !ReversesRow(t, s, id)
  {
  }

  lemma RecordKeepsConfirmed(t: Table, other: Id, a: NewAttempt, claimed: bool, id: Id)
    requires Inv(t) && id in t && t[id].status.Confirmed?
    ensures id in RecordSpec(t, other, a, claimed).0 && RecordSpec(t, other, a, claimed).0[id] == t[id]
    ensures !ReversesRow(t, Record(other, a, claimed), id)
  {
    hide RowOk, LinksOk, OneActivePerRecord, TxHashesUnique, InputsIntersect, HasActive, HasTx;
  }

  lemma RejectKeepsConfirmed(t: Table, other: Id, originalTx: TxHash, id: Id)
    requires Inv(t) && id in t && t[id].status.Confirmed?
    ensures id in RejectSpec(t, other, originalTx).0 && RejectSpec(t, other, originalTx).0[id] == t[id]
    ensures !ReversesRow(t, RejectReplacement(other, originalTx), id)
  {
    hide RowOk, LinksOk, OneActivePerRecord, TxHashesUnique;
  }

  lemma RevertReversesIff(t: Table, s: Transition, id: Id)
    requires Inv(t) && id in t && t[id].status.Confirmed? && s.Revert?
    ensures var u := RevertSpec(t, s.id, s.txHash, s.height).0;
      && id in u && u[id].supersededBy == t[id].supersededBy
      && (u[id].status.Confirmed? <==> !ReversesRow(t, s, id))
  {
    hide RowOk, LinksOk, TxHashesUnique, OneActivePerRecord;
    if s.id == id && RevertRow(t[id], s.txHash, s.height).Some? {
      ReactivationIff(t, id, RevertRow(t[id], s.txHash, s.height).value);
    }
  }

  /** An inactive row may become active exactly when nobody else on its record is. */
  lemma ReactivationIff(t: Table, id: Id, b: Attempt)
    requires OneActivePerRecord(t) && id in t && !Active(t, id)
    requires b.status.IsActiveBroadcaster() && b.base == t[id].base
    ensures OneActivePerRecord(t[id := b]) <==>
      forall i | i in t && i != id && t[id].base.recordId.Some? ::
        t[i].base.recordId == t[id].base.recordId ==> !Active(t, i)
  {
    var u, record := t[id := b], t[id].base.recordId;
    if i :| i in t && i != id && record.Some? && t[i].base.recordId == record && Active(t, i) {
      assert Active(u, i) && Active(u, id);
    } else {
      forall i, j | i in u && j in u && Active(u, i) && Active(u, j)
        ensures u[i].base.recordId.Some? && u[i].base.recordId == u[j].base.recordId ==> i == j
      {
        if i != id && j != id {
          assert Active(t, i) && Active(t, j);
        }
      }
    }
  }

  /** No reversal of the run takes effect on the row. */
  predicate NeverReversed(t: Table, steps: seq<Transition>, id: Id)
    decreases |steps|
  {
    steps == [] || !TxHashesUnique(t) || id !in t
    || (!ReversesRow(t, steps[0], id) && NeverReversed(Apply(t, steps[0]), steps[1..], id))
  }

  /** The row is confirmed now and after every step. */
  predicate AlwaysConfirmed(t: Table, steps: seq<Transition>, id: Id)
    decreases |steps|
  {
    && id in t && t[id].status.Confirmed?
    && (steps == [] || !TxHashesUnique(t) || AlwaysConfirmed(Apply(t, steps[0]), steps[1..], id))
  }

  /** A confirmed row is confirmed throughout a run exactly when no reversal of the run
      takes effect on it. */
  lemma {:induction false} ConfirmedUntilReverted(t: Table, steps: seq<Transition>, id: Id)
    requires Inv(t) && id in t && t[id].status.Confirmed?
    ensures AlwaysConfirmed(t, steps, id) <==> NeverReversed(t, steps, id)
    ensures NeverReversed(t, steps, id) ==>
      id in Run(t, steps) && Run(t, steps)[id].status.Confirmed? && Run(t, steps)[id].supersededBy == t[id].supersededBy
    decreases |steps|
  {
    hide Inv, Apply, ReversesRow;
    if steps != [] {
      InvHasUniqueTxs(t);
      StepKeepsConfirmedIff(t, steps[0], id);
      StepKeepsInv(t, steps[0]);
      if !ReversesRow(t, steps[0], id) {
        ConfirmedUntilReverted(Apply(t, steps[0]), steps[1..], id);
      }
    }
  }

  // ----- Runs whose reversals are clean

  /** A reversal in effect finds a row that was broadcast and never superseded. */
  predicate CleanReversal(t: Table, s: Transition) {
    s.Revert? && RevertSpec(t, s.id, s.txHash, s.height).1 ==>
      t[s.id].mempoolEnteredAt.Some? && t[s.id].supersededBy.None?
  }

  lemma RecordKeepsWire(t: Table, id: Id, a: NewAttempt, claimed: bool)
    requires WireInv(t)
    ensures forall i | i in RecordSpec(t, id, a, claimed).0 :: RowOnWire(RecordSpec(t, id, a, claimed).0[i])
  {
    hide RowOk, LinksOk, OneActivePerRecord, TxHashesUnique, InputsIntersect, HasActive, HasTx;
  }

  lemma RejectKeepsWire(t: Table, id: Id, originalTx: TxHash)
    requires WireInv(t)
    ensures forall i | i in RejectSpec(t, id, originalTx).0 :: RowOnWire(RejectSpec(t, id, originalTx).0[i])
  {
    hide RowOk, LinksOk, OneActivePerRecord, TxHashesUnique;
  }

  /** Every step keeps the stronger invariant, except exactly a reversal that is not clean. */
  lemma StepKeepsWireIff(t: Table, s: Transition)
    requires WireInv(t)
    ensures WireInv(Apply(t, s)) <==> CleanReversal(t, s)
  {
    hide RecordSpec, RejectSpec, RowAfter, RowOk, RowOnWire, RevertRow, LinksOk, OneActivePerRecord, TxHashesUnique,
      Inv;
    InvHasUniqueTxs(t);
    RowsOfInv(t);
    StepKeepsInv(t, s);
    match s
    case Record(id, a, claimed) => RecordKeepsWire(t, id, a, claimed);
    case RejectReplacement(id, originalTx) => RejectKeepsWire(t, id, originalTx);
    case Revert(id, txHash, height) =>
      if RevertSpec(t, id, txHash, height).1 {
        RevertedRow(t[id], txHash, height);
        var u := Apply(t, s);
        assert u == t[id := RevertRow(t[id], txHash, height).value];
        assert RowOnWire(u[id]) <==> CleanReversal(t, s);
      }
    case _ =>
      if s.id in t && RowAfter(t[s.id], s).Some? {
        RowTransition(t[s.id], s);
      }
  }

  predicate CleanRun(t: Table, steps: seq<Transition>)
    decreases |steps|
  {
    steps == [] || !TxHashesUnique(t) || (CleanReversal(t, steps[0]) && CleanRun(Apply(t, steps[0]), steps[1..]))
  }

  lemma {:induction false} CleanRunKeepsWire(t: Table, steps: seq<Transition>)
    requires WireInv(t) && CleanRun(t, steps)
    ensures WireInv(Run(t, steps))
    decreases |steps|
  {
    hide WireInv, Apply, CleanReversal;
    if steps != [] {
      WireHasUniqueTxs(t);
      StepKeepsWireIff(t, steps[0]);
      CleanRunKeepsWire(Apply(t, steps[0]), steps[1..]);
    }
  }

  lemma EveryCleanRunKeepsWire(steps: seq<Transition>)
    requires CleanRun(map[], steps)
    ensures WireInv(Run(map[], steps))
  {
    CleanRunKeepsWire(map[], steps);
  }

  lemma WireHasUniqueTxs(t: Table)
    requires WireInv(t)
    ensures TxHashesUnique(t)
  {
  }

  lemma InvHasUniqueTxs(t: Table)
    requires Inv(t)
    ensures TxHashesUnique(t)
  {
  }

  lemma DescendsReflexive(a: Attempt)
    ensures Descends(a, a)
  {
  }

  lemma SupersedeDescends(a: Attempt, heir: Id)
    ensures MarkSupersededRow(a, heir).Some? ==> Descends(a, MarkSupersededRow(a, heir).value)
  {
  }

  lemma RejectedIsNotSuperseded(a: Attempt, heir: Id)
    ensures RejectRow(a).Some? ==> UnsupersedeRow(RejectRow(a).value, heir).None?
    ensures RejectRow(a).None? ==> UnsupersedeRow(a, heir).None?
  {
  }

  lemma RowsOfInv(t: Table)
    requires Inv(t)
    ensures forall i | i in t :: RowOk(t[i])
  {
  }

  lemma RowOfInv(t: Table, id: Id)
    requires Inv(t) && id in t
    ensures RowOk(t[id]) && t[id].createdAt < |t|
  {
  }
}
