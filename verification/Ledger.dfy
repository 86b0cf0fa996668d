/** The chain-attempt ledger: every guarded update as a step on the table of rows, and
    the class whose methods perform those steps in place. */
module Ledger {
  import opened Bytes
  import opened Wrappers

  type Id = nat
  type TxHash = nat
  type Time = int

  datatype Kind = Publish | Replacement | Split

  datatype Status = Recorded | Broadcast | Stuck | Confirmed | Abandoned | Superseded {
    predicate IsTerminal() {
      Confirmed? || Abandoned?
    }

    predicate IsActiveBroadcaster() {
      Recorded? || Broadcast? || Stuck?
    }
  }

  datatype InputRef = InputRef(txHash: TxHash, index: nat)

  datatype NewAttempt = NewAttempt(kind: Kind, recordId: Option<Id>, walletId: Id, txHash: TxHash, fee: nat,
                                   spentInputs: seq<InputRef>, replacesTx: Option<TxHash>)

  /** A row. `createdAt` is its place in the order of insertion. */
  datatype Attempt = Attempt(
    base: NewAttempt,
    createdAt: nat,
    status: Status,
    supersededBy: Option<Id>,
    mempoolEnteredAt: Option<Time>,
    firstSeen: Option<Time>,
    blockHeight: Option<nat>,
    blockTime: Option<Time>,
    nextAttemptAfter: Option<Time>,
    yieldCount: nat)

  type Table = map<Id, Attempt>

  // ----- Single-row guarded updates: the row after, or nothing when the guard fails

  function MarkBroadcastRow(a: Attempt, now: Time): Option<Attempt> {
    if a.status.Recorded? then Some(a.(status := Broadcast, mempoolEnteredAt := Some(now))) else None
  }

  function RefreshBroadcastRow(a: Attempt, now: Time): Option<Attempt> {
    if a.status.IsActiveBroadcaster() then Some(a.(status := Broadcast, mempoolEnteredAt := Some(now))) else None
  }

  function MarkStuckRow(a: Attempt): Option<Attempt> {
    if a.status.Broadcast? then Some(a.(status := Stuck)) else None
  }

  function MarkSupersededRow(a: Attempt, heir: Id): Option<Attempt> {
    if a.status.IsActiveBroadcaster() then Some(a.(status := Superseded, supersededBy := Some(heir))) else None
  }

  function UnsupersedeRow(a: Attempt, heir: Id): Option<Attempt> {
    if a.status.Superseded? && a.supersededBy == Some(heir)
    then Some(a.(status := if a.mempoolEnteredAt.None? then Recorded else Broadcast, supersededBy := None))
    else None
  }

  function MarkConfirmedRow(a: Attempt, height: nat, time: Time, now: Time): Option<Attempt> {
    if height > I64_MAX then None
    else if a.status.Broadcast? || a.status.Stuck? || a.status.Superseded?
            || (a.status.Confirmed? && a.blockHeight != Some(height))
    then Some(a.(status := Confirmed, blockHeight := Some(height), blockTime := Some(time),
                 firstSeen := Coalesce(a.firstSeen, now), nextAttemptAfter := None))
    else None
  }

  function MarkAbandonedRow(a: Attempt): Option<Attempt> {
    if !a.status.IsTerminal()
    then Some(a.(status := Abandoned, blockHeight := None, blockTime := None, nextAttemptAfter := None))
    else None
  }

  /** The deterministic-reject abandon, which leaves the retry hint as it was. */
  function RejectRow(a: Attempt): Option<Attempt> {
    if !a.status.IsTerminal()
    then Some(a.(status := Abandoned, blockHeight := None, blockTime := None))
    else None
  }

  function RepinRow(a: Attempt, height: nat, time: Option<Time>, now: Time): Option<Attempt> {
    if height <= I64_MAX && (a.status.Broadcast? || a.status.Stuck? || a.status.Superseded?)
    then Some(a.(blockHeight := Some(height), blockTime := time, firstSeen := Coalesce(a.firstSeen, now)))
    else None
  }

  function RepinConfirmedRow(a: Attempt, height: nat, time: Option<Time>): Option<Attempt> {
    if height <= I64_MAX && a.status.Confirmed? && a.blockHeight != Some(height)
    then Some(a.(blockHeight := Some(height), blockTime := time))
    else None
  }

  /** A confirmed attempt seen gone at its pinned height goes back on the wire. */
  function RevertRow(a: Attempt, txHash: TxHash, height: nat): Option<Attempt> {
    if a.status.Confirmed? && a.base.txHash == txHash && a.blockHeight == Some(height)
    then Some(a.(status := Broadcast, blockHeight := None, blockTime := None, nextAttemptAfter := None))
    else None
  }

  function StampYieldRow(a: Attempt, until: Time): Option<Attempt> {
    Some(a.(nextAttemptAfter := Some(until), yieldCount := a.yieldCount + 1))
  }

  function Coalesce(x: Option<Time>, now: Time): Option<Time> {
    if x.Some? then x else Some(now)
  }

  // ----- The table

  predicate TxHashesUnique(t: Table) {
    forall i, j | i in t && j in t :: t[i].base.txHash == t[j].base.txHash ==> i == j
  }

  predicate Active(t: Table, id: Id)
    requires id in t
  {
    t[id].status.IsActiveBroadcaster()
  }

  predicate OneActivePerRecord(t: Table) {
    forall i, j | i in t && j in t && Active(t, i) && Active(t, j) ::
      t[i].base.recordId.Some? && t[i].base.recordId == t[j].base.recordId ==> i == j
  }

  predicate HasActive(t: Table, recordId: Option<Id>) {
    recordId.Some? && exists i | i in t :: t[i].base.recordId == recordId && Active(t, i)
  }

  predicate HasTx(t: Table, txHash: TxHash) {
    exists i | i in t :: t[i].base.txHash == txHash
  }

  function LoadByTxHash(t: Table, txHash: TxHash): (id: Option<Id>)
    requires TxHashesUnique(t)
    ensures id.Some? <==> HasTx(t, txHash)
    ensures id.Some? ==> id.value in t && t[id.value].base.txHash == txHash
  {
    if HasTx(t, txHash) then
      var i :| i in t && t[i].base.txHash == txHash;
      Some(i)
    else None
  }

  predicate SubjectMatchesKind(a: NewAttempt) {
    a.kind.Split? <==> a.recordId.None?
  }

  datatype InsertError = FeeOverflow | ConstraintViolation | OneActiveViolation

  function NewRow(a: NewAttempt, createdAt: nat): Attempt {
    Attempt(a, createdAt, Recorded, None, None, None, None, None, None, 0)
  }

  /** The insert, with every constraint the table enforces. */
  function Insert(t: Table, id: Id, a: NewAttempt): Result<Table, InsertError> {
    if a.fee > I64_MAX then Err(FeeOverflow)
    else if !SubjectMatchesKind(a) || id in t then Err(ConstraintViolation)
    else if HasActive(t, a.recordId) then Err(OneActiveViolation)
    else if HasTx(t, a.txHash) then Err(ConstraintViolation)
    else Ok(t[id := NewRow(a, |t|)])
  }

  predicate InputsIntersect(left: seq<InputRef>, right: seq<InputRef>) {
    exists l, r | 0 <= l < |left| && 0 <= r < |right| :: left[l] == right[r]
  }

  datatype RecordOutcome = RecordedAs(id: Id) | LostGeneration | DoesNotConflict | Failed(error: InsertError)

  function OutcomeOf(e: InsertError): RecordOutcome {
    if e.OneActiveViolation? then LostGeneration else Failed(e)
  }

  /** Record before broadcast: for a replacement, first supersede the original it
      cancels; then insert; then claim the record and the leased inputs, which are
      decided outside this table (`claimed`). One transaction: all of it or nothing. */
  function RecordSpec(t: Table, id: Id, a: NewAttempt, claimed: bool): (Table, RecordOutcome)
    requires TxHashesUnique(t)
  {
    match SupersedeSpec(t, id, a)
    case Err(outcome) => (t, outcome)
    case Ok(handed) =>
      match Insert(handed, id, a)
      case Err(e) => (t, OutcomeOf(e))
      case Ok(recorded) => if claimed then (recorded, RecordedAs(id)) else (t, LostGeneration)
  }

  function SupersedeSpec(t: Table, id: Id, a: NewAttempt): Result<Table, RecordOutcome>
    requires TxHashesUnique(t)
  {
    if a.replacesTx.None? then Ok(t)
    else
      match LoadByTxHash(t, a.replacesTx.value)
      case None => Err(LostGeneration)
      case Some(original) =>
        if !InputsIntersect(a.spentInputs, t[original].base.spentInputs) then Err(DoesNotConflict)
        else
          match MarkSupersededRow(t[original], id)
          case None => Err(LostGeneration)
          case Some(row) => Ok(t[original := row])
  }

  function UpdateRow(t: Table, id: Id, row: Option<Attempt>): Table {
    match row
    case None => t
    case Some(a) => t[id := a]
  }

  /** A deterministic reject of a replacement: abandon it, then un-supersede the
      original it cancelled. The whole transaction fails when that would leave two
      active broadcasters on one record. */
  function RejectSpec(t: Table, replacement: Id, originalTx: TxHash): (Table, bool)
    requires TxHashesUnique(t)
  {
    if replacement !in t then (t, false)
    else
      var original := LoadByTxHash(t, originalTx);
      var abandoned := UpdateRow(t, replacement, RejectRow(t[replacement]));
      match original
      case None => (abandoned, false)
      case Some(o) =>
        match UnsupersedeRow(abandoned[o], replacement)
        case None => (abandoned, false)
        case Some(row) =>
          var restored := abandoned[o := row];
          if OneActivePerRecord(restored) then (restored, true) else (t, false)
  }

  /** The reorg reversal. It fails when another active broadcaster holds the record. */
  function RevertSpec(t: Table, id: Id, txHash: TxHash, height: nat): (Table, bool) {
    if id !in t || RevertRow(t[id], txHash, height).None? then (t, false)
    else
      var u := t[id := RevertRow(t[id], txHash, height).value];
      if OneActivePerRecord(u) then (u, true) else (t, false)
  }

  // ----- Transitions and runs

  datatype Transition =
    | Record(id: Id, attempt: NewAttempt, claimed: bool)
    | MarkBroadcast(id: Id, now: Time)
    | RefreshBroadcast(id: Id, now: Time)
    | MarkStuck(id: Id)
    | RejectReplacement(id: Id, originalTx: TxHash)
    | MarkConfirmed(id: Id, height: nat, time: Time, now: Time)
    | MarkAbandoned(id: Id)
    | Repin(id: Id, height: nat, blockTime: Option<Time>, now: Time)
    | RepinConfirmed(id: Id, height: nat, blockTime: Option<Time>)
    | StampYield(id: Id, until: Time)
    | Revert(id: Id, txHash: TxHash, height: nat)
  {
    /** A guarded update of one row that no constraint of the table can refuse. */
    predicate IsRowUpdate() {
      !Record? && !RejectReplacement? && !Revert?
    }
  }

  /** The row a single-row transition leaves, if its guard admits the row. */
  function RowAfter(a: Attempt, s: Transition): Option<Attempt>
    requires s.IsRowUpdate()
  {
    match s
    case MarkBroadcast(_, now) => MarkBroadcastRow(a, now)
    case RefreshBroadcast(_, now) => RefreshBroadcastRow(a, now)
    case MarkStuck(_) => MarkStuckRow(a)
    case MarkConfirmed(_, height, time, now) => MarkConfirmedRow(a, height, time, now)
    case MarkAbandoned(_) => MarkAbandonedRow(a)
    case Repin(_, height, time, now) => RepinRow(a, height, time, now)
    case RepinConfirmed(_, height, time) => RepinConfirmedRow(a, height, time)
    case StampYield(_, until) => StampYieldRow(a, until)
  }

  function Apply(t: Table, s: Transition): Table
    requires TxHashesUnique(t)
  {
    match s
    case Record(id, a, claimed) => RecordSpec(t, id, a, claimed).0
    case RejectReplacement(id, originalTx) => RejectSpec(t, id, originalTx).0
    case Revert(id, txHash, height) => RevertSpec(t, id, txHash, height).0
    case _ => if s.id in t then UpdateRow(t, s.id, RowAfter(t[s.id], s)) else t
  }

  // ----- The invariant

  /** What a row says about itself, whatever has happened to it. */
  predicate RowOk(a: Attempt) {
    && SubjectMatchesKind(a.base)
    && (a.status.Superseded? ==> a.supersededBy.Some?)
    && (a.status.Recorded? ==> a.mempoolEnteredAt.None?)
    && (a.status.Broadcast? || a.status.Stuck? ==> a.mempoolEnteredAt.Some? || a.firstSeen.Some?)
    && (a.status.Confirmed? ==> a.blockHeight.Some? && a.firstSeen.Some?)
    && (a.status.Abandoned? ==> a.blockHeight.None? && a.blockTime.None?)
    && (a.blockHeight.Some? ==> a.firstSeen.Some? && a.blockHeight.value <= I64_MAX)
  }

  /** What it also says unless a reversal put it back on the wire: an active row is not
      superseded, and one on the wire has a mempool entry. */
  predicate RowOnWire(a: Attempt) {
    && (a.status.IsActiveBroadcaster() ==> a.supersededBy.None?)
    && (a.status.Broadcast? || a.status.Stuck? ==> a.mempoolEnteredAt.Some?)
  }

  /** A row points at a later one that replaces it and spends one of its inputs. */
  predicate LinkOk(a: Attempt, b: Attempt) {
    && a.createdAt < b.createdAt
    && b.base.replacesTx == Some(a.base.txHash)
    && InputsIntersect(b.base.spentInputs, a.base.spentInputs)
  }

  predicate LinksOk(t: Table) {
    forall i | i in t && t[i].supersededBy.Some? ::
      t[i].supersededBy.value in t && LinkOk(t[i], t[t[i].supersededBy.value])
  }

  predicate RowsOk(t: Table) {
    forall i | i in t :: RowOk(t[i]) && t[i].createdAt < |t|
  }

  predicate Inv(t: Table) {
    && TxHashesUnique(t)
    && OneActivePerRecord(t)
    && RowsOk(t)
    && LinksOk(t)
  }

  predicate WireInv(t: Table) {
    Inv(t) && forall i | i in t :: RowOnWire(t[i])
  }

  /** Links never leave their record. */
  predicate LinksWithinRecord(t: Table) {
    forall i | i in t && t[i].supersededBy.Some? && t[i].supersededBy.value in t ::
      t[t[i].supersededBy.value].base.recordId == t[i].base.recordId
  }

  // ----- The table, in place

  class ChainAttempts {
    var rows: Table

    ghost predicate Valid()
      reads this
    {
      TxHashesUnique(rows)
    }

    constructor ()
      ensures rows == map[]
    {
      rows := map[];
    }

    /** Store the row an update leaves; report whether the guard admitted it. */
    method Update(id: Id, row: Option<Attempt>) returns (advanced: bool)
      requires id in rows && Valid()
      requires row.Some? ==> row.value.base == rows[id].base
      modifies this
      ensures Valid() && rows == UpdateRow(old(rows), id, row) && advanced == row.Some?
    {
      advanced := row.Some?;
      if advanced {
        rows := rows[id := row.value];
      }
    }

    method MarkSuperseded(original: Id, heir: Id) returns (superseded: bool)
      requires original in rows && Valid()
      modifies this
      ensures Valid() && rows == UpdateRow(old(rows), original, MarkSupersededRow(old(rows)[original], heir))
      ensures superseded == old(rows)[original].status.IsActiveBroadcaster()
    {
      superseded := Update(original, MarkSupersededRow(rows[original], heir));
    }

    method RecordAttempt(id: Id, a: NewAttempt, claimed: bool) returns (outcome: RecordOutcome)
      requires Valid()
      modifies this
      ensures (rows, outcome) == RecordSpec(old(rows), id, a, claimed)
    {
      var snapshot := rows;
      if a.replacesTx.Some? {
        var original := LoadByTxHash(rows, a.replacesTx.value);
        if original.None? {
          return LostGeneration;
        }
        if !InputsIntersect(a.spentInputs, rows[original.value].base.spentInputs) {
          return DoesNotConflict;
        }
        var superseded := MarkSuperseded(original.value, id);
        if !superseded {
          return LostGeneration;
        }
      }
      var inserted := Insert(rows, id, a);
      if inserted.Err? {
        rows := snapshot;
        return OutcomeOf(inserted.error);
      }
      rows := inserted.value;
      if !claimed {
        rows := snapshot;
        return LostGeneration;
      }
      return RecordedAs(id);
    }

    method RejectReplacement(replacement: Id, originalTx: TxHash) returns (restored: bool)
      requires Valid()
      modifies this
      ensures (rows, restored) == RejectSpec(old(rows), replacement, originalTx)
    {
      if replacement !in rows {
        return false;
      }
      var snapshot := rows;
      var original := LoadByTxHash(rows, originalTx);
      var _ := Update(replacement, RejectRow(rows[replacement]));
      if original.None? {
        return false;
      }
      restored := Update(original.value, UnsupersedeRow(rows[original.value], replacement));
      if restored && !OneActivePerRecord(rows) {
        rows := snapshot;
        restored := false;
      }
    }

    method RevertConfirmed(id: Id, txHash: TxHash, height: nat) returns (reverted: bool)
      requires Valid()
      modifies this
      ensures Valid() && (rows, reverted) == RevertSpec(old(rows), id, txHash, height)
    {
      if id !in rows {
        return false;
      }
      var snapshot := rows;
      reverted := Update(id, RevertRow(rows[id], txHash, height));
      if reverted && !OneActivePerRecord(rows) {
        rows := snapshot;
        reverted := false;
      }
    }

    /** Every other update of a single row. */
    method Transit(s: Transition) returns (advanced: bool)
      requires Valid() && s.IsRowUpdate()
      modifies this
      ensures Valid() && rows == Apply(old(rows), s)
      ensures advanced <==> s.id in old(rows) && RowAfter(old(rows)[s.id], s).Some?
    {
      if s.id !in rows {
        return false;
      }
      var a := rows[s.id];
      match s {
        case MarkBroadcast(id, now) => advanced := Update(id, MarkBroadcastRow(a, now));
        case RefreshBroadcast(id, now) => advanced := Update(id, RefreshBroadcastRow(a, now));
        case MarkStuck(id) => advanced := Update(id, MarkStuckRow(a));
        case MarkConfirmed(id, height, time, now) => advanced := Update(id, MarkConfirmedRow(a, height, time, now));
        case MarkAbandoned(id) => advanced := Update(id, MarkAbandonedRow(a));
        case Repin(id, height, time, now) => advanced := Update(id, RepinRow(a, height, time, now));
        case RepinConfirmed(id, height, time) => advanced := Update(id, RepinConfirmedRow(a, height, time));
        case StampYield(id, until) => advanced := Update(id, StampYieldRow(a, until));
      }
    }
  }
}
