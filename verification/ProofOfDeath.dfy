/** The settlement-deep conflicting spend, and what it proves about a chain whose
    rollbacks are bounded. */
module ProofOfDeath {
  import opened Bytes
  import opened Ledger
  import opened LedgerTheorems
  import opened Wrappers

  // ----- The query

  datatype Query = Query(walletId: Id, excludeTx: TxHash, input: InputRef, tip: nat, depth: nat)

  datatype Conflict = Conflict(txHash: TxHash, depth: nat)

  datatype QueryError = HeightOverflow

  predicate Candidate(a: Attempt, q: Query) {
    && a.base.walletId == q.walletId && a.status.Confirmed? && a.base.txHash != q.excludeTx
    && a.blockHeight.Some? && q.tip - a.blockHeight.value + 1 >= q.depth
    && q.input in a.base.spentInputs
  }

  function SaturatingSub(a: nat, b: nat): nat {
    if b <= a then a - b else 0
  }

  /** A confirmed conflicting attempt of least height, if there is any. */
  predicate IsFirstConflict(t: Table, q: Query, best: Option<Id>) {
    match best
    case None => forall i | i in t :: !Candidate(t[i], q)
    case Some(b) =>
      && b in t && Candidate(t[b], q)
      && forall i | i in t && Candidate(t[i], q) :: t[b].blockHeight.value <= t[i].blockHeight.value
  }

  function ConflictOf(a: Attempt, q: Query): Conflict
    requires Candidate(a, q)
  {
    Conflict(a.base.txHash, SaturatingSub(q.tip, a.blockHeight.value) + 1)
  }

  method FirstConflict(t: Table, q: Query) returns (best: Option<Id>)
    ensures IsFirstConflict(t, q, best)
  {
    hide Candidate;
    best := None;
    var rest := t.Keys;
    while rest != {}
      invariant rest <= t.Keys
      invariant best.Some? ==> best.value in t && Candidate(t[best.value], q) && t[best.value].blockHeight.Some?
      invariant forall i | i in t && i !in rest && Candidate(t[i], q) ::
        best.Some? && t[i].blockHeight.Some? && t[best.value].blockHeight.value <= t[i].blockHeight.value
      decreases |rest|
    {
      var i :| i in rest;
      rest := rest - {i};
      CandidateHasHeight(t[i], q);
      if Candidate(t[i], q) && (best.None? || t[i].blockHeight.value < t[best.value].blockHeight.value) {
        best := Some(i);
      }
    }
  }

  lemma CandidateHasHeight(a: Attempt, q: Query)
    ensures Candidate(a, q) ==> a.blockHeight.Some?
  {
  }

  /** A confirmed attempt of the wallet, other than `exclude`, that spends the input and is
      pinned at or below a height. */
  predicate SpentBy(a: Attempt, wallet: Id, exclude: TxHash, input: InputRef, highest: int) {
    && a.status == Confirmed && a.base.walletId == wallet && a.base.txHash != exclude
    && (exists k :: 0 <= k < |a.base.spentInputs| && a.base.spentInputs[k] == input)
    && a.blockHeight.Some? && a.blockHeight.value <= highest
  }

  lemma CandidateIffSpentBy(a: Attempt, q: Query)
    ensures Candidate(a, q) <==> SpentBy(a, q.walletId, q.excludeTx, q.input, q.tip + 1 - q.depth)
  {
  }

  /** Nothing exactly when no such attempt is deep enough; otherwise one of least height
      with the blocks from its own to the tip, and one for a height above the tip. */
  method SettlementDeepConflictingSpend(t: Table, q: Query) returns (r: Result<Option<Conflict>, QueryError>)
    ensures r.Err? <==> q.tip > I64_MAX || q.depth > I64_MAX
    ensures r.Ok? ==>
      var highest := q.tip + 1 - q.depth;
      match r.value
      case None => forall i | i in t :: !SpentBy(t[i], q.walletId, q.excludeTx, q.input, highest)
      case Some(conflict) => exists i | i in t && SpentBy(t[i], q.walletId, q.excludeTx, q.input, highest) ::
        && conflict.txHash == t[i].base.txHash
        && conflict.depth == (if t[i].blockHeight.value > q.tip then 1 else q.tip - t[i].blockHeight.value + 1)
        && forall j | j in t && SpentBy(t[j], q.walletId, q.excludeTx, q.input, highest) ::
             t[i].blockHeight.value <= t[j].blockHeight.value
  {
    hide SpentBy, Candidate;
    if q.tip > I64_MAX || q.depth > I64_MAX {
      return Err(HeightOverflow);
    }
    var best := FirstConflict(t, q);
    forall i | i in t ensures Candidate(t[i], q) <==>
      SpentBy(t[i], q.walletId, q.excludeTx, q.input, q.tip + 1 - q.depth)
    {
      CandidateIffSpentBy(t[i], q);
    }
    if best.None? {
      return Ok(None);
    }
    CandidateHasHeight(t[best.value], q);
    return Ok(Some(ConflictOf(t[best.value], q)));
  }

  /** The reported depth reaches the threshold, and is the exact confirmation depth
      unless no depth was asked for and the conflict sits one block above the tip. */
  lemma ReportedDepth(a: Attempt, q: Query)
    requires Candidate(a, q)
    ensures ConflictOf(a, q).depth >= q.depth
    ensures ConflictOf(a, q).depth == q.tip - a.blockHeight.value + 1 <==>
      !(q.depth == 0 && a.blockHeight.value == q.tip + 1)
  {
  }

  // ----- The chain

  /** What each transaction spends. */
  type Spending = TxHash -> set<InputRef>

  /** A buried conflicting transaction. */
  datatype Grave = Grave(killer: TxHash, height: nat)

  /** The rows, the blocks by height, the highest tip ever, and the proofs of death. */
  datatype World = World(rows: Table, chain: seq<set<TxHash>>, maxTip: nat, dead: map<TxHash, Grave>)

  predicate OnChain(chain: seq<set<TxHash>>, tx: TxHash) {
    exists h | 0 <= h < |chain| :: tx in chain[h]
  }

  /** No two transactions of the chain spend one output. */
  ghost predicate NoDoubleSpend(spends: Spending, chain: seq<set<TxHash>>) {
    forall g, h, x, y | 0 <= g < |chain| && 0 <= h < |chain| && x in chain[g] && y in chain[h] && x != y ::
      spends(x) !! spends(y)
  }

  /** A row records inputs its transaction really spends. */
  predicate Truthful(spends: Spending, a: NewAttempt) {
    forall k | 0 <= k < |a.spentInputs| :: a.spentInputs[k] in spends(a.txHash)
  }

  datatype Step =
    | Extend(txs: set<TxHash>)
    | Rollback(height: nat)
    | Update(transition: Transition)
    | Prove(id: Id, input: InputRef, tip: nat, winner: Id)

  /** What may happen next: blocks that double-spend nothing, rollbacks above the
      settlement depth, rows that tell the truth, and proofs read off a pinned height
      that is true at that moment. */
  ghost predicate Allowed(spends: Spending, depth: nat, w: World, s: Step) {
    match s
    case Extend(txs) => NoDoubleSpend(spends, w.chain + [txs])
    case Rollback(length) => length <= |w.chain| && length + depth >= w.maxTip + 2
    case Update(transition) => transition.Record? ==> Truthful(spends, transition.attempt)
    case Prove(id, input, tip, winner) =>
      && id in w.rows && input in w.rows[id].base.spentInputs && tip <= w.maxTip
      && var q := Query(w.rows[id].base.walletId, w.rows[id].base.txHash, input, tip, depth);
      && IsFirstConflict(w.rows, q, Some(winner))
      && var height := w.rows[winner].blockHeight.value;
      && height < |w.chain| && w.rows[winner].base.txHash in w.chain[height]
  }

  ghost function Next(spends: Spending, depth: nat, w: World, s: Step): World
    requires Inv(w.rows) && Allowed(spends, depth, w, s)
  {
    match s
    case Extend(txs) => w.(chain := w.chain + [txs], maxTip := if |w.chain| > w.maxTip then |w.chain| else w.maxTip)
    case Rollback(length) => w.(chain := w.chain[..length])
    case Update(transition) => w.(rows := Apply(w.rows, transition))
    case Prove(id, input, tip, winner) =>
      w.(dead := w.dead[w.rows[id].base.txHash := Grave(w.rows[winner].base.txHash, w.rows[winner].blockHeight.value)])
  }

  /** A dead transaction conflicts with one that is on the chain below any rollback. */
  predicate Buried(spends: Spending, depth: nat, chain: seq<set<TxHash>>, maxTip: nat, tx: TxHash, g: Grave) {
    && g.height < |chain| && g.height + depth <= maxTip + 1
    && g.killer in chain[g.height] && g.killer != tx && spends(g.killer) * spends(tx) != {}
  }

  ghost predicate WorldInv(spends: Spending, depth: nat, w: World) {
    && Inv(w.rows) && NoDoubleSpend(spends, w.chain)
    && (forall i | i in w.rows :: Truthful(spends, w.rows[i].base))
    && (forall tx | tx in w.dead :: Buried(spends, depth, w.chain, w.maxTip, tx, w.dead[tx]))
  }

  lemma ConflictExcludes(spends: Spending, chain: seq<set<TxHash>>, x: TxHash, y: TxHash)
    requires NoDoubleSpend(spends, chain) && x != y && spends(x) * spends(y) != {} && OnChain(chain, x)
    ensures !OnChain(chain, y)
  {
  }

  lemma BuriedStaysOffChain(spends: Spending, depth: nat, w: World, tx: TxHash)
    requires WorldInv(spends, depth, w) && tx in w.dead
    ensures !OnChain(w.chain, tx)
  {
    hide Inv, NoDoubleSpend;
    var g := w.dead[tx];
    assert Buried(spends, depth, w.chain, w.maxTip, tx, g);
    ConflictExcludes(spends, w.chain, g.killer, tx);
  }

  lemma ApplyKeepsTruth(spends: Spending, t: Table, s: Transition)
    requires Inv(t) && forall i | i in t :: Truthful(spends, t[i].base)
    requires s.Record? ==> Truthful(spends, s.attempt)
    ensures forall i | i in Apply(t, s) :: Truthful(spends, Apply(t, s)[i].base)
  {
    hide Truthful, Inv;
    InvHasUniqueTxs(t);
    StepExtends(t, s);
    var u := Apply(t, s);
    forall i | i in u ensures Truthful(spends, u[i].base) {
      NewRowsAreRecorded(t, s, i);
    }
  }

  lemma NewRowsAreRecorded(t: Table, s: Transition, i: Id)
    requires TxHashesUnique(t) && i in Apply(t, s)
    ensures i in t || (s.Record? && Apply(t, s)[i].base == s.attempt)
  {
    hide TxHashesUnique, OneActivePerRecord, InputsIntersect, HasActive, HasTx, RowAfter, RejectRow, UnsupersedeRow;
  }

  lemma ProofBuries(spends: Spending, depth: nat, w: World, id: Id, input: InputRef, tip: nat, winner: Id)
    requires WorldInv(spends, depth, w) && Allowed(spends, depth, w, Prove(id, input, tip, winner))
    ensures Buried(spends, depth, w.chain, w.maxTip, w.rows[id].base.txHash,
                   Grave(w.rows[winner].base.txHash, w.rows[winner].blockHeight.value))
  {
    hide Inv, NoDoubleSpend;
    var loser, killer := w.rows[id].base, w.rows[winner].base;
    assert Truthful(spends, loser) && Truthful(spends, killer);
    assert input in spends(loser.txHash) && input in spends(killer.txHash);
    assert input in spends(killer.txHash) * spends(loser.txHash);
  }

  /** Rollbacks only shorten the chain, so they double-spend nothing. */
  lemma PrefixKeepsNoDoubleSpend(spends: Spending, chain: seq<set<TxHash>>, length: nat)
    requires NoDoubleSpend(spends, chain) && length <= |chain|
    ensures NoDoubleSpend(spends, chain[..length])
  {
    var cut := chain[..length];
    forall g, h, x, y | 0 <= g < |cut| && 0 <= h < |cut| && x in cut[g] && y in cut[h] && x != y
      ensures spends(x) !! spends(y)
    {
      assert x in chain[g] && y in chain[h];
    }
  }

  /** A grave outlives every longer chain and every shorter one that still holds it. */
  lemma GraveKept(spends: Spending, depth: nat, w: World, chain: seq<set<TxHash>>, maxTip: nat, tx: TxHash)
    requires tx in w.dead && Buried(spends, depth, w.chain, w.maxTip, tx, w.dead[tx]) && maxTip >= w.maxTip
    requires w.chain <= chain || (chain <= w.chain && |chain| + depth >= w.maxTip + 2)
    ensures Buried(spends, depth, chain, maxTip, tx, w.dead[tx])
  {
  }

  lemma StepKeepsWorld(spends: Spending, depth: nat, w: World, s: Step)
    requires WorldInv(spends, depth, w) && Allowed(spends, depth, w, s)
    ensures WorldInv(spends, depth, Next(spends, depth, w, s))
    ensures w.dead.Keys <= Next(spends, depth, w, s).dead.Keys
  {
    hide Inv, NoDoubleSpend, Truthful, Buried;
    var v := Next(spends, depth, w, s);
    if !s.Update? && !s.Prove? {
      if s.Rollback? {
        PrefixKeepsNoDoubleSpend(spends, w.chain, s.height);
      }
      forall tx | tx in v.dead ensures Buried(spends, depth, v.chain, v.maxTip, tx, v.dead[tx]) {
        GraveKept(spends, depth, w, v.chain, v.maxTip, tx);
      }
    } else if s.Update? {
      StepKeepsInv(w.rows, s.transition);
      ApplyKeepsTruth(spends, w.rows, s.transition);
    } else {
      ProofBuries(spends, depth, w, s.id, s.input, s.tip, s.winner);
    }
  }

  // ----- Every run

  ghost predicate AllowedRun(spends: Spending, depth: nat, w: World, steps: seq<Step>)
    decreases |steps|
  {
    steps == [] || (Inv(w.rows) && Allowed(spends, depth, w, steps[0])
                    && AllowedRun(spends, depth, Next(spends, depth, w, steps[0]), steps[1..]))
  }

  ghost function WorldRun(spends: Spending, depth: nat, w: World, steps: seq<Step>): World
    requires AllowedRun(spends, depth, w, steps)
    decreases |steps|
  {
    if steps == [] then w else WorldRun(spends, depth, Next(spends, depth, w, steps[0]), steps[1..])
  }

  lemma {:induction false} RunKeepsWorld(spends: Spending, depth: nat, w: World, steps: seq<Step>)
    requires WorldInv(spends, depth, w) && AllowedRun(spends, depth, w, steps)
    ensures WorldInv(spends, depth, WorldRun(spends, depth, w, steps))
    ensures w.dead.Keys <= WorldRun(spends, depth, w, steps).dead.Keys
    ensures Extends(w.rows, WorldRun(spends, depth, w, steps).rows)
    decreases |steps|
  {
    hide Inv, Allowed, Descends, NoDoubleSpend, Buried, Truthful;
    RunExtends(w.rows, []);
    if steps != [] {
      var v := Next(spends, depth, w, steps[0]);
      StepKeepsWorld(spends, depth, w, steps[0]);
      if steps[0].Update? {
        StepExtends(w.rows, steps[0].transition);
      }
      RunKeepsWorld(spends, depth, v, steps[1..]);
      ExtendsTransitive(w.rows, v.rows, WorldRun(spends, depth, v, steps[1..]).rows);
    }
  }

  lemma ExtendsTransitive(t: Table, u: Table, v: Table)
    requires Extends(t, u) && Extends(u, v)
    ensures Extends(t, v)
  {
    hide Descends;
    forall i | i in t ensures i in v && Descends(t[i], v[i]) {
      DescendsTransitive(t[i], u[i], v[i]);
    }
  }

  /** A transaction proved dead is never on the chain again, whatever blocks,
      rollbacks, and updates follow. */
  lemma DeadForGood(spends: Spending, depth: nat, w: World, tx: TxHash, steps: seq<Step>)
    requires WorldInv(spends, depth, w) && tx in w.dead && AllowedRun(spends, depth, w, steps)
    ensures !OnChain(WorldRun(spends, depth, w, steps).chain, tx)
  {
    hide Inv, Allowed, WorldInv, OnChain;
    RunKeepsWorld(spends, depth, w, steps);
    BuriedStaysOffChain(spends, depth, WorldRun(spends, depth, w, steps), tx);
  }

  /** An attempt abandoned any time after its proof of death stays abandoned, and its
      transaction stays off the chain. The update takes effect unless the attempt is
      confirmed at that moment. */
  lemma AbandonedForGood(spends: Spending, depth: nat, w: World, proof: Step, before: seq<Step>, after: seq<Step>)
    requires WorldInv(spends, depth, w) && proof.Prove? && Allowed(spends, depth, w, proof)
    requires AllowedRun(spends, depth, Next(spends, depth, w, proof), before)
    requires AllowedRun(spends, depth, Abandoned(spends, depth, w, proof, before), after)
    ensures var waiting := WorldRun(spends, depth, Next(spends, depth, w, proof), before);
      var end := WorldRun(spends, depth, Abandoned(spends, depth, w, proof, before), after);
      && !OnChain(end.chain, w.rows[proof.id].base.txHash)
      && proof.id in waiting.rows && proof.id in end.rows
      && end.rows[proof.id].base == w.rows[proof.id].base
      && (!waiting.rows[proof.id].status.Confirmed? ==> end.rows[proof.id].status.Abandoned?)
  {
    hide Inv, WorldInv, OnChain, Descends;
    WorldRows(spends, depth, w);
    var proved := Next(spends, depth, w, proof);
    StepKeepsWorld(spends, depth, w, proof);
    RunKeepsWorld(spends, depth, proved, before);
    var waiting := WorldRun(spends, depth, proved, before);
    WorldRows(spends, depth, waiting);
    assert Descends(w.rows[proof.id], waiting.rows[proof.id]);
    StepKeepsWorld(spends, depth, waiting, Update(MarkAbandoned(proof.id)));
    var abandoned := Abandoned(spends, depth, w, proof, before);
    RunKeepsWorld(spends, depth, abandoned, after);
    DeadForGood(spends, depth, abandoned, w.rows[proof.id].base.txHash, after);
    var end := WorldRun(spends, depth, abandoned, after);
    LateRow(waiting.rows[proof.id], w.rows[proof.id], abandoned.rows[proof.id], end.rows[proof.id]);
  }

  lemma LateRow(waiting: Attempt, first: Attempt, abandoned: Attempt, last: Attempt)
    requires Descends(first, waiting) && Descends(abandoned, last)
    requires abandoned == if MarkAbandonedRow(waiting).Some? then MarkAbandonedRow(waiting).value else waiting
    ensures last.base == first.base && (!waiting.status.Confirmed? ==> last.status.Abandoned?)
  {
  }

  lemma WorldRows(spends: Spending, depth: nat, w: World)
    requires WorldInv(spends, depth, w)
    ensures Inv(w.rows) && TxHashesUnique(w.rows)
  {
  }

  /** The world once the proved attempt is marked abandoned. */
  ghost function Abandoned(spends: Spending, depth: nat, w: World, proof: Step, before: seq<Step>): World
    requires WorldInv(spends, depth, w) && proof.Prove? && Allowed(spends, depth, w, proof)
    requires AllowedRun(spends, depth, Next(spends, depth, w, proof), before)
  {
    StepKeepsWorld(spends, depth, w, proof);
    RunKeepsWorld(spends, depth, Next(spends, depth, w, proof), before);
    Next(spends, depth, WorldRun(spends, depth, Next(spends, depth, w, proof), before), Update(MarkAbandoned(proof.id)))
  }

  /** Rows joined by a superseded-by link conflict: the chain never holds both. */
  lemma LinkedRowsNeverBothLand(spends: Spending, depth: nat, w: World, id: Id)
    requires WorldInv(spends, depth, w) && id in w.rows && w.rows[id].supersededBy.Some?
    ensures w.rows[id].supersededBy.value in w.rows
    ensures !(OnChain(w.chain, w.rows[id].base.txHash)
              && OnChain(w.chain, w.rows[w.rows[id].supersededBy.value].base.txHash))
  {
    hide NoDoubleSpend, OnChain;
    var heir := w.rows[id].supersededBy.value;
    var a, b := w.rows[id].base, w.rows[heir].base;
    assert LinkOk(w.rows[id], w.rows[heir]);
    assert Truthful(spends, a) && Truthful(spends, b);
    var l, r :| 0 <= l < |b.spentInputs| && 0 <= r < |a.spentInputs| && b.spentInputs[l] == a.spentInputs[r];
    assert a.spentInputs[r] in spends(a.txHash) * spends(b.txHash);
    if OnChain(w.chain, a.txHash) {
      ConflictExcludes(spends, w.chain, a.txHash, b.txHash);
    }
  }

  // ----- The rollback bound is tight

  const GENESIS := World(map[], [], 0, map[])

  lemma GenesisInv(spends: Spending, depth: nat)
    ensures WorldInv(spends, depth, GENESIS)
  {
    hide Inv;
    EveryRunKeepsInv([]);
  }

  /** One more step at the end of a run. */
  lemma {:induction false} WorldRunThen(spends: Spending, depth: nat, w: World, steps: seq<Step>, s: Step)
    requires WorldInv(spends, depth, w) && AllowedRun(spends, depth, w, steps)
    requires Allowed(spends, depth, WorldRun(spends, depth, w, steps), s)
    ensures WorldInv(spends, depth, WorldRun(spends, depth, w, steps))
    ensures AllowedRun(spends, depth, w, steps + [s])
    ensures WorldRun(spends, depth, w, steps + [s]) == Next(spends, depth, WorldRun(spends, depth, w, steps), s)
    decreases |steps|
  {
    hide Inv, Allowed, WorldInv, Next;
    WorldRows(spends, depth, w);
    if steps == [] {
      assert [s][1..] == [] && [] + [s] == [s];
      var v := Next(spends, depth, w, s);
      assert AllowedRun(spends, depth, v, [s][1..]);
    } else {
      var v := Next(spends, depth, w, steps[0]);
      StepKeepsWorld(spends, depth, w, steps[0]);
      WorldRunThen(spends, depth, v, steps[1..], s);
      assert (steps + [s])[1..] == steps[1..] + [s];
    }
  }

  function Killer(tx: TxHash, input: InputRef): NewAttempt {
    NewAttempt(Publish, Some(1), 0, tx, 0, [input], None)
  }

  function Victim(tx: TxHash, input: InputRef): NewAttempt {
    NewAttempt(Publish, Some(2), 0, tx, 0, [input], None)
  }

  /** Both recorded, the killer sent. */
  function Sent(killer: TxHash, dead: TxHash, input: InputRef): Table {
    map[0 := NewRow(Killer(killer, input), 0).(status := Broadcast, mempoolEnteredAt := Some(0)),
        1 := NewRow(Victim(dead, input), 1)]
  }

  function Landed(killer: TxHash, dead: TxHash, input: InputRef): Table {
    Sent(killer, dead, input)[0 := Sent(killer, dead, input)[0].(
      status := Confirmed, blockHeight := Some(0), blockTime := Some(0), firstSeen := Some(0))]
  }

  /** The killer in the first block, and empty blocks above it. */
  function Burial(killer: TxHash, length: nat): seq<set<TxHash>>
    requires length >= 1
  {
    if length == 1 then [{killer}] else Burial(killer, length - 1) + [{}]
  }

  lemma {:induction false} BurialHoldsKiller(killer: TxHash, length: nat)
    requires length >= 1
    ensures |Burial(killer, length)| == length && Burial(killer, length)[0] == {killer}
    ensures forall h, x | 0 <= h < length && x in Burial(killer, length)[h] :: x == killer
  {
    if length > 1 {
      BurialHoldsKiller(killer, length - 1);
    }
  }

  lemma RowsSent(killer: TxHash, dead: TxHash, input: InputRef)
    requires killer != dead
    ensures var first: Table := map[0 := NewRow(Killer(killer, input), 0)];
      var both := first[1 := NewRow(Victim(dead, input), 1)];
      && TxHashesUnique(map[]) && TxHashesUnique(first) && TxHashesUnique(both)
      && Apply(map[], Record(0, Killer(killer, input), true)) == first
      && Apply(first, Record(1, Victim(dead, input), true)) == both
      && Apply(both, MarkBroadcast(0, 0)) == Sent(killer, dead, input)
  {
    var first: Table := map[0 := NewRow(Killer(killer, input), 0)];
    assert |first| == 1 && !HasActive(first, Some(2)) && !HasTx(first, dead);
  }

  lemma RowsLanded(killer: TxHash, dead: TxHash, input: InputRef)
    requires killer != dead
    ensures TxHashesUnique(Sent(killer, dead, input))
    ensures Apply(Sent(killer, dead, input), MarkConfirmed(0, 0, 0, 0)) == Landed(killer, dead, input)
  {
  }

  /** The two attempts recorded, and the killer sent. */
  lemma ReachSent(spends: Spending, depth: nat, killer: TxHash, dead: TxHash, input: InputRef)
      returns (steps: seq<Step>)
    requires killer != dead && input in spends(killer) * spends(dead)
    ensures AllowedRun(spends, depth, GENESIS, steps)
    ensures WorldRun(spends, depth, GENESIS, steps) == World(Sent(killer, dead, input), [], 0, map[])
  {
    hide Inv, WorldInv, Apply, Sent, TxHashesUnique;
    GenesisInv(spends, depth);
    RowsSent(killer, dead, input);
    steps := [];
    WorldRunThen(spends, depth, GENESIS, steps, Update(Record(0, Killer(killer, input), true)));
    steps := steps + [Update(Record(0, Killer(killer, input), true))];
    WorldRunThen(spends, depth, GENESIS, steps, Update(Record(1, Victim(dead, input), true)));
    steps := steps + [Update(Record(1, Victim(dead, input), true))];
    WorldRunThen(spends, depth, GENESIS, steps, Update(MarkBroadcast(0, 0)));
    steps := steps + [Update(MarkBroadcast(0, 0))];
  }

  /** The killer buried under as many blocks as asked for. */
  lemma {:induction false} ReachBurial(spends: Spending, depth: nat, killer: TxHash, dead: TxHash, input: InputRef,
      length: nat) returns (steps: seq<Step>)
    requires killer != dead && input in spends(killer) * spends(dead) && length >= 1
    ensures AllowedRun(spends, depth, GENESIS, steps)
    ensures WorldRun(spends, depth, GENESIS, steps)
         == World(Sent(killer, dead, input), Burial(killer, length), length - 1, map[])
    decreases length
  {
    hide Inv, WorldInv, Sent, WorldRun, AllowedRun;
    GenesisInv(spends, depth);
    BurialHoldsKiller(killer, length);
    var block: set<TxHash>;
    if length == 1 {
      steps := ReachSent(spends, depth, killer, dead, input);
      block := {killer};
      assert [] + [block] == Burial(killer, length);
    } else {
      BurialHoldsKiller(killer, length - 1);
      steps := ReachBurial(spends, depth, killer, dead, input, length - 1);
      block := {};
    }
    WorldRunThen(spends, depth, GENESIS, steps, Extend(block));
    steps := steps + [Extend(block)];
  }

  /** The killer confirmed, at the depth asked for. */
  lemma ReachLanded(spends: Spending, depth: nat, killer: TxHash, dead: TxHash, input: InputRef)
      returns (steps: seq<Step>)
    requires depth >= 1 && killer != dead && input in spends(killer) * spends(dead)
    ensures AllowedRun(spends, depth, GENESIS, steps)
    ensures WorldRun(spends, depth, GENESIS, steps)
         == World(Landed(killer, dead, input), Burial(killer, depth), depth - 1, map[])
  {
    hide Inv, WorldInv, WorldRun, AllowedRun, Sent, Landed, Apply;
    GenesisInv(spends, depth);
    steps := ReachBurial(spends, depth, killer, dead, input, depth);
    RowsLanded(killer, dead, input);
    var confirm := Update(MarkConfirmed(0, 0, 0, 0));
    WorldRunThen(spends, depth, GENESIS, steps, confirm);
    steps := steps + [confirm];
  }

  lemma LandedTxs(killer: TxHash, dead: TxHash, input: InputRef)
    ensures var rows := Landed(killer, dead, input);
      && 0 in rows && rows[0].base.txHash == killer && rows[0].blockHeight == Some(0)
      && 1 in rows && rows[1].base.txHash == dead
  {
  }

  /** At every depth a run from the empty table proves a transaction dead that a rollback
      one block deeper than allowed would let land: the bound cannot be relaxed. */
  lemma RollbackBoundIsTight(spends: Spending, depth: nat, killer: TxHash, dead: TxHash, input: InputRef)
      returns (steps: seq<Step>)
    requires depth >= 1 && killer != dead && input in spends(killer) * spends(dead)
    ensures AllowedRun(spends, depth, GENESIS, steps)
    ensures var w := WorldRun(spends, depth, GENESIS, steps);
      && WorldInv(spends, depth, w) && dead in w.dead && |w.chain| == depth
      && Allowed(spends, depth, w, Rollback(1)) && !Allowed(spends, depth, w, Rollback(0))
      && NoDoubleSpend(spends, w.chain[..0] + [{dead}]) && OnChain(w.chain[..0] + [{dead}], dead)
  {
    hide Inv, WorldInv, WorldRun, AllowedRun, Landed, IsFirstConflict;
    GenesisInv(spends, depth);
    steps := ReachLanded(spends, depth, killer, dead, input);
    BurialHoldsKiller(killer, depth);
    LandedTxs(killer, dead, input);
    var proof := Prove(1, input, depth - 1, 0);
    ProofAllowed(spends, depth, killer, dead, input);
    WorldRunThen(spends, depth, GENESIS, steps, proof);
    var w := WorldRun(spends, depth, GENESIS, steps);
    steps := steps + [proof];
    RunKeepsWorld(spends, depth, GENESIS, steps);
    assert w.chain[..0] + [{dead}] == [{dead}];
    LandsAlone(spends, dead);
  }

  lemma LandsAlone(spends: Spending, tx: TxHash)
    ensures NoDoubleSpend(spends, [{tx}]) && OnChain([{tx}], tx)
  {
    assert tx in [{tx}][0];
  }

  lemma ProofAllowed(spends: Spending, depth: nat, killer: TxHash, dead: TxHash, input: InputRef)
    requires depth >= 1 && killer != dead
    ensures Allowed(spends, depth, World(Landed(killer, dead, input), Burial(killer, depth), depth - 1, map[]),
                    Prove(1, input, depth - 1, 0))
  {
    BurialHoldsKiller(killer, depth);
    var rows := Landed(killer, dead, input);
    var q := Query(0, dead, input, depth - 1, depth);
    assert rows[0].base.spentInputs == [input] && rows[1].base.spentInputs == [input];
    assert Candidate(rows[0], q) && !Candidate(rows[1], q);
  }
}
