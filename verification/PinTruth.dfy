/** When a pinned height is true: what the proof of death assumes of the row it reads, and
    the runs that provide it. */
module PinTruth {
  import opened Ledger
  import opened LedgerTheorems
  import opened ProofOfDeath
  import opened RowHistory
  import opened Wrappers

  /** The block at the pin holds the row's transaction. */
  predicate PinTrue(chain: seq<set<TxHash>>, a: Attempt) {
    a.blockHeight.Some? ==> a.blockHeight.value < |chain| && a.base.txHash in chain[a.blockHeight.value]
  }

  /** A sighting that takes effect names a block that holds the transaction at that moment. */
  predicate SeenTruly(w: World, s: Step) {
    s.Update? && Sights(w.rows, s.transition, s.transition.id) ==>
      var height := SightedHeight(s.transition);
      height < |w.chain| && w.rows[s.transition.id].base.txHash in w.chain[height]
  }

  /** Whose pins are in doubt after a step: a rollback to at or below a pin casts doubt on
      it, and a sighting clears it. */
  function Doubt(w: World, s: Step, doubted: set<Id>): set<Id> {
    match s
    case Rollback(length) =>
      doubted + set i | i in w.rows && w.rows[i].blockHeight.Some? && w.rows[i].blockHeight.value >= length
    case Update(t) => if Sights(w.rows, t, t.id) then doubted - {t.id} else doubted
    case _ => doubted
  }

  predicate PinsTrue(w: World, doubted: set<Id>) {
    forall i | i in w.rows && i !in doubted :: PinTrue(w.chain, w.rows[i])
  }

  lemma UpdateKeepsPinsTrue(spends: Spending, depth: nat, w: World, s: Step, doubted: set<Id>)
    requires WorldInv(spends, depth, w) && Allowed(spends, depth, w, s) && s.Update?
    requires SeenTruly(w, s) && PinsTrue(w, doubted)
    ensures PinsTrue(Next(spends, depth, w, s), Doubt(w, s, doubted))
  {
    hide Inv, NoDoubleSpend, Truthful, Buried, Apply, Sights, Transmits, Yields, Resets, Reverses, Abandons, Confirms;
    WorldRows(spends, depth, w);
    var v := Next(spends, depth, w, s);
    StepExtends(w.rows, s.transition);
    forall i | i in v.rows && i !in Doubt(w, s, doubted) ensures PinTrue(v.chain, v.rows[i]) {
      if i in w.rows {
        StepRemembers(w.rows, s.transition, i);
        SightsOwnRow(w.rows, s.transition, i);
      } else {
        NewRowIsBlank(w.rows, s.transition, i);
      }
    }
  }

  lemma SightsOwnRow(t: Table, s: Transition, i: Id)
    ensures Sights(t, s, i) ==> i == s.id
  {
  }

  lemma StepKeepsPinsTrue(spends: Spending, depth: nat, w: World, s: Step, doubted: set<Id>)
    requires WorldInv(spends, depth, w) && Allowed(spends, depth, w, s)
    requires SeenTruly(w, s) && PinsTrue(w, doubted)
    ensures PinsTrue(Next(spends, depth, w, s), Doubt(w, s, doubted))
  {
    if s.Update? {
      UpdateKeepsPinsTrue(spends, depth, w, s, doubted);
    } else {
      hide Inv, NoDoubleSpend, Truthful, Buried, IsFirstConflict;
    }
  }

  // ----- Every run

  ghost predicate SeenTrulyRun(spends: Spending, depth: nat, w: World, steps: seq<Step>)
    requires AllowedRun(spends, depth, w, steps)
    decreases |steps|
  {
    steps == [] || (SeenTruly(w, steps[0]) && SeenTrulyRun(spends, depth, Next(spends, depth, w, steps[0]), steps[1..]))
  }

  ghost function DoubtRun(spends: Spending, depth: nat, w: World, steps: seq<Step>, doubted: set<Id>): set<Id>
    requires AllowedRun(spends, depth, w, steps)
    decreases |steps|
  {
    if steps == [] then doubted
    else DoubtRun(spends, depth, Next(spends, depth, w, steps[0]), steps[1..], Doubt(w, steps[0], doubted))
  }

  /** If every sighting is true when it is made, then after any run every pin is true that no
      rollback has cut since its last sighting. */
  lemma {:induction false} RunKeepsPinsTrue(spends: Spending, depth: nat, w: World, steps: seq<Step>, doubted: set<Id>)
    requires WorldInv(spends, depth, w) && AllowedRun(spends, depth, w, steps)
    requires SeenTrulyRun(spends, depth, w, steps) && PinsTrue(w, doubted)
    ensures PinsTrue(WorldRun(spends, depth, w, steps), DoubtRun(spends, depth, w, steps, doubted))
    decreases |steps|
  {
    hide WorldInv, Inv, Allowed, PinsTrue, Doubt, SeenTruly;
    if steps != [] {
      StepKeepsWorld(spends, depth, w, steps[0]);
      StepKeepsPinsTrue(spends, depth, w, steps[0], doubted);
      var v := Next(spends, depth, w, steps[0]);
      RunKeepsPinsTrue(spends, depth, v, steps[1..], Doubt(w, steps[0], doubted));
    }
  }

  /** So from the empty world a conflict whose pin is not in doubt proves its loser dead:
      the query's answer is a proof, and the loser never lands. */
  lemma UndoubtedConflictProves(spends: Spending, depth: nat, steps: seq<Step>, proof: Step, after: seq<Step>)
    requires AllowedRun(spends, depth, GENESIS, steps) && SeenTrulyRun(spends, depth, GENESIS, steps) && proof.Prove?
    requires var w := WorldRun(spends, depth, GENESIS, steps);
      && proof.id in w.rows && proof.input in w.rows[proof.id].base.spentInputs && proof.tip <= w.maxTip
      && var q := Query(w.rows[proof.id].base.walletId, w.rows[proof.id].base.txHash, proof.input, proof.tip, depth);
      && IsFirstConflict(w.rows, q, Some(proof.winner))
    requires proof.winner !in DoubtRun(spends, depth, GENESIS, steps, {})
    ensures var w := WorldRun(spends, depth, GENESIS, steps);
      && WorldInv(spends, depth, w) && Allowed(spends, depth, w, proof)
      && (AllowedRun(spends, depth, Next(spends, depth, w, proof), after) ==>
            !OnChain(WorldRun(spends, depth, Next(spends, depth, w, proof), after).chain, w.rows[proof.id].base.txHash))
  {
    hide WorldInv, Inv, OnChain, SeenTrulyRun, DoubtRun, Candidate;
    var w := WorldRun(spends, depth, GENESIS, steps);
    GenesisInv(spends, depth);
    assert PinsTrue(GENESIS, {});
    RunKeepsWorld(spends, depth, GENESIS, steps);
    WorldRows(spends, depth, w);
    RunKeepsPinsTrue(spends, depth, GENESIS, steps, {});
    assert PinTrue(w.chain, w.rows[proof.winner]);
    var loser := w.rows[proof.id].base;
    CandidateHasHeight(w.rows[proof.winner], Query(loser.walletId, loser.txHash, proof.input, proof.tip, depth));
    assert Allowed(spends, depth, w, proof);
    StepKeepsWorld(spends, depth, w, proof);
    if AllowedRun(spends, depth, Next(spends, depth, w, proof), after) {
      DeadForGood(spends, depth, Next(spends, depth, w, proof), w.rows[proof.id].base.txHash, after);
    }
  }

  /** A pin as deep as the settlement depth is out of reach of every allowed rollback. */
  lemma SettledPinUndoubted(spends: Spending, depth: nat, w: World, s: Step, doubted: set<Id>, i: Id)
    requires Allowed(spends, depth, w, s) && s.Rollback? && i in w.rows && w.rows[i].blockHeight.Some?
    requires w.rows[i].blockHeight.value + depth <= w.maxTip + 1
    ensures i in Doubt(w, s, doubted) <==> i in doubted
  {
  }

  // ----- A pin in doubt proves nothing

  /** One more step of a run from the empty world whose sightings are true. */
  lemma {:induction false} SeenTrulyThen(spends: Spending, depth: nat, w: World, steps: seq<Step>, s: Step)
    requires WorldInv(spends, depth, w) && AllowedRun(spends, depth, w, steps) && SeenTrulyRun(spends, depth, w, steps)
    requires Allowed(spends, depth, WorldRun(spends, depth, w, steps), s)
    requires SeenTruly(WorldRun(spends, depth, w, steps), s)
    ensures AllowedRun(spends, depth, w, steps + [s]) && SeenTrulyRun(spends, depth, w, steps + [s])
    decreases |steps|
  {
    hide Inv, Allowed, WorldInv, Next, SeenTruly;
    WorldRunThen(spends, depth, w, steps, s);
    if steps == [] {
      assert [s][1..] == [] && [] + [s] == [s];
    } else {
      StepKeepsWorld(spends, depth, w, steps[0]);
      SeenTrulyThen(spends, depth, Next(spends, depth, w, steps[0]), steps[1..], s);
      assert (steps + [s])[1..] == steps[1..] + [s];
    }
  }

  /** The same, from the empty world: the run and the world it reaches. */
  lemma Onward(spends: Spending, depth: nat, steps: seq<Step>, w: World, s: Step) returns (next: seq<Step>)
    requires Reaches(spends, depth, steps, w) && Allowed(spends, depth, w, s) && SeenTruly(w, s)
    ensures Inv(w.rows) && Reaches(spends, depth, next, Next(spends, depth, w, s))
  {
    hide Inv, Allowed, WorldInv, Next, SeenTruly;
    GenesisInv(spends, depth);
    RunKeepsWorld(spends, depth, GENESIS, steps);
    WorldRows(spends, depth, w);
    WorldRunThen(spends, depth, GENESIS, steps, s);
    SeenTrulyThen(spends, depth, GENESIS, steps, s);
    next := steps + [s];
  }

  /** A run from the empty world, with true sightings only, that ends in this one. */
  ghost predicate Reaches(spends: Spending, depth: nat, steps: seq<Step>, w: World) {
    && AllowedRun(spends, depth, GENESIS, steps) && SeenTrulyRun(spends, depth, GENESIS, steps)
    && WorldRun(spends, depth, GENESIS, steps) == w
  }

  lemma ReachStart(spends: Spending, depth: nat, killer: TxHash, dead: TxHash, input: InputRef)
      returns (steps: seq<Step>)
    requires killer != dead && input in spends(killer) * spends(dead)
    ensures Reaches(spends, depth, steps, World(Sent(killer, dead, input), [], 0, map[]))
  {
    hide Inv, Apply, Sent, TxHashesUnique, Reaches;
    RowsSent(killer, dead, input);
    assert Reaches(spends, depth, [], GENESIS) by { AtGenesis(spends, depth); }
    steps := Onward(spends, depth, [], GENESIS, Update(Record(0, Killer(killer, input), true)));
    var first: Table := map[0 := NewRow(Killer(killer, input), 0)];
    var w := World(first, [], 0, map[]);
    steps := Onward(spends, depth, steps, w, Update(Record(1, Victim(dead, input), true)));
    w := World(first[1 := NewRow(Victim(dead, input), 1)], [], 0, map[]);
    steps := Onward(spends, depth, steps, w, Update(MarkBroadcast(0, 0)));
  }

  lemma AtGenesis(spends: Spending, depth: nat)
    ensures Reaches(spends, depth, [], GENESIS)
  {
  }

  /** The killer lands, is confirmed, and is rolled back. */
  lemma ReachStale(spends: Spending, depth: nat, killer: TxHash, dead: TxHash, input: InputRef)
      returns (steps: seq<Step>)
    requires depth >= 2 && killer != dead && input in spends(killer) * spends(dead)
    ensures Reaches(spends, depth, steps, World(Landed(killer, dead, input), [], 0, map[]))
  {
    hide Inv, Apply, Sent, Landed, Reaches;
    steps := ReachStart(spends, depth, killer, dead, input);
    RowsLanded(killer, dead, input);
    SentTxs(killer, dead, input);
    var sent, landed := Sent(killer, dead, input), Landed(killer, dead, input);
    assert [] + [{killer}] == [{killer}] && [{killer}][..0] == [];
    steps := Onward(spends, depth, steps, World(sent, [], 0, map[]), Extend({killer}));
    var confirm := Update(MarkConfirmed(0, 0, 0, 0));
    steps := Onward(spends, depth, steps, World(sent, [{killer}], 0, map[]), confirm);
    steps := Onward(spends, depth, steps, World(landed, [{killer}], 0, map[]), Rollback(0));
  }

  lemma SentTxs(killer: TxHash, dead: TxHash, input: InputRef)
    ensures 0 in Sent(killer, dead, input) && Sent(killer, dead, input)[0].base.txHash == killer
  {
  }

  /** The other transaction lands in its place, under as many blocks as asked for. */
  lemma {:induction false} ReachMisled(spends: Spending, depth: nat, killer: TxHash, dead: TxHash, input: InputRef,
      length: nat) returns (steps: seq<Step>)
    requires depth >= 2 && killer != dead && input in spends(killer) * spends(dead) && length >= 1
    ensures Reaches(spends, depth, steps, World(Landed(killer, dead, input), Burial(dead, length), length - 1, map[]))
    decreases length
  {
    hide Inv, Landed, Reaches;
    BurialHoldsKiller(dead, length);
    var rows := Landed(killer, dead, input);
    if length == 1 {
      steps := ReachStale(spends, depth, killer, dead, input);
      assert [] + [{dead}] == Burial(dead, 1);
      steps := Onward(spends, depth, steps, World(rows, [], 0, map[]), Extend({dead}));
    } else {
      BurialHoldsKiller(dead, length - 1);
      steps := ReachMisled(spends, depth, killer, dead, input, length - 1);
      steps := Onward(spends, depth, steps, World(rows, Burial(dead, length - 1), length - 2, map[]), Extend({}));
    }
  }

  /** The condition is needed. At every depth above one there is an allowed run whose
      sightings are all true and after which the query names a killer, by a pin that a
      shallow rollback cut, while its supposed victim is on the chain. */
  lemma StalePinMisleads(spends: Spending, depth: nat, killer: TxHash, dead: TxHash, input: InputRef)
      returns (steps: seq<Step>)
    requires depth >= 2 && killer != dead && input in spends(killer) * spends(dead)
    ensures AllowedRun(spends, depth, GENESIS, steps) && SeenTrulyRun(spends, depth, GENESIS, steps)
    ensures var w := WorldRun(spends, depth, GENESIS, steps);
      && 1 in w.rows && w.rows[1].base.txHash == dead && OnChain(w.chain, dead)
      && IsFirstConflict(w.rows, Query(0, dead, input, w.maxTip, depth), Some(0))
  {
    steps := ReachMisled(spends, depth, killer, dead, input, depth);
    BurialHoldsKiller(dead, depth);
    assert dead in Burial(dead, depth)[0];
  }
}
