/** The live-stream registry: slots taken and dropped against two caps. */
module SseRegistry {
  type Account = nat

  datatype Limits = Limits(maxStreams: nat, maxStreamsPerAccount: nat)

  datatype Counts = Counts(total: nat, perAccount: map<Account, nat>)

  function CountOf(c: Counts, account: Account): nat {
    if account in c.perAccount then c.perAccount[account] else 0
  }

  /** Reserve a slot. A refusal at the account's own cap has already made its entry. */
  function TryAcquireSpec(limits: Limits, c: Counts, account: Account): (Counts, bool) {
    if c.total >= limits.maxStreams then (c, false)
    else if CountOf(c, account) >= limits.maxStreamsPerAccount
    then (c.(perAccount := c.perAccount[account := CountOf(c, account)]), false)
    else (Counts(c.total + 1, c.perAccount[account := CountOf(c, account) + 1]), true)
  }

  /** Release a slot, never below zero, and forget an account that has none left. */
  function ReleaseSpec(c: Counts, account: Account): Counts {
    Counts(
      if c.total == 0 then 0 else c.total - 1,
      if account !in c.perAccount then c.perAccount
      else if c.perAccount[account] <= 1 then c.perAccount - {account}
      else c.perAccount[account := c.perAccount[account] - 1])
  }

  class Registry {
    const limits: Limits
    var total: nat
    var perAccount: map<Account, nat>

    ghost function State(): Counts
      reads this
    {
      Counts(total, perAccount)
    }

    constructor (limits: Limits)
      ensures this.limits == limits && State() == Counts(0, map[])
    {
      this.limits := limits;
      total, perAccount := 0, map[];
    }

    method TryAcquire(account: Account) returns (acquired: bool)
      modifies this
      ensures (State(), acquired) == TryAcquireSpec(limits, old(State()), account)
    {
      if total >= limits.maxStreams {
        return false;
      }
      if account !in perAccount {
        perAccount := perAccount[account := 0];
      }
      assert perAccount == old(perAccount)[account := CountOf(old(State()), account)];
      if perAccount[account] >= limits.maxStreamsPerAccount {
        return false;
      }
      perAccount := perAccount[account := perAccount[account] + 1];
      total := total + 1;
      assert perAccount == old(perAccount)[account := CountOf(old(State()), account) + 1];
      return true;
    }

    method Release(account: Account)
      modifies this
      ensures State() == ReleaseSpec(old(State()), account)
    {
      total := if total == 0 then 0 else total - 1;
      if account in perAccount {
        perAccount := perAccount[account := if perAccount[account] == 0 then 0 else perAccount[account] - 1];
        if perAccount[account] == 0 {
          perAccount := perAccount - {account};
        }
      }
    }
  }

  // ----- Every run of opens and drops

  /** An open that asks for a slot, or the drop of one held by an account. */
  datatype Use = Open(account: Account) | Drop(account: Account)

  /** The counts, and the slots that are out. */
  datatype Streams = Streams(counts: Counts, held: multiset<Account>)

  /** A slot can be dropped only while it is held. */
  function Apply(limits: Limits, s: Streams, use: Use): Streams {
    match use
    case Open(account) =>
      var (counts, acquired) := TryAcquireSpec(limits, s.counts, account);
      Streams(counts, if acquired then s.held + multiset{account} else s.held)
    case Drop(account) =>
      if account !in s.held then s
      else Streams(ReleaseSpec(s.counts, account), s.held - multiset{account})
  }

  /** The counts are the slots out, within both caps. */
  ghost predicate Accounted(limits: Limits, s: Streams) {
    && s.counts.total == |s.held| <= limits.maxStreams
    && (forall account :: CountOf(s.counts, account) == s.held[account] <= limits.maxStreamsPerAccount)
  }

  /** No entry counts zero. */
  predicate NoZeroEntries(c: Counts) {
    forall account | account in c.perAccount :: c.perAccount[account] > 0
  }

  lemma AcquireCounts(limits: Limits, c: Counts, account: Account, other: Account)
    ensures var (d, acquired) := TryAcquireSpec(limits, c, account);
      && d.total == c.total + (if acquired then 1 else 0)
      && CountOf(d, other) == CountOf(c, other) + if acquired && other == account then 1 else 0
    ensures TryAcquireSpec(limits, c, account).1 <==>
      c.total < limits.maxStreams && CountOf(c, account) < limits.maxStreamsPerAccount
  {
  }

  lemma ReleaseCounts(c: Counts, account: Account, other: Account)
    requires c.total > 0 && CountOf(c, account) > 0
    ensures ReleaseSpec(c, account).total == c.total - 1
    ensures CountOf(ReleaseSpec(c, account), other) == CountOf(c, other) - if other == account then 1 else 0
  {
  }

  lemma ApplyKeepsAccounts(limits: Limits, s: Streams, use: Use)
    requires Accounted(limits, s)
    ensures Accounted(limits, Apply(limits, s, use))
  {
    hide TryAcquireSpec, ReleaseSpec, CountOf;
    var account := use.account;
    assert CountOf(s.counts, account) == s.held[account];
    AcquireCounts(limits, s.counts, account, account);
    if use.Drop? && account in s.held {
      assert |s.held - multiset{account}| == |s.held| - 1;
      ReleaseCounts(s.counts, account, account);
    }
    var next := Apply(limits, s, use);
    forall other ensures CountOf(next.counts, other) == next.held[other] <= limits.maxStreamsPerAccount {
      assert CountOf(s.counts, other) == s.held[other];
      AcquireCounts(limits, s.counts, account, other);
      if use.Drop? && account in s.held {
        ReleaseCounts(s.counts, account, other);
      }
    }
  }

  function Run(limits: Limits, s: Streams, uses: seq<Use>): Streams
    decreases |uses|
  {
    if uses == [] then s else Run(limits, Apply(limits, s, uses[0]), uses[1..])
  }

  const IDLE := Streams(Counts(0, map[]), multiset{})

  lemma {:induction false} RunKeepsAccounts(limits: Limits, s: Streams, uses: seq<Use>)
    requires Accounted(limits, s)
    ensures Accounted(limits, Run(limits, s, uses))
    decreases |uses|
  {
    hide Accounted, Apply;
    if uses != [] {
      ApplyKeepsAccounts(limits, s, uses[0]);
      RunKeepsAccounts(limits, Apply(limits, s, uses[0]), uses[1..]);
    }
  }

  /** However streams come and go, the caps hold and the counts are exact, so an open is
      granted exactly when the slots really out are below both caps. */
  lemma EveryRunAccounted(limits: Limits, uses: seq<Use>, account: Account)
    ensures var s := Run(limits, IDLE, uses);
      && Accounted(limits, s)
      && (TryAcquireSpec(limits, s.counts, account).1 <==>
            |s.held| < limits.maxStreams && s.held[account] < limits.maxStreamsPerAccount)
  {
    RunKeepsAccounts(limits, IDLE, uses);
    var s := Run(limits, IDLE, uses);
    AcquireCounts(limits, s.counts, account, account);
    assert CountOf(s.counts, account) == s.held[account];
  }

  lemma ApplyKeepsEntries(limits: Limits, s: Streams, use: Use)
    requires Accounted(limits, s) && NoZeroEntries(s.counts)
    requires limits.maxStreamsPerAccount >= 1 || limits.maxStreams == 0
    ensures NoZeroEntries(Apply(limits, s, use).counts)
  {
  }

  lemma {:induction false} RunKeepsEntries(limits: Limits, s: Streams, uses: seq<Use>)
    requires Accounted(limits, s) && NoZeroEntries(s.counts)
    requires limits.maxStreamsPerAccount >= 1 || limits.maxStreams == 0
    ensures NoZeroEntries(Run(limits, s, uses).counts)
    decreases |uses|
  {
    hide Accounted, Apply, NoZeroEntries;
    if uses != [] {
      ApplyKeepsAccounts(limits, s, uses[0]);
      ApplyKeepsEntries(limits, s, uses[0]);
      RunKeepsEntries(limits, Apply(limits, s, uses[0]), uses[1..]);
    }
  }

  /** The map holds only accounts with a live stream, over every run, exactly when the
      account cap admits a stream or the instance cap admits none: with a zero account
      cap under a positive instance cap, which only a caller of the library can ask for,
      a refused open leaves its entry behind. */
  lemma ZeroEntriesIff(limits: Limits)
    ensures (forall uses :: NoZeroEntries(Run(limits, IDLE, uses).counts)) <==>
      limits.maxStreamsPerAccount >= 1 || limits.maxStreams == 0
  {
    if limits.maxStreamsPerAccount >= 1 || limits.maxStreams == 0 {
      forall uses ensures NoZeroEntries(Run(limits, IDLE, uses).counts) {
        RunKeepsEntries(limits, IDLE, uses);
      }
    } else {
      var uses := [Open(0)];
      assert Run(limits, IDLE, uses) == Apply(limits, IDLE, Open(0));
      assert 0 in Run(limits, IDLE, uses).counts.perAccount;
    }
  }
}
