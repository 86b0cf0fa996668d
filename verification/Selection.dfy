/** Deterministic coin selection: a strict total order on candidates, and the
    shortest covering prefix of the ordered list. */
module Selection {
  import opened Bytes
  import opened PoeTx
  import opened Wrappers

  // ----- Totals

  function TotalLovelace(cs: seq<Candidate>): u64 {
    if cs == [] then 0 else Saturate(TotalLovelace(cs[..|cs| - 1]) + cs[|cs| - 1].lovelace)
  }

  ghost function Sum(cs: seq<Candidate>): nat {
    if cs == [] then 0 else Sum(cs[..|cs| - 1]) + cs[|cs| - 1].lovelace
  }

  lemma {:induction false} TotalIsSaturatedSum(cs: seq<Candidate>)
    ensures TotalLovelace(cs) == Saturate(Sum(cs))
  {
    if cs != [] {
      TotalIsSaturatedSum(cs[..|cs| - 1]);
    }
  }

  lemma {:induction false} SumMonotone(cs: seq<Candidate>, m: nat, n: nat)
    requires m <= n <= |cs|
    ensures Sum(cs[..m]) <= Sum(cs[..n])
    decreases n
  {
    if m < n {
      assert cs[..n][..n - 1] == cs[..n - 1];
      SumMonotone(cs, m, n - 1);
    }
  }

  // ----- Covering prefix

  /** Length of the shortest non-empty prefix worth at least `target`. */
  function CoverFrom(ordered: seq<Candidate>, target: u64, n: nat): Option<nat>
    decreases |ordered| - n
  {
    if n > |ordered| then None
    else if TotalLovelace(ordered[..n]) >= target then Some(n)
    else CoverFrom(ordered, target, n + 1)
  }

  method Cover(ordered: seq<Candidate>, target: u64) returns (r: Option<nat>)
    ensures r == CoverFrom(ordered, target, 1)
    ensures r.Some? ==>
      && 1 <= r.value <= |ordered| && TotalLovelace(ordered[..r.value]) >= target
      && forall m | 1 <= m < r.value :: TotalLovelace(ordered[..m]) < target
    ensures r.None? ==> forall m | 1 <= m <= |ordered| :: TotalLovelace(ordered[..m]) < target
  {
    var total: u64 := 0;
    for i := 0 to |ordered|
      invariant total == TotalLovelace(ordered[..i])
      invariant CoverFrom(ordered, target, i + 1) == CoverFrom(ordered, target, 1)
      invariant forall m | 1 <= m <= i :: TotalLovelace(ordered[..m]) < target
    {
      assert ordered[..i + 1][..i] == ordered[..i];
      total := Saturate(total + ordered[i].lovelace);
      if total >= target {
        return Some(i + 1);
      }
    }
    return None;
  }

  // ----- The order

  /** Byte-wise lexicographic order. */
  predicate BytesLeq(a: seq<byte>, b: seq<byte>) {
    if a == [] then true
    else if b == [] then false
    else if a[0] == b[0] then BytesLeq(a[1..], b[1..])
    else a[0] < b[0]
  }

  lemma {:induction false} BytesTotal(a: seq<byte>, b: seq<byte>)
    ensures BytesLeq(a, b) || BytesLeq(b, a)
    ensures BytesLeq(a, b) && BytesLeq(b, a) ==> a == b
  {
    if a != [] && b != [] && a[0] == b[0] {
      BytesTotal(a[1..], b[1..]);
      assert a == [a[0]] + a[1..] && b == [b[0]] + b[1..];
    }
  }

  lemma {:induction false} BytesTransitive(a: seq<byte>, b: seq<byte>, c: seq<byte>)
    requires BytesLeq(a, b) && BytesLeq(b, c)
    ensures BytesLeq(a, c)
  {
    if a != [] && b != [] && c != [] && a[0] == b[0] == c[0] {
      BytesTransitive(a[1..], b[1..], c[1..]);
    }
  }

  /** Order of references: transaction-hash bytes, then output index. Entries equal
      on both are duplicates, which no build accepts; the lovelace breaks that tie. */
  predicate ReferenceLeq(a: Candidate, b: Candidate) {
    if a.txId != b.txId then BytesLeq(a.txId, b.txId)
    else if a.index != b.index then a.index < b.index
    else a.lovelace <= b.lovelace
  }

  /** Selection order: largest lovelace first, then the reference. */
  predicate PriorityLeq(a: Candidate, b: Candidate) {
    if a.lovelace != b.lovelace then a.lovelace > b.lovelace else ReferenceLeq(a, b)
  }

  type Order = (Candidate, Candidate) -> bool

  ghost predicate IsTotalOrder(leq: Order) {
    && (forall a, b :: leq(a, b) || leq(b, a))
    && (forall a, b :: leq(a, b) && leq(b, a) ==> a == b)
    && (forall a, b, c :: leq(a, b) && leq(b, c) ==> leq(a, c))
  }

  lemma ReferenceTransitive(a: Candidate, b: Candidate, c: Candidate)
    requires ReferenceLeq(a, b) && ReferenceLeq(b, c)
    ensures ReferenceLeq(a, c)
  {
    if a.txId != b.txId && b.txId != c.txId {
      BytesTransitive(a.txId, b.txId, c.txId);
      BytesTotal(a.txId, b.txId);
    }
  }

  lemma OrdersAreTotal()
    ensures IsTotalOrder(ReferenceLeq) && IsTotalOrder(PriorityLeq)
  {
    forall a: Candidate, b: Candidate
      ensures ReferenceLeq(a, b) || ReferenceLeq(b, a)
      ensures ReferenceLeq(a, b) && ReferenceLeq(b, a) ==> a == b
    {
      BytesTotal(a.txId, b.txId);
    }
    forall a: Candidate, b: Candidate, c: Candidate | ReferenceLeq(a, b) && ReferenceLeq(b, c)
      ensures ReferenceLeq(a, c)
    {
      ReferenceTransitive(a, b, c);
    }
  }

  // ----- Sorting

  ghost predicate Sorted(leq: Order, cs: seq<Candidate>) {
    forall i, j | 0 <= i < j < |cs| :: leq(cs[i], cs[j])
  }

  function Insert(leq: Order, c: Candidate, cs: seq<Candidate>): (r: seq<Candidate>)
    ensures multiset(r) == multiset(cs) + multiset{c}
  {
    if cs == [] then [c]
    else if leq(c, cs[0]) then
      assert [c] + cs == [c] + cs[..];
      [c] + cs
    else
      assert cs == [cs[0]] + cs[1..];
      [cs[0]] + Insert(leq, c, cs[1..])
  }

  function Sort(leq: Order, cs: seq<Candidate>): (r: seq<Candidate>)
    ensures multiset(r) == multiset(cs)
  {
    if cs == [] then [] else
      assert cs == [cs[0]] + cs[1..];
      Insert(leq, cs[0], Sort(leq, cs[1..]))
  }

  lemma {:induction false} InsertSorted(leq: Order, c: Candidate, cs: seq<Candidate>)
    requires IsTotalOrder(leq) && Sorted(leq, cs)
    ensures Sorted(leq, Insert(leq, c, cs))
  {
    if cs != [] && !leq(c, cs[0]) {
      var rest := Insert(leq, c, cs[1..]);
      InsertSorted(leq, c, cs[1..]);
      forall k | 0 <= k < |rest| ensures leq(cs[0], rest[k]) {
        assert rest[k] in multiset(rest);
        if rest[k] != c {
          assert rest[k] in multiset(cs[1..]);
          assert rest[k] in cs[1..];
        }
      }
    }
  }

  lemma {:induction false} SortSorted(leq: Order, cs: seq<Candidate>)
    requires IsTotalOrder(leq)
    ensures Sorted(leq, Sort(leq, cs))
  {
    if cs != [] {
      SortSorted(leq, cs[1..]);
      InsertSorted(leq, cs[0], Sort(leq, cs[1..]));
    }
  }

  /** The first element of a sorted sequence is the least of its contents. */
  lemma SortedHead(leq: Order, xs: seq<Candidate>, ys: seq<Candidate>)
    requires IsTotalOrder(leq) && Sorted(leq, xs) && Sorted(leq, ys)
    requires multiset(xs) == multiset(ys) && xs != [] && ys != []
    ensures xs[0] == ys[0]
  {
    assert xs[0] in multiset(ys) && ys[0] in multiset(xs);
    assert leq(ys[0], xs[0]) && leq(xs[0], ys[0]);
  }

  lemma TailContents(xs: seq<Candidate>)
    requires xs != []
    ensures multiset(xs) == multiset(xs[1..]) + multiset{xs[0]}
  {
    assert xs == [xs[0]] + xs[1..];
  }

  lemma TailsAgree(xs: seq<Candidate>, ys: seq<Candidate>)
    requires multiset(xs) == multiset(ys) && xs != [] && ys != [] && xs[0] == ys[0]
    ensures multiset(xs[1..]) == multiset(ys[1..])
  {
    TailContents(xs);
    TailContents(ys);
    assert multiset(xs[1..]) == multiset(xs) - multiset{xs[0]} == multiset(ys[1..]);
  }

  lemma EmptyTogether(xs: seq<Candidate>, ys: seq<Candidate>)
    requires multiset(xs) == multiset(ys)
    ensures xs == [] <==> ys == []
  {
    assert |xs| == |multiset(xs)| == |multiset(ys)| == |ys|;
  }

  /** A collection has one sorted arrangement. */
  lemma {:induction false} SortedUnique(leq: Order, xs: seq<Candidate>, ys: seq<Candidate>)
    requires IsTotalOrder(leq) && Sorted(leq, xs) && Sorted(leq, ys) && multiset(xs) == multiset(ys)
    ensures xs == ys
  {
    hide IsTotalOrder, Sorted;
    EmptyTogether(xs, ys);
    if xs != [] {
      SortedHead(leq, xs, ys);
      TailsAgree(xs, ys);
      TailSorted(leq, xs);
      TailSorted(leq, ys);
      SortedUnique(leq, xs[1..], ys[1..]);
      assert xs == [xs[0]] + xs[1..] && ys == [ys[0]] + ys[1..];
    }
  }

  lemma TailSorted(leq: Order, xs: seq<Candidate>)
    requires Sorted(leq, xs) && xs != []
    ensures Sorted(leq, xs[1..])
  {
  }

  /** Sorting forgets the listing order. */
  lemma SortDeterministic(leq: Order, xs: seq<Candidate>, ys: seq<Candidate>)
    requires IsTotalOrder(leq) && multiset(xs) == multiset(ys)
    ensures Sort(leq, xs) == Sort(leq, ys)
  {
    SortSorted(leq, xs);
    SortSorted(leq, ys);
    SortedUnique(leq, Sort(leq, xs), Sort(leq, ys));
  }

  function Prioritise(cs: seq<Candidate>): seq<Candidate> {
    Sort(PriorityLeq, cs)
  }
}
