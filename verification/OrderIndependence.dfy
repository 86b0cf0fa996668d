/** The decision does not depend on the order in which the caller lists inputs. */
module OrderIndependence {
  import opened PoeTx
  import opened Selection
  import opened Balancer
  import opened BuildPoeTx
  import opened Wrappers

  lemma {:induction false} DecodeMiddle(a: seq<Utxo>, u: Utxo, b: seq<Utxo>)
    ensures DecodeAll(a + [u] + b).Ok? <==> DecodeAll(a + b).Ok? && DecodeOne(u).Ok?
    ensures DecodeAll(a + [u] + b).Ok? ==>
      multiset(DecodeAll(a + [u] + b).value) == multiset(DecodeAll(a + b).value) + multiset{DecodeOne(u).value}
  {
    hide DecodeOne;
    if a == [] {
      assert a + [u] + b == [u] + b && a + b == b;
      assert ([u] + b)[1..] == b;
    } else {
      assert (a + [u] + b)[1..] == a[1..] + [u] + b && (a + b)[1..] == a[1..] + b;
      DecodeMiddle(a[1..], u, b);
    }
  }

  ghost function Without(xs: seq<Utxo>, i: nat): seq<Utxo>
    requires i < |xs|
  {
    xs[..i] + xs[i + 1..]
  }

  lemma RestsAgree(us: seq<Utxo>, vs: seq<Utxo>, i: nat)
    requires multiset(us) == multiset(vs) && us != [] && i < |vs| && vs[i] == us[0]
    ensures multiset(Without(us, 0)) == multiset(Without(vs, i))
  {
    WithoutContents(us, 0);
    WithoutContents(vs, i);
    assert multiset(Without(us, 0)) == multiset(us) - multiset{us[0]} == multiset(Without(vs, i));
  }

  lemma WithoutContents(xs: seq<Utxo>, i: nat)
    requires i < |xs|
    ensures multiset(xs) == multiset(Without(xs, i)) + multiset{xs[i]}
  {
    assert xs == xs[..i] + [xs[i]] + xs[i + 1..];
  }

  lemma DecodeWithout(xs: seq<Utxo>, i: nat)
    requires i < |xs|
    ensures DecodeAll(xs).Ok? <==> DecodeAll(Without(xs, i)).Ok? && DecodeOne(xs[i]).Ok?
    ensures DecodeAll(xs).Ok? ==>
      multiset(DecodeAll(xs).value) == multiset(DecodeAll(Without(xs, i)).value) + multiset{DecodeOne(xs[i]).value}
  {
    hide DecodeAll, DecodeOne;
    assert xs == xs[..i] + [xs[i]] + xs[i + 1..];
    DecodeMiddle(xs[..i], xs[i], xs[i + 1..]);
  }

  lemma {:induction false} DecodePermuted(us: seq<Utxo>, vs: seq<Utxo>)
    requires multiset(us) == multiset(vs)
    ensures DecodeAll(us).Ok? <==> DecodeAll(vs).Ok?
    ensures DecodeAll(us).Ok? ==> multiset(DecodeAll(us).value) == multiset(DecodeAll(vs).value)
    decreases |us|
  {
    assert |us| == |multiset(us)| == |multiset(vs)| == |vs|;
    if us == [] {
      assert vs == us;
    } else {
      assert us[0] in multiset(vs);
      var i :| 0 <= i < |vs| && vs[i] == us[0];
      RestsAgree(us, vs, i);
      DecodePermutedStep(us, vs, i);
    }
  }

  lemma {:induction false} DecodePermutedStep(us: seq<Utxo>, vs: seq<Utxo>, i: nat)
    requires us != [] && i < |vs| && vs[i] == us[0]
    requires multiset(Without(us, 0)) == multiset(Without(vs, i))
    ensures DecodeAll(us).Ok? <==> DecodeAll(vs).Ok?
    ensures DecodeAll(us).Ok? ==> multiset(DecodeAll(us).value) == multiset(DecodeAll(vs).value)
    decreases |us|, 0
  {
    hide DecodeAll, DecodeOne;
    DecodeWithout(us, 0);
    DecodeWithout(vs, i);
    assert |Without(us, 0)| < |us|;
    DecodePermuted(Without(us, 0), Without(vs, i));
  }

  lemma {:induction false} DropContents(cs: seq<Candidate>, forced: seq<Candidate>, c: Candidate)
    ensures multiset(DropForcedDuplicates(cs, forced))[c] == if Listed(c, forced) then 0 else multiset(cs)[c]
  {
    hide Listed;
    if cs != [] {
      DropContents(cs[1..], forced, c);
      assert cs == [cs[0]] + cs[1..];
    }
  }

  lemma DropPermuted(cs: seq<Candidate>, ds: seq<Candidate>, forced: seq<Candidate>)
    requires multiset(cs) == multiset(ds)
    ensures multiset(DropForcedDuplicates(cs, forced)) == multiset(DropForcedDuplicates(ds, forced))
  {
    hide DropForcedDuplicates, Listed;
    var kept, other := multiset(DropForcedDuplicates(cs, forced)), multiset(DropForcedDuplicates(ds, forced));
    forall c: Candidate ensures kept[c] == other[c] {
      DropContents(cs, forced, c);
      DropContents(ds, forced, c);
    }
  }

  /** Same request up to the listing order of its inputs. */
  ghost predicate Permuted(r: BuildRequest, s: BuildRequest) {
    && multiset(r.utxos) == multiset(s.utxos)
    && multiset(r.mustSpend) == multiset(s.mustSpend)
    && s == r.(utxos := s.utxos, mustSpend := s.mustSpend)
  }

  ghost predicate BadHash<T>(r: Result<T, BuildError>) {
    r.Err? && r.error.InvalidUtxoHash?
  }

  /** Both name one repeated reference, perhaps in different spellings of its hash. */
  ghost predicate SameDuplicate<T>(r: Result<T, BuildError>, s: Result<T, BuildError>) {
    && r.Err? && r.error.DuplicateMustSpend? && s.Err? && s.error.DuplicateMustSpend?
    && r.error.index == s.error.index
    && HexDecode(r.error.txHash).Some? && HexDecode(r.error.txHash) == HexDecode(s.error.txHash)
  }

  ghost predicate SameUpToSpelling<T>(r: Result<T, BuildError>, s: Result<T, BuildError>) {
    r == s || (BadHash(r) && BadHash(s)) || SameDuplicate(r, s)
  }

  lemma ForcedPermuted(us: seq<Utxo>, vs: seq<Utxo>)
    requires multiset(us) == multiset(vs)
    ensures SameUpToSpelling(DecodeForcedSpec(us), DecodeForcedSpec(vs))
  {
    hide Sort, DecodeAll, FirstDuplicate, IsTotalOrder, HexDecode, FirstSpelling;
    DecodePermuted(us, vs);
    if DecodeAll(us).Ok? {
      OrdersAreTotal();
      var cs, ds := DecodeAll(us).value, DecodeAll(vs).value;
      SortDeterministic(ReferenceLeq, cs, ds);
      var forced := Sort(ReferenceLeq, cs);
      var k := FirstDuplicate(forced, 0);
      if k.Some? {
        assert forced[k.value] in multiset(forced);
        assert forced[k.value] in multiset(ds);
        assert forced[k.value] in cs && forced[k.value] in ds;
        SpellsReference(us, forced[k.value]);
        SpellsReference(vs, forced[k.value]);
      }
    }
  }

  /** Permuted listings give the same ordered list, or errors that differ in spelling. */
  lemma ListPermuted(r: BuildRequest, s: BuildRequest)
    requires Permuted(r, s)
    ensures SameUpToSpelling(OrderedList(r), OrderedList(s))
  {
    hide Sort, DecodeAll, DecodeForcedSpec, DropForcedDuplicates, IsTotalOrder, HexDecode;
    DecodePermuted(r.utxos, s.utxos);
    ForcedPermuted(r.mustSpend, s.mustSpend);
    if DecodeAll(r.utxos).Ok? {
      SameEmptiness(r, s);
    }
    if DecodeAll(r.utxos).Ok? && DecodeForcedSpec(r.mustSpend).Ok? {
      var forced := DecodeForcedSpec(r.mustSpend).value;
      DropPermuted(DecodeAll(r.utxos).value, DecodeAll(s.utxos).value, forced);
      OrdersAreTotal();
      SortDeterministic(PriorityLeq, DropForcedDuplicates(DecodeAll(r.utxos).value, forced),
                        DropForcedDuplicates(DecodeAll(s.utxos).value, forced));
    }
  }

  lemma SameEmptiness(r: BuildRequest, s: BuildRequest)
    requires Permuted(r, s) && DecodeAll(r.utxos).Ok? && DecodeAll(s.utxos).Ok?
    ensures DecodeAll(r.utxos).value == [] <==> DecodeAll(s.utxos).value == []
    ensures r.mustSpend == [] <==> s.mustSpend == []
  {
    assert |r.utxos| == |multiset(r.utxos)| == |multiset(s.utxos)| == |s.utxos|;
    assert |r.mustSpend| == |multiset(r.mustSpend)| == |multiset(s.mustSpend)| == |s.mustSpend|;
  }

  /** Permuting the listed inputs changes neither the selection, the fee, the change nor
      the error, except which of several malformed hashes is named and in which of the
      caller's spellings a repeated mandatory reference is. */
  lemma ListingOrderIrrelevant(r: BuildRequest, s: BuildRequest)
    requires Permuted(r, s)
    ensures SameUpToSpelling(BuildSpec(r), BuildSpec(s))
  {
    hide OrderedList, BalanceSpec, FinalChecks, HexDecode;
    ListPermuted(r, s);
  }

  /** The exception is real: two spellings of one mandatory reference, listed one way and
      the other, are named in the spelling listed first. */
  lemma SpellingFollowsListing(u: Utxo, v: Utxo)
    requires DecodeOne(u).Ok? && DecodeOne(v) == DecodeOne(u)
    ensures DecodeForcedSpec([u, v]) == Err(DuplicateMustSpend(u.txHash, u.index))
    ensures DecodeForcedSpec([v, u]) == Err(DuplicateMustSpend(v.txHash, v.index))
  {
    hide HexDecode;
    PairDecodes(u, v);
    PairDecodes(v, u);
  }

  lemma PairDecodes(u: Utxo, v: Utxo)
    requires DecodeOne(u).Ok? && DecodeOne(v) == DecodeOne(u)
    ensures DecodeForcedSpec([u, v]) == Err(DuplicateMustSpend(u.txHash, u.index))
  {
    hide HexDecode;
    var c := DecodeOne(u).value;
    assert [u, v][1..] == [v] && [v][1..] == [];
    assert DecodeAll([]) == Ok([]) && [c] + [] == [c];
    assert DecodeAll([v]) == Ok([c]);
    assert [c] + [c] == [c, c];
    assert DecodeAll([u, v]) == Ok([c, c]);
    assert [c, c][1..] == [c] && [c][1..] == [];
    assert Sort(ReferenceLeq, [c]) == [c];
    BytesTotal(c.txId, c.txId);
    assert Sort(ReferenceLeq, [c, c]) == [c, c];
  }
}
