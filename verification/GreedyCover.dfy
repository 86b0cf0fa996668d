/** Taking the largest inputs first covers a target with the fewest inputs. */
module GreedyCover {
  import opened Bytes
  import opened PoeTx
  import opened Selection

  function Removed(cs: seq<Candidate>, i: nat): seq<Candidate>
    requires i < |cs|
  {
    cs[..i] + cs[i + 1..]
  }

  lemma {:induction false} SumAppend(xs: seq<Candidate>, ys: seq<Candidate>)
    ensures Sum(xs + ys) == Sum(xs) + Sum(ys)
  {
    if ys == [] {
      assert xs + ys == xs;
    } else {
      assert (xs + ys)[..|xs + ys| - 1] == xs + ys[..|ys| - 1];
      SumAppend(xs, ys[..|ys| - 1]);
    }
  }

  lemma SumOne(c: Candidate)
    ensures Sum([c]) == c.lovelace
  {
    assert [c][..0] == [];
  }

  lemma SumRemoved(cs: seq<Candidate>, i: nat)
    requires i < |cs|
    ensures Sum(cs) == cs[i].lovelace + Sum(Removed(cs, i))
  {
    hide Sum;
    var front, back := cs[..i], cs[i + 1..];
    assert cs == front + ([cs[i]] + back);
    SumAppend(front, [cs[i]] + back);
    SumAppend([cs[i]], back);
    SumAppend(front, back);
    SumOne(cs[i]);
  }

  lemma ContentsRemoved(cs: seq<Candidate>, i: nat)
    requires i < |cs|
    ensures multiset(Removed(cs, i)) == multiset(cs) - multiset{cs[i]}
  {
    assert cs == cs[..i] + ([cs[i]] + cs[i + 1..]);
  }

  lemma SumOfTop(sorted: seq<Candidate>, n: nat)
    requires 0 < n <= |sorted|
    ensures Sum(sorted[..n]) == sorted[0].lovelace + Sum(sorted[1..][..n - 1])
  {
    hide Sum;
    assert sorted[..n] == [sorted[0]] + sorted[1..][..n - 1];
    SumAppend([sorted[0]], sorted[1..][..n - 1]);
    SumOne(sorted[0]);
  }

  ghost predicate LargestFirst(cs: seq<Candidate>) {
    forall i, j | 0 <= i < j < |cs| :: cs[i].lovelace >= cs[j].lovelace
  }

  /** No choice of inputs is worth more than as many of the largest ones. */
  lemma {:induction false} LargestAreWorthMost(sorted: seq<Candidate>, choice: seq<Candidate>)
    requires LargestFirst(sorted) && multiset(choice) <= multiset(sorted)
    ensures |choice| <= |sorted| && Sum(choice) <= Sum(sorted[..|choice|])
    decreases |sorted|
  {
    hide Sum, Removed;
    if choice != [] {
      ChoiceWithin(sorted, choice);
      var i := if sorted[0] in choice then IndexOf(choice, sorted[0]) else 0;
      SumRemoved(choice, i);
      TailWithin(sorted, choice, i);
      OneFewer(choice, i);
      LargestAreWorthMost(sorted[1..], Removed(choice, i));
      SumOfTop(sorted, |choice|);
    } else {
      assert sorted[..0] == choice;
    }
  }

  lemma OneFewer(cs: seq<Candidate>, i: nat)
    requires i < |cs|
    ensures |Removed(cs, i)| == |cs| - 1
  {
  }

  ghost function IndexOf(cs: seq<Candidate>, c: Candidate): (i: nat)
    requires c in cs
    ensures i < |cs| && cs[i] == c
  {
    var i :| 0 <= i < |cs| && cs[i] == c;
    i
  }

  lemma ChoiceWithin(sorted: seq<Candidate>, choice: seq<Candidate>)
    requires LargestFirst(sorted) && multiset(choice) <= multiset(sorted) && choice != []
    ensures sorted != [] && forall c | c in choice :: c.lovelace <= sorted[0].lovelace
  {
    forall c | c in choice ensures sorted != [] && c.lovelace <= sorted[0].lovelace {
      assert c in multiset(choice);
      assert c in multiset(sorted);
      assert c in sorted;
    }
    assert choice[0] in choice;
  }

  lemma TailWithin(sorted: seq<Candidate>, choice: seq<Candidate>, i: nat)
    requires sorted != [] && multiset(choice) <= multiset(sorted) && i < |choice|
    requires sorted[0] in choice ==> choice[i] == sorted[0]
    ensures multiset(Removed(choice, i)) <= multiset(sorted[1..])
  {
    ContentsRemoved(choice, i);
    assert sorted == [sorted[0]] + sorted[1..];
    assert multiset(sorted) == multiset{sorted[0]} + multiset(sorted[1..]);
    if sorted[0] !in choice {
      assert sorted[0] !in multiset(choice);
    }
  }

  lemma PrioritisedLargestFirst(cs: seq<Candidate>)
    ensures LargestFirst(Prioritise(cs))
  {
    OrdersAreTotal();
    SortSorted(PriorityLeq, cs);
  }

  lemma {:induction false} CoverNotBeyond(ordered: seq<Candidate>, target: u64, from: nat, n: nat)
    requires from <= n <= |ordered| && target <= TotalLovelace(ordered[..n])
    ensures CoverFrom(ordered, target, from).Some? && CoverFrom(ordered, target, from).value <= n
    decreases n - from
  {
    if TotalLovelace(ordered[..from]) < target {
      CoverNotBeyond(ordered, target, from + 1, n);
    }
  }

  /** Any choice of candidates that is worth the target is at least as large as the
      covering prefix of the prioritised list, which then exists. */
  lemma CoverIsSmallest(candidates: seq<Candidate>, choice: seq<Candidate>, target: u64)
    requires target <= TotalLovelace(choice) && choice != [] && multiset(choice) <= multiset(candidates)
    ensures CoverFrom(Prioritise(candidates), target, 1).Some?
    ensures CoverFrom(Prioritise(candidates), target, 1).value <= |choice|
  {
    var sorted := Prioritise(candidates);
    PrioritisedLargestFirst(candidates);
    LargestAreWorthMost(sorted, choice);
    TotalIsSaturatedSum(choice);
    TotalIsSaturatedSum(sorted[..|choice|]);
    CoverNotBeyond(sorted, target, 1, |choice|);
  }
}
