/** What a request's listed inputs decode to, in what order they are spent, and exactly
    which requests are refused before balancing. */
module RequestErrors {
  import opened Bytes
  import opened PoeTx
  import opened Selection
  import opened Balancer
  import opened BuildPoeTx
  import opened BuildTheorems
  import opened Wrappers

  // ----- Hexadecimal

  const LOWER := "0123456789abcdef"

  const UPPER := "0123456789ABCDEF"

  /** A digit's value is its place in either alphabet. */
  predicate HasValue(c: char, v: nat) {
    v < 16 && (LOWER[v] == c || UPPER[v] == c)
  }

  ghost predicate IsHexDigit(c: char) {
    exists v :: HasValue(c, v)
  }

  lemma HexDigitValue(c: char)
    ensures HexDigit(c).Some? <==> IsHexDigit(c)
    ensures HexDigit(c).Some? ==> HexDigit(c).value < 16 && HasValue(c, HexDigit(c).value)
  {
    DigitPlaces(LOWER, UPPER);
    if '0' <= c <= '9' {
      assert HasValue(c, c as int - '0' as int);
    } else if 'a' <= c <= 'f' {
      assert HasValue(c, c as int - 'a' as int + 10);
    } else if 'A' <= c <= 'F' {
      assert HasValue(c, c as int - 'A' as int + 10);
    }
  }

  lemma DigitPlaces(lower: string, upper: string)
    requires lower == LOWER && upper == UPPER
    ensures forall i | 0 <= i < 10 :: lower[i] as int == '0' as int + i && upper[i] == lower[i]
    ensures forall i | 10 <= i < 16 :: lower[i] as int == 'a' as int + i - 10 && upper[i] as int == 'A' as int + i - 10
  {
  }

  ghost predicate AllHex(s: string) {
    forall i | 0 <= i < |s| :: IsHexDigit(s[i])
  }

  /** Hexadecimal is an even number of digits of either case. */
  lemma {:induction false} HexDecodesIff(s: string)
    ensures HexDecode(s).Some? <==> |s| % 2 == 0 && AllHex(s)
    ensures HexDecode(s).Some? ==> |HexDecode(s).value| == |s| / 2
  {
    hide HexDigit, IsHexDigit, HasValue, HexDecode, AllHex;
    if |s| >= 2 {
      HexDigitValue(s[0]);
      HexDigitValue(s[1]);
      HexDecodesIff(s[2..]);
      HexTail(s);
      HexStep(s);
    } else {
      ShortHex(s);
    }
  }

  lemma ShortHex(s: string)
    requires |s| < 2
    ensures HexDecode(s) == (if |s| == 0 then Some([]) else None) && (|s| == 0 ==> AllHex(s))
  {
    hide IsHexDigit, HexDigit;
  }

  /** Each byte is a pair of digits, the high one first. */
  lemma {:induction false} HexDecodeAt(s: string, k: nat)
    requires HexDecode(s).Some? && k < |HexDecode(s).value|
    ensures 2 * k + 1 < |s| && HexDigit(s[2 * k]).Some? && HexDigit(s[2 * k + 1]).Some?
    ensures HexDecode(s).value[k] == 16 * HexDigit(s[2 * k]).value + HexDigit(s[2 * k + 1]).value
  {
    if |s| >= 2 {
      hide HexDigit, HexDecode;
      HexStep(s);
      if k > 0 {
        HexDecodeAt(s[2..], k - 1);
        assert s[2..][2 * (k - 1)] == s[2 * k] && s[2..][2 * (k - 1) + 1] == s[2 * k + 1];
      }
    }
  }

  lemma HexStep(s: string)
    requires |s| >= 2
    ensures HexDecode(s).Some? <==> HexDigit(s[0]).Some? && HexDigit(s[1]).Some? && HexDecode(s[2..]).Some?
    ensures HexDecode(s).Some? ==>
      && HexDigit(s[0]).value < 16 && HexDigit(s[1]).value < 16
      && HexDecode(s).value == [16 * HexDigit(s[0]).value + HexDigit(s[1]).value] + HexDecode(s[2..]).value
  {
    hide HexDigit;
  }

  lemma HexTail(s: string)
    requires |s| >= 2
    ensures AllHex(s) <==> IsHexDigit(s[0]) && IsHexDigit(s[1]) && AllHex(s[2..])
  {
    hide IsHexDigit;
    if IsHexDigit(s[0]) && IsHexDigit(s[1]) && AllHex(s[2..]) {
      forall i | 0 <= i < |s| ensures IsHexDigit(s[i]) {
        if i >= 2 {
          assert s[i] == s[2..][i - 2];
        }
      }
    }
  }

  /** Sixty-four hexadecimal digits. */
  ghost predicate IsTxHash(s: string) {
    |s| == 64 && AllHex(s)
  }

  lemma DecodesIffTxHash(u: Utxo)
    ensures DecodeOne(u).Ok? <==> IsTxHash(u.txHash)
    ensures DecodeOne(u).Ok? ==> DecodeOne(u).value.index == u.index && DecodeOne(u).value.lovelace == u.lovelace
  {
    hide HexDecode, AllHex;
    HexDecodesIff(u.txHash);
  }

  lemma {:induction false} AllDecodeIff(us: seq<Utxo>)
    ensures DecodeAll(us).Ok? <==> forall u | u in us :: IsTxHash(u.txHash)
    ensures DecodeAll(us).Ok? ==> forall i | 0 <= i < |us| :: Ok(DecodeAll(us).value[i]) == DecodeOne(us[i])
  {
    hide DecodeOne, IsTxHash;
    if us != [] {
      DecodesIffTxHash(us[0]);
      AllDecodeIff(us[1..]);
      assert us == [us[0]] + us[1..];
    }
  }

  // ----- Repeated mandatory references

  ghost predicate Repeats(us: seq<Utxo>) {
    exists i, j | 0 <= i < j < |us| :: DecodeOne(us[i]).Ok? && DecodeOne(us[j]).Ok?
      && SameReference(DecodeOne(us[i]).value, DecodeOne(us[j]).value)
  }

  lemma RepeatsIff(us: seq<Utxo>)
    requires DecodeAll(us).Ok?
    ensures Repeats(us) <==> !DistinctReferences(DecodeAll(us).value)
  {
    hide DecodeOne, DecodeAll;
    AllDecodeIff(us);
    var cs := DecodeAll(us).value;
    if i, j :| 0 <= i < j < |cs| && SameReference(cs[i], cs[j]) {
      assert DecodeOne(us[i]) == Ok(cs[i]) && DecodeOne(us[j]) == Ok(cs[j]);
    }
  }

  lemma SortKeepsDistinct(leq: Order, cs: seq<Candidate>)
    ensures DistinctReferences(Sort(leq, cs)) <==> DistinctReferences(cs)
  {
    hide Sort, DistinctReferences, Count;
    if DistinctReferences(cs) {
      forall c ensures Count(Sort(leq, cs), c) <= 1 {
        DistinctCounts(cs, c);
        CountSort(leq, cs, c);
      }
      CountsDistinct(Sort(leq, cs));
    }
    if DistinctReferences(Sort(leq, cs)) {
      forall c ensures Count(cs, c) <= 1 {
        DistinctCounts(Sort(leq, cs), c);
        CountSort(leq, cs, c);
      }
      CountsDistinct(cs);
    }
  }

  lemma ForcedRefusedIff(us: seq<Utxo>)
    ensures DecodeForcedSpec(us).Ok? <==> DecodeAll(us).Ok? && !Repeats(us)
    ensures DecodeAll(us).Ok? && Repeats(us) ==> DecodeForcedSpec(us).error.DuplicateMustSpend?
    ensures DecodeAll(us).Err? ==> DecodeForcedSpec(us).error.InvalidUtxoHash?
  {
    hide Sort, Repeats, DecodeAll, FirstSpelling;
    if DecodeAll(us).Ok? {
      var forced := Sort(ReferenceLeq, DecodeAll(us).value);
      RepeatsIff(us);
      SortKeepsDistinct(ReferenceLeq, DecodeAll(us).value);
      if FirstDuplicate(forced, 0).None? {
        OrdersAreTotal();
        SortSorted(ReferenceLeq, DecodeAll(us).value);
        AdjacentSuffices(forced);
      }
    }
  }

  // ----- Refusals before balancing

  function NetworkId(network: Network): nat {
    match network
    case Testnet => 0
    case Mainnet => 1
    case Other(id) => id
  }

  /** The address says which network it is on, and it is the requested one. */
  predicate OnNetwork(request: BuildRequest) {
    && request.changeAddress.Parsed? && request.changeAddress.network.Some?
    && var network := request.changeAddress.network.value;
       NetworkId(network) == request.networkId && (network.Other? ==> network.id > 1)
  }

  lemma AddressAccepted(request: BuildRequest)
    ensures ParseChangeAddress(request)
         == if request.changeAddress.Unparsable? then Err(InvalidAddress)
            else if !OnNetwork(request) then Err(NetworkMismatch(request.networkId))
            else Ok(request.changeAddress.bytes)
  {
  }

  /** The refusals of a request, in the order in which they are met. */
  lemma RefusedExactly(request: BuildRequest)
    ensures var r, listed := BuildSpec(request), request.utxos + request.mustSpend;
      if request.changeAddress.Unparsable? then r == Err(InvalidAddress)
      else if !OnNetwork(request) then r == Err(NetworkMismatch(request.networkId))
      else if listed == [] then r == Err(NoUtxos)
      else if exists u | u in listed :: !IsTxHash(u.txHash) then
        && r.Err? && r.error.InvalidUtxoHash?
        && exists u | u in listed :: u.txHash == r.error.txHash && !IsTxHash(u.txHash)
      else if Repeats(request.mustSpend) then r.Err? && r.error.DuplicateMustSpend?
      else OrderedList(request).Ok?
  {
    hide OnNetwork, DecodeAll, DecodeForcedSpec, IsTxHash, Repeats, BalanceSpec, FinalChecks, Sort,
      DropForcedDuplicates, ParseChangeAddress;
    AddressAccepted(request);
    AllDecodeIff(request.utxos);
    AllDecodeIff(request.mustSpend);
    ForcedRefusedIff(request.mustSpend);
    DecodeNamesCulprit(request.utxos);
    DecodeNamesCulprit(request.mustSpend);
    EmptyDecodes(request);
    ForcedNamesSame(request.mustSpend);
  }

  lemma EmptyDecodes(request: BuildRequest)
    ensures request.utxos + request.mustSpend == [] <==> request.utxos == [] && request.mustSpend == []
    ensures DecodeAll(request.utxos).Ok? ==> (DecodeAll(request.utxos).value == [] <==> request.utxos == [])
  {
  }

  lemma ForcedNamesSame(us: seq<Utxo>)
    ensures DecodeAll(us).Err? ==> DecodeForcedSpec(us) == Err(DecodeAll(us).error)
  {
  }

  lemma {:induction false} DecodeNamesCulprit(us: seq<Utxo>)
    ensures DecodeAll(us).Err? ==>
      && DecodeAll(us).error.InvalidUtxoHash?
      && exists u | u in us :: u.txHash == DecodeAll(us).error.txHash && !IsTxHash(u.txHash)
  {
    hide DecodeOne, IsTxHash;
    if us != [] {
      DecodesIffTxHash(us[0]);
      NamesItself(us[0]);
      if DecodeOne(us[0]).Err? {
        assert us[0] in us;
      } else {
        DecodeNamesCulprit(us[1..]);
      }
    }
  }

  lemma NamesItself(u: Utxo)
    ensures DecodeOne(u).Err? ==> DecodeOne(u).error == InvalidUtxoHash(u.txHash)
  {
  }

  // ----- The order inputs are spent in

  /** Byte strings compare by their first difference, and a prefix comes first. */
  ghost predicate LexBefore(a: seq<byte>, b: seq<byte>) {
    a <= b || exists k | 0 <= k < |a| && k < |b| :: a[..k] == b[..k] && a[k] < b[k]
  }

  lemma {:induction false} BytesLeqIsLex(a: seq<byte>, b: seq<byte>)
    ensures BytesLeq(a, b) ==> LexBefore(a, b)
  {
    if a != [] && b != [] {
      if a[0] == b[0] {
        if BytesLeq(a, b) {
          BytesLeqIsLex(a[1..], b[1..]);
          LexCons(a, b);
        }
      } else if BytesLeq(a, b) {
        assert a[..0] == b[..0] && a[0] < b[0];
      }
    }
  }

  lemma LexCons(a: seq<byte>, b: seq<byte>)
    requires a != [] && b != [] && a[0] == b[0] && LexBefore(a[1..], b[1..])
    ensures LexBefore(a, b)
  {
    var x, y := a[1..], b[1..];
    assert a == [a[0]] + x && b == [b[0]] + y;
    if !(x <= y) {
      var k :| 0 <= k < |x| && k < |y| && x[..k] == y[..k] && x[k] < y[k];
      assert a[..k + 1] == [a[0]] + x[..k] && b[..k + 1] == [b[0]] + y[..k];
      assert a[k + 1] < b[k + 1];
    } else {
      assert b == a + y[|x|..];
    }
  }

  ghost predicate ReferenceBefore(a: Candidate, b: Candidate) {
    if a.txId == b.txId then a.index <= b.index else LexBefore(a.txId, b.txId)
  }

  /** The mandatory inputs come first, by hash bytes and then output index; the others
      follow by value, largest first, then by hash bytes and output index. */
  lemma SpendingOrder(request: BuildRequest, i: nat, j: nat)
    requires OrderedList(request).Ok? && i < j < |ListOf(request).0|
    ensures var (list, forced) := ListOf(request);
      && (j < forced ==> ReferenceBefore(list[i], list[j]))
      && (forced <= i ==>
            list[i].lovelace > list[j].lovelace
            || (list[i].lovelace == list[j].lovelace && ReferenceBefore(list[i], list[j])))
  {
    hide Sort, DecodeAll, DropForcedDuplicates, ReferenceBefore, FirstDuplicate, FirstSpelling;
    OrdersAreTotal();
    var (list, n) := ListOf(request);
    var mandatory := DecodeAll(request.mustSpend).value;
    var forced := Sort(ReferenceLeq, mandatory);
    var rest := DropForcedDuplicates(DecodeAll(request.utxos).value, forced);
    assert list == forced + Sort(PriorityLeq, rest) && n == |forced|;
    SortSorted(ReferenceLeq, mandatory);
    SortSorted(PriorityLeq, rest);
    if j < n {
      assert ReferenceLeq(forced[i], forced[j]);
      ReferenceLeqIsBefore(list[i], list[j]);
    } else if n <= i {
      assert PriorityLeq(list[i], list[j]);
      ReferenceLeqIsBefore(list[i], list[j]);
    }
  }

  lemma ReferenceLeqIsBefore(a: Candidate, b: Candidate)
    ensures ReferenceLeq(a, b) ==> ReferenceBefore(a, b)
  {
    hide LexBefore;
    BytesLeqIsLex(a.txId, b.txId);
  }
}
