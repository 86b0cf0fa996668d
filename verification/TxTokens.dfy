/** The metered bytes read back: what a CBOR reader finds in the part of the transaction
    that the inputs, the change and the fee make up. */
module TxTokens {
  import opened Bytes
  import opened Cbor
  import opened PoeTx
  import opened Wrappers

  /** A head, and the bytes of the string it announces. */
  datatype Token = Token(major: nat, argument: nat, payload: seq<byte>)

  /** Every token of a byte string, if it is made of whole tokens. */
  function Tokens(bs: seq<byte>): Option<seq<Token>>
    decreases |bs|
  {
    if bs == [] then Some([])
    else
      match DecodeHead(bs)
      case None => None
      case Some((major, n, used)) =>
        var end := if major == BYTE_STRING then used + n else used;
        if end > |bs| then None else Before([Token(major, n, bs[used..end])], Tokens(bs[end..]))
  }

  function Before(tokens: seq<Token>, rest: Option<seq<Token>>): Option<seq<Token>> {
    match rest
    case None => None
    case Some(ts) => Some(tokens + ts)
  }

  lemma BeforeBoth(a: seq<Token>, b: seq<Token>, rest: Option<seq<Token>>)
    ensures Before(a, Before(b, rest)) == Before(a + b, rest)
  {
    if rest.Some? {
      assert a + (b + rest.value) == (a + b) + rest.value;
    }
  }

  lemma HeadRead(major: nat, n: nat, rest: seq<byte>)
    requires major < 8 && major != BYTE_STRING && n <= U64_MAX
    ensures Tokens(Head(major, n) + rest) == Before([Token(major, n, [])], Tokens(rest))
  {
    hide DecodeHead;
    HeadRoundTrip(major, n, rest);
    var bs := Head(major, n) + rest;
    assert bs[Width(n)..] == rest && bs[Width(n)..Width(n)] == [];
  }

  lemma StringRead(s: seq<byte>, rest: seq<byte>)
    requires |s| <= U64_MAX
    ensures Tokens(Head(BYTE_STRING, |s|) + s + rest) == Before([Token(BYTE_STRING, |s|, s)], Tokens(rest))
  {
    hide DecodeHead;
    HeadRoundTrip(BYTE_STRING, |s|, s + rest);
    var bs := Head(BYTE_STRING, |s|) + s + rest;
    assert bs == Head(BYTE_STRING, |s|) + (s + rest);
    assert bs[Width(|s|)..Width(|s|) + |s|] == s && bs[Width(|s|) + |s|..] == rest;
  }

  /** A one-byte head. */
  lemma ShortRead(major: nat, n: nat, rest: seq<byte>)
    requires major < 8 && major != BYTE_STRING && n < 24
    ensures Tokens([32 * major + n] + rest) == Before([Token(major, n, [])], Tokens(rest))
  {
    HeadRead(major, n, rest);
  }

  // ----- Inputs

  /** A reference: the array of a transaction id and an index. */
  function InputTokens(c: Candidate): seq<Token> {
    [Token(4, 2, []), Token(2, |c.txId|, c.txId), Token(0, c.index, [])]
  }

  function AllInputTokens(cs: seq<Candidate>): seq<Token> {
    if cs == [] then [] else AllInputTokens(cs[..|cs| - 1]) + InputTokens(cs[|cs| - 1])
  }

  /** Ids and indices that a head can announce. */
  predicate Announceable(cs: seq<Candidate>) {
    forall i | 0 <= i < |cs| :: |cs[i].txId| <= U64_MAX && cs[i].index <= U64_MAX
  }

  lemma InputRead(c: Candidate, rest: seq<byte>)
    requires |c.txId| <= U64_MAX && c.index <= U64_MAX
    ensures Tokens(InputBytes(c) + rest) == Before(InputTokens(c), Tokens(rest))
  {
    hide Tokens, Head;
    var index := Head(UNSIGNED, c.index) + rest;
    var id := Head(BYTE_STRING, |c.txId|) + c.txId + index;
    assert InputBytes(c) + rest == Head(ARRAY, 2) + id;
    HeadRead(ARRAY, 2, id);
    StringRead(c.txId, index);
    HeadRead(UNSIGNED, c.index, rest);
    BeforeBoth([Token(2, |c.txId|, c.txId)], [Token(0, c.index, [])], Tokens(rest));
    var tail := [Token(2, |c.txId|, c.txId)] + [Token(0, c.index, [])];
    BeforeBoth([Token(4, 2, [])], tail, Tokens(rest));
    assert InputTokens(c) == [Token(4, 2, [])] + tail;
  }

  lemma {:induction false} InputsRead(cs: seq<Candidate>, rest: seq<byte>)
    requires Announceable(cs)
    ensures Tokens(InputsBytes(cs) + rest) == Before(AllInputTokens(cs), Tokens(rest))
  {
    hide Tokens, InputBytes, InputTokens;
    if cs == [] {
      assert [] + rest == rest && Tokens(rest).Some? ==> [] + Tokens(rest).value == Tokens(rest).value;
    } else {
      var init, last := cs[..|cs| - 1], cs[|cs| - 1];
      assert InputsBytes(cs) + rest == InputsBytes(init) + (InputBytes(last) + rest);
      InputsRead(init, InputBytes(last) + rest);
      InputRead(last, rest);
      BeforeBoth(AllInputTokens(init), InputTokens(last), Tokens(rest));
    }
  }

  // ----- Outputs

  /** The output that returns the change: {0: address, 1: coin}. */
  function ChangeTokens(address: seq<byte>, coin: u64): seq<Token> {
    [Token(5, 2, []), Token(0, 0, []), Token(2, |address|, address), Token(0, 1, []), Token(0, coin, [])]
  }

  function OutputTokens(address: seq<byte>, change: Option<u64>): seq<Token> {
    match change
    case None => [Token(4, 0, [])]
    case Some(coin) => [Token(4, 1, [])] + ChangeTokens(address, coin)
  }

  lemma OutputRead(address: seq<byte>, coin: u64, rest: seq<byte>)
    requires |address| <= U64_MAX
    ensures Tokens(OutputBytes(address, coin) + rest)
         == Before(ChangeTokens(address, coin), Tokens(rest))
  {
    hide Tokens, Head;
    var value := Head(UNSIGNED, coin) + rest;
    var key := [0x01] + value;
    var place := Head(BYTE_STRING, |address|) + address + key;
    assert OutputBytes(address, coin) + rest == [0xA2] + ([0x00] + place);
    ShortRead(5, 2, [0x00] + place);
    ShortRead(0, 0, place);
    StringRead(address, key);
    ShortRead(0, 1, value);
    HeadRead(UNSIGNED, coin, rest);
    var last := [Token(0, coin, [])];
    BeforeBoth([Token(0, 1, [])], last, Tokens(rest));
    BeforeBoth([Token(2, |address|, address)], [Token(0, 1, [])] + last, Tokens(rest));
    var tail := [Token(2, |address|, address)] + ([Token(0, 1, [])] + last);
    BeforeBoth([Token(0, 0, [])], tail, Tokens(rest));
    BeforeBoth([Token(5, 2, [])], [Token(0, 0, [])] + tail, Tokens(rest));
    assert ChangeTokens(address, coin) == [Token(5, 2, [])] + ([Token(0, 0, [])] + tail);
  }

  lemma OutputsRead(ctx: BuildCtx, change: Option<u64>, rest: seq<byte>)
    requires |ctx.address| <= U64_MAX
    ensures Tokens(OutputsBytes(ctx, change) + rest) == Before(OutputTokens(ctx.address, change), Tokens(rest))
  {
    hide Tokens, Head, OutputBytes;
    match change
    case None => HeadRead(ARRAY, 0, rest);
    case Some(coin) =>
      assert OutputsBytes(ctx, change) + rest == Head(ARRAY, 1) + (OutputBytes(ctx.address, coin) + rest);
      HeadRead(ARRAY, 1, OutputBytes(ctx.address, coin) + rest);
      OutputRead(ctx.address, coin, rest);
      BeforeBoth([Token(4, 1, [])], ChangeTokens(ctx.address, coin), Tokens(rest));
  }

  /** Between its fixed parts the metered transaction is, and is nothing but, the array of the
      selected references, key 1 with the outputs, and key 2 with the fee. */
  lemma TransactionReadsBack(ctx: BuildCtx, selected: seq<Candidate>, fee: u64, change: Option<u64>)
    requires Announceable(selected) && |selected| <= U64_MAX && |ctx.address| <= U64_MAX
    ensures var tx := SignedTx(ctx, selected, fee, change);
      var end := |tx| - |ctx.bodySuffix + ctx.trailer|;
      && |ctx.bodyPrefix| <= end && tx[..|ctx.bodyPrefix|] == ctx.bodyPrefix
      && tx[end..] == ctx.bodySuffix + ctx.trailer
      && Tokens(tx[|ctx.bodyPrefix|..end])
         == Some([Token(4, |selected|, [])] + (AllInputTokens(selected) + ([Token(0, 1, [])]
                 + (OutputTokens(ctx.address, change) + [Token(0, 2, []), Token(0, fee, [])]))))
  {
    hide Tokens, Head, InputsBytes, OutputsBytes, OutputTokens, AllInputTokens, Announceable;
    var coin := Head(UNSIGNED, fee);
    var key2 := [0x02] + coin;
    var outputs := OutputsBytes(ctx, change) + key2;
    var key1 := [0x01] + outputs;
    var inputs := InputsBytes(selected) + key1;
    var middle := Head(ARRAY, |selected|) + inputs;
    assert SignedTx(ctx, selected, fee, change) == ctx.bodyPrefix + middle + (ctx.bodySuffix + ctx.trailer);
    HeadRead(ARRAY, |selected|, inputs);
    InputsRead(selected, key1);
    ShortRead(0, 1, outputs);
    OutputsRead(ctx, change, key2);
    ShortRead(0, 2, coin);
    assert coin + [] == coin && Tokens([]) == Some([]) by { NoTokens(); }
    HeadRead(UNSIGNED, fee, []);
    assert [Token(0, 2, [])] + ([Token(0, fee, [])] + []) == [Token(0, 2, []), Token(0, fee, [])];
  }

  lemma NoTokens()
    ensures Tokens([]) == Some([])
  {
  }
}
