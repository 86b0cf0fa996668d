/** The resume point a client sends back: reading a frame id off a header. */
module LastEventId {
  import opened Bytes
  import opened Wrappers

  predicate IsDigit(c: char) {
    '0' <= c <= '9'
  }

  /** A header value is visible ASCII, so its white space is spaces and tabs. */
  predicate IsBlank(c: char) {
    c == ' ' || c == '\t'
  }

  function TrimStart(s: string): string {
    if s != "" && IsBlank(s[0]) then TrimStart(s[1..]) else s
  }

  function TrimEnd(s: string): string {
    if s != "" && IsBlank(s[|s| - 1]) then TrimEnd(s[..|s| - 1]) else s
  }

  /** The value of a digit string. */
  function Value(digits: string): Option<nat> {
    if digits == "" then Some(0)
    else
      var last := digits[|digits| - 1];
      match Value(digits[..|digits| - 1])
      case Some(high) => if IsDigit(last) then Some(10 * high + (last as int - '0' as int)) else None
      case None => None
  }

  /** A signed 64-bit integer: an optional sign, then at least one digit. */
  function ParseI64(s: string): (r: Option<int>)
    ensures r.Some? ==> I64_MIN <= r.value <= I64_MAX
  {
    var negative := s != "" && s[0] == '-';
    var digits := if s != "" && (s[0] == '-' || s[0] == '+') then s[1..] else s;
    if digits == "" then None
    else
      match Value(digits)
      case None => None
      case Some(n) =>
        var v: int := if negative then -(n as int) else n as int;
        if I64_MIN <= v <= I64_MAX then Some(v) else None
  }

  /** The resume point: a trimmed non-negative integer, or nothing. */
  function ParseLastEventId(header: Option<string>): (resume: Option<int>)
    ensures resume.Some? ==> 0 <= resume.value <= I64_MAX
  {
    match header
    case None => None
    case Some(value) =>
      match ParseI64(TrimEnd(TrimStart(value)))
      case Some(n) => if n >= 0 then Some(n) else None
      case None => None
  }

  /** How a frame id is written. */
  function Render(n: nat): (s: string)
    ensures s != "" && forall i | 0 <= i < |s| :: IsDigit(s[i])
  {
    if n < 10 then [('0' as int + n) as char] else Render(n / 10) + [('0' as int + n % 10) as char]
  }

  predicate Blank(s: string) {
    forall i | 0 <= i < |s| :: IsBlank(s[i])
  }

  lemma {:induction false} ValueOfRender(n: nat)
    ensures Value(Render(n)) == Some(n)
  {
    if n < 10 {
      assert Render(n)[..0] == "";
    } else {
      ValueOfRender(n / 10);
      assert Render(n)[..|Render(n)| - 1] == Render(n / 10);
    }
  }

  lemma {:induction false} TrimStartOf(pad: string, s: string)
    requires Blank(pad) && s != "" && !IsBlank(s[0])
    ensures TrimStart(pad + s) == s
  {
    if pad == "" {
      assert pad + s == s;
    } else {
      assert (pad + s)[1..] == pad[1..] + s;
      TrimStartOf(pad[1..], s);
    }
  }

  lemma {:induction false} TrimEndOf(s: string, pad: string)
    requires Blank(pad) && s != "" && !IsBlank(s[|s| - 1])
    ensures TrimEnd(s + pad) == s
  {
    if pad == "" {
      assert s + pad == s;
    } else {
      assert (s + pad)[..|s + pad| - 1] == s + pad[..|pad| - 1];
      TrimEndOf(s, pad[..|pad| - 1]);
    }
  }

  /** A client that echoes the id of any frame, padded or not, resumes after exactly
      that frame. */
  lemma EchoedIdResumes(id: nat, before: string, after: string)
    requires id <= I64_MAX && Blank(before) && Blank(after)
    ensures ParseLastEventId(Some(before + Render(id) + after)) == Some(id)
  {
    var s := Render(id);
    assert before + s + after == before + (s + after);
    TrimStartOf(before, s + after);
    TrimEndOf(s, after);
    ValueOfRender(id);
  }

  /** A negative id never resumes. */
  lemma NegativeIdIgnored(id: nat, before: string, after: string)
    requires id > 0 && Blank(before) && Blank(after)
    ensures ParseLastEventId(Some(before + ("-" + Render(id)) + after)) == None
  {
    var s := "-" + Render(id);
    assert before + s + after == before + (s + after);
    TrimStartOf(before, s + after);
    TrimEndOf(s, after);
    ValueOfRender(id);
    assert s[1..] == Render(id);
  }

  // ----- Exactly which headers resume

  predicate AllZeros(s: string) {
    forall i | 0 <= i < |s| :: s[i] == '0'
  }

  /** Blanks, a sign, leading zeros, the id, and blanks; a minus only before zero. */
  predicate Written(header: string, id: nat, before: string, sign: string, zeros: string, after: string) {
    && Blank(before) && Blank(after) && AllZeros(zeros)
    && (sign == "" || sign == "+" || (sign == "-" && id == 0))
    && header == before + (sign + (zeros + Render(id))) + after
  }

  lemma {:induction false} ValueWithZeros(zeros: string, id: nat)
    requires AllZeros(zeros)
    ensures Value(zeros + Render(id)) == Some(id)
  {
    var s := zeros + Render(id);
    if id < 10 {
      assert s[..|s| - 1] == zeros;
      ZerosAreNothing(zeros);
    } else {
      assert s[..|s| - 1] == zeros + Render(id / 10);
      ValueWithZeros(zeros, id / 10);
    }
  }

  lemma {:induction false} ZerosAreNothing(zeros: string)
    requires AllZeros(zeros)
    ensures Value(zeros) == Some(0)
  {
    if zeros != "" {
      ZerosAreNothing(zeros[..|zeros| - 1]);
    }
  }

  /** The only digit strings of a number are its own with zeros in front. */
  lemma {:induction false} DigitsOf(digits: string, id: nat) returns (zeros: string)
    requires digits != "" && Value(digits) == Some(id)
    ensures AllZeros(zeros) && digits == zeros + Render(id)
  {
    var init, last := digits[..|digits| - 1], digits[|digits| - 1];
    assert digits == init + [last];
    if init == "" {
      zeros := "";
    } else {
      var high := Value(init).value;
      var front := DigitsOf(init, high);
      zeros := if high == 0 then front + "0" else front;
      assert high == 0 ==> Render(0) == "0";
    }
  }

  lemma {:induction false} TrimStartParts(s: string) returns (before: string)
    ensures Blank(before) && s == before + TrimStart(s)
  {
    before := "";
    if s != "" && IsBlank(s[0]) {
      var more := TrimStartParts(s[1..]);
      before := [s[0]] + more;
    }
  }

  lemma {:induction false} TrimEndParts(s: string) returns (after: string)
    ensures Blank(after) && s == TrimEnd(s) + after
  {
    after := "";
    if s != "" && IsBlank(s[|s| - 1]) {
      var more := TrimEndParts(s[..|s| - 1]);
      after := more + [s[|s| - 1]];
    }
  }

  lemma SignedDigits(sign: string, zeros: string, id: nat)
    requires AllZeros(zeros) && id <= I64_MAX && (sign == "" || sign == "+" || (sign == "-" && id == 0))
    ensures ParseI64(sign + (zeros + Render(id))) == Some(id)
  {
    hide Value, Render;
    var digits := zeros + Render(id);
    ValueWithZeros(zeros, id);
    assert zeros != "" ==> digits[0] == zeros[0];
    assert zeros == "" ==> digits[0] == Render(id)[0];
    assert sign != "" ==> (sign + digits)[1..] == digits && (sign + digits)[0] == sign[0];
    assert sign == "" ==> sign + digits == digits;
  }

  /** A header resumes at an id exactly when it is the id's digits, with any blanks around
      them, leading zeros, a plus sign or, for zero, a minus sign, and the id fits 63 bits. */
  lemma ResumesIff(header: Option<string>, id: nat)
    ensures ParseLastEventId(header) == Some(id) <==>
      && header.Some? && id < 0x8000_0000_0000_0000
      && exists before, sign, zeros, after :: Written(header.value, id, before, sign, zeros, after)
  {
    hide Value, Render, TrimStart, TrimEnd, AllZeros, Blank;
    if ParseLastEventId(header) == Some(id) {
      Unwritten(header.value, id);
    }
    if header.Some? && id < 0x8000_0000_0000_0000 {
      forall before, sign, zeros, after | Written(header.value, id, before, sign, zeros, after)
        ensures ParseLastEventId(header) == Some(id)
      {
        WrittenResumes(header.value, id, before, sign, zeros, after);
      }
    }
  }

  lemma WrittenResumes(header: string, id: nat, before: string, sign: string, zeros: string, after: string)
    requires Written(header, id, before, sign, zeros, after) && id <= I64_MAX
    ensures ParseLastEventId(Some(header)) == Some(id)
  {
    hide Value, ParseI64;
    var s := sign + (zeros + Render(id));
    assert before + s + after == before + (s + after);
    assert s[|s| - 1] == Render(id)[|Render(id)| - 1];
    assert !IsBlank(s[0]) && s[0] == (s + after)[0];
    TrimStartOf(before, s + after);
    TrimEndOf(s, after);
    SignedDigits(sign, zeros, id);
  }

  lemma Unwritten(header: string, id: nat)
    requires ParseLastEventId(Some(header)) == Some(id)
    ensures id <= I64_MAX
    ensures exists before, sign, zeros, after :: Written(header, id, before, sign, zeros, after)
  {
    hide Value, Render, TrimStart, TrimEnd, AllZeros, Blank;
    var trimmed := TrimStart(header);
    var before := TrimStartParts(header);
    var after := TrimEndParts(trimmed);
    var s := TrimEnd(trimmed);
    var signed := s[0] == '-' || s[0] == '+';
    var sign, digits := if signed then s[..1] else "", if signed then s[1..] else s;
    assert s == sign + digits;
    var zeros := DigitsOf(digits, id);
    assert before + (s + after) == before + s + after;
    assert Written(header, id, before, sign, zeros, after);
  }
}
