/** What the octets of a PSS signature are as numbers (the mask counter, the spare bits, the
    room under the modulus), and exactly which messages and signatures are refused. */
module PssLaws {
  import opened Pss
  import opened Wrappers

  function Pow2(n: nat): (p: nat)
    ensures p > 0
  {
    if n == 0 then 1 else 2 * Pow2(n - 1)
  }

  lemma NextOctet(n: nat)
    ensures Pow2(n + 8) == 256 * Pow2(n)
  {
    assert Pow2(n + 1) == 2 * Pow2(n);
    assert Pow2(n + 2) == 4 * Pow2(n);
    assert Pow2(n + 3) == 8 * Pow2(n);
    assert Pow2(n + 4) == 16 * Pow2(n);
    assert Pow2(n + 5) == 32 * Pow2(n);
    assert Pow2(n + 6) == 64 * Pow2(n);
    assert Pow2(n + 7) == 128 * Pow2(n);
  }

  // ----- The mask

  lemma NextValue(x: bv8)
    ensures x < 255 <==> ValueOf(x) < 255
    ensures x < 255 ==> ValueOf(x + 1) == ValueOf(x) + 1
    ensures ValueOf(0) == 0
  {
  }

  /** Every value below 256 is an octet's. */
  lemma {:induction false} OctetWith(n: nat) returns (x: bv8)
    requires n < 256
    ensures ValueOf(x) == n
  {
    hide ValueOf;
    NextValue(0);
    x := 0;
    if n > 0 {
      var y := OctetWith(n - 1);
      NextValue(y);
      x := y + 1;
    }
  }

  lemma ValueOfOctet(n: nat)
    requires n < 256
    ensures ValueOf(OctetOf(n)) == n
  {
    hide ValueOf, OctetOf;
    var x := OctetWith(n);
    OctetRoundTrip(x);
  }

  lemma FourOctets(a: bv8, b: bv8, c: bv8, d: bv8)
    ensures IntOf([a, b, c, d]) == 0x100_0000 * ValueOf(a) + 0x1_0000 * ValueOf(b) + 0x100 * ValueOf(c) + ValueOf(d)
  {
    hide ValueOf, IntOf;
    IntOfAppend([], a);
    IntOfAppend([a], b);
    IntOfAppend([a, b], c);
    IntOfAppend([a, b, c], d);
    assert [] + [a] == [a] && [a] + [b] == [a, b] && [a, b] + [c] == [a, b, c];
    assert [a, b, c] + [d] == [a, b, c, d];
    assert IntOf([]) == 0 by { IntOfZeros([]); }
  }

  lemma FourDigits(n: nat)
    requires n < 0x1_0000_0000
    ensures 0x100_0000 * (n / 0x100_0000 % 0x100) + 0x1_0000 * (n / 0x1_0000 % 0x100)
              + 0x100 * (n / 0x100 % 0x100) + n % 0x100 == n
  {
    Regroup(n, 0x100);
    Regroup(n, 0x1_0000);
  }

  lemma Regroup(n: nat, d: nat)
    requires d == 0x100 || d == 0x1_0000
    ensures n / d / 0x100 == n / (d * 0x100)
  {
  }

  /** A counter is its number in four octets, most significant first. */
  lemma CounterSpells(n: nat)
    requires n < 0x1_0000_0000
    ensures |Counter(n)| == 4 && IntOf(Counter(n)) == n
  {
    hide IntOf, ValueOf, OctetOf;
    FourDigits(n);
    var a, b, c, d := n / 0x100_0000 % 0x100, n / 0x1_0000 % 0x100, n / 0x100 % 0x100, n % 0x100;
    FourOctets(OctetOf(a), OctetOf(b), OctetOf(c), OctetOf(d));
    ValueOfOctet(a);
    ValueOfOctet(b);
    ValueOfOctet(c);
    ValueOfOctet(d);
  }

  lemma IntOfLast(s: Octets)
    requires s != []
    ensures IntOf(s) == 256 * IntOf(s[..|s| - 1]) + ValueOf(s[|s| - 1])
  {
  }

  /** Strings of one length with one value are one string. */
  lemma {:induction false} IntOfInjective(s: Octets, t: Octets)
    requires |s| == |t| && IntOf(s) == IntOf(t)
    ensures s == t
  {
    hide IntOf, ValueOf, OctetOf;
    if s != [] {
      IntOfLast(s);
      IntOfLast(t);
      OctetRoundTrip(s[|s| - 1]);
      OctetRoundTrip(t[|t| - 1]);
      IntOfInjective(s[..|s| - 1], t[..|t| - 1]);
      assert s == s[..|s| - 1] + [s[|s| - 1]] && t == t[..|t| - 1] + [t[|t| - 1]];
    }
  }

  /** The mask of appendix B.2.1: an octet is taken from the hash of the seed followed by
      the four octets whose value counts the blocks before it. */
  lemma MaskOctet(h: Digest, seed: Octets, len: nat, j: nat, c: Octets)
    requires HashWidth(h) && j < len && |c| == 4 && IntOf(c) == j / 32
    ensures Mgf1(h, seed, len)[j] == h(seed + c)[j % 32]
  {
    hide Mgf1, Counter, IntOf;
    IntOfHead(c);
    FourOctetsBound();
    CounterSpells(j / 32);
    IntOfInjective(c, Counter(j / 32));
    Mgf1At(h, seed, len, j / 32, j % 32);
    assert j / 32 * HASH_LEN + j % 32 == j;
  }

  lemma FourOctetsBound()
    ensures Pow2(32) == 0x1_0000_0000
  {
    assert Pow2(8) == 0x100 && Pow2(16) == 0x1_0000 && Pow2(24) == 0x100_0000;
  }

  // ----- The spare bits

  /** The first octet weighs most, and a string's value has as many bits as it has. */
  lemma {:induction false} IntOfHead(s: Octets)
    ensures IntOf(s) < Pow2(8 * |s|)
    ensures s != [] ==> IntOf(s) == ValueOf(s[0]) * Pow2(8 * (|s| - 1)) + IntOf(s[1..])
  {
    hide IntOf, ValueOf, Pow2;
    if s == [] {
      assert IntOf([]) == 0 by { IntOfZeros([]); }
    } else {
      var init, last := s[..|s| - 1], s[|s| - 1];
      IntOfLast(s);
      IntOfHead(init);
      NextOctet(8 * |init|);
      if init == [] {
        assert s[1..] == [] && IntOf([]) == 0 by { IntOfZeros([]); }
        assert Pow2(0) == 1 by { PowZero(); }
      } else {
        assert s[1..] == init[1..] + [last];
        IntOfAppend(init[1..], last);
        NextOctet(8 * (|init| - 1));
        Scale(ValueOf(s[0]), Pow2(8 * (|init| - 1)));
      }
    }
  }

  lemma PowZero()
    ensures Pow2(0) == 1
  {
  }

  lemma Scale(a: nat, p: nat)
    ensures 256 * (a * p) == a * (256 * p)
  {
  }

  lemma LowBitsValue(leading: nat, x: bv8)
    requires leading < 8
    ensures x & LowBits(leading) == x <==> ValueOf(x) < Pow2(8 - leading)
  {
    OctetBelow(leading, x);
    assert Pow2(1) == 2 && Pow2(2) == 4 && Pow2(3) == 8 && Pow2(4) == 16;
    assert Pow2(5) == 32 && Pow2(6) == 64 && Pow2(7) == 128 && Pow2(8) == 256;
  }

  lemma OctetBelow(leading: nat, x: bv8)
    requires leading < 8
    ensures x & LowBits(leading) == x <==>
      ValueOf(x) < if leading == 0 then 256 else if leading == 1 then 128 else if leading == 2 then 64
                   else if leading == 3 then 32 else if leading == 4 then 16 else if leading == 5 then 8
                   else if leading == 6 then 4 else 2
  {
    MaskedOctet(leading, x);
  }

  lemma MaskedOctet(leading: nat, x: bv8)
    requires leading < 8
    ensures LowBits(leading) == if leading == 0 then 0xff else if leading == 1 then 0x7f else if leading == 2 then 0x3f
                   else if leading == 3 then 0x1f else if leading == 4 then 0x0f else if leading == 5 then 0x07
                   else if leading == 6 then 0x03 else 0x01
  {
    LowBitsKeep(leading);
  }

  lemma {:induction false} Pow2Adds(m: nat, n: nat)
    ensures Pow2(m + n) == Pow2(m) * Pow2(n)
  {
    if m > 0 {
      Pow2Adds(m - 1, n);
      assert Pow2(m + n) == 2 * Pow2(m - 1 + n);
    }
  }

  lemma BelowMultiple(a: nat, b: nat, p: nat, r: nat)
    requires r < p
    ensures a * p + r < b * p <==> a < b
  {
    if a < b {
      assert (a + 1) * p <= b * p;
    } else {
      assert b * p <= a * p;
    }
  }

  /** The spare high bits of an encoded message are clear exactly when its value fits the
      bits it is meant to have (step 6 of section 9.1.2). */
  lemma SpareBitsClearIff(em: Octets, emBits: nat)
    requires |em| == EmLen(emBits) > 0
    ensures em[0] & LowBits(8 * |em| - emBits) == em[0] <==> IntOf(em) < Pow2(emBits)
  {
    hide LowBits, IntOf, ValueOf, Pow2;
    var low := 8 * (|em| - 1);
    IntOfHead(em);
    IntOfHead(em[1..]);
    LowBitsValue(8 * |em| - emBits, em[0]);
    Pow2Adds(emBits - low, low);
    BelowMultiple(ValueOf(em[0]), Pow2(emBits - low), Pow2(low), IntOf(em[1..]));
  }

  // ----- The room under the modulus

  /** A modulus has exactly as many bits as its value needs. */
  lemma {:induction false} BitsLaw(n: nat)
    requires n > 0
    ensures Bits(n) > 0 && Pow2(Bits(n) - 1) <= n < Pow2(Bits(n))
  {
    if n > 1 {
      BitsLaw(n / 2);
    }
  }

  /** An encoding made for a key is a message its operation can take: its value is below
      the modulus (section 8.1.1). */
  lemma EncodingFitsModulus(h: Digest, key: RsaKey, mHash: Octets, salt: Octets)
    requires HashWidth(h) && key.modulus > 0
    requires EncodePss(h, mHash, salt, Bits(key.modulus) - 1).Some?
    ensures IntOf(EncodePss(h, mHash, salt, Bits(key.modulus) - 1).value) < key.modulus
  {
    hide EncodePss, LowBits, IntOf, Bits, Pow2;
    var emBits := Bits(key.modulus) - 1;
    BitsLaw(key.modulus);
    EncodedDataBlock(h, mHash, salt, emBits);
    SpareBitsClearIff(EncodePss(h, mHash, salt, emBits).value, emBits);
  }

  // ----- What is accepted

  lemma SaltLenIff(db: Octets, n: nat)
    ensures SaltLenOf(db) == Ok(n) <==> n < |db| && db[..|db| - n] == Zeros(|db| - n - 1) + [1]
    ensures SaltLenOf(db) == Err(BadSignature) || SaltLenOf(db).Ok?
  {
    var zeros := LeadingZeros(db);
    if n < |db| && db[..|db| - n] == Zeros(|db| - n - 1) + [1] {
      var head := db[..|db| - n];
      assert forall i | 0 <= i < |db| - n - 1 :: head[i] == db[i] == 0;
      assert head[|db| - n - 1] == db[|db| - n - 1] == 1;
      SeparatorFound(db, |db| - n - 1);
    }
  }

  /** Which opened messages carry a salt of `n` octets: those no longer than the encoding,
      with the trailer octet, whose data block is zeros and a one before the salt. Every
      other one is a bad signature. */
  lemma RecoveredIff(h: Digest, emBe: Octets, keyBits: nat, n: nat)
    requires HashWidth(h) && keyBits >= 1
    ensures var emLen := EmLen(keyBits - 1);
      RecoverSpec(h, emBe, keyBits) == Ok(n) <==>
        && |emBe| <= emLen && n + 34 <= emLen
        && var em := Zeros(emLen - |emBe|) + emBe;
        && em[emLen - 1] == 0xbc
        && DataBlock(h, em, keyBits - 1)[..emLen - n - 33] == Zeros(emLen - n - 34) + [1]
    ensures RecoverSpec(h, emBe, keyBits).Ok? || RecoverSpec(h, emBe, keyBits) == Err(BadSignature)
  {
    hide DataBlock, SaltLenOf;
    var emLen := EmLen(keyBits - 1);
    if |emBe| <= emLen && emLen >= 34 {
      SaltLenIff(DataBlock(h, Zeros(emLen - |emBe|) + emBe, keyBits - 1), n);
    }
  }

  /** An unmasked octet past the first: the message's own, and the mask's at its place. */
  lemma UnmaskedOctet(h: Digest, em: Octets, emBits: nat, j: nat, c: Octets)
    requires HashWidth(h) && |em| == EmLen(emBits) && 0 < j < |em| - 33 && |c| == 4 && IntOf(c) == j / 32
    ensures DataBlock(h, em, emBits)[j] == em[j] ^ h(em[|em| - 33..|em| - 1] + c)[j % 32]
  {
    hide Mgf1, IntOf, LowBits;
    MaskOctet(h, em[|em| - 33..|em| - 1], |em| - 33, j, c);
  }

  lemma {:induction false} Pow2Grows(m: nat, n: nat)
    requires m <= n
    ensures Pow2(m) <= Pow2(n)
  {
    if m < n {
      Pow2Grows(m, n - 1);
    }
  }

  /** A key is as many octets long as its modulus needs. */
  lemma KeyLength(modulus: nat, k: nat)
    requires k > 0 && Pow2(8 * (k - 1)) <= modulus < Pow2(8 * k)
    ensures (Bits(modulus) + 7) / 8 == k
  {
    hide Bits, Pow2;
    BitsLaw(modulus);
    if Bits(modulus) <= 8 * (k - 1) {
      Pow2Grows(Bits(modulus), 8 * (k - 1));
    } else if Bits(modulus) - 1 >= 8 * k {
      Pow2Grows(8 * k, Bits(modulus) - 1);
    }
  }

  /** A signature not as long as the modulus is named with both lengths, one that is no
      smaller than the modulus is bad, and the key's own error is passed on. */
  lemma SignatureRefused(h: Digest, key: RsaKey, signature: Octets, k: nat)
    requires HashWidth(h) && k > 0 && Pow2(8 * (k - 1)) <= key.modulus < Pow2(8 * k)
    ensures |signature| != k ==> RecoverSignatureSpec(h, key, signature) == Err(FieldLength(|signature|, k))
    ensures |signature| == k && IntOf(signature) >= key.modulus ==>
      RecoverSignatureSpec(h, key, signature) == Err(BadSignature)
    ensures |signature| == k && IntOf(signature) < key.modulus && key.open(IntOf(signature)).Err? ==>
      RecoverSignatureSpec(h, key, signature) == Err(key.open(IntOf(signature)).error)
  {
    hide RecoverSpec, IntOf, Bits, Pow2;
    KeyLength(key.modulus, k);
    BitsLaw(key.modulus);
  }
}
