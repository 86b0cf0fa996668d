/** Locating the salt of an RSA-PSS signature: MGF1 in place, the recovery of the
    salt length, and the encoding and verification of sections 9.1.1 and 9.1.2 of
    RFC 8017 it is measured against. */
module Pss {
  import opened Wrappers

  type Octets = seq<bv8>

  type Digest = Octets -> Octets

  const HASH_LEN := 32

  ghost predicate HashWidth(h: Digest) {
    forall x :: |h(x)| == HASH_LEN
  }

  datatype PssError = FieldLength(actual: nat, expected: nat) | BadSignature | Rsa

  // ----- MGF1 (appendix B.2.1)

  /** A counter as four octets, most significant first. */
  function Counter(n: nat): Octets {
    [OctetOf(n / 0x100_0000 % 0x100), OctetOf(n / 0x1_0000 % 0x100), OctetOf(n / 0x100 % 0x100), OctetOf(n % 0x100)]
  }

  function Blocks(h: Digest, seed: Octets, n: nat): (t: Octets)
    requires HashWidth(h)
    ensures |t| == n * HASH_LEN
  {
    if n == 0 then [] else Blocks(h, seed, n - 1) + h(seed + Counter(n - 1))
  }

  /** The mask: the leading octets of the hashed counter blocks. */
  function Mgf1(h: Digest, seed: Octets, len: nat): (mask: Octets)
    requires HashWidth(h)
    ensures |mask| == len
  {
    Blocks(h, seed, (len + HASH_LEN - 1) / HASH_LEN)[..len]
  }

  function Xor(a: Octets, b: Octets): (c: Octets)
    requires |a| == |b|
    ensures |c| == |a|
  {
    seq(|a|, i requires 0 <= i < |a| => a[i] ^ b[i])
  }

  lemma {:induction false} BlocksAt(h: Digest, seed: Octets, n: nat, counter: nat, i: nat)
    requires HashWidth(h) && counter < n && i < HASH_LEN
    ensures Blocks(h, seed, n)[counter * HASH_LEN + i] == h(seed + Counter(counter))[i]
  {
    hide Counter;
    if counter < n - 1 {
      BlocksAt(h, seed, n - 1, counter, i);
    }
  }

  lemma Mgf1At(h: Digest, seed: Octets, len: nat, counter: nat, i: nat)
    requires HashWidth(h) && i < HASH_LEN && counter * HASH_LEN + i < len
    ensures Mgf1(h, seed, len)[counter * HASH_LEN + i] == h(seed + Counter(counter))[i]
  {
    BlocksAt(h, seed, (len + HASH_LEN - 1) / HASH_LEN, counter, i);
  }

  /** Mask a buffer in place, one hash block at a time. */
  method Mgf1XorSha256(h: Digest, out: array<bv8>, seed: Octets)
    requires HashWidth(h)
    modifies out
    ensures out[..] == Xor(old(out[..]), Mgf1(h, seed, out.Length))
  {
    hide Mgf1, Counter;
    ghost var mask := Mgf1(h, seed, out.Length);
    var counter := 0;
    var offset := 0;
    while offset < out.Length
      invariant offset == counter * HASH_LEN
      invariant forall j | 0 <= j < out.Length :: out[j] == if j < offset then old(out[j]) ^ mask[j] else old(out[j])
    {
      var block := h(seed + Counter(counter));
      var i := 0;
      while i < HASH_LEN && offset + i < out.Length
        invariant i <= HASH_LEN
        invariant forall j | 0 <= j < out.Length ::
          out[j] == if j < offset + i then old(out[j]) ^ mask[j] else old(out[j])
      {
        Mgf1At(h, seed, out.Length, counter, i);
        out[offset + i] := out[offset + i] ^ block[i];
        i := i + 1;
      }
      offset := offset + HASH_LEN;
      counter := counter + 1;
    }
  }

  /** The mask applied twice is the identity. */
  lemma XorTwice(a: Octets, b: Octets)
    requires |a| == |b|
    ensures Xor(Xor(a, b), b) == a
  {
    forall i | 0 <= i < |a| ensures Xor(Xor(a, b), b)[i] == a[i] {
      XorTwiceOctet(a[i], b[i]);
    }
  }

  lemma XorTwiceOctet(x: bv8, y: bv8)
    ensures (x ^ y) ^ y == x
  {
  }

  // ----- Recovering the salt length

  function EmLen(emBits: nat): nat {
    (emBits + 7) / 8
  }

  /** The low bits of an octet that remain when `leading` high bits are cleared. */
  function LowBits(leading: nat): bv8
    requires leading < 8
  {
    0xff >> leading
  }

  function ClearLeading(db: Octets, leading: nat): (c: Octets)
    requires |db| > 0 && leading < 8
    ensures |c| == |db|
  {
    [db[0] & LowBits(leading)] + db[1..]
  }

  function Zeros(n: nat): (z: Octets)
    ensures |z| == n && forall i | 0 <= i < n :: z[i] == 0
  {
    seq(n, i => 0)
  }

  /** Number of leading zero octets. */
  function LeadingZeros(s: Octets): (n: nat)
    ensures n <= |s| && (forall i | 0 <= i < n :: s[i] == 0) && (n < |s| ==> s[n] != 0)
  {
    if s == [] || s[0] != 0 then 0 else 1 + LeadingZeros(s[1..])
  }

  /** The data block of an encoded message: unmasked, spare high bits cleared. */
  function DataBlock(h: Digest, em: Octets, emBits: nat): (db: Octets)
    requires HashWidth(h) && |em| == EmLen(emBits) && |em| >= HASH_LEN + 2
    ensures |db| == |em| - HASH_LEN - 1
  {
    var dbLen := |em| - HASH_LEN - 1;
    ClearLeading(Xor(em[..dbLen], Mgf1(h, em[dbLen..dbLen + HASH_LEN], dbLen)), 8 * |em| - emBits)
  }

  function SaltLenOf(db: Octets): Result<nat, PssError> {
    var sep := LeadingZeros(db);
    if sep == |db| || db[sep] != 1 then Err(BadSignature) else Ok(|db| - sep - 1)
  }

  /** The salt length of a whole encoded message. */
  function SaltLenOfMessage(h: Digest, em: Octets, emBits: nat): Result<nat, PssError>
    requires HashWidth(h) && |em| == EmLen(emBits)
  {
    if |em| == 0 || em[|em| - 1] != 0xbc || |em| < HASH_LEN + 2 then Err(BadSignature)
    else SaltLenOf(DataBlock(h, em, emBits))
  }

  function RecoverSpec(h: Digest, emBe: Octets, keyBits: nat): Result<nat, PssError>
    requires HashWidth(h) && keyBits >= 1
  {
    var emLen := EmLen(keyBits - 1);
    if |emBe| > emLen then Err(BadSignature)
    else SaltLenOfMessage(h, Zeros(emLen - |emBe|) + emBe, keyBits - 1)
  }

  /** Left-pad into a fresh buffer. */
  method LeftPad(emBe: Octets, emLen: nat) returns (em: array<bv8>)
    requires |emBe| <= emLen
    ensures fresh(em) && em[..] == Zeros(emLen - |emBe|) + emBe
  {
    em := new bv8[emLen](_ => 0);
    var start := emLen - |emBe|;
    for i := 0 to |emBe|
      invariant forall j | 0 <= j < emLen :: em[j] == if start <= j < start + i then emBe[j - start] else 0
    {
      em[start + i] := emBe[i];
    }
  }

  /** Copy the masked block out of the message, unmask it, clear its spare bits. */
  method Unmask(h: Digest, em: array<bv8>, emBits: nat) returns (db: array<bv8>)
    requires HashWidth(h) && em.Length == EmLen(emBits) && em.Length >= HASH_LEN + 2
    ensures fresh(db) && db[..] == DataBlock(h, em[..], emBits)
  {
    hide Mgf1, LowBits, Xor;
    var dbLen := em.Length - HASH_LEN - 1;
    db := new bv8[dbLen];
    for i := 0 to dbLen
      invariant forall j | 0 <= j < i :: db[j] == em[j]
      invariant em[..] == old(em[..])
    {
      db[i] := em[i];
    }
    assert db[..] == em[..dbLen];
    Mgf1XorSha256(h, db, em[dbLen..dbLen + HASH_LEN]);
    ghost var unmasked := db[..];
    db[0] := db[0] & LowBits(8 * em.Length - emBits);
    assert db[..] == ClearLeading(unmasked, 8 * em.Length - emBits);
  }

  method FindSeparator(db: array<bv8>) returns (sep: nat)
    ensures sep == LeadingZeros(db[..])
  {
    sep := 0;
    assert db[0..] == db[..];
    while sep < db.Length && db[sep] == 0
      invariant sep <= db.Length
      invariant LeadingZeros(db[..]) == sep + LeadingZeros(db[sep..])
    {
      assert db[sep..][1..] == db[sep + 1..];
      sep := sep + 1;
    }
  }

  /** The salt length of the octets a signature opened to. */
  method RecoverFromOpened(h: Digest, emBe: Octets, keyBits: nat) returns (r: Result<nat, PssError>)
    requires HashWidth(h) && keyBits >= 1
    ensures r == RecoverSpec(h, emBe, keyBits)
  {
    hide DataBlock;
    var emBits := keyBits - 1;
    var emLen := EmLen(emBits);
    if |emBe| > emLen {
      return Err(BadSignature);
    }
    var em := LeftPad(emBe, emLen);
    assert emLen > 0 ==> em[emLen - 1] == em[..][emLen - 1];
    if emLen == 0 || em[emLen - 1] != 0xbc {
      return Err(BadSignature);
    }
    if emLen < HASH_LEN + 2 {
      return Err(BadSignature);
    }
    var db := Unmask(h, em, emBits);
    var sep := FindSeparator(db);
    if sep == db.Length || db[sep] != 0x01 {
      return Err(BadSignature);
    }
    return Ok(db.Length - sep - 1);
  }

  // ----- From the signature

  function ValueOf(octet: bv8): (n: nat)
    ensures n < 256
  {
    octet as nat
  }

  function OctetOf(n: nat): bv8
    requires n < 256
  {
    n as bv8
  }

  lemma OctetRoundTrip(octet: bv8)
    ensures OctetOf(ValueOf(octet)) == octet && (ValueOf(octet) == 0 <==> octet == 0)
  {
  }

  /** The integer of an octet string, and the shortest octet string of an integer. */
  function IntOf(s: Octets): nat {
    if s == [] then 0 else 256 * IntOf(s[..|s| - 1]) + ValueOf(s[|s| - 1])
  }

  function OctetsOf(n: nat): Octets {
    if n < 256 then [OctetOf(n)] else OctetsOf(n / 256) + [OctetOf(n % 256)]
  }

  function Bits(n: nat): nat {
    if n == 0 then 0 else 1 + Bits(n / 2)
  }

  /** A public key: its modulus and the public operation on integers below it. */
  datatype RsaKey = RsaKey(modulus: nat, open: nat -> Result<nat, PssError>)

  function RecoverSignatureSpec(h: Digest, key: RsaKey, signature: Octets): Result<nat, PssError>
    requires HashWidth(h)
  {
    var keyBits := Bits(key.modulus);
    var keyLen := (keyBits + 7) / 8;
    if |signature| != keyLen then Err(FieldLength(|signature|, keyLen))
    else if IntOf(signature) >= key.modulus then Err(BadSignature)
    else
      match key.open(IntOf(signature))
      case Err(e) => Err(e)
      case Ok(message) => RecoverSpec(h, OctetsOf(message), keyBits)
  }

  method RecoverPssSaltLen(h: Digest, key: RsaKey, signature: Octets) returns (r: Result<nat, PssError>)
    requires HashWidth(h)
    ensures r == RecoverSignatureSpec(h, key, signature)
  {
    hide RecoverSpec;
    var keyBits := Bits(key.modulus);
    var keyLen := (keyBits + 7) / 8;
    if |signature| != keyLen {
      return Err(FieldLength(|signature|, keyLen));
    }
    var sigInt := IntOf(signature);
    if sigInt >= key.modulus {
      return Err(BadSignature);
    }
    var message := key.open(sigInt);
    if message.Err? {
      return Err(message.error);
    }
    r := RecoverFromOpened(h, OctetsOf(message.value), keyBits);
  }

  // ----- The encoding and the verification it is measured against

  function SaltedHash(h: Digest, mHash: Octets, salt: Octets): Octets {
    h(Zeros(8) + mHash + salt)
  }

  /** EMSA-PSS-ENCODE, section 9.1.1. */
  function EncodePss(h: Digest, mHash: Octets, salt: Octets, emBits: nat): (em: Option<Octets>)
    requires HashWidth(h)
    ensures em.Some? <==> EmLen(emBits) >= HASH_LEN + |salt| + 2
    ensures em.Some? ==> |em.value| == EmLen(emBits)
  {
    var emLen := EmLen(emBits);
    if emLen < HASH_LEN + |salt| + 2 then None
    else
      var digest := SaltedHash(h, mHash, salt);
      var db := Zeros(emLen - |salt| - HASH_LEN - 2) + [1] + salt;
      var maskedDb := Xor(db, Mgf1(h, digest, emLen - HASH_LEN - 1));
      Some(ClearLeading(maskedDb, 8 * emLen - emBits) + digest + [0xbc])
  }

  /** EMSA-PSS-VERIFY for a fixed salt length, section 9.1.2. */
  predicate VerifyPss(h: Digest, mHash: Octets, em: Octets, emBits: nat, saltLen: nat)
    requires HashWidth(h) && |em| == EmLen(emBits)
  {
    && |em| >= HASH_LEN + saltLen + 2
    && em[|em| - 1] == 0xbc
    && var dbLen := |em| - HASH_LEN - 1;
    && em[0] & LowBits(8 * |em| - emBits) == em[0]
    && var db := DataBlock(h, em, emBits);
    && (forall i | 0 <= i < dbLen - saltLen - 1 :: db[i] == 0)
    && db[dbLen - saltLen - 1] == 1
    && em[dbLen..dbLen + HASH_LEN] == SaltedHash(h, mHash, db[dbLen - saltLen..])
  }

  /** Verification with the salt length taken from the encoded message. */
  predicate VerifyAuto(h: Digest, mHash: Octets, em: Octets, emBits: nat)
    requires HashWidth(h) && |em| == EmLen(emBits)
  {
    var r := RecoverSpec(h, BigEndianBytes(em), emBits + 1);
    r.Ok? && VerifyPss(h, mHash, em, emBits, r.value)
  }

  /** The octets of a message read back from an integer: no leading zeros, and one
      zero octet for zero itself. */
  function BigEndianBytes(em: Octets): Octets {
    if LeadingZeros(em) == |em| then [0] else em[LeadingZeros(em)..]
  }

  lemma {:induction false} IntOfZeros(s: Octets)
    ensures IntOf(s) == 0 <==> LeadingZeros(s) == |s|
  {
    hide ValueOf, OctetOf;
    if s != [] {
      var init, last := s[..|s| - 1], s[|s| - 1];
      IntOfZeros(init);
      OctetRoundTrip(last);
      assert s == init + [last];
      LeadingZerosAppend(init, last);
    }
  }

  lemma {:induction false} LeadingZerosAppend(init: Octets, last: bv8)
    ensures LeadingZeros(init + [last])
         == if LeadingZeros(init) < |init| || last != 0 then LeadingZeros(init) else |init| + 1
  {
    if init == [] {
      assert [last][1..] == [];
    } else {
      assert (init + [last])[1..] == init[1..] + [last];
      LeadingZerosAppend(init[1..], last);
    }
  }

  /** An encoded message comes back from its integer without its leading zeros. */
  lemma {:induction false} OctetsOfInt(s: Octets)
    requires s != []
    ensures OctetsOf(IntOf(s)) == BigEndianBytes(s)
  {
    hide OctetsOf, OctetOf, ValueOf, IntOf, LeadingZeros, BigEndianBytes;
    var init, last := s[..|s| - 1], s[|s| - 1];
    assert s == init + [last];
    IntOfAppend(init, last);
    BigEndianAppend(init, last);
    IntOfZeros(init);
    OctetsOfStep(IntOf(init), last);
    if IntOf(init) > 0 {
      OctetsOfInt(init);
    }
  }

  lemma IntOfAppend(init: Octets, last: bv8)
    ensures IntOf(init + [last]) == 256 * IntOf(init) + ValueOf(last)
  {
    hide ValueOf;
    assert (init + [last])[..|init|] == init;
  }

  lemma BigEndianAppend(init: Octets, last: bv8)
    ensures BigEndianBytes(init + [last])
         == if LeadingZeros(init) == |init| then [last] else BigEndianBytes(init) + [last]
  {
    var n := LeadingZeros(init);
    LeadingZerosAppend(init, last);
    hide LeadingZeros;
    SuffixAppend(init, last, n);
  }

  lemma SuffixAppend(init: Octets, last: bv8, n: nat)
    requires n <= |init|
    ensures (init + [last])[n..] == init[n..] + [last] && init[|init|..] == []
  {
  }

  lemma OctetsOfStep(high: nat, low: bv8)
    ensures OctetsOf(256 * high + ValueOf(low)) == if high == 0 then [low] else OctetsOf(high) + [low]
  {
    hide OctetOf, ValueOf;
    OctetRoundTrip(low);
    SplitOctet(high, ValueOf(low));
  }

  lemma SplitOctet(high: nat, octet: nat)
    requires octet < 256
    ensures (256 * high + octet) % 256 == octet && (256 * high + octet) / 256 == high
  {
  }

  lemma PaddingRestores(em: Octets)
    requires |em| > 0
    ensures |BigEndianBytes(em)| <= |em| && Zeros(|em| - |BigEndianBytes(em)|) + BigEndianBytes(em) == em
  {
  }

  lemma SeparatorFound(db: Octets, n: nat)
    requires n < |db| && (forall i | 0 <= i < n :: db[i] == 0) && db[n] == 1
    ensures SaltLenOf(db) == Ok(|db| - n - 1)
  {
  }

  /** Clearing up to seven leading bits keeps a zero octet and the separator. */
  lemma LowBitsKeep(leading: nat)
    requires leading < 8
    ensures 0 & LowBits(leading) == 0 && 1 & LowBits(leading) == 1
  {
    if leading == 0 {
      assert LowBits(0) == 0xff;
    } else if leading == 1 {
      assert LowBits(1) == 0x7f;
    } else if leading == 2 {
      assert LowBits(2) == 0x3f;
    } else if leading == 3 {
      assert LowBits(3) == 0x1f;
    } else if leading == 4 {
      assert LowBits(4) == 0x0f;
    } else if leading == 5 {
      assert LowBits(5) == 0x07;
    } else if leading == 6 {
      assert LowBits(6) == 0x03;
    } else {
      assert LowBits(7) == 0x01;
    }
  }

  lemma ClearedUnmask(x: bv8, m: bv8, low: bv8)
    ensures (((x ^ m) & low) ^ m) & low == x & low
    ensures ((x ^ m) & low) & low == (x ^ m) & low
  {
  }

  /** Unmasking a masked data block whose spare bits were cleared restores it, if its
      own first octet has none of the spare bits. */
  lemma UnmaskRestores(db: Octets, mask: Octets, leading: nat)
    requires 0 < |db| == |mask| && leading < 8 && db[0] & LowBits(leading) == db[0]
    ensures ClearLeading(Xor(ClearLeading(Xor(db, mask), leading), mask), leading) == db
  {
    hide LowBits;
    var low := LowBits(leading);
    ClearedUnmask(db[0], mask[0], low);
    forall i | 0 < i < |db| ensures (db[i] ^ mask[i]) ^ mask[i] == db[i] {
      XorTwiceOctet(db[i], mask[i]);
    }
  }

  /** The data block of an encoding is the one it was built from. */
  lemma EncodedDataBlock(h: Digest, mHash: Octets, salt: Octets, emBits: nat)
    requires HashWidth(h) && EmLen(emBits) >= HASH_LEN + |salt| + 2
    ensures DataBlock(h, EncodePss(h, mHash, salt, emBits).value, emBits)
         == Zeros(EmLen(emBits) - |salt| - HASH_LEN - 2) + [1] + salt
    ensures var em := EncodePss(h, mHash, salt, emBits).value;
      && em[|em| - 1] == 0xbc
      && em[0] & LowBits(8 * |em| - emBits) == em[0]
      && em[|em| - HASH_LEN - 1..|em| - 1] == SaltedHash(h, mHash, salt)
  {
    hide Mgf1, LowBits, Xor, SaltedHash;
    var emLen := EmLen(emBits);
    var leading := 8 * emLen - emBits;
    var dbLen := emLen - HASH_LEN - 1;
    var db := Zeros(emLen - |salt| - HASH_LEN - 2) + [1] + salt;
    var digest := SaltedHash(h, mHash, salt);
    assert |digest| == HASH_LEN by { DigestWidth(h, mHash, salt); }
    var mask := Mgf1(h, digest, dbLen);
    var masked := Xor(db, mask);
    var em := EncodePss(h, mHash, salt, emBits).value;
    assert em == ClearLeading(masked, leading) + digest + [0xbc];
    assert em[..dbLen] == ClearLeading(masked, leading);
    assert em[dbLen..dbLen + HASH_LEN] == digest;
    LowBitsKeep(leading);
    UnmaskRestores(db, mask, leading);
    ClearedUnmask(masked[0], 0, LowBits(leading));
  }

  lemma DigestWidth(h: Digest, mHash: Octets, salt: Octets)
    requires HashWidth(h)
    ensures |SaltedHash(h, mHash, salt)| == HASH_LEN
  {
  }

  /** The salt length is recovered from every encoding, for every digest, salt and
      modulus size, through the integer the signature opens to. */
  lemma RecoversSaltLength(h: Digest, mHash: Octets, salt: Octets, emBits: nat)
    requires HashWidth(h) && EmLen(emBits) >= HASH_LEN + |salt| + 2
    ensures RecoverSpec(h, BigEndianBytes(EncodePss(h, mHash, salt, emBits).value), emBits + 1) == Ok(|salt|)
  {
    hide DataBlock, EncodePss, LowBits, SaltLenOf, RecoverSpec, BigEndianBytes;
    var em := EncodePss(h, mHash, salt, emBits).value;
    EncodedDataBlock(h, mHash, salt, emBits);
    RecoversFromBlock(h, em, emBits);
    SeparatorFound(DataBlock(h, em, emBits), EmLen(emBits) - |salt| - HASH_LEN - 2);
  }

  /** So it is recovered from every signature that opens to an encoding, for every key. */
  lemma RecoversFromSignature(h: Digest, key: RsaKey, signature: Octets, mHash: Octets, salt: Octets)
    requires HashWidth(h) && key.modulus > 0 && IntOf(signature) < key.modulus
    requires |signature| == (Bits(key.modulus) + 7) / 8
    requires EncodePss(h, mHash, salt, Bits(key.modulus) - 1).Some?
    requires key.open(IntOf(signature)) == Ok(IntOf(EncodePss(h, mHash, salt, Bits(key.modulus) - 1).value))
    ensures RecoverSignatureSpec(h, key, signature) == Ok(|salt|)
  {
    hide RecoverSpec, EncodePss, IntOf, OctetsOf, Bits, BigEndianBytes;
    var emBits := Bits(key.modulus) - 1;
    RecoversSaltLength(h, mHash, salt, emBits);
    OctetsOfInt(EncodePss(h, mHash, salt, emBits).value);
  }

  /** Locating the salt never changes the verdict: verification with the recovered
      length accepts exactly when verification with some length does. */
  lemma AutoAcceptsIffSomeLength(h: Digest, mHash: Octets, em: Octets, emBits: nat)
    requires HashWidth(h) && |em| == EmLen(emBits)
    ensures VerifyAuto(h, mHash, em, emBits) <==> exists saltLen: nat :: VerifyPss(h, mHash, em, emBits, saltLen)
  {
    forall saltLen: nat | VerifyPss(h, mHash, em, emBits, saltLen)
      ensures RecoverSpec(h, BigEndianBytes(em), emBits + 1) == Ok(saltLen)
    {
      LengthIsUnique(h, mHash, em, emBits, saltLen);
    }
  }

  /** The padded message is the encoded one, so its own data block is read. */
  lemma RecoversFromBlock(h: Digest, em: Octets, emBits: nat)
    requires HashWidth(h) && |em| == EmLen(emBits) && |em| >= HASH_LEN + 2 && em[|em| - 1] == 0xbc
    ensures RecoverSpec(h, BigEndianBytes(em), emBits + 1) == SaltLenOf(DataBlock(h, em, emBits))
  {
    hide DataBlock, SaltLenOf, BigEndianBytes, Zeros, EmLen;
    PaddingRestores(em);
    assert RecoverSpec(h, BigEndianBytes(em), emBits + 1) == SaltLenOfMessage(h, em, emBits) by {
      hide SaltLenOfMessage;
    }
  }

  lemma VerifiedBlock(h: Digest, mHash: Octets, em: Octets, emBits: nat, saltLen: nat)
    requires HashWidth(h) && |em| == EmLen(emBits) && VerifyPss(h, mHash, em, emBits, saltLen)
    ensures |em| >= HASH_LEN + saltLen + 2 && em[|em| - 1] == 0xbc
    ensures var db := DataBlock(h, em, emBits);
      var n := |db| - saltLen - 1;
      (forall i | 0 <= i < n :: db[i] == 0) && db[n] == 1
  {
    hide DataBlock, LowBits, SaltedHash;
  }

  lemma LengthIsUnique(h: Digest, mHash: Octets, em: Octets, emBits: nat, saltLen: nat)
    requires HashWidth(h) && |em| == EmLen(emBits) && VerifyPss(h, mHash, em, emBits, saltLen)
    ensures RecoverSpec(h, BigEndianBytes(em), emBits + 1) == Ok(saltLen)
  {
    hide DataBlock, SaltLenOf, BigEndianBytes, VerifyPss, RecoverSpec;
    VerifiedBlock(h, mHash, em, emBits, saltLen);
    RecoversFromBlock(h, em, emBits);
    var db := DataBlock(h, em, emBits);
    SeparatorFound(db, |db| - saltLen - 1);
  }

  /** Every signature over an encoding verifies, whatever its salt. */
  lemma EncodingVerifies(h: Digest, mHash: Octets, salt: Octets, emBits: nat)
    requires HashWidth(h) && EmLen(emBits) >= HASH_LEN + |salt| + 2
    ensures VerifyAuto(h, mHash, EncodePss(h, mHash, salt, emBits).value, emBits)
  {
    hide DataBlock, EncodePss, LowBits, SaltedHash, RecoverSpec;
    var em := EncodePss(h, mHash, salt, emBits).value;
    EncodedDataBlock(h, mHash, salt, emBits);
    RecoversSaltLength(h, mHash, salt, emBits);
    var db := DataBlock(h, em, emBits);
    assert db[|db| - |salt|..] == salt;
  }
}
