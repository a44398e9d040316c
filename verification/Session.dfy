/** A Secret Service session: secrets travel padded (section 6.3 of RFC 5652) and
    encrypted in CBC mode (section 6.2 of NIST SP 800-38A)
    (internal/secretservice/session.go).

    The block cipher is any permutation of the 16-byte blocks for every key, and
    the random IV is a parameter. */
module Session {
  import opened Text
  import opened Wrappers

  const BLOCK: nat := 16

  // ---- Padding ------------------------------------------------------------------

  function Repeat(b: Byte, n: nat): (r: Bytes)
    ensures |r| == n && forall i :: 0 <= i < n ==> r[i] == b
  {
    if n == 0 then [] else [b] + Repeat(b, n - 1)
  }

  function Padding(n: nat): Bytes
    requires 1 <= n < 256
  {
    Repeat(n, n)
  }

  function Pad(data: Bytes, blockSize: nat): Bytes
    requires 1 <= blockSize < 256
  {
    data + Padding(blockSize - |data| % blockSize)
  }

  method Pkcs7Pad(data: Bytes, blockSize: nat) returns (r: Bytes)
    requires 1 <= blockSize < 256
    ensures r == Pad(data, blockSize)
  {
    var padLen := blockSize - |data| % blockSize;
    var padded := new Byte[|data| + padLen];
    for i := 0 to |data|
      invariant forall j :: 0 <= j < i ==> padded[j] == data[j]
    {
      padded[i] := data[i];
    }
    for i := |data| to padded.Length
      invariant forall j :: 0 <= j < |data| ==> padded[j] == data[j]
      invariant forall j :: |data| <= j < i ==> padded[j] == padLen
    {
      padded[i] := padLen;
    }
    r := padded[..];
    assert r == data + Padding(padLen);
  }

  /** The padded length is the next strictly larger multiple of 16. */
  lemma PaddedLength(data: Bytes)
    ensures |Pad(data, BLOCK)| % BLOCK == 0
    ensures |data| < |Pad(data, BLOCK)| <= |data| + BLOCK
  {
    Complement(|data|, BLOCK - |data| % BLOCK);
  }

  lemma Complement(a: nat, n: nat)
    requires 1 <= n <= 16
    ensures (a + n) % 16 == 0 <==> n == 16 - a % 16
  {
  }

  // The data ends in n copies of the byte n.
  ghost predicate PaddedWith(data: Bytes, s: Bytes, n: nat) {
    1 <= n < 256 && data == s + Padding(n)
  }

  function Unpad(data: Bytes): Option<Bytes> {
    if data == [] then None
    else
      var n := data[|data| - 1];
      if n == 0 || n > |data| || data[|data| - n..] != Padding(n) then None else Some(data[..|data| - n])
  }

  /** Unpadding succeeds on exactly the data that ends in n copies of the byte n,
      and takes those off. */
  lemma UnpadIff(data: Bytes, s: Bytes)
    ensures Unpad(data) == Some(s) <==> exists n: nat :: PaddedWith(data, s, n)
  {
    if Unpad(data) == Some(s) {
      assert PaddedWith(data, s, data[|data| - 1]);
    }
    if n: nat :| PaddedWith(data, s, n) {
      assert data[|data| - 1] == Padding(n)[n - 1] == n;
      assert data[|data| - n..] == Padding(n) && data[..|data| - n] == s;
    }
  }

  method Pkcs7Unpad(data: Bytes) returns (r: Option<Bytes>)
    ensures forall s :: r == Some(s) <==> exists n: nat :: PaddedWith(data, s, n)
  {
    forall s ensures Unpad(data) == Some(s) <==> exists n: nat :: PaddedWith(data, s, n) {
      UnpadIff(data, s);
    }
    if |data| == 0 {
      return None;
    }
    var padLen := data[|data| - 1];
    if padLen == 0 || padLen > |data| {
      return None;
    }
    for i := |data| - padLen to |data|
      invariant forall j :: |data| - padLen <= j < i ==> data[j] == padLen
    {
      if data[i] != padLen {
        assert data[|data| - padLen..][i - (|data| - padLen)] != padLen;
        return None;
      }
    }
    assert data[|data| - padLen..] == Padding(padLen);
    r := Some(data[..|data| - padLen]);
  }

  lemma UnpadUndoesPad(data: Bytes, blockSize: nat)
    requires 1 <= blockSize < 256
    ensures Unpad(Pad(data, blockSize)) == Some(data)
  {
    assert PaddedWith(Pad(data, blockSize), data, blockSize - |data| % blockSize);
    UnpadIff(Pad(data, blockSize), data);
  }

  /** Padding again what was unpadded gives the data back iff its padding was no
      longer than a block; the unpadder takes up to 255 bytes off. */
  lemma PadUndoesUnpadIff(data: Bytes, s: Bytes)
    requires |data| % BLOCK == 0 && Unpad(data) == Some(s)
    ensures Pad(s, BLOCK) == data <==> |data| - |s| <= BLOCK
  {
    UnpadIff(data, s);
    var n: nat :| PaddedWith(data, s, n);
    PaddedLength(s);
    if n <= BLOCK {
      Complement(|s|, n);
    }
  }

  // ---- Exclusive or ---------------------------------------------------------------

  function Pow2(n: nat): (r: nat)
    ensures r >= 1
  {
    if n == 0 then 1 else 2 * Pow2(n - 1)
  }

  // Bit by bit, on n bits.
  function XorBits(a: nat, b: nat, n: nat): (r: nat)
    requires a < Pow2(n) && b < Pow2(n)
    ensures r < Pow2(n)
  {
    if n == 0 then 0 else 2 * XorBits(a / 2, b / 2, n - 1) + (a + b) % 2
  }

  lemma {:induction false} XorBitsCancels(a: nat, b: nat, n: nat)
    requires a < Pow2(n) && b < Pow2(n)
    ensures XorBits(XorBits(a, b, n), b, n) == a
  {
    if n > 0 {
      var y := XorBits(a / 2, b / 2, n - 1);
      XorBitsCancels(a / 2, b / 2, n - 1);
      LowBit(a, b, y);
    }
  }

  lemma LowBit(a: nat, b: nat, y: nat)
    ensures var x := 2 * y + (a + b) % 2;
            x / 2 == y && (x + b) % 2 == a % 2
  {
    assert 2 * y + (a + b) % 2 + b == a + 2 * (y + b - (a + b) / 2);
  }

  lemma Pow2Of8()
    ensures Pow2(8) == 256
  {
    assert Pow2(2) == 4 && Pow2(4) == 16 && Pow2(6) == 64;
  }

  function XorByte(a: Byte, b: Byte): Byte {
    Pow2Of8();
    XorBits(a, b, 8)
  }

  function Bit(a: nat, k: nat): nat {
    if k == 0 then a % 2 else Bit(a / 2, k - 1)
  }

  lemma {:induction false} XorBitsByBit(a: nat, b: nat, n: nat, k: nat)
    requires a < Pow2(n) && b < Pow2(n) && k < n
    ensures Bit(XorBits(a, b, n), k) == 1 <==> Bit(a, k) != Bit(b, k)
  {
    LowBit(a, b, XorBits(a / 2, b / 2, n - 1));
    if k > 0 {
      XorBitsByBit(a / 2, b / 2, n - 1, k - 1);
    }
  }

  /** Bit k of the exclusive or is 1 iff the two bytes differ there. */
  lemma XorByteByBit(a: Byte, b: Byte, k: nat)
    requires k < 8
    ensures Bit(XorByte(a, b), k) == 1 <==> Bit(a, k) != Bit(b, k)
  {
    Pow2Of8();
    XorBitsByBit(a, b, 8, k);
  }

  lemma {:induction false} BitIsBinary(a: nat, k: nat)
    ensures Bit(a, k) in {0, 1}
  {
    if k > 0 {
      BitIsBinary(a / 2, k - 1);
    }
  }

  // Eight bits determine a byte.
  lemma {:induction false} BitsDetermine(a: nat, b: nat, n: nat)
    requires a < Pow2(n) && b < Pow2(n)
    requires forall k :: 0 <= k < n ==> (Bit(a, k) == 1 <==> Bit(b, k) == 1)
    ensures a == b
  {
    if n > 0 {
      assert Bit(a, 0) == 1 <==> Bit(b, 0) == 1;
      forall k | 0 <= k < n - 1
        ensures Bit(a / 2, k) == 1 <==> Bit(b / 2, k) == 1
      {
        assert Bit(a, k + 1) == 1 <==> Bit(b, k + 1) == 1;
      }
      BitsDetermine(a / 2, b / 2, n - 1);
    }
  }

  // x is the bitwise difference of a and b.
  ghost predicate BitwiseDifference(x: Bytes, a: Bytes, b: Bytes) {
    && |x| == |a| == |b|
    && forall i, k :: 0 <= i < |x| && 0 <= k < 8 ==> (Bit(x[i], k) == 1 <==> Bit(a[i], k) != Bit(b[i], k))
  }

  function Xor(a: Bytes, b: Bytes): (r: Bytes)
    requires |a| == |b|
    ensures |r| == |a|
  {
    seq(|a|, i requires 0 <= i < |a| => XorByte(a[i], b[i]))
  }

  lemma XorCancels(a: Bytes, b: Bytes)
    requires |a| == |b|
    ensures Xor(Xor(a, b), b) == a
  {
    Pow2Of8();
    forall i | 0 <= i < |a|
      ensures Xor(Xor(a, b), b)[i] == a[i]
    {
      XorBitsCancels(a[i], b[i], 8);
    }
  }

  lemma XorIff(x: Bytes, a: Bytes, b: Bytes)
    requires |a| == |b|
    ensures BitwiseDifference(x, a, b) <==> x == Xor(a, b)
  {
    Pow2Of8();
    forall i, k | 0 <= i < |a| && 0 <= k < 8
      ensures Bit(Xor(a, b)[i], k) == 1 <==> Bit(a[i], k) != Bit(b[i], k)
    {
      XorByteByBit(a[i], b[i], k);
    }
    if BitwiseDifference(x, a, b) {
      forall i | 0 <= i < |a|
        ensures x[i] == Xor(a, b)[i]
      {
        BitsDetermine(x[i], Xor(a, b)[i], 8);
      }
    }
  }

  predicate Zeros(b: Bytes) {
    forall i :: 0 <= i < |b| ==> b[i] == 0
  }

  lemma {:induction false} ZeroBits(k: nat)
    ensures Bit(0, k) == 0
  {
    if k > 0 {
      ZeroBits(k - 1);
    }
  }

  lemma XorByteKeepsIff(a: Byte, b: Byte)
    ensures XorByte(a, b) == a <==> b == 0
  {
    Pow2Of8();
    forall k | 0 <= k < 8
      ensures Bit(a, k) in {0, 1} && Bit(b, k) in {0, 1} && Bit(0, k) == 0
      ensures Bit(XorByte(a, b), k) == 1 <==> Bit(a, k) != Bit(b, k)
    {
      BitIsBinary(a, k);
      BitIsBinary(b, k);
      ZeroBits(k);
      XorByteByBit(a, b, k);
    }
    if XorByte(a, b) == a {
      BitsDetermine(b, 0, 8);
    }
    if b == 0 {
      BitsDetermine(XorByte(a, b), a, 8);
    }
  }

  lemma XorKeepsIff(a: Bytes, b: Bytes)
    requires |a| == |b|
    ensures Xor(a, b) == a <==> Zeros(b)
  {
    forall i | 0 <= i < |a|
      ensures Xor(a, b)[i] == a[i] <==> b[i] == 0
    {
      XorByteKeepsIff(a[i], b[i]);
    }
    assert Zeros(b) ==> Xor(a, b) == a;
  }

  // ---- CBC over an abstract permutation ---------------------------------------------

  // From key and block to block.
  datatype Cipher = Cipher(enc: (Bytes, Bytes) -> Bytes, dec: (Bytes, Bytes) -> Bytes)

  predicate IsBlock(b: Bytes) {
    |b| == BLOCK
  }

  ghost predicate Permutation(c: Cipher, key: Bytes) {
    && (forall b | IsBlock(b) :: IsBlock(c.enc(key, b)) && c.dec(key, c.enc(key, b)) == b)
    && (forall b | IsBlock(b) :: IsBlock(c.dec(key, b)) && c.enc(key, c.dec(key, b)) == b)
  }

  function CbcEncrypt(c: Cipher, key: Bytes, iv: Bytes, data: Bytes): (r: Bytes)
    requires Permutation(c, key) && IsBlock(iv) && |data| % BLOCK == 0
    ensures |r| == |data|
    decreases |data|
  {
    if data == [] then []
    else
      var block := c.enc(key, Xor(data[..BLOCK], iv));
      block + CbcEncrypt(c, key, block, data[BLOCK..])
  }

  function CbcDecrypt(c: Cipher, key: Bytes, iv: Bytes, data: Bytes): (r: Bytes)
    requires Permutation(c, key) && IsBlock(iv) && |data| % BLOCK == 0
    ensures |r| == |data|
    decreases |data|
  {
    if data == [] then []
    else Xor(c.dec(key, data[..BLOCK]), iv) + CbcDecrypt(c, key, data[..BLOCK], data[BLOCK..])
  }

  lemma Inverse(c: Cipher, key: Bytes, b: Bytes)
    requires Permutation(c, key) && IsBlock(b)
    ensures IsBlock(c.enc(key, b)) && c.dec(key, c.enc(key, b)) == b
    ensures IsBlock(c.dec(key, b)) && c.enc(key, c.dec(key, b)) == b
  {
  }

  lemma {:induction false} DecryptUndoesEncrypt(c: Cipher, key: Bytes, iv: Bytes, data: Bytes)
    requires Permutation(c, key) && IsBlock(iv) && |data| % BLOCK == 0
    ensures CbcDecrypt(c, key, iv, CbcEncrypt(c, key, iv, data)) == data
    decreases |data|
  {
    hide Xor, Permutation;
    if data != [] {
      Inverse(c, key, Xor(data[..BLOCK], iv));
      XorCancels(data[..BLOCK], iv);
      var block := c.enc(key, Xor(data[..BLOCK], iv));
      DecryptUndoesEncrypt(c, key, block, data[BLOCK..]);
      var r := CbcEncrypt(c, key, iv, data);
      assert r[..BLOCK] == block && r[BLOCK..] == CbcEncrypt(c, key, block, data[BLOCK..]);
      assert data == data[..BLOCK] + data[BLOCK..];
    }
  }

  lemma {:induction false} EncryptUndoesDecrypt(c: Cipher, key: Bytes, iv: Bytes, data: Bytes)
    requires Permutation(c, key) && IsBlock(iv) && |data| % BLOCK == 0
    ensures CbcEncrypt(c, key, iv, CbcDecrypt(c, key, iv, data)) == data
    decreases |data|
  {
    hide Xor, Permutation;
    if data != [] {
      var block := data[..BLOCK];
      Inverse(c, key, block);
      XorCancels(c.dec(key, block), iv);
      EncryptUndoesDecrypt(c, key, block, data[BLOCK..]);
      var r := CbcDecrypt(c, key, iv, data);
      assert r[..BLOCK] == Xor(c.dec(key, block), iv) && r[BLOCK..] == CbcDecrypt(c, key, block, data[BLOCK..]);
      assert data == data[..BLOCK] + data[BLOCK..];
    }
  }

  // The i-th block, and the block before it, where the IV stands before the first.
  function Block(data: Bytes, i: nat): (b: Bytes)
    requires BLOCK * (i + 1) <= |data|
    ensures IsBlock(b)
  {
    data[BLOCK * i..BLOCK * (i + 1)]
  }

  function Before(iv: Bytes, data: Bytes, i: nat): Bytes
    requires BLOCK * i <= |data|
  {
    if i == 0 then iv else Block(data, i - 1)
  }

  lemma {:induction false} EncryptsBlocks(c: Cipher, key: Bytes, iv: Bytes, data: Bytes, i: nat)
    requires Permutation(c, key) && IsBlock(iv) && |data| % BLOCK == 0 && BLOCK * (i + 1) <= |data|
    ensures var r := CbcEncrypt(c, key, iv, data);
            Block(r, i) == c.enc(key, Xor(Block(data, i), Before(iv, r, i)))
    decreases i
  {
    hide Xor, Permutation;
    Inverse(c, key, Xor(data[..BLOCK], iv));
    var block := c.enc(key, Xor(data[..BLOCK], iv));
    var r, rest := CbcEncrypt(c, key, iv, data), CbcEncrypt(c, key, block, data[BLOCK..]);
    assert r == block + rest;
    if i == 0 {
      assert Block(r, 0) == block && Block(data, 0) == data[..BLOCK];
    } else {
      EncryptsBlocks(c, key, block, data[BLOCK..], i - 1);
      assert Block(r, i) == Block(rest, i - 1) && Block(data, i) == Block(data[BLOCK..], i - 1);
      assert Before(iv, r, i) == Before(block, rest, i - 1);
    }
  }

  // ---- Sessions -----------------------------------------------------------------------

  datatype Algorithm = Plain | DhAes

  datatype State = State(alg: Algorithm, key: Bytes, closed: bool)

  // The ciphers AES can be keyed to.
  predicate UsableKey(key: Bytes) {
    |key| in {16, 24, 32}
  }

  ghost predicate Usable(c: Cipher) {
    forall key | UsableKey(key) :: Permutation(c, key)
  }

  predicate Ready(s: State) {
    s.alg.DhAes? && !s.closed && UsableKey(s.key)
  }

  // The random IV is None when there is no randomness to be had.
  function EncryptedBy(c: Cipher, s: State, plaintext: Bytes, random: Option<Bytes>): Option<(Bytes, Bytes)>
    requires Usable(c) && (random.Some? ==> IsBlock(random.value))
  {
    if s.alg.Plain? then Some(([], plaintext))
    else if s.key == [] || s.closed || !UsableKey(s.key) || random.None? then None
    else
      PaddedLength(plaintext);
      Some((random.value, CbcEncrypt(c, s.key, random.value, Pad(plaintext, BLOCK))))
  }

  // Go's CBC mode panics on an IV of the wrong length.
  datatype Decrypted = Plaintext(bytes: Bytes) | Error | Panic

  function DecryptedBy(c: Cipher, s: State, iv: Bytes, ciphertext: Bytes): Decrypted
    requires Usable(c)
  {
    if s.alg.Plain? then Plaintext(ciphertext)
    else if s.key == [] || s.closed || !UsableKey(s.key) then Error
    else if ciphertext == [] || |ciphertext| % BLOCK != 0 then Error
    else if !IsBlock(iv) then Panic
    else
      match Unpad(CbcDecrypt(c, s.key, iv, ciphertext))
      case None => Error
      case Some(plaintext) => Plaintext(plaintext)
  }

  /** What a session encrypts it decrypts, and the ciphertext is as long as the
      next strictly larger multiple of 16. Encryption fails iff the session is
      encrypted and closed, badly keyed, or out of randomness. */
  lemma RoundTrip(c: Cipher, s: State, plaintext: Bytes, random: Option<Bytes>)
    requires Usable(c) && (random.Some? ==> IsBlock(random.value))
    ensures var sent := EncryptedBy(c, s, plaintext, random);
            && (sent.None? <==> !s.alg.Plain? && (!Ready(s) || random.None?))
            && (sent.Some? ==> DecryptedBy(c, s, sent.value.0, sent.value.1) == Plaintext(plaintext))
            && (sent.Some? && !s.alg.Plain? ==>
                  && IsBlock(sent.value.0) && |sent.value.1| % BLOCK == 0
                  && |plaintext| < |sent.value.1| <= |plaintext| + BLOCK)
  {
    if Ready(s) && random.Some? {
      PaddedLength(plaintext);
      DecryptUndoesEncrypt(c, s.key, random.value, Pad(plaintext, BLOCK));
      UnpadUndoesPad(plaintext, BLOCK);
    }
  }

  /** Every block of the ciphertext is the encryption of the bitwise difference of
      that block of the padded plaintext and the ciphertext block before it, the IV
      before the first. */
  lemma BlockLaw(c: Cipher, s: State, plaintext: Bytes, random: Option<Bytes>, i: nat, x: Bytes)
    requires Usable(c) && Ready(s) && random.Some? && IsBlock(random.value)
    requires BLOCK * (i + 1) <= |Pad(plaintext, BLOCK)|
    ensures var sent := EncryptedBy(c, s, plaintext, random);
            && sent.Some? && sent.value.0 == random.value && |sent.value.1| == |Pad(plaintext, BLOCK)|
            && (BitwiseDifference(x, Block(Pad(plaintext, BLOCK), i), Before(sent.value.0, sent.value.1, i)) <==>
                  IsBlock(x) && Block(sent.value.1, i) == c.enc(s.key, x))
  {
    PaddedLength(plaintext);
    var padded, r := Pad(plaintext, BLOCK), CbcEncrypt(c, s.key, random.value, Pad(plaintext, BLOCK));
    EncryptsBlocks(c, s.key, random.value, padded, i);
    var y := Xor(Block(padded, i), Before(random.value, r, i));
    XorIff(x, Block(padded, i), Before(random.value, r, i));
    Inverse(c, s.key, y);
    if IsBlock(x) {
      Inverse(c, s.key, x);
    }
  }

  /** So the first block goes through the cipher as it is iff the IV is all zeros. */
  lemma FirstBlockPlainIff(c: Cipher, s: State, plaintext: Bytes, iv: Bytes)
    requires Usable(c) && Ready(s) && IsBlock(iv)
    ensures var sent := EncryptedBy(c, s, plaintext, Some(iv));
            && sent.Some? && BLOCK <= |sent.value.1| == |Pad(plaintext, BLOCK)|
            && (c.dec(s.key, Block(sent.value.1, 0)) == Block(Pad(plaintext, BLOCK), 0) <==> Zeros(iv))
  {
    PaddedLength(plaintext);
    var padded := Pad(plaintext, BLOCK);
    EncryptsBlocks(c, s.key, iv, padded, 0);
    Inverse(c, s.key, Xor(Block(padded, 0), iv));
    XorKeepsIff(Block(padded, 0), iv);
  }

  /** Decryption obeys the same law: each decrypted block is the bitwise difference of
      the deciphered block and the ciphertext block before it. */
  lemma DecryptionBlockLaw(c: Cipher, key: Bytes, iv: Bytes, data: Bytes, i: nat)
    requires Permutation(c, key) && IsBlock(iv) && |data| % BLOCK == 0 && BLOCK * (i + 1) <= |data|
    ensures BitwiseDifference(Block(CbcDecrypt(c, key, iv, data), i), c.dec(key, Block(data, i)), Before(iv, data, i))
  {
    var plain := CbcDecrypt(c, key, iv, data);
    EncryptUndoesDecrypt(c, key, iv, data);
    EncryptsBlocks(c, key, iv, plain, i);
    Inverse(c, key, Xor(Block(plain, i), Before(iv, data, i)));
    XorCancels(Block(plain, i), Before(iv, data, i));
    XorIff(Block(plain, i), c.dec(key, Block(data, i)), Before(iv, data, i));
  }

  /** A ciphertext decrypts to a plaintext at most one block shorter iff it is the
      encryption of that plaintext under the same IV. */
  lemma DecryptsIffEncrypted(c: Cipher, s: State, plaintext: Bytes, iv: Bytes, ciphertext: Bytes)
    requires Usable(c) && Ready(s) && IsBlock(iv)
    ensures EncryptedBy(c, s, plaintext, Some(iv)) == Some((iv, ciphertext)) <==>
              DecryptedBy(c, s, iv, ciphertext) == Plaintext(plaintext) && |ciphertext| - |plaintext| <= BLOCK
  {
    RoundTrip(c, s, plaintext, Some(iv));
    if DecryptedBy(c, s, iv, ciphertext) == Plaintext(plaintext) && |ciphertext| - |plaintext| <= BLOCK {
      var padded := CbcDecrypt(c, s.key, iv, ciphertext);
      PadUndoesUnpadIff(padded, plaintext);
      EncryptUndoesDecrypt(c, s.key, iv, ciphertext);
    }
  }

  /** A closed session decrypts nothing, unless it is a plain one, which never
      looks at the flag. Decryption panics iff the session is ready, the
      ciphertext is whole blocks, and the IV is not one block. */
  lemma ClosedAndPanics(c: Cipher, s: State, iv: Bytes, ciphertext: Bytes)
    requires Usable(c)
    ensures s.closed ==> (DecryptedBy(c, s, iv, ciphertext) == Error <==> !s.alg.Plain?)
    ensures DecryptedBy(c, s, iv, ciphertext).Panic? <==>
              Ready(s) && ciphertext != [] && |ciphertext| % BLOCK == 0 && |iv| != BLOCK
  {
  }

  class Session {
    const alg: Algorithm
    const key: Bytes
    var closed: bool

    constructor (alg: Algorithm, key: Bytes)
      ensures View() == State(alg, key, false)
    {
      this.alg, this.key, closed := alg, key, false;
    }

    function View(): State
      reads this
    {
      State(alg, key, closed)
    }

    method Encrypt(c: Cipher, plaintext: Bytes, random: Option<Bytes>) returns (sent: Option<(Bytes, Bytes)>)
      requires Usable(c) && (random.Some? ==> IsBlock(random.value))
      ensures sent == EncryptedBy(c, View(), plaintext, random)
    {
      if alg.Plain? {
        return Some(([], plaintext));
      }
      if |key| == 0 {
        return None;
      }
      if closed {
        return None;
      }
      if !UsableKey(key) || random.None? {
        return None;
      }
      var padded := Pkcs7Pad(plaintext, BLOCK);
      PaddedLength(plaintext);
      return Some((random.value, CbcEncrypt(c, key, random.value, padded)));
    }

    method Decrypt(c: Cipher, iv: Bytes, ciphertext: Bytes) returns (r: Decrypted)
      requires Usable(c)
      ensures r == DecryptedBy(c, View(), iv, ciphertext)
    {
      if alg.Plain? {
        return Plaintext(ciphertext);
      }
      if |key| == 0 {
        return Error;
      }
      if closed || !UsableKey(key) {
        return Error;
      }
      if |ciphertext| == 0 || |ciphertext| % BLOCK != 0 {
        return Error;
      }
      if |iv| != BLOCK {
        return Panic;
      }
      var padded := CbcDecrypt(c, key, iv, ciphertext);
      var plaintext := Pkcs7Unpad(padded);
      forall s ensures Unpad(padded) == Some(s) <==> plaintext == Some(s) {
        UnpadIff(padded, s);
      }
      return if plaintext.None? then Error else Plaintext(plaintext.value);
    }

    /** Nothing goes through an encrypted session any more; a plain one is not affected. */
    method Close()
      modifies this
      ensures View() == old(View()).(closed := true)
      ensures !alg.Plain? ==> forall c, iv, ciphertext | Usable(c) :: DecryptedBy(c, View(), iv, ciphertext) == Error
      ensures !alg.Plain? ==> forall c, plaintext, random: Option<Bytes> | Usable(c) && (random.Some? ==> IsBlock(random.value)) ::
                EncryptedBy(c, View(), plaintext, random) == None
      ensures alg.Plain? ==> forall c, iv, ciphertext | Usable(c) ::
                DecryptedBy(c, View(), iv, ciphertext) == DecryptedBy(c, old(View()), iv, ciphertext)
    {
      closed := true;
    }
  }
}
