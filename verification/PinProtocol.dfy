/**
 The encryption both PIN/UV auth protocols use (section 6.5 of CTAP 2.1): AES-256 in CBC mode
 (section 6.2 of NIST SP 800-38A) over an uninterpreted block cipher, and the padding of PINs.
 */
module PinProtocol {
  import opened Bytes

  const BLOCK_LEN: nat := 16
  const PIN_PAD_LEN: nat := 64
  const PIN_HASH_LEN: nat := 16

  datatype CryptoError = BadKeyLength | BadIvLength | NotBlockMultiple | BadSecretLength | TooShort | TooLong | OnlyPadding

  // The block cipher under a key; all that is known is that decryption inverts encryption.
  datatype Cipher = Cipher(
    encrypt: (seq<byte>, seq<byte>) -> seq<byte>,
    decrypt: (seq<byte>, seq<byte>) -> seq<byte>)

  ghost predicate LawfulCipher(c: Cipher) {
    && (forall k: seq<byte>, b: seq<byte> :: |c.encrypt(k, b)| == BLOCK_LEN && |c.decrypt(k, b)| == BLOCK_LEN)
    && (forall k: seq<byte>, b: seq<byte> :: |b| == BLOCK_LEN ==> c.decrypt(k, c.encrypt(k, b)) == b)
  }

  // ---------- CBC ----------

  function XorByte(a: byte, b: byte): byte {
    Pow2Values();
    XorBound(a, b, 8);
    Xor(a, b)
  }

  function XorBlock(a: seq<byte>, b: seq<byte>): (r: seq<byte>)
    requires |a| == |b|
    ensures |r| == |a|
  {
    seq(|a|, i requires 0 <= i < |a| => XorByte(a[i], b[i]))
  }

  lemma XorBlockCancels(a: seq<byte>, b: seq<byte>)
    requires |a| == |b|
    ensures XorBlock(XorBlock(a, b), b) == a
  {
    hide Xor;
    forall i | 0 <= i < |a|
      ensures XorBlock(XorBlock(a, b), b)[i] == a[i]
    {
      XorCancels(a[i], b[i]);
    }
  }

  function CbcEncrypt(c: Cipher, key: seq<byte>, iv: seq<byte>, data: seq<byte>): (r: seq<byte>)
    requires |iv| == BLOCK_LEN && |data| % BLOCK_LEN == 0
    decreases |data|
  {
    if data == [] then []
    else
      var block := c.encrypt(key, XorBlock(data[..BLOCK_LEN], iv));
      if |block| != BLOCK_LEN then [] else block + CbcEncrypt(c, key, block, data[BLOCK_LEN..])
  }

  function CbcDecrypt(c: Cipher, key: seq<byte>, iv: seq<byte>, data: seq<byte>): (r: seq<byte>)
    requires |iv| == BLOCK_LEN && |data| % BLOCK_LEN == 0
    decreases |data|
  {
    if data == [] then []
    else
      var block := c.decrypt(key, data[..BLOCK_LEN]);
      if |block| != BLOCK_LEN then []
      else XorBlock(block, iv) + CbcDecrypt(c, key, data[..BLOCK_LEN], data[BLOCK_LEN..])
  }

  lemma {:induction false} CbcLength(c: Cipher, key: seq<byte>, iv: seq<byte>, data: seq<byte>)
    requires LawfulCipher(c) && |iv| == BLOCK_LEN && |data| % BLOCK_LEN == 0
    ensures |CbcEncrypt(c, key, iv, data)| == |data| == |CbcDecrypt(c, key, iv, data)|
    decreases |data|
  {
    hide XorBlock;
    if data != [] {
      CbcLength(c, key, c.encrypt(key, XorBlock(data[..BLOCK_LEN], iv)), data[BLOCK_LEN..]);
      CbcLength(c, key, data[..BLOCK_LEN], data[BLOCK_LEN..]);
    }
  }

  // Block i of a text, and the block before it, which is the initialisation vector for the first.
  function Block(text: seq<byte>, i: nat): seq<byte>
    requires 16 * (i + 1) <= |text|
  {
    text[16 * i..16 * i + 16]
  }

  function Previous(iv: seq<byte>, text: seq<byte>, i: nat): seq<byte>
    requires 16 * i <= |text| && |iv| == 16
  {
    if i == 0 then iv else Block(text, i - 1)
  }

  // Cipher block chaining (section 6.2 of NIST SP 800-38A): on the way in each block is combined
  // with the cipher block before it and then enciphered ...
  lemma {:induction false} CbcChainsIn(c: Cipher, key: seq<byte>, iv: seq<byte>, data: seq<byte>, i: nat)
    requires LawfulCipher(c) && |iv| == 16 && |data| % 16 == 0 && 16 * (i + 1) <= |data|
    ensures var sealed := CbcEncrypt(c, key, iv, data);
      && |sealed| == |data|
      && Block(sealed, i) == c.encrypt(key, XorBlock(Block(data, i), Previous(iv, sealed, i)))
    decreases i
  {
    hide XorBlock, Block, Previous;
    CbcLength(c, key, iv, data);
    CbcUnfolds(c, key, iv, data);
    var first, rest := data[..16], data[16..];
    var block := c.encrypt(key, XorBlock(first, iv));
    CbcLength(c, key, block, rest);
    hide CbcEncrypt, CbcDecrypt;
    var sealed := CbcEncrypt(c, key, block, rest);
    assert data == first + rest;
    if i == 0 {
      FirstBlock(iv, first, rest);
      FirstBlock(iv, block, sealed);
    } else {
      CbcChainsIn(c, key, block, rest, i - 1);
      BlockAfter(first, rest, i);
      BlockAfter(block, sealed, i);
    }
    hide LawfulCipher;
  }

  // ... and on the way out it is deciphered and then combined.
  lemma {:induction false} CbcChainsOut(c: Cipher, key: seq<byte>, iv: seq<byte>, data: seq<byte>, i: nat)
    requires LawfulCipher(c) && |iv| == 16 && |data| % 16 == 0 && 16 * (i + 1) <= |data|
    ensures var plain := CbcDecrypt(c, key, iv, data);
      && |plain| == |data|
      && Block(plain, i) == XorBlock(c.decrypt(key, Block(data, i)), Previous(iv, data, i))
    decreases i
  {
    hide XorBlock, Block, Previous;
    CbcLength(c, key, iv, data);
    CbcUnfolds(c, key, iv, data);
    var first, rest := data[..16], data[16..];
    CbcLength(c, key, first, rest);
    hide CbcEncrypt, CbcDecrypt;
    var block, plain := XorBlock(c.decrypt(key, first), iv), CbcDecrypt(c, key, first, rest);
    assert data == first + rest;
    if i == 0 {
      FirstBlock(iv, first, rest);
      FirstBlock(iv, block, plain);
    } else {
      CbcChainsOut(c, key, first, rest, i - 1);
      BlockAfter(first, rest, i);
      BlockAfter(block, plain, i);
    }
    hide LawfulCipher;
  }

  lemma CbcUnfolds(c: Cipher, key: seq<byte>, iv: seq<byte>, data: seq<byte>)
    requires LawfulCipher(c) && |iv| == 16 && |data| % 16 == 0 && data != []
    ensures |data| >= 16
    ensures var first, rest := data[..16], data[16..];
      var block := c.encrypt(key, XorBlock(first, iv));
      && CbcEncrypt(c, key, iv, data) == block + CbcEncrypt(c, key, block, rest)
      && CbcDecrypt(c, key, iv, data) == XorBlock(c.decrypt(key, first), iv) + CbcDecrypt(c, key, first, rest)
  {
    hide XorBlock;
  }

  lemma FirstBlock(iv: seq<byte>, first: seq<byte>, rest: seq<byte>)
    requires |first| == 16 == |iv|
    ensures Block(first + rest, 0) == first && Previous(iv, first + rest, 0) == iv
  {
  }

  lemma BlockAfter(first: seq<byte>, rest: seq<byte>, i: nat)
    requires |first| == 16 && 0 < i && 16 * i <= |rest|
    ensures Block(first + rest, i) == Block(rest, i - 1)
    ensures forall iv :: |iv| == 16 ==> Previous(iv, first + rest, i) == Previous(first, rest, i - 1)
  {
    if i == 1 {
      assert Block(first + rest, 0) == first;
    } else {
      assert Block(first + rest, i - 1) == Block(rest, i - 2);
    }
  }

  // Protocol 1 uses the whole secret and a zero vector; protocol 2 the second half of the
  // secret and its own vector, which goes first.
  lemma ProtocolLayout(c: Cipher, secret: seq<byte>, iv: seq<byte>, plaintext: seq<byte>)
    requires |iv| == 16 && |plaintext| % 16 == 0
    ensures |secret| == 32 ==> Encrypt(c, 1, secret, iv, plaintext) == Ok(CbcEncrypt(c, secret, Filled(16, 0), plaintext))
    ensures |secret| == 64 ==> Encrypt(c, 2, secret, iv, plaintext) == Ok(iv + CbcEncrypt(c, secret[32..64], iv, plaintext))
    ensures |secret| !in {32, 64} ==> Encrypt(c, 1, secret, iv, plaintext).Err? && Encrypt(c, 2, secret, iv, plaintext).Err?
  {
    hide CbcEncrypt;
    assert |secret| == 64 ==> secret[32..] == secret[32..64];
  }

  // Decryption inverts encryption, block chain and all, given only that it does so on blocks.
  lemma {:induction false} CbcRoundTrip(c: Cipher, key: seq<byte>, iv: seq<byte>, data: seq<byte>)
    requires LawfulCipher(c) && |iv| == BLOCK_LEN && |data| % BLOCK_LEN == 0
    ensures |CbcEncrypt(c, key, iv, data)| % BLOCK_LEN == 0
    ensures CbcDecrypt(c, key, iv, CbcEncrypt(c, key, iv, data)) == data
    decreases |data|
  {
    hide XorBlock;
    CbcLength(c, key, iv, data);
    if data != [] {
      var first, rest := data[..BLOCK_LEN], data[BLOCK_LEN..];
      var block := c.encrypt(key, XorBlock(first, iv));
      var more := CbcEncrypt(c, key, block, rest);
      CbcLength(c, key, block, rest);
      CbcRoundTrip(c, key, block, rest);
      XorBlockCancels(first, iv);
      assert (block + more)[..BLOCK_LEN] == block && (block + more)[BLOCK_LEN..] == more;
      assert data == first + rest;
    }
  }

  lemma CbcStep(c: Cipher, key: seq<byte>, prev: seq<byte>, data: seq<byte>, pos: nat)
    requires LawfulCipher(c) && |prev| == BLOCK_LEN && |data| % BLOCK_LEN == 0 && pos % BLOCK_LEN == 0 && pos < |data|
    ensures pos + BLOCK_LEN <= |data|
    ensures var rest, block := data[pos..], data[pos..pos + BLOCK_LEN];
      var cipherBlock, plain := c.encrypt(key, XorBlock(block, prev)), c.decrypt(key, block);
      && |cipherBlock| == |plain| == BLOCK_LEN
      && CbcEncrypt(c, key, prev, rest) == cipherBlock + CbcEncrypt(c, key, cipherBlock, data[pos + BLOCK_LEN..])
      && CbcDecrypt(c, key, prev, rest) == XorBlock(plain, prev) + CbcDecrypt(c, key, block, data[pos + BLOCK_LEN..])
  {
    hide XorBlock;
    var rest := data[pos..];
    assert rest[..BLOCK_LEN] == data[pos..pos + BLOCK_LEN] && rest[BLOCK_LEN..] == data[pos + BLOCK_LEN..];
  }

  lemma CbcOfNothing(c: Cipher, key: seq<byte>, prev: seq<byte>)
    requires |prev| == BLOCK_LEN
    ensures CbcEncrypt(c, key, prev, []) == [] == CbcDecrypt(c, key, prev, [])
  {
  }

  method Aes256CbcEncrypt(c: Cipher, key: seq<byte>, iv: seq<byte>, data: seq<byte>) returns (r: Result<seq<byte>, CryptoError>)
    requires LawfulCipher(c)
    ensures |key| != 32 ==> r == Err(BadKeyLength)
    ensures |key| == 32 && |iv| != BLOCK_LEN ==> r == Err(BadIvLength)
    ensures |key| == 32 && |iv| == BLOCK_LEN && |data| % BLOCK_LEN != 0 ==> r == Err(NotBlockMultiple)
    ensures |key| == 32 && |iv| == BLOCK_LEN && |data| % BLOCK_LEN == 0 ==> r == Ok(CbcEncrypt(c, key, iv, data))
  {
    hide XorBlock, CbcEncrypt, LawfulCipher;
    if |key| != 32 {
      return Err(BadKeyLength);
    }
    if |iv| != BLOCK_LEN {
      return Err(BadIvLength);
    }
    if |data| % BLOCK_LEN != 0 {
      return Err(NotBlockMultiple);
    }
    var prev, out, pos := iv, [], 0;
    ghost var goal := CbcEncrypt(c, key, iv, data);
    assert data[0..] == data && [] + goal == goal;
    while pos < |data|
      invariant 0 <= pos <= |data| && pos % BLOCK_LEN == 0 && |prev| == BLOCK_LEN
      invariant goal == out + CbcEncrypt(c, key, prev, data[pos..])
    {
      CbcStep(c, key, prev, data, pos);
      var block := c.encrypt(key, XorBlock(data[pos..pos + BLOCK_LEN], prev));
      ghost var more := CbcEncrypt(c, key, block, data[pos + BLOCK_LEN..]);
      assert out + (block + more) == (out + block) + more;
      out := out + block;
      prev := block;
      pos := pos + BLOCK_LEN;
    }
    CbcOfNothing(c, key, prev);
    assert data[pos..] == [] && out + [] == out;
    return Ok(out);
  }

  method Aes256CbcDecrypt(c: Cipher, key: seq<byte>, iv: seq<byte>, data: seq<byte>) returns (r: Result<seq<byte>, CryptoError>)
    requires LawfulCipher(c)
    ensures |key| != 32 ==> r == Err(BadKeyLength)
    ensures |key| == 32 && |iv| != BLOCK_LEN ==> r == Err(BadIvLength)
    ensures |key| == 32 && |iv| == BLOCK_LEN && |data| % BLOCK_LEN != 0 ==> r == Err(NotBlockMultiple)
    ensures |key| == 32 && |iv| == BLOCK_LEN && |data| % BLOCK_LEN == 0 ==> r == Ok(CbcDecrypt(c, key, iv, data))
  {
    hide XorBlock, CbcDecrypt, LawfulCipher;
    if |key| != 32 {
      return Err(BadKeyLength);
    }
    if |iv| != BLOCK_LEN {
      return Err(BadIvLength);
    }
    if |data| % BLOCK_LEN != 0 {
      return Err(NotBlockMultiple);
    }
    var prev, out, pos := iv, [], 0;
    ghost var goal := CbcDecrypt(c, key, iv, data);
    assert data[0..] == data && [] + goal == goal;
    while pos < |data|
      invariant 0 <= pos <= |data| && pos % BLOCK_LEN == 0 && |prev| == BLOCK_LEN
      invariant goal == out + CbcDecrypt(c, key, prev, data[pos..])
    {
      CbcStep(c, key, prev, data, pos);
      var block := data[pos..pos + BLOCK_LEN];
      var plain := XorBlock(c.decrypt(key, block), prev);
      ghost var more := CbcDecrypt(c, key, block, data[pos + BLOCK_LEN..]);
      assert out + (plain + more) == (out + plain) + more;
      out := out + plain;
      prev := block;
      pos := pos + BLOCK_LEN;
    }
    CbcOfNothing(c, key, prev);
    assert data[pos..] == [] && out + [] == out;
    return Ok(out);
  }

  // ---------- The two protocols ----------

  predicate KnownVersion(version: nat) {
    version == 1 || version == 2
  }

  function SecretLength(version: nat): nat {
    if version == 1 then 32 else 64
  }

  const ZERO_IV: seq<byte> := Filled(BLOCK_LEN, 0)

  // Protocol 1: the whole secret and a zero IV.  Protocol 2: the second half of the secret and
  // a random IV sent ahead of the ciphertext.
  function Encrypt(c: Cipher, version: nat, secret: seq<byte>, iv: seq<byte>, plaintext: seq<byte>): Result<seq<byte>, CryptoError>
    requires KnownVersion(version) && |iv| == BLOCK_LEN
  {
    if |plaintext| % BLOCK_LEN != 0 then Err(NotBlockMultiple)
    else if |secret| != SecretLength(version) then Err(BadSecretLength)
    else if version == 1 then Ok(CbcEncrypt(c, secret, ZERO_IV, plaintext))
    else Ok(iv + CbcEncrypt(c, secret[32..], iv, plaintext))
  }

  function Decrypt(c: Cipher, version: nat, secret: seq<byte>, ciphertext: seq<byte>): Result<seq<byte>, CryptoError>
    requires KnownVersion(version)
  {
    if |secret| != SecretLength(version) then Err(BadSecretLength)
    else if version == 1 then
      if |ciphertext| % BLOCK_LEN != 0 then Err(NotBlockMultiple) else Ok(CbcDecrypt(c, secret, ZERO_IV, ciphertext))
    else if |ciphertext| < BLOCK_LEN then Err(TooShort)
    else if |ciphertext[BLOCK_LEN..]| % BLOCK_LEN != 0 then Err(NotBlockMultiple)
    else Ok(CbcDecrypt(c, secret[32..], ciphertext[..BLOCK_LEN], ciphertext[BLOCK_LEN..]))
  }

  // The first `expected` bytes, with no padding removed.
  function DecryptExact(c: Cipher, version: nat, secret: seq<byte>, ciphertext: seq<byte>, expected: nat): (r: Result<seq<byte>, CryptoError>)
    requires KnownVersion(version)
    ensures r.Ok? ==> |r.value| == expected
  {
    match Decrypt(c, version, secret, ciphertext)
    case Err(e) => Err(e)
    case Ok(plain) => if |plain| < expected then Err(TooShort) else Ok(plain[..expected])
  }

  lemma ProtocolRoundTrip(c: Cipher, version: nat, secret: seq<byte>, iv: seq<byte>, plaintext: seq<byte>)
    requires LawfulCipher(c) && KnownVersion(version) && |iv| == BLOCK_LEN
    requires |secret| == SecretLength(version) && |plaintext| % BLOCK_LEN == 0
    ensures var sent := Encrypt(c, version, secret, iv, plaintext);
      sent.Ok? && Decrypt(c, version, secret, sent.value) == Ok(plaintext)
  {
    hide CbcEncrypt, CbcDecrypt;
    if version == 1 {
      CbcRoundTrip(c, secret, ZERO_IV, plaintext);
    } else {
      CbcRoundTrip(c, secret[32..], iv, plaintext);
      var sent := Encrypt(c, version, secret, iv, plaintext).value;
      assert sent[..BLOCK_LEN] == iv && sent[BLOCK_LEN..] == CbcEncrypt(c, secret[32..], iv, plaintext);
    }
  }

  // A sixteen-byte hash comes back whole, even when it ends in zero bytes.
  lemma HashKeepsItsZeros(c: Cipher, version: nat, secret: seq<byte>, iv: seq<byte>, hash: seq<byte>)
    requires LawfulCipher(c) && KnownVersion(version) && |iv| == BLOCK_LEN
    requires |secret| == SecretLength(version) && |hash| == PIN_HASH_LEN
    ensures var sent := Encrypt(c, version, secret, iv, hash);
      sent.Ok? && DecryptExact(c, version, secret, sent.value, PIN_HASH_LEN) == Ok(hash)
  {
    hide Encrypt, Decrypt;
    ProtocolRoundTrip(c, version, secret, iv, hash);
    assert hash[..PIN_HASH_LEN] == hash;
  }

  // ---------- Padding ----------

  function ZeroPadTo64(data: seq<byte>): Result<seq<byte>, CryptoError> {
    if |data| > PIN_PAD_LEN then Err(TooLong) else Ok(data + Filled(PIN_PAD_LEN - |data|, 0))
  }

  function StripZeroPadding(data: seq<byte>): Result<seq<byte>, CryptoError> {
    if data == [] then Err(OnlyPadding)
    else if data[|data| - 1] != 0 then Ok(data)
    else StripZeroPadding(data[..|data| - 1])
  }

  method StripTrailingZeros(data: seq<byte>) returns (r: Result<seq<byte>, CryptoError>)
    ensures r == StripZeroPadding(data)
  {
    var end := |data|;
    assert data[..end] == data;
    while end > 0 && data[end - 1] == 0
      invariant 0 <= end <= |data|
      invariant StripZeroPadding(data[..end]) == StripZeroPadding(data)
    {
      assert data[..end][..end - 1] == data[..end - 1];
      end := end - 1;
    }
    return if end == 0 then Err(OnlyPadding) else Ok(data[..end]);
  }

  lemma {:induction false} StripFilled(data: seq<byte>, n: nat)
    ensures StripZeroPadding(data + Filled(n, 0)) == StripZeroPadding(data)
    decreases n
  {
    if n == 0 {
      assert data + Filled(0, 0) == data;
    } else {
      StripFilled(data, n - 1);
      assert (data + Filled(n, 0))[..|data| + n - 1] == data + Filled(n - 1, 0);
    }
  }

  lemma {:induction false} StripShortens(data: seq<byte>)
    ensures StripZeroPadding(data).Ok? ==> |StripZeroPadding(data).value| <= |data|
    decreases |data|
  {
    if data != [] && data[|data| - 1] == 0 {
      StripShortens(data[..|data| - 1]);
    }
  }

  // Padding then stripping gives the PIN back exactly when it has at least one byte and does
  // not end in a zero byte.
  lemma PaddingRoundTripIff(pin: seq<byte>)
    requires |pin| <= PIN_PAD_LEN
    ensures ZeroPadTo64(pin).Ok?
    ensures var padded := ZeroPadTo64(pin).value;
      && |padded| == PIN_PAD_LEN
      && (StripZeroPadding(padded) == Ok(pin) <==> pin != [] && pin[|pin| - 1] != 0)
  {
    StripFilled(pin, PIN_PAD_LEN - |pin|);
    if pin != [] && pin[|pin| - 1] == 0 {
      StripShortens(pin[..|pin| - 1]);
    }
  }
}
