/**
 The ClientPIN commands that set, change and verify a PIN (section 6.5.5 of CTAP 2.1), with
 the retry counter in storage and the consecutive-failure block in memory.
 */
module ClientPin {
  import opened Bytes
  import opened PinProtocol

  const PIN_MIN_LENGTH: nat := 4
  const PIN_MAX_LENGTH: nat := 63
  const PIN_MAX_RETRIES: nat := 8
  const PIN_BLOCK_THRESHOLD: nat := 3
  const PIN_STORAGE_KEY: string := "client_pin_hash"
  const PIN_RETRIES_KEY: string := "client_pin_retries"
  const FORCE_CHANGE_KEY: string := "sys:cfg_force_change_pin"

  datatype PinError =
    | MissingParameter | InvalidParameter | PinAuthInvalid | PinNotSet | PinBlocked | PinAuthBlocked
    | PinInvalid | PinPolicyViolation | Unknown

  // ECDH with the announced (or a fresh) agreement key, key derivation, MAC and hash are
  // uninterpreted; the hash is 32 bytes long.
  datatype Crypto = Crypto(
    cipher: Cipher,
    agree: (Option<nat>, seq<byte>) -> Option<seq<byte>>,
    kdf: (nat, seq<byte>) -> seq<byte>,
    mac: (nat, seq<byte>, seq<byte>) -> Option<seq<byte>>,
    sha256: seq<byte> -> seq<byte>)

  ghost predicate LawfulCrypto(c: Crypto) {
    LawfulCipher(c.cipher) && forall m: seq<byte> :: |c.sha256(m)| == 32
  }

  datatype Request = Request(
    protocol: nat, keyAgreement: Option<seq<byte>>, pinAuth: Option<seq<byte>>,
    newPinEnc: Option<seq<byte>>, pinHashEnc: Option<seq<byte>>)

  datatype Token = Token(value: seq<byte>, permissions: nat, protocol: nat)

  // Which of the up to three writes of a command succeed, and the random bytes it draws.
  datatype Faults = Faults(spend: bool, reset: bool, hash: bool)
  datatype Draw = Draw(token: seq<byte>, iv: seq<byte>)

  predicate GoodDraw(d: Draw) {
    |d.token| == 32 && |d.iv| == BLOCK_LEN
  }

  type Storage = map<string, seq<byte>>

  datatype Auth = Auth(storage: Storage, failures: nat, agreement: Option<nat>, token: Option<Token>)

  // ---------- The stored counter ----------

  function Digit(n: nat): byte
    requires n < 10
  {
    0x30 + n
  }

  // Decimal text of an 8-bit number.
  function Decimal(n: nat): seq<byte>
    requires n < 0x100
  {
    if n < 10 then [Digit(n)]
    else if n < 100 then [Digit(n / 10), Digit(n % 10)]
    else [Digit(n / 100), Digit(n / 10 % 10), Digit(n % 10)]
  }

  function DigitsValue(text: seq<byte>): Option<nat> {
    if text == [] then Some(0)
    else
      var last := text[|text| - 1];
      match DigitsValue(text[..|text| - 1])
      case None => None
      case Some(front) => if 0x30 <= last <= 0x39 then Some(10 * front + (last - 0x30)) else None
  }

  // Parsing of an 8-bit decimal: an optional plus sign, at least one digit, and no overflow.
  function ParseU8(text: seq<byte>): (r: Option<nat>)
    ensures r.Some? ==> r.value < 0x100
  {
    var digits := if text != [] && text[0] == 0x2B then text[1..] else text;
    if digits == [] then None
    else match DigitsValue(digits)
      case None => None
      case Some(n) => if n < 0x100 then Some(n) else None
  }

  lemma DecimalRoundTrip(n: nat)
    requires n < 0x100
    ensures ParseU8(Decimal(n)) == Some(n)
  {
    var text := Decimal(n);
    var front := text[..|text| - 1];
    assert DigitsValue([]) == Some(0);
    if n >= 10 {
      assert front[..|front| - 1] == if n < 100 then [] else [Digit(n / 100)];
      assert [Digit(n / 100 % 10)][..0] == [];
      if n >= 100 {
        assert DigitsValue([Digit(n / 100)]) == Some(n / 100);
      }
      assert DigitsValue(front) == Some(n / 10);
    }
  }

  // An absent or unreadable counter reads as the maximum.
  function ReadRetries(storage: Storage): (r: nat)
    ensures r < 0x100
    ensures PIN_RETRIES_KEY !in storage || ParseU8(storage[PIN_RETRIES_KEY]) == None ==> r == PIN_MAX_RETRIES
  {
    if PIN_RETRIES_KEY !in storage then PIN_MAX_RETRIES
    else match ParseU8(storage[PIN_RETRIES_KEY])
      case None => PIN_MAX_RETRIES
      case Some(n) => n
  }

  predicate IsPinSet(storage: Storage) {
    PIN_STORAGE_KEY in storage
  }

  predicate IsBlocked(a: Auth) {
    a.failures >= PIN_BLOCK_THRESHOLD
  }

  // ---------- Steps ----------

  function Stored(storage: Storage, key: string, value: seq<byte>, ok: bool): Storage {
    if ok then storage[key := value] else storage
  }

  // The try is written as spent; whether that write succeeds is not looked at.
  function Spent(storage: Storage, ok: bool): Storage {
    var current := ReadRetries(storage);
    Stored(storage, PIN_RETRIES_KEY, Decimal(if current == 0 then 0 else current - 1), ok)
  }

  function Restored(storage: Storage, ok: bool): Storage {
    Stored(storage, PIN_RETRIES_KEY, Decimal(PIN_MAX_RETRIES), ok)
  }

  function FailureError(a: Auth): PinError {
    if ReadRetries(a.storage) == 0 then PinBlocked else if IsBlocked(a) then PinAuthBlocked else PinInvalid
  }

  function Failed(a: Auth): Auth {
    a.(failures := if a.failures < 0xff then a.failures + 1 else a.failures)
  }

  // What a command answers and leaves behind; `trail` is the storage after each write it
  // attempts, in order, starting with the storage before the command.
  datatype Outcome = Outcome(
    answer: Result<Option<seq<byte>>, PinError>, auth: Auth, trail: seq<Storage>, compared: bool, verified: bool)

  function Refused(a: Auth, e: PinError): Outcome {
    Outcome(Err(e), a, [a.storage], false, false)
  }

  // The shared secret, with the agreement key used up.
  function Agreed(crypto: Crypto, a: Auth, r: Request): (Option<seq<byte>>, Auth)
    requires r.keyAgreement.Some?
  {
    if |r.keyAgreement.value| != 64 then (None, a)
    else
      var a1 := a.(agreement := None);
      match crypto.agree(a.agreement, r.keyAgreement.value)
      case None => (None, a1)
      case Some(z) => (Some(crypto.kdf(r.protocol, z)), a1)
  }

  // Spend a try, then compare, then settle.
  function TryPin(crypto: Crypto, a: Auth, r: Request, secret: seq<byte>, f: Faults): Outcome
    requires KnownVersion(r.protocol) && r.pinHashEnc.Some? && IsPinSet(a.storage)
  {
    var s1 := Spent(a.storage, f.spend);
    var a1 := a.(storage := s1);
    match DecryptExact(crypto.cipher, r.protocol, secret, r.pinHashEnc.value, PIN_HASH_LEN)
    case Err(_) => Outcome(Err(FailureError(Failed(a1))), Failed(a1), [a.storage, s1], false, false)
    case Ok(hash) =>
      if hash != a.storage[PIN_STORAGE_KEY] then
        Outcome(Err(FailureError(Failed(a1))), Failed(a1), [a.storage, s1], true, false)
      else
        var s2 := Restored(s1, f.reset);
        Outcome(Ok(None), a1.(storage := s2, failures := 0), [a.storage, s1, s2], true, true)
  }

  // The new PIN in a decrypted 64-byte block.
  function NewPin(crypto: Crypto, r: Request, secret: seq<byte>): Result<seq<byte>, PinError>
    requires KnownVersion(r.protocol) && r.newPinEnc.Some?
  {
    match Decrypt(crypto.cipher, r.protocol, secret, r.newPinEnc.value)
    case Err(_) => Err(PinAuthInvalid)
    case Ok(padded) =>
      if |padded| != 64 then Err(InvalidParameter)
      else match StripZeroPadding(padded)
        case Err(_) => Err(PinAuthInvalid)
        case Ok(pin) => if |pin| < PIN_MIN_LENGTH || |pin| > PIN_MAX_LENGTH then Err(PinPolicyViolation) else Ok(pin)
  }

  function PinHash(crypto: Crypto, pin: seq<byte>): seq<byte> {
    var full := crypto.sha256(pin);
    if |full| < PIN_HASH_LEN then full else full[..PIN_HASH_LEN]
  }

  // ---------- Commands ----------

  function SetPin(crypto: Crypto, a: Auth, r: Request, f: Faults): Outcome {
    if !KnownVersion(r.protocol) then Refused(a, InvalidParameter)
    else if IsPinSet(a.storage) then Refused(a, PinAuthInvalid)
    else if r.keyAgreement.None? || r.newPinEnc.None? || r.pinAuth.None? then Refused(a, MissingParameter)
    else
      var (secret, a1) := Agreed(crypto, a, r);
      if secret.None? then Refused(a1, InvalidParameter)
      else if crypto.mac(r.protocol, secret.value, r.newPinEnc.value) != r.pinAuth then Refused(a1, PinAuthInvalid)
      else match NewPin(crypto, r, secret.value)
        case Err(e) => Refused(a1, e)
        case Ok(pin) =>
          var s1 := Stored(a.storage, PIN_STORAGE_KEY, PinHash(crypto, pin), f.hash);
          if !f.hash then Outcome(Err(Unknown), a1, [a.storage, s1], false, false)
          else
            var s2 := Restored(s1, f.reset);
            Outcome(Ok(None), a1.(storage := s2, failures := 0, token := None), [a.storage, s1, s2], false, false)
  }

  function ChangePin(crypto: Crypto, a: Auth, r: Request, f: Faults): Outcome {
    if !KnownVersion(r.protocol) then Refused(a, InvalidParameter)
    else if !IsPinSet(a.storage) then Refused(a, PinNotSet)
    else if ReadRetries(a.storage) == 0 then Refused(a, PinBlocked)
    else if IsBlocked(a) then Refused(a, PinAuthBlocked)
    else if r.keyAgreement.None? || r.pinHashEnc.None? || r.newPinEnc.None? || r.pinAuth.None? then Refused(a, MissingParameter)
    else
      var (secret, a1) := Agreed(crypto, a, r);
      if secret.None? then Refused(a1, InvalidParameter)
      else if crypto.mac(r.protocol, secret.value, r.newPinEnc.value + r.pinHashEnc.value) != r.pinAuth then
        Refused(a1, PinAuthInvalid)
      else
        var tried := TryPin(crypto, a1, r, secret.value, f);
        if !tried.verified then tried
        else match NewPin(crypto, r, secret.value)
          case Err(e) => tried.(answer := Err(e))
          case Ok(pin) =>
            var s3 := Stored(tried.auth.storage, PIN_STORAGE_KEY, PinHash(crypto, pin), f.hash);
            tried.(answer := if f.hash then Ok(None) else Err(Unknown),
                   auth := tried.auth.(storage := s3, token := None),
                   trail := tried.trail + [s3])
  }

  function GetPinToken(crypto: Crypto, a: Auth, r: Request, permissions: nat, f: Faults, d: Draw): Outcome
    requires GoodDraw(d)
  {
    if !KnownVersion(r.protocol) then Refused(a, InvalidParameter)
    else if !IsPinSet(a.storage) then Refused(a, PinNotSet)
    else if FORCE_CHANGE_KEY in a.storage then Refused(a, PinPolicyViolation)
    else if ReadRetries(a.storage) == 0 then Refused(a, PinBlocked)
    else if IsBlocked(a) then Refused(a, PinAuthBlocked)
    else if r.keyAgreement.None? || r.pinHashEnc.None? then Refused(a, MissingParameter)
    else
      var (secret, a1) := Agreed(crypto, a, r);
      if secret.None? then Refused(a1, InvalidParameter)
      else
        var tried := TryPin(crypto, a1, r, secret.value, f);
        if !tried.verified then tried
        else match Encrypt(crypto.cipher, r.protocol, secret.value, d.iv, d.token)
          case Err(_) => tried.(answer := Err(Unknown))
          case Ok(sent) =>
            tried.(answer := Ok(Some(sent)),
                   auth := tried.auth.(token := Some(Token(d.token, permissions, r.protocol))))
  }

  class Authenticator {
    const crypto: Crypto
    var storage: Storage
    var failures: nat
    var agreement: Option<nat>
    var token: Option<Token>

    function Snapshot(): Auth
      reads this
    {
      Auth(storage, failures, agreement, token)
    }

    constructor (crypto: Crypto, storage: Storage)
      ensures this.crypto == crypto && Snapshot() == Auth(storage, 0, None, None)
    {
      this.crypto, this.storage := crypto, storage;
      failures, agreement, token := 0, None, None;
    }

    method DecrementPinRetries(ok: bool)
      modifies this`storage
      ensures storage == Spent(old(storage), ok)
    {
      hide ReadRetries, Decimal;
      var current := ReadRetries(storage);
      var left := if current == 0 then 0 else current - 1;
      if ok {
        storage := storage[PIN_RETRIES_KEY := Decimal(left)];
      }
    }

    method ResetPinRetries(ok: bool)
      modifies this`storage, this`failures
      ensures storage == Restored(old(storage), ok) && failures == 0
    {
      failures := 0;
      if ok {
        storage := storage[PIN_RETRIES_KEY := Decimal(PIN_MAX_RETRIES)];
      }
    }

    method RegisterPinFailure() returns (e: PinError)
      modifies this`failures
      ensures Snapshot() == Failed(old(Snapshot())) && e == FailureError(Snapshot())
    {
      hide ReadRetries;
      if failures < 0xff {
        failures := failures + 1;
      }
      if ReadRetries(storage) == 0 {
        return PinBlocked;
      }
      return if failures >= PIN_BLOCK_THRESHOLD then PinAuthBlocked else PinInvalid;
    }

    method PerformKeyAgreement(r: Request) returns (secret: Option<seq<byte>>)
      requires r.keyAgreement.Some?
      modifies this`agreement
      ensures (secret, Snapshot()) == Agreed(crypto, old(Snapshot()), r)
    {
      if |r.keyAgreement.value| != 64 {
        return None;
      }
      var z := crypto.agree(agreement, r.keyAgreement.value);
      agreement := None;
      return if z.None? then None else Some(crypto.kdf(r.protocol, z.value));
    }

    // The common middle of the two guessing commands.
    method VerifyPin(r: Request, secret: seq<byte>, f: Faults) returns (answer: Result<(), PinError>)
      requires KnownVersion(r.protocol) && r.pinHashEnc.Some? && IsPinSet(storage)
      modifies this`storage, this`failures
      ensures var out := TryPin(crypto, old(Snapshot()), r, secret, f);
        && Snapshot() == out.auth && answer.Ok? == out.verified
        && (answer.Err? ==> out.answer == Err(answer.error))
    {
      hide ReadRetries, DecryptExact, Decimal;
      ghost var pinHash := storage[PIN_STORAGE_KEY];
      DecrementPinRetries(f.spend);
      assert storage[PIN_STORAGE_KEY] == pinHash;
      var hash := DecryptExact(crypto.cipher, r.protocol, secret, r.pinHashEnc.value, PIN_HASH_LEN);
      if hash.Err? {
        var e := RegisterPinFailure();
        return Err(e);
      }
      if hash.value != storage[PIN_STORAGE_KEY] {
        var e := RegisterPinFailure();
        return Err(e);
      }
      ResetPinRetries(f.reset);
      return Ok(());
    }

    method HandleSetPin(r: Request, f: Faults) returns (answer: Result<Option<seq<byte>>, PinError>)
      modifies this
      ensures var out := SetPin(crypto, old(Snapshot()), r, f);
        answer == out.answer && Snapshot() == out.auth
    {
      hide NewPin, PinHash;
      if !KnownVersion(r.protocol) {
        return Err(InvalidParameter);
      }
      if IsPinSet(storage) {
        return Err(PinAuthInvalid);
      }
      if r.keyAgreement.None? || r.newPinEnc.None? || r.pinAuth.None? {
        return Err(MissingParameter);
      }
      var secret := PerformKeyAgreement(r);
      if secret.None? {
        return Err(InvalidParameter);
      }
      if crypto.mac(r.protocol, secret.value, r.newPinEnc.value) != r.pinAuth {
        return Err(PinAuthInvalid);
      }
      var pin := NewPin(crypto, r, secret.value);
      if pin.Err? {
        return Err(pin.error);
      }
      if !f.hash {
        return Err(Unknown);
      }
      storage := storage[PIN_STORAGE_KEY := PinHash(crypto, pin.value)];
      ResetPinRetries(f.reset);
      token := None;
      return Ok(None);
    }

    method HandleChangePin(r: Request, f: Faults) returns (answer: Result<Option<seq<byte>>, PinError>)
      modifies this
      ensures var out := ChangePin(crypto, old(Snapshot()), r, f);
        answer == out.answer && Snapshot() == out.auth
    {
      hide NewPin, PinHash, ReadRetries, DecryptExact, Spent, Restored;
      if !KnownVersion(r.protocol) {
        return Err(InvalidParameter);
      }
      if !IsPinSet(storage) {
        return Err(PinNotSet);
      }
      if ReadRetries(storage) == 0 {
        return Err(PinBlocked);
      }
      if failures >= PIN_BLOCK_THRESHOLD {
        return Err(PinAuthBlocked);
      }
      if r.keyAgreement.None? || r.pinHashEnc.None? || r.newPinEnc.None? || r.pinAuth.None? {
        return Err(MissingParameter);
      }
      var secret := PerformKeyAgreement(r);
      if secret.None? {
        return Err(InvalidParameter);
      }
      if crypto.mac(r.protocol, secret.value, r.newPinEnc.value + r.pinHashEnc.value) != r.pinAuth {
        return Err(PinAuthInvalid);
      }
      var verified := VerifyPin(r, secret.value, f);
      if verified.Err? {
        return Err(verified.error);
      }
      var pin := NewPin(crypto, r, secret.value);
      if pin.Err? {
        return Err(pin.error);
      }
      token := None;
      if !f.hash {
        return Err(Unknown);
      }
      storage := storage[PIN_STORAGE_KEY := PinHash(crypto, pin.value)];
      return Ok(None);
    }

    method HandleGetPinToken(r: Request, permissions: nat, f: Faults, d: Draw) returns (answer: Result<Option<seq<byte>>, PinError>)
      requires GoodDraw(d)
      modifies this
      ensures var out := GetPinToken(crypto, old(Snapshot()), r, permissions, f, d);
        answer == out.answer && Snapshot() == out.auth
    {
      hide ReadRetries, DecryptExact, Spent, Restored, Encrypt;
      if !KnownVersion(r.protocol) {
        return Err(InvalidParameter);
      }
      if !IsPinSet(storage) {
        return Err(PinNotSet);
      }
      if FORCE_CHANGE_KEY in storage {
        return Err(PinPolicyViolation);
      }
      if ReadRetries(storage) == 0 {
        return Err(PinBlocked);
      }
      if failures >= PIN_BLOCK_THRESHOLD {
        return Err(PinAuthBlocked);
      }
      if r.keyAgreement.None? || r.pinHashEnc.None? {
        return Err(MissingParameter);
      }
      var secret := PerformKeyAgreement(r);
      if secret.None? {
        return Err(InvalidParameter);
      }
      var verified := VerifyPin(r, secret.value, f);
      if verified.Err? {
        return Err(verified.error);
      }
      var sent := Encrypt(crypto.cipher, r.protocol, secret.value, d.iv, d.token);
      if sent.Err? {
        return Err(Unknown);
      }
      token := Some(Token(d.token, permissions, r.protocol));
      return Ok(Some(sent.value));
    }
  }

  // ---------- What the platform sent is what is stored ----------

  // The platform's side of setPIN: the padded PIN encrypted under the shared secret, with the
  // MAC of the ciphertext.
  ghost predicate SendsPin(crypto: Crypto, a: Auth, r: Request, pin: seq<byte>, iv: seq<byte>) {
    && KnownVersion(r.protocol) && |iv| == BLOCK_LEN && |pin| <= PIN_PAD_LEN
    && r.keyAgreement.Some? && |r.keyAgreement.value| == 64
    && (var secret := Agreed(crypto, a, r).0;
        && secret.Some? && |secret.value| == SecretLength(r.protocol)
        && r.newPinEnc.Some?
        && Encrypt(crypto.cipher, r.protocol, secret.value, iv, ZeroPadTo64(pin).value) == Ok(r.newPinEnc.value)
        && r.pinAuth.Some? && crypto.mac(r.protocol, secret.value, r.newPinEnc.value) == r.pinAuth)
  }

  // The PIN decrypted is the PIN sent exactly when it does not end in a zero byte and is 4 to 63 bytes long.
  lemma NewPinIsSentPinIff(crypto: Crypto, a: Auth, r: Request, pin: seq<byte>, iv: seq<byte>)
    requires LawfulCrypto(crypto) && SendsPin(crypto, a, r, pin, iv)
    ensures NewPin(crypto, r, Agreed(crypto, a, r).0.value) == Ok(pin)
      <==> PIN_MIN_LENGTH <= |pin| <= PIN_MAX_LENGTH && pin[|pin| - 1] != 0
  {
    hide Encrypt, Decrypt, ZeroPadTo64, StripZeroPadding;
    var secret := Agreed(crypto, a, r).0.value;
    PaddingRoundTripIff(pin);
    ProtocolRoundTrip(crypto.cipher, r.protocol, secret, iv, ZeroPadTo64(pin).value);
  }

  // A PIN of 4 to 63 bytes that does not end in zero, sent with setPIN to an authenticator
  // without one, is stored as the first half of its hash and starts with eight tries; sent
  // again as its hash - even a hash ending in zeros - it is then accepted by getPinToken.
  lemma SetPinThenTokenAccepted(
      crypto: Crypto, a: Auth, set_: Request, pin: seq<byte>, iv: seq<byte>, f: Faults,
      agreement: Option<nat>, get: Request, iv2: seq<byte>, permissions: nat, f2: Faults, d: Draw)
    requires LawfulCrypto(crypto) && SendsPin(crypto, a, set_, pin, iv) && !IsPinSet(a.storage) && FORCE_CHANGE_KEY !in a.storage
    requires PIN_MIN_LENGTH <= |pin| <= PIN_MAX_LENGTH && pin[|pin| - 1] != 0
    requires f.hash && f.reset && GoodDraw(d) && KnownVersion(get.protocol) && |iv2| == BLOCK_LEN
    requires get.keyAgreement.Some? && |get.keyAgreement.value| == 64
    requires var a1 := SetPin(crypto, a, set_, f).auth.(agreement := agreement);
      var secret := Agreed(crypto, a1, get).0;
      && secret.Some? && |secret.value| == SecretLength(get.protocol) && get.pinHashEnc.Some?
      && Encrypt(crypto.cipher, get.protocol, secret.value, iv2, PinHash(crypto, pin)) == Ok(get.pinHashEnc.value)
    ensures var set1 := SetPin(crypto, a, set_, f);
      && set1.answer == Ok(None)
      && set1.auth.storage[PIN_STORAGE_KEY] == PinHash(crypto, pin)
      && ReadRetries(set1.auth.storage) == PIN_MAX_RETRIES
      && (var got := GetPinToken(crypto, set1.auth.(agreement := agreement), get, permissions, f2, d);
          && got.verified && got.auth.token == Some(Token(d.token, permissions, get.protocol))
          && got.answer.Ok? && got.answer.value.Some?
          && Decrypt(crypto.cipher, get.protocol, Agreed(crypto, set1.auth.(agreement := agreement), get).0.value,
                     got.answer.value.value) == Ok(d.token))
  {
    hide Encrypt, Decrypt, DecryptExact, ZeroPadTo64, NewPin, Decimal, ParseU8, LawfulCipher;
    NewPinIsSentPinIff(crypto, a, set_, pin, iv);
    DecimalRoundTrip(PIN_MAX_RETRIES);
    var a1 := SetPin(crypto, a, set_, f).auth.(agreement := agreement);
    var secret := Agreed(crypto, a1, get).0.value;
    HashKeepsItsZeros(crypto.cipher, get.protocol, secret, iv2, PinHash(crypto, pin));
    ProtocolRoundTrip(crypto.cipher, get.protocol, secret, d.iv, d.token);
  }
}
