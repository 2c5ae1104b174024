/**
 What the PIN commands check: exactly when a PIN is taken as right, what a right one changes and
 what a wrong one leaves alone, in terms of the bytes the platform sent.
 */
module PinChecks {
  import opened Bytes
  import opened PinProtocol
  import opened ClientPin
  import Runs = PinRuns

  // ---------- What the platform sent ----------

  // The shared secret of a request: agreed with the announced key, derived for the protocol.
  function SharedSecret(crypto: Crypto, a: Auth, r: Request): Option<seq<byte>> {
    if r.keyAgreement.None? || |r.keyAgreement.value| != 64 then None
    else match crypto.agree(a.agreement, r.keyAgreement.value)
      case None => None
      case Some(z) => Some(crypto.kdf(r.protocol, z))
  }

  // The first sixteen bytes of what `pinHashEnc` decrypts to.
  function HashSent(crypto: Crypto, a: Auth, r: Request): Option<seq<byte>> {
    if r.protocol !in {1, 2} || SharedSecret(crypto, a, r).None? || r.pinHashEnc.None? then None
    else match Decrypt(crypto.cipher, r.protocol, SharedSecret(crypto, a, r).value, r.pinHashEnc.value)
      case Err(_) => None
      case Ok(plain) => if |plain| < 16 then None else Some(plain[..16])
  }

  // The PIN in `newPinEnc`: 64 bytes, of which the zeros at the end are padding, 4 to 63 long.
  ghost predicate PinSent(crypto: Crypto, a: Auth, r: Request, pin: seq<byte>) {
    && r.protocol in {1, 2} && SharedSecret(crypto, a, r).Some? && r.newPinEnc.Some? && 4 <= |pin| <= 63
    && pin[|pin| - 1] != 0
    && Decrypt(crypto.cipher, r.protocol, SharedSecret(crypto, a, r).value, r.newPinEnc.value) == Ok(pin + Filled(64 - |pin|, 0))
  }

  // The request is authenticated under the shared secret.
  predicate Authentic(crypto: Crypto, a: Auth, r: Request, message: seq<byte>) {
    && SharedSecret(crypto, a, r).Some? && r.pinAuth.Some?
    && crypto.mac(r.protocol, SharedSecret(crypto, a, r).value, message) == r.pinAuth
  }

  // A PIN is set, tries are left, and the session is not blocked.
  predicate MayTry(a: Auth) {
    "client_pin_hash" in a.storage && ReadRetries(a.storage) > 0 && a.failures < 3
  }

  // Apart from the tries, the storage is what it was.
  ghost predicate OnlyTriesMoved(before: Storage, after: Storage) {
    forall key :: key != "client_pin_retries" ==>
      (key in after <==> key in before) && (key in after ==> after[key] == before[key])
  }

  lemma AgreedIsShared(crypto: Crypto, a: Auth, r: Request)
    requires r.keyAgreement.Some?
    ensures var (secret, a1) := Agreed(crypto, a, r);
      && secret == SharedSecret(crypto, a, r) && a1 == a.(agreement := a1.agreement)
      && (secret.Some? ==> a1.agreement == None)
  {
  }

  // ---------- One try ----------

  lemma TryIsExact(crypto: Crypto, a: Auth, r: Request, secret: seq<byte>, f: Faults)
    requires KnownVersion(r.protocol) && r.pinHashEnc.Some? && IsPinSet(a.storage)
    ensures var out := TryPin(crypto, a, r, secret, f);
      var sent := Decrypt(crypto.cipher, r.protocol, secret, r.pinHashEnc.value);
      && (out.verified <==> sent.Ok? && |sent.value| >= 16 && sent.value[..16] == a.storage["client_pin_hash"])
      && OnlyTriesMoved(a.storage, out.auth.storage)
      && out.auth.token == a.token && out.auth.agreement == a.agreement
      && (out.verified ==> out.answer == Ok(None) && out.auth.failures == 0)
      && (!out.verified ==> FailsAs(a, out, f) && out.answer.Err?)
      && (out.verified && f.reset ==> ReadRetries(out.auth.storage) == 8)
  {
    hide Decrypt, ReadRetries, Decimal;
    Runs.SpentReads(Spent(a.storage, f.spend));
  }

  // What a wrong PIN costs and answers: a try, and the error of the ladder.
  ghost predicate FailsAs(a: Auth, out: Outcome, f: Faults) {
    && out.auth.failures == (if a.failures < 255 then a.failures + 1 else a.failures)
    && out.auth.storage == Spent(a.storage, f.spend)
    && out.answer == Err(
         if ReadRetries(out.auth.storage) == 0 then PinBlocked
         else if out.auth.failures >= 3 then PinAuthBlocked else PinInvalid)
  }

  // A request with everything a try needs, of a known protocol.
  predicate ReachesTry(crypto: Crypto, a: Auth, r: Request) {
    r.protocol in {1, 2} && SharedSecret(crypto, a, r).Some? && r.pinHashEnc.Some?
  }

  // The try of a request, with the agreement key used up.
  lemma TryOfRequest(crypto: Crypto, a: Auth, a1: Auth, r: Request, f: Faults)
    requires ReachesTry(crypto, a, r) && IsPinSet(a.storage) && a1 == a.(agreement := a1.agreement)
    ensures var out := TryPin(crypto, a1, r, SharedSecret(crypto, a, r).value, f);
      && (out.verified <==> HashSent(crypto, a, r) == Some(a.storage["client_pin_hash"]))
      && OnlyTriesMoved(a.storage, out.auth.storage) && out.auth.token == a.token
      && (out.verified ==> out.answer == Ok(None) && out.auth.failures == 0)
      && (!out.verified ==> FailsAs(a, out, f) && out.answer.Err?)
      && (out.verified && f.reset ==> ReadRetries(out.auth.storage) == 8)
      && out.auth.agreement == a1.agreement
  {
    hide ReadRetries, SharedSecret, TryPin, OnlyTriesMoved, FailsAs, Decrypt;
    TryIsExact(crypto, a1, r, SharedSecret(crypto, a, r).value, f);
    FailsAlike(a, a1, TryPin(crypto, a1, r, SharedSecret(crypto, a, r).value, f), f);
  }

  lemma NoTryNoHash(crypto: Crypto, a: Auth, r: Request)
    requires !ReachesTry(crypto, a, r)
    ensures HashSent(crypto, a, r) == None
  {
    hide SharedSecret, Decrypt;
  }

  // ---------- getPinToken ----------

  // A token is given exactly to the hash that is stored; any other hash fails, changes nothing
  // but the tries and the failures, and gets no token.
  lemma TokenIffHashMatches(crypto: Crypto, a: Auth, r: Request, permissions: nat, f: Faults, d: Draw)
    requires GoodDraw(d)
    ensures var out := GetPinToken(crypto, a, r, permissions, f, d);
      && (out.verified <==>
            MayTry(a) && "sys:cfg_force_change_pin" !in a.storage && HashSent(crypto, a, r) == Some(a.storage["client_pin_hash"]))
      && (out.answer.Ok? ==>
            && out.verified && out.auth.token == Some(Token(d.token, permissions, r.protocol)) && out.auth.failures == 0
            && out.answer.value.Some?
            && Encrypt(crypto.cipher, r.protocol, SharedSecret(crypto, a, r).value, d.iv, d.token) == Ok(out.answer.value.value))
      && (!out.verified ==> out.answer.Err? && out.auth.token == a.token)
      && (!out.verified && MayTry(a) && "sys:cfg_force_change_pin" !in a.storage && ReachesTry(crypto, a, r) ==> FailsAs(a, out, f))
      && OnlyTriesMoved(a.storage, out.auth.storage)
  {
    hide ReadRetries, Encrypt, TryPin, Agreed, SharedSecret, HashSent, FailsAs;
    if r.keyAgreement.Some? {
      AgreedIsShared(crypto, a, r);
    } else {
      NoKeyNoSecret(crypto, a, r);
    }
    if ReachesTry(crypto, a, r) && IsPinSet(a.storage) {
      TryOfRequest(crypto, a, Agreed(crypto, a, r).1, r, f);
      hide OnlyTriesMoved;
    } else if !ReachesTry(crypto, a, r) {
      NoTryNoHash(crypto, a, r);
    }
  }

  lemma NoKeyNoSecret(crypto: Crypto, a: Auth, r: Request)
    requires r.keyAgreement.None?
    ensures SharedSecret(crypto, a, r).None?
  {
  }

  // ---------- changePIN ----------

  // The new PIN of a request is exactly the one sent.
  lemma NewPinIsPinSent(crypto: Crypto, a: Auth, r: Request, pin: seq<byte>)
    requires r.protocol in {1, 2} && SharedSecret(crypto, a, r).Some? && r.newPinEnc.Some?
    ensures NewPin(crypto, r, SharedSecret(crypto, a, r).value) == Ok(pin) <==> PinSent(crypto, a, r, pin)
  {
    hide Decrypt, SharedSecret;
    var padded := Decrypt(crypto.cipher, r.protocol, SharedSecret(crypto, a, r).value, r.newPinEnc.value);
    if padded.Ok? {
      StripIs(padded.value, pin);
    }
    hide StripZeroPadding;
  }

  lemma {:induction false} StripIs(data: seq<byte>, pin: seq<byte>)
    ensures StripZeroPadding(data) == Ok(pin) <==>
      pin != [] && pin[|pin| - 1] != 0 && |pin| <= |data| && data == pin + Filled(|data| - |pin|, 0)
    decreases |data|
  {
    if data != [] {
      var front := data[..|data| - 1];
      assert data == front + [data[|data| - 1]];
      if data[|data| - 1] == 0 {
        StripIs(front, pin);
        if |pin| < |data| {
          assert pin + Filled(|data| - |pin|, 0) == pin + Filled(|front| - |pin|, 0) + [0];
        }
      } else {
        if |pin| < |data| {
          assert (pin + Filled(|data| - |pin|, 0))[|data| - 1] == 0;
        }
        assert pin + Filled(0, 0) == pin;
      }
    }
  }

  // changePIN takes the current PIN as right exactly when the request is authentic and its hash
  // is the one stored; only then is the PIN changed, to the one sent, by its hash.
  lemma ChangeIffHashMatches(crypto: Crypto, a: Auth, r: Request, f: Faults)
    ensures var out := ChangePin(crypto, a, r, f);
      && (out.verified <==>
            MayTry(a) && r.newPinEnc.Some? && r.pinHashEnc.Some? && Authentic(crypto, a, r, r.newPinEnc.value + r.pinHashEnc.value)
            && HashSent(crypto, a, r) == Some(a.storage["client_pin_hash"]))
      && (out.answer.Ok? ==>
            && out.verified && out.answer == Ok(None) && out.auth.token == None && out.auth.failures == 0
            && (exists pin :: PinSent(crypto, a, r, pin) && HoldsPin(crypto, out.auth.storage, pin)))
      && (out.answer.Err? ==> "client_pin_hash" in a.storage ==>
            "client_pin_hash" in out.auth.storage && out.auth.storage["client_pin_hash"] == a.storage["client_pin_hash"])
      && (!out.verified ==> out.auth.token == a.token && OnlyTriesMoved(a.storage, out.auth.storage))
      && (!out.verified && MayTry(a) && ReachesTry(crypto, a, r) && r.newPinEnc.Some?
          && Authentic(crypto, a, r, r.newPinEnc.value + r.pinHashEnc.value) ==>
            FailsAs(a, out, f))
  {
    hide ReadRetries, TryPin, Agreed, SharedSecret, HashSent, NewPin, PinHash, FailsAs, PinSent, HoldsPin;
    if r.keyAgreement.Some? {
      AgreedIsShared(crypto, a, r);
    } else {
      NoKeyNoSecret(crypto, a, r);
    }
    if ReachesTry(crypto, a, r) && r.newPinEnc.Some? && IsPinSet(a.storage) {
      var (secret, a1) := Agreed(crypto, a, r);
      TryOfRequest(crypto, a, a1, r, f);
      var pin := NewPin(crypto, r, secret.value);
      if pin.Ok? {
        NewPinIsPinSent(crypto, a, r, pin.value);
        StoredPinHeld(crypto, TryPin(crypto, a1, r, secret.value, f).auth.storage, pin.value);
      }
    } else if !ReachesTry(crypto, a, r) {
      NoTryNoHash(crypto, a, r);
    }
  }

  // The storage holds the first half of the hash of the PIN.
  ghost predicate HoldsPin(crypto: Crypto, storage: Storage, pin: seq<byte>) {
    "client_pin_hash" in storage &&
    var full := crypto.sha256(pin);
    storage["client_pin_hash"] == if |full| < 16 then full else full[..16]
  }

  lemma StoredPinHeld(crypto: Crypto, storage: Storage, pin: seq<byte>)
    ensures HoldsPin(crypto, Stored(storage, PIN_STORAGE_KEY, PinHash(crypto, pin), true), pin)
  {
  }

  lemma FailsAlike(a: Auth, a1: Auth, out: Outcome, f: Faults)
    requires a1 == a.(agreement := a1.agreement)
    ensures FailsAs(a1, out, f) <==> FailsAs(a, out, f)
  {
    hide ReadRetries, Decimal;
  }

  // ---------- setPIN ----------

  // setPIN answers success exactly for an authentic request with a PIN of the right length, to
  // an authenticator without one whose storage takes it; then it holds that PIN, and else none.
  lemma SetIff(crypto: Crypto, a: Auth, r: Request, f: Faults)
    ensures var out := SetPin(crypto, a, r, f);
      && (out.answer.Ok? <==>
            && "client_pin_hash" !in a.storage && r.newPinEnc.Some? && Authentic(crypto, a, r, r.newPinEnc.value) && f.hash
            && exists pin :: PinSent(crypto, a, r, pin))
      && (out.answer.Ok? ==>
            && out.auth.token == None && out.auth.failures == 0
            && (forall pin :: PinSent(crypto, a, r, pin) ==> HoldsPin(crypto, out.auth.storage, pin)))
      && (out.answer.Err? ==> out.auth.storage == a.storage && out.auth.token == a.token && out.auth.failures == a.failures)
  {
    hide ReadRetries, Decrypt, Agreed, SharedSecret, NewPin, PinHash, PinSent, HoldsPin, Decimal;
    if r.keyAgreement.Some? {
      AgreedIsShared(crypto, a, r);
      var (secret, a1) := Agreed(crypto, a, r);
      if r.protocol in {1, 2} && secret.Some? && r.newPinEnc.Some? {
        forall pin
          ensures NewPin(crypto, r, secret.value) == Ok(pin) <==> PinSent(crypto, a, r, pin)
        {
          NewPinIsPinSent(crypto, a, r, pin);
        }
        var pin := NewPin(crypto, r, secret.value);
        if pin.Ok? {
          HeldAfterReset(crypto, a.storage, pin.value, f.reset);
        }
      } else {
        NothingSent(crypto, a, r);
      }
    } else {
      NoKeyNoSecret(crypto, a, r);
    }
  }

  lemma HeldAfterReset(crypto: Crypto, storage: Storage, pin: seq<byte>, ok: bool)
    ensures HoldsPin(crypto, Restored(Stored(storage, PIN_STORAGE_KEY, PinHash(crypto, pin), true), ok), pin)
  {
    hide Decimal;
  }

  lemma NothingSent(crypto: Crypto, a: Auth, r: Request)
    requires r.protocol !in {1, 2} || SharedSecret(crypto, a, r).None? || r.newPinEnc.None?
    ensures forall pin :: !PinSent(crypto, a, r, pin)
  {
    hide Decrypt, SharedSecret;
  }

  // ---------- The same for what a platform encrypts ----------

  // A hash a platform encrypts under the shared secret is the hash that counts.
  lemma HashSentIsSent(crypto: Crypto, a: Auth, r: Request, hash: seq<byte>, iv: seq<byte>)
    requires LawfulCrypto(crypto) && r.protocol in {1, 2} && |iv| == 16 && |hash| == 16
    requires var secret := SharedSecret(crypto, a, r);
      && secret.Some? && |secret.value| == (if r.protocol == 1 then 32 else 64) && r.pinHashEnc.Some?
      && Encrypt(crypto.cipher, r.protocol, secret.value, iv, hash) == Ok(r.pinHashEnc.value)
    ensures HashSent(crypto, a, r) == Some(hash)
  {
    hide Encrypt, Decrypt, SharedSecret, LawfulCipher;
    HashKeepsItsZeros(crypto.cipher, r.protocol, SharedSecret(crypto, a, r).value, iv, hash);
  }

  // So the token goes to the PIN that was set, and to a PIN with another hash never.
  lemma WrongPinGetsNoToken(crypto: Crypto, a: Auth, r: Request, permissions: nat, f: Faults, d: Draw,
                            right: seq<byte>, tried: seq<byte>, iv: seq<byte>)
    requires LawfulCrypto(crypto) && GoodDraw(d) && r.protocol in {1, 2} && |iv| == 16
    requires MayTry(a) && "sys:cfg_force_change_pin" !in a.storage && HoldsPin(crypto, a.storage, right)
    requires var secret := SharedSecret(crypto, a, r);
      && secret.Some? && |secret.value| == (if r.protocol == 1 then 32 else 64) && r.pinHashEnc.Some?
      && Encrypt(crypto.cipher, r.protocol, secret.value, iv, crypto.sha256(tried)[..16]) == Ok(r.pinHashEnc.value)
    ensures var out := GetPinToken(crypto, a, r, permissions, f, d);
      && (out.verified <==> crypto.sha256(tried)[..16] == crypto.sha256(right)[..16])
      && (!out.verified ==> out.answer.Err? && out.auth.token == a.token && FailsAs(a, out, f))
  {
    hide Encrypt, SharedSecret, ReadRetries, FailsAs, GetPinToken;
    HashSentIsSent(crypto, a, r, crypto.sha256(tried)[..16], iv);
    hide HashSent, LawfulCipher;
    TokenIffHashMatches(crypto, a, r, permissions, f, d);
  }

  // ---------- What is refused before a try ----------

  // With no tries left, or after three failures in a row, both commands say so before they look
  // at anything else in the request, and change nothing.
  lemma BlockedIsSaid(crypto: Crypto, a: Auth, r: Request, permissions: nat, f: Faults, d: Draw)
    requires GoodDraw(d) && r.protocol in {1, 2} && "client_pin_hash" in a.storage && !MayTry(a)
    ensures ChangePin(crypto, a, r, f) == Refused(a, if ReadRetries(a.storage) == 0 then PinBlocked else PinAuthBlocked)
    ensures "sys:cfg_force_change_pin" !in a.storage ==>
      GetPinToken(crypto, a, r, permissions, f, d) == Refused(a, if ReadRetries(a.storage) == 0 then PinBlocked else PinAuthBlocked)
  {
    hide ReadRetries, TryPin, NewPin;
  }

  // ---------- After a try ----------

  // A comparison uses up the agreement key, and a right PIN gives all eight tries back, if the
  // write that gives them back succeeds.
  lemma AfterATry(crypto: Crypto, a: Auth, r: Request, permissions: nat, f: Faults, d: Draw, change: bool)
    requires GoodDraw(d)
    ensures var out := if change then ChangePin(crypto, a, r, f) else GetPinToken(crypto, a, r, permissions, f, d);
      && (out.compared ==> out.auth.agreement == None)
      && (out.verified && f.reset ==> ReadRetries(out.auth.storage) == 8)
  {
    hide ReadRetries, Encrypt, TryPin, Agreed, SharedSecret, NewPin, PinHash, HashSent, FailsAs, OnlyTriesMoved;
    if r.keyAgreement.Some? {
      AgreedIsShared(crypto, a, r);
    } else {
      NoKeyNoSecret(crypto, a, r);
    }
    if ReachesTry(crypto, a, r) && IsPinSet(a.storage) {
      var (secret, a1) := Agreed(crypto, a, r);
      TryOfRequest(crypto, a, a1, r, f);
      var tried := TryPin(crypto, a1, r, secret.value, f);
      if r.newPinEnc.Some? && NewPin(crypto, r, secret.value).Ok? {
        Runs.HashKeepsRetries(tried.auth.storage, PinHash(crypto, NewPin(crypto, r, secret.value).value), f.hash);
      }
    }
  }
}
