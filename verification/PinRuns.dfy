/**
 How many PINs can be guessed: runs of ClientPIN commands, power cycles, and power cuts
 inside a command.
 */
module PinRuns {
  import opened Bytes
  import opened PinProtocol
  import opened ClientPin

  datatype Call =
    | Set(r: Request)
    | Change(r: Request)
    | GetToken(r: Request, permissions: nat, d: Draw)

  datatype Event =
    | Complete(call: Call, f: Faults)
    | PowerCut(call: Call, f: Faults, writes: nat, reached: bool)  // after that many writes; `reached`: after the comparison
    | NewAgreement(key: nat)                                        // getKeyAgreement
    | PowerCycle

  predicate GoodCall(c: Call) {
    c.GetToken? ==> GoodDraw(c.d)
  }

  predicate GoodEvent(e: Event) {
    (e.Complete? || e.PowerCut?) ==> GoodCall(e.call)
  }

  function OutcomeOf(crypto: Crypto, a: Auth, c: Call, f: Faults): Outcome
    requires GoodCall(c)
  {
    match c
    case Set(r) => SetPin(crypto, a, r, f)
    case Change(r) => ChangePin(crypto, a, r, f)
    case GetToken(r, permissions, d) => GetPinToken(crypto, a, r, permissions, f, d)
  }

  // The authenticator with three tallies: hashes compared since the last successful
  // verification, how many of those met a failing write of the spent try, and hashes compared
  // in the current power cycle.
  datatype Tally = Tally(auth: Auth, sinceSuccess: nat, unpaid: nat, thisCycle: nat)

  function Rebooted(storage: Storage): Auth {
    Auth(storage, 0, None, None)
  }

  function Step(crypto: Crypto, t: Tally, e: Event): Tally
    requires GoodEvent(e)
  {
    match e
    case PowerCycle => Tally(Rebooted(t.auth.storage), t.sinceSuccess, t.unpaid, 0)
    case NewAgreement(key) => t.(auth := t.auth.(agreement := Some(key)))
    case Complete(call, f) =>
      var out := OutcomeOf(crypto, t.auth, call, f);
      if out.verified then Tally(out.auth, 0, 0, 0)
      else Tally(out.auth, t.sinceSuccess + One(out.compared), t.unpaid + One(out.compared && !f.spend),
                 t.thisCycle + One(out.compared))
    case PowerCut(call, f, writes, reached) =>
      var out := OutcomeOf(crypto, t.auth, call, f);
      var done := if writes < |out.trail| then writes else if |out.trail| > 0 then |out.trail| - 1 else 0;
      var storage := if |out.trail| > 0 then out.trail[done] else t.auth.storage;
      // the write of the spent try comes before the comparison
      var saw := out.compared && (done > 1 || (done == 1 && reached));
      if saw && out.verified && done > 1 then Tally(Rebooted(storage), 0, 0, 0)
      else Tally(Rebooted(storage), t.sinceSuccess + One(saw), t.unpaid + One(saw && !f.spend), 0)
  }

  function One(b: bool): nat {
    if b then 1 else 0
  }

  function Run(crypto: Crypto, t: Tally, events: seq<Event>): Tally
    requires forall i :: 0 <= i < |events| ==> GoodEvent(events[i])
  {
    if events == [] then t else Step(crypto, Run(crypto, t, events[..|events| - 1]), events[|events| - 1])
  }

  // ---------- The bounds ----------

  // Tries left and tries used since the last success add up to eight at most, apart from
  // those that were not paid for; in a power cycle, every comparison has been counted as a failure.
  ghost predicate Bounded(t: Tally) {
    && t.unpaid <= t.sinceSuccess
    && ReadRetries(t.auth.storage) + t.sinceSuccess <= PIN_MAX_RETRIES + t.unpaid
    && t.thisCycle <= t.auth.failures && t.thisCycle <= PIN_BLOCK_THRESHOLD
    && (!IsPinSet(t.auth.storage) ==> t.sinceSuccess == 0 && t.thisCycle == 0)
  }

  lemma SpentReads(storage: Storage)
    ensures ReadRetries(Spent(storage, true)) == if ReadRetries(storage) == 0 then 0 else ReadRetries(storage) - 1
    ensures ReadRetries(Restored(storage, true)) == PIN_MAX_RETRIES
  {
    hide Decimal, ParseU8;
    var n := ReadRetries(storage);
    DecimalRoundTrip(if n == 0 then 0 else n - 1);
    DecimalRoundTrip(PIN_MAX_RETRIES);
  }

  lemma HashKeepsRetries(storage: Storage, hash: seq<byte>, ok: bool)
    ensures ReadRetries(Stored(storage, PIN_STORAGE_KEY, hash, ok)) == ReadRetries(storage)
  {
    hide ParseU8;
  }

  // The shape of every command: refused without a write; or a first PIN; or one try written
  // as spent, before anything is compared, and given back only by a match.  `spend` says
  // whether the write of the spent try succeeds.
  ghost predicate Shape(a: Auth, out: Outcome, spend: bool) {
    && out.trail != [] && out.trail[0] == a.storage
    && (forall i :: 0 <= i < |out.trail| && IsPinSet(a.storage) ==> IsPinSet(out.trail[i]))
    && out.auth.storage == out.trail[|out.trail| - 1]
    && (if |out.trail| == 1 then !out.compared && !out.verified && out.auth.failures == a.failures
        else if !IsPinSet(a.storage) then
          && !out.compared && !out.verified
          && (out.auth.failures == a.failures || out.auth.failures == 0)
          && |out.trail| <= 3 && (forall i :: 1 <= i < |out.trail| ==> ReadRetries(out.trail[i]) in {ReadRetries(a.storage), PIN_MAX_RETRIES})
        else
          && !IsBlocked(a) && ReadRetries(a.storage) > 0
          && ReadRetries(out.trail[1]) == ReadRetries(a.storage) - One(spend)
          && (!spend ==> out.trail[1] == a.storage)
          && (out.verified ==> out.compared && |out.trail| >= 3 && out.auth.failures == 0)
          && (forall i :: 2 <= i < |out.trail| ==> ReadRetries(out.trail[i]) in {ReadRetries(a.storage) - One(spend), PIN_MAX_RETRIES})
          && (!out.verified ==> |out.trail| == 2 && out.auth.failures == a.failures + 1))
  }

  lemma TryShape(crypto: Crypto, a: Auth, r: Request, secret: seq<byte>, f: Faults)
    requires KnownVersion(r.protocol) && r.pinHashEnc.Some? && IsPinSet(a.storage)
    requires !IsBlocked(a) && ReadRetries(a.storage) > 0
    ensures Shape(a, TryPin(crypto, a, r, secret, f), f.spend)
  {
    hide ReadRetries, DecryptExact, Decimal;
    SpentReads(a.storage);
    SpentReads(Spent(a.storage, f.spend));
  }

  lemma AgreedKeepsRest(crypto: Crypto, a: Auth, r: Request)
    requires r.keyAgreement.Some?
    ensures var a1 := Agreed(crypto, a, r).1;
      a1 == a.(agreement := a1.agreement) && a1.storage == a.storage && a1.failures == a.failures
  {
  }

  lemma ShapeTransfers(a: Auth, a1: Auth, out: Outcome, spend: bool)
    requires Shape(a1, out, spend) && a1.storage == a.storage && a1.failures == a.failures
    ensures Shape(a, out, spend)
  {
    hide ReadRetries;
  }

  lemma SetShape(crypto: Crypto, a: Auth, r: Request, f: Faults)
    ensures Shape(a, SetPin(crypto, a, r, f), f.spend)
  {
    hide ReadRetries, NewPin, PinHash, Decimal;
    if r.keyAgreement.Some? {
      AgreedKeepsRest(crypto, a, r);
      hide Agreed;
      var (secret, _) := Agreed(crypto, a, r);
      if KnownVersion(r.protocol) && r.newPinEnc.Some? && secret.Some? && NewPin(crypto, r, secret.value).Ok? {
        var s1 := Stored(a.storage, PIN_STORAGE_KEY, PinHash(crypto, NewPin(crypto, r, secret.value).value), f.hash);
        HashKeepsRetries(a.storage, PinHash(crypto, NewPin(crypto, r, secret.value).value), f.hash);
        SpentReads(s1);
      }
    }
  }

  // A last write that leaves the tries and the PIN in place keeps the shape.
  lemma OneMoreWrite(a: Auth, tried: Outcome, out: Outcome, spend: bool)
    requires Shape(a, tried, spend) && tried.verified && IsPinSet(a.storage)
    requires |out.trail| == |tried.trail| + 1 && out.trail[..|tried.trail|] == tried.trail
    requires var last := out.trail[|tried.trail|];
      && out.auth.storage == last && IsPinSet(last) && ReadRetries(last) == ReadRetries(tried.auth.storage)
    requires out.compared == tried.compared && out.verified && out.auth.failures == tried.auth.failures
    ensures Shape(a, out, spend)
  {
    hide ReadRetries;
    forall i | 0 <= i < |tried.trail|
      ensures out.trail[i] == tried.trail[i]
    {
      assert out.trail[..|tried.trail|][i] == out.trail[i];
    }
  }

  lemma ChangeShape(crypto: Crypto, a: Auth, r: Request, f: Faults)
    ensures Shape(a, ChangePin(crypto, a, r, f), f.spend)
  {
    hide ReadRetries, NewPin, PinHash, TryPin, Shape;
    RefusedShape(a);
    if KnownVersion(r.protocol) && IsPinSet(a.storage) && ReadRetries(a.storage) != 0 && !IsBlocked(a)
       && r.keyAgreement.Some? && r.pinHashEnc.Some? && r.newPinEnc.Some? && r.pinAuth.Some? {
      AgreedKeepsRest(crypto, a, r);
      hide Agreed;
      var (secret, a1) := Agreed(crypto, a, r);
      if secret.Some? && crypto.mac(r.protocol, secret.value, r.newPinEnc.value + r.pinHashEnc.value) == r.pinAuth {
        TryShape(crypto, a1, r, secret.value, f);
        var tried := TryPin(crypto, a1, r, secret.value, f);
        ShapeTransfers(a, a1, tried, f.spend);
        AnswerIsFree(a, tried, f.spend);
        if tried.verified && NewPin(crypto, r, secret.value).Ok? {
          HashKeepsRetries(tried.auth.storage, PinHash(crypto, NewPin(crypto, r, secret.value).value), f.hash);
          PinStays(a, tried, f.spend);
          OneMoreWrite(a, tried, ChangePin(crypto, a, r, f), f.spend);
        }
      }
    }
  }

  lemma RefusedShape(a: Auth)
    ensures forall e, spend, agreement :: Shape(a, Refused(a.(agreement := agreement), e), spend)
    ensures forall e, spend :: Shape(a, Refused(a, e), spend)
  {
  }

  lemma AnswerIsFree(a: Auth, out: Outcome, spend: bool)
    requires Shape(a, out, spend)
    ensures forall answer :: Shape(a, out.(answer := answer), spend)
  {
    hide ReadRetries;
  }

  lemma PinStays(a: Auth, out: Outcome, spend: bool)
    requires Shape(a, out, spend) && IsPinSet(a.storage)
    ensures out.trail != [] && IsPinSet(out.auth.storage)
  {
    hide ReadRetries;
  }

  lemma TokenShape(crypto: Crypto, a: Auth, r: Request, permissions: nat, f: Faults, d: Draw)
    requires GoodDraw(d)
    ensures Shape(a, GetPinToken(crypto, a, r, permissions, f, d), f.spend)
  {
    hide ReadRetries, TryPin, Encrypt;
    if KnownVersion(r.protocol) && IsPinSet(a.storage) && FORCE_CHANGE_KEY !in a.storage && ReadRetries(a.storage) != 0
       && !IsBlocked(a) && r.keyAgreement.Some? && r.pinHashEnc.Some? {
      AgreedKeepsRest(crypto, a, r);
      hide Agreed;
      var (secret, a1) := Agreed(crypto, a, r);
      if secret.Some? {
        TryShape(crypto, a1, r, secret.value, f);
        ShapeTransfers(a, a1, TryPin(crypto, a1, r, secret.value, f), f.spend);
      }
    }
  }

  lemma CommandShape(crypto: Crypto, a: Auth, c: Call, f: Faults)
    requires GoodCall(c)
    ensures Shape(a, OutcomeOf(crypto, a, c, f), f.spend)
  {
    hide Shape, SetPin, ChangePin, GetPinToken;
    match c
    case Set(r) => SetShape(crypto, a, r, f);
    case Change(r) => ChangeShape(crypto, a, r, f);
    case GetToken(r, permissions, d) => TokenShape(crypto, a, r, permissions, f, d);
  }

  lemma StepKeepsBounded(crypto: Crypto, t: Tally, e: Event)
    requires Bounded(t) && GoodEvent(e)
    ensures Bounded(Step(crypto, t, e))
  {
    hide ReadRetries, OutcomeOf;
    if e.Complete? || e.PowerCut? {
      CommandShape(crypto, t.auth, e.call, e.f);
    }
  }

  // Over any run of commands, cuts and power cycles from a device whose bound holds - a fresh
  // one, in particular - at most three hashes are compared in one power cycle without a
  // success, whatever becomes of the writes; and between two successful verifications at most
  // eight, and one more for each whose write of the spent try failed.
  lemma {:induction false} GuessesAreBounded(crypto: Crypto, t: Tally, events: seq<Event>)
    requires Bounded(t)
    requires forall i :: 0 <= i < |events| ==> GoodEvent(events[i])
    ensures var now := Run(crypto, t, events);
      Bounded(now) && now.thisCycle <= PIN_BLOCK_THRESHOLD && now.sinceSuccess <= PIN_MAX_RETRIES + now.unpaid
    decreases |events|
  {
    hide Step;
    if events != [] {
      GuessesAreBounded(crypto, t, events[..|events| - 1]);
      StepKeepsBounded(crypto, Run(crypto, t, events[..|events| - 1]), events[|events| - 1]);
    }
  }

  // The write of the spent try succeeds (the other writes may fail).
  predicate Spends(e: Event) {
    (e.Complete? || e.PowerCut?) ==> e.f.spend
  }

  // While those writes succeed, nothing goes unpaid: the bound is eight.
  lemma {:induction false} EightWhileWritesSucceed(crypto: Crypto, t: Tally, events: seq<Event>)
    requires Bounded(t) && t.unpaid == 0
    requires forall i :: 0 <= i < |events| ==> GoodEvent(events[i]) && Spends(events[i])
    ensures var now := Run(crypto, t, events); now.unpaid == 0 && now.sinceSuccess <= PIN_MAX_RETRIES
    decreases |events|
  {
    hide OutcomeOf;
    GuessesAreBounded(crypto, t, events);
    hide Bounded;
    if events != [] {
      EightWhileWritesSucceed(crypto, t, events[..|events| - 1]);
      assert Spends(events[|events| - 1]);
    }
  }

  lemma FreshIsBounded()
    ensures Bounded(Tally(Rebooted(map[]), 0, 0, 0))
  {
  }

  // With no tries left, nothing is compared any more.
  lemma NoTriesNoComparison(crypto: Crypto, a: Auth, c: Call, f: Faults)
    requires GoodCall(c) && (ReadRetries(a.storage) == 0 || IsBlocked(a))
    ensures !OutcomeOf(crypto, a, c, f).compared
  {
    hide ReadRetries, NewPin, Agreed, TryPin;
  }

  // The write of the spent try is not checked.  A comparison is paid for exactly when that
  // write succeeds: with it, a mismatch costs one try; without it, none.
  lemma MismatchIsPaidIffWritten(crypto: Crypto, a: Auth, c: Call, f: Faults)
    requires GoodCall(c)
    requires OutcomeOf(crypto, a, c, f).compared && !OutcomeOf(crypto, a, c, f).verified
    ensures var after := OutcomeOf(crypto, a, c, f).auth.storage;
      && ReadRetries(a.storage) > 0
      && (ReadRetries(after) == ReadRetries(a.storage) - 1 <==> f.spend)
      && (!f.spend ==> after == a.storage)
  {
    CommandShape(crypto, a, c, f);
    hide OutcomeOf, ReadRetries;
  }

  // So on a device whose writes fail the bound of eight does not hold: any number of wrong
  // hashes can be compared, a power cycle apart.
  lemma {:induction false} FailingWritesUnbounded(crypto: Crypto, storage: Storage, c: Call, f: Faults, n: nat)
      returns (events: seq<Event>)
    requires GoodCall(c) && !f.spend
    requires var out := OutcomeOf(crypto, Rebooted(storage), c, f); out.compared && !out.verified
    ensures forall i :: 0 <= i < |events| ==> GoodEvent(events[i])
    ensures var now := Run(crypto, Tally(Rebooted(storage), 0, 0, 0), events);
      now.sinceSuccess == n == now.unpaid && now.auth == Rebooted(storage) && now.thisCycle == 0
    decreases n
  {
    hide OutcomeOf;
    if n == 0 {
      events := [];
    } else {
      var before := FailingWritesUnbounded(crypto, storage, c, f, n - 1);
      MismatchIsPaidIffWritten(crypto, Rebooted(storage), c, f);
      var once := before + [Complete(c, f)];
      events := once + [PowerCycle];
      assert once[..|before|] == before && events[..|once|] == once;
    }
  }

  // There is such a device: it holds a PIN, its writes fail, and the hash sent is another.
  lemma SomeDeviceUnbounded(n: nat)
      returns (crypto: Crypto, storage: Storage, events: seq<Event>)
    ensures LawfulCrypto(crypto) && forall i :: 0 <= i < |events| ==> GoodEvent(events[i])
    ensures Bounded(Tally(Rebooted(storage), 0, 0, 0))
    ensures Run(crypto, Tally(Rebooted(storage), 0, 0, 0), events).sinceSuccess == n
  {
    crypto := PlainCrypto();
    storage := map[PIN_STORAGE_KEY := Filled(PIN_HASH_LEN, 1)];
    var guess, secret := Filled(PIN_HASH_LEN, 0), Filled(32, 0);
    HashKeepsItsZeros(crypto.cipher, 1, secret, guess, guess);
    var r := Request(1, Some(Filled(64, 0)), None, None, Some(Encrypt(crypto.cipher, 1, secret, guess, guess).value));
    var call := GetToken(r, 0, Draw(Filled(32, 0), guess));
    var f := Faults(false, false, false);
    assert guess[0] != storage[PIN_STORAGE_KEY][0];
    hide Encrypt, DecryptExact, Decimal, LawfulCipher;
    assert ReadRetries(storage) == PIN_MAX_RETRIES;
    events := FailingWritesUnbounded(crypto, storage, call, f, n);
  }

  // A cipher that leaves blocks as they are meets the only law asked of one.
  function PlainCrypto(): (crypto: Crypto)
    ensures LawfulCrypto(crypto)
  {
    var block := (key: seq<byte>, b: seq<byte>) => if |b| == BLOCK_LEN then b else Filled(BLOCK_LEN, 0);
    Crypto(Cipher(block, block), (k, p) => Some([]), (v, z) => Filled(if v == 1 then 32 else 64, 0),
           (v, k, m) => Some([]), m => Filled(32, 0))
  }
}
