/**
 The OATH applet as an object: its commands update the memory in place, and every change is
 written to storage before the answer goes out.
 */
module OathApplet {
  import opened Bytes
  import opened ByteOrder
  import opened OathCodec
  import opened OathPlans
  import T = Tlv
  import opened Apdu
  import R = CardRouter

  const STORAGE_KEY: string := "sys:oath"

  // The shared key-value storage; `failing` says whether its next write will fail.
  class KeyStore {
    var contents: map<string, seq<byte>>
    var failing: bool

    constructor (contents: map<string, seq<byte>>)
      ensures this.contents == contents && !failing
    {
      this.contents, failing := contents, false;
    }

    method Store(key: string, value: seq<byte>) returns (ok: bool)
      modifies this`contents
      ensures ok <==> !failing
      ensures contents == if ok then old(contents)[key := value] else old(contents)
    {
      if failing {
        return false;
      }
      contents := contents[key := value];
      return true;
    }
  }

  // The outcome of a plan: what is answered, what is remembered and what is stored.
  ghost predicate Follows(crypto: Crypto, plan: Plan, failing: bool, nonce: seq<byte>,
                          before: map<string, seq<byte>>, answer: Answer, m: Memory, after: map<string, seq<byte>>) {
    match plan
    case Reply(a, m') => answer == a && m == m' && after == before
    case Commit(a, m', f) =>
      if failing then answer == Err(SW_GENERIC_ERROR) && m == f && after == before
      else answer == a && m == m' && after == before[STORAGE_KEY := Blob(crypto, m'.state, nonce)]
  }

  class OathApplet {
    const storage: KeyStore
    const crypto: Crypto
    var state: OathState
    var validated: bool
    var remaining: Option<(seq<byte>, nat)>

    function InMemory(): Memory
      reads this
    {
      Memory(state, validated, remaining)
    }

    constructor (storage: KeyStore, crypto: Crypto, state: OathState)
      ensures this.storage == storage && this.crypto == crypto && InMemory() == Memory(state, false, None)
    {
      this.storage, this.crypto, this.state := storage, crypto, state;
      validated, remaining := false, None;
    }

    // Loads the stored state; without a readable one, starts from the factory state and
    // stores that.
    static method Open(storage: KeyStore, crypto: Crypto, chance: Chance) returns (r: Result<OathApplet, nat>)
      modifies storage
      ensures var blob := if STORAGE_KEY in old(storage.contents) then Some(old(storage.contents)[STORAGE_KEY]) else None;
        match Loaded(crypto, blob)
        case Some(found) =>
          && r.Ok? && fresh(r.value) && r.value.InMemory() == Memory(found, false, None)
          && r.value.storage == storage && r.value.crypto == crypto && storage.contents == old(storage.contents)
        case None =>
          if old(storage.failing) then r == Err(SW_GENERIC_ERROR) && storage.contents == old(storage.contents)
          else
            && r.Ok? && fresh(r.value) && r.value.InMemory() == Memory(Factory(chance.salt), false, None)
            && r.value.storage == storage && r.value.crypto == crypto
            && storage.contents == old(storage.contents)[STORAGE_KEY := Blob(crypto, Factory(chance.salt), chance.nonce)]
    {
      hide OathCodec.Parsed, Serialized;
      var found := None;
      if STORAGE_KEY in storage.contents && |storage.contents[STORAGE_KEY]| > 12 {
        var plain := crypto.unseal(storage.contents[STORAGE_KEY]);
        if plain.Some? {
          found := ParseState(plain.value);
        }
      }
      if found.Some? {
        var loaded := new OathApplet(storage, crypto, found.value);
        return Ok(loaded);
      }
      var made := new OathApplet(storage, crypto, Factory(chance.salt));
      var ok := made.PersistState(chance.nonce);
      if !ok {
        return Err(SW_GENERIC_ERROR);
      }
      return Ok(made);
    }

    method PersistState(nonce: seq<byte>) returns (ok: bool)
      modifies storage`contents
      ensures ok <==> !storage.failing
      ensures storage.contents
        == if ok then old(storage.contents)[STORAGE_KEY := Blob(crypto, state, nonce)] else old(storage.contents)
    {
      hide Serialized;
      var plaintext := SerializeState(state);
      ok := storage.Store(STORAGE_KEY, crypto.seal(nonce, plaintext));
    }

    method Put(data: seq<byte>, nonce: seq<byte>) returns (r: Answer)
      modifies this`state, storage`contents
      ensures Follows(crypto, if Locked(old(InMemory())) then Refuse(old(InMemory()), R.SW_SECURITY_STATUS)
                              else PutPlan(old(InMemory()), data),
                      storage.failing, nonce, old(storage.contents), r, InMemory(), storage.contents)
    {
      hide PutRequest, Blob;
      if Locked(InMemory()) {
        return Err(R.SW_SECURITY_STATUS);
      }
      var request := PutRequest(data);
      if request.None? {
        return Err(SW_WRONG_SYNTAX);
      }
      var (name, c) := request.value;
      var isNew := name !in state.credentials;
      if isNew && |state.credentials| >= MAX_CREDENTIALS {
        return Err(SW_NO_SPACE);
      }
      state := state.(credentials := state.credentials[name := c]);
      var ok := PersistState(nonce);
      return if ok then DONE else Err(SW_GENERIC_ERROR);
    }

    method Delete(data: seq<byte>, nonce: seq<byte>) returns (r: Answer)
      modifies this`state, storage`contents
      ensures Follows(crypto, if Locked(old(InMemory())) then Refuse(old(InMemory()), R.SW_SECURITY_STATUS)
                              else DeletePlan(old(InMemory()), data),
                      storage.failing, nonce, old(storage.contents), r, InMemory(), storage.contents)
    {
      hide TagsOf, Blob;
      if Locked(InMemory()) {
        return Err(R.SW_SECURITY_STATUS);
      }
      var tags := TagsOf(data, [TAG_NAME], []);
      if tags.None? {
        return Err(SW_WRONG_SYNTAX);
      }
      var name := tags.value[0].value;
      if name !in state.credentials {
        return Err(SW_NO_SUCH_OBJECT);
      }
      state := state.(credentials := state.credentials - {name});
      var ok := PersistState(nonce);
      return if ok then DONE else Err(SW_GENERIC_ERROR);
    }

    method Rename(data: seq<byte>, nonce: seq<byte>) returns (r: Answer)
      modifies this`state, storage`contents
      ensures Follows(crypto, if Locked(old(InMemory())) then Refuse(old(InMemory()), R.SW_SECURITY_STATUS)
                              else RenamePlan(old(InMemory()), data),
                      storage.failing, nonce, old(storage.contents), r, InMemory(), storage.contents)
    {
      hide RenameRequest, Blob;
      if Locked(InMemory()) {
        return Err(R.SW_SECURITY_STATUS);
      }
      var names := RenameRequest(data);
      if names.None? {
        return Err(SW_WRONG_SYNTAX);
      }
      var (current, renamed) := names.value;
      if current !in state.credentials {
        return Err(SW_NO_SUCH_OBJECT);
      }
      if renamed in state.credentials {
        return Err(SW_NO_SPACE);
      }
      var c := state.credentials[current];
      state := state.(credentials := state.credentials - {current});
      state := state.(credentials := state.credentials[renamed := c]);
      var ok := PersistState(nonce);
      return if ok then DONE else Err(SW_GENERIC_ERROR);
    }

    method SetCode(data: seq<byte>, chance: Chance) returns (r: Answer)
      modifies this`state, this`validated, storage`contents
      ensures Follows(crypto, if Locked(old(InMemory())) then Refuse(old(InMemory()), R.SW_SECURITY_STATUS)
                              else SetCodePlan(crypto, old(InMemory()), data, chance),
                      storage.failing, chance.nonce, old(storage.contents), r, InMemory(), storage.contents)
    {
      hide TagsOf, Blob;
      if Locked(InMemory()) {
        return Err(R.SW_SECURITY_STATUS);
      }
      var tags := TagsOf(data, [TAG_KEY], [TAG_CHALLENGE, TAG_RESPONSE]);
      if tags.None? {
        return Err(SW_WRONG_SYNTAX);
      }
      var key, challenge, response := tags.value[0].value, tags.value[1], tags.value[2];
      if key == [] {
        if challenge.Some? || response.Some? {
          return Err(SW_WRONG_SYNTAX);
        }
        state := state.(access := None, pending := None);
        validated := false;
        var ok := PersistState(chance.nonce);
        return if ok then DONE else Err(SW_GENERIC_ERROR);
      }
      if |key| < 2 || |key| > 1 + MAX_SECRET_LEN {
        return Err(SW_WRONG_SYNTAX);
      }
      var algorithm := AlgorithmFromWire(LowNibble(key[0]));
      if algorithm.None? || challenge.None? || response.None? || |challenge.value| == 0
         || |challenge.value| > MAX_CHALLENGE_LEN {
        return Err(SW_WRONG_SYNTAX);
      }
      if |response.value| != algorithm.value.DigestLen() {
        return Err(SW_NO_SUCH_OBJECT);
      }
      var expected := crypto.hmac(algorithm.value, key[1..], challenge.value);
      if expected.None? {
        return Err(SW_GENERIC_ERROR);
      }
      if expected.value != response.value {
        return Err(SW_NO_SUCH_OBJECT);
      }
      state := state.(access := Some(Access(algorithm.value, key[1..])), pending := Some(chance.challenge));
      var ok := PersistState(chance.nonce);
      return if ok then DONE else Err(SW_GENERIC_ERROR);
    }

    method Reset(p1: byte, p2: byte, chance: Chance) returns (r: Answer)
      modifies this, storage`contents
      ensures Follows(crypto, ResetPlan(old(InMemory()), p1, p2, chance),
                      storage.failing, chance.nonce, old(storage.contents), r, InMemory(), storage.contents)
    {
      hide Blob;
      if p1 != 0xDE || p2 != 0xAD {
        return Err(SW_WRONG_SYNTAX);
      }
      state := Factory(chance.salt);
      validated := false;
      remaining := None;
      var ok := PersistState(chance.nonce);
      return if ok then DONE else Err(SW_GENERIC_ERROR);
    }

    method List() returns (r: Answer)
      ensures Locked(InMemory()) ==> r == Err(R.SW_SECURITY_STATUS)
      ensures !Locked(InMemory()) ==> r == ListPlan(InMemory()).answer
    {
      if Locked(InMemory()) {
        return Err(R.SW_SECURITY_STATUS);
      }
      var out := ListInOrder(state.credentials);
      return Data(out);
    }

    static method ListInOrder(creds: map<Name, Credential>) returns (out: seq<byte>)
      ensures out == ListBody(creds, SortedKeys(creds.Keys))
    {
      hide T.Entry, SortedKeys, LexLe, ListBody;
      ghost var all := ListBody(creds, SortedKeys(creds.Keys));
      out := [];
      var left := creds.Keys;
      assert out + all == all;
      while left != {}
        invariant left <= creds.Keys
        invariant out + ListBody(creds, SortedKeys(left)) == all
        decreases |left|
      {
        LeastExists(left);
        var n :| n in left && IsLeast(n, left);
        SortedKeysStep(n, left);
        ListBodyStep(out, creds, n, SortedKeys(left - {n}));
        out := out + T.Entry(TAG_NAME_LIST, [creds[n].oathType.Wire() + creds[n].algorithm.Wire()] + n);
        left := left - {n};
      }
      ListBodyEnd(out, creds, SortedKeys(left));
    }

    // Advances and stores an HOTP counter before any byte of the code is revealed; when the
    // store fails, the counter in memory goes back and no code is answered.
    method Calculate(p2: byte, data: seq<byte>, nonce: seq<byte>) returns (r: Answer)
      modifies this`state, storage`contents
      ensures Follows(crypto, if Locked(old(InMemory())) then Refuse(old(InMemory()), R.SW_SECURITY_STATUS)
                              else CalculatePlan(crypto, old(InMemory()), p2, data),
                      storage.failing, nonce, old(storage.contents), r, InMemory(), storage.contents)
    {
      hide CalculateRequest, FactorOf, CodeEntry, Blob;
      if Locked(InMemory()) {
        return Err(R.SW_SECURITY_STATUS);
      }
      var request := CalculateRequest(p2, data);
      if request.None? {
        return Err(SW_WRONG_SYNTAX);
      }
      var (name, challenge) := request.value;
      if name !in state.credentials {
        return Err(SW_NO_SUCH_OBJECT);
      }
      var c := state.credentials[name];
      var factor := FactorOf(c, challenge);
      if factor.Refused? {
        return Err(factor.sw);
      }
      var digest := crypto.hmac(c.algorithm, c.secret, factor.challenge);
      if digest.None? || |digest.value| < 20 {
        return Err(SW_GENERIC_ERROR);
      }
      if factor.next.Some? {
        var previous := state;
        state := state.(credentials := state.credentials[name := c.(counter := factor.next.value)]);
        var ok := PersistState(nonce);
        if !ok {
          state := previous;
          return Err(SW_GENERIC_ERROR);
        }
      }
      return Data(CodeEntry(c.digits, digest.value, p2 == 1));
    }

    method CalculateAll(p2: byte, data: seq<byte>) returns (r: Answer)
      ensures Locked(InMemory()) ==> r == Err(R.SW_SECURITY_STATUS)
      ensures !Locked(InMemory()) ==> r == CalculateAllPlan(crypto, InMemory(), p2, data).answer
    {
      hide CalculateAllRequest;
      if Locked(InMemory()) {
        return Err(R.SW_SECURITY_STATUS);
      }
      var challenge := CalculateAllRequest(p2, data);
      if challenge.None? {
        return Err(SW_WRONG_SYNTAX);
      }
      r := AllCodesInOrder(challenge.value, p2 == 1);
    }

    method AllCodesInOrder(challenge: seq<byte>, truncated: bool) returns (r: Answer)
      ensures r == match AllCodes(crypto, state.credentials, SortedKeys(state.credentials.Keys), challenge, truncated)
        case None => Err(SW_GENERIC_ERROR)
        case Some(all) => Data(all)
    {
      hide CodeEntry, T.Entry, SortedKeys, LexLe, AllCodes;
      var creds := state.credentials;
      ghost var goal := AllCodes(crypto, creds, SortedKeys(creds.Keys), challenge, truncated);
      var out: seq<byte>, left := [], creds.Keys;
      assert forall rest: seq<byte> :: out + rest == rest;
      while left != {}
        invariant left <= creds.Keys
        invariant goal == After(out, AllCodes(crypto, creds, SortedKeys(left), challenge, truncated))
        decreases |left|
      {
        LeastExists(left);
        var n :| n in left && IsLeast(n, left);
        SortedKeysStep(n, left);
        AllCodesStep(out, crypto, creds, n, SortedKeys(left - {n}), challenge, truncated);
        var c := creds[n];
        var code: seq<byte>;
        if c.oathType == Hotp {
          code := T.Entry(TAG_NO_RESPONSE, []);
        } else if c.touchRequired {
          code := T.Entry(TAG_TOUCH_RESPONSE, []);
        } else {
          var digest := crypto.hmac(c.algorithm, c.secret, challenge);
          if digest.None? || |digest.value| < 20 {
            return Err(SW_GENERIC_ERROR);
          }
          code := CodeEntry(c.digits, digest.value, truncated);
        }
        out := out + (T.Entry(TAG_NAME, n) + code);
        left := left - {n};
      }
      AllCodesEnd(out, crypto, creds, SortedKeys(left), challenge, truncated);
      return Data(out);
    }

    method Validate(data: seq<byte>, nonce: seq<byte>) returns (r: Answer)
      modifies this`state, this`validated, storage`contents
      ensures Follows(crypto, ValidatePlan(crypto, old(InMemory()), data),
                      storage.failing, nonce, old(storage.contents), r, InMemory(), storage.contents)
    {
      hide TagsOf, Blob, T.Entry;
      if state.access.None? || state.pending.None? {
        return Err(SW_NO_SUCH_OBJECT);
      }
      var access, pending := state.access.value, state.pending.value;
      var tags := TagsOf(data, [TAG_RESPONSE, TAG_CHALLENGE], []);
      if tags.None? {
        return Err(SW_WRONG_SYNTAX);
      }
      var response, challenge := tags.value[0].value, tags.value[1].value;
      if |challenge| == 0 || |challenge| > MAX_CHALLENGE_LEN {
        return Err(SW_WRONG_SYNTAX);
      }
      var expected := crypto.hmac(access.algorithm, access.key, pending);
      if expected.None? {
        return Err(SW_GENERIC_ERROR);
      }
      if expected.value != response {
        return Err(SW_NO_SUCH_OBJECT);
      }
      state := state.(pending := Some(challenge));
      var ok := PersistState(nonce);
      if !ok {
        return Err(SW_GENERIC_ERROR);
      }
      validated := true;
      var proof := crypto.hmac(access.algorithm, access.key, challenge);
      if proof.None? {
        return Err(SW_GENERIC_ERROR);
      }
      return Data(T.Entry(TAG_RESPONSE, proof.value));
    }

    method SendRemaining(le: Option<nat>) returns (r: Answer)
      modifies this`remaining
      ensures var plan := if Locked(old(InMemory())) then Refuse(old(InMemory()), R.SW_SECURITY_STATUS)
                          else SendRemainingPlan(old(InMemory()), le);
        r == plan.answer && InMemory() == plan.memory
    {
      if Locked(InMemory()) {
        return Err(R.SW_SECURITY_STATUS);
      }
      if remaining.None? {
        return Err(R.SW_CONDITIONS_NOT_SATISFIED);
      }
      var (buf, pos) := remaining.value;
      if pos >= |buf| {
        remaining := None;
        return DONE;
      }
      var window := if le.Some? && le.value < RESPONSE_WINDOW then le.value else RESPONSE_WINDOW;
      var end := if pos + window < |buf| then pos + window else |buf|;
      var chunk := buf[pos..end];
      if end < |buf| {
        remaining := Some((buf, end));
        return Ok(R.Response(chunk, Some(R.SwMoreData(|buf| - end))));
      }
      remaining := None;
      assert chunk == buf[pos..];
      return Data(chunk);
    }

    method Dispatch(c: Command, chance: Chance) returns (r: Answer)
      modifies this, storage`contents
      ensures Follows(crypto, DispatchPlan(crypto, old(InMemory()), c, chance),
                      storage.failing, chance.nonce, old(storage.contents), r, InMemory(), storage.contents)
    {
      hide PutPlan, DeletePlan, SetCodePlan, ResetPlan, RenamePlan, CalculatePlan, ValidatePlan, AllCodes, ListBody, Blob;
      if c.ins == INS_PUT { r := Put(c.data, chance.nonce); }
      else if c.ins == INS_DELETE { r := Delete(c.data, chance.nonce); }
      else if c.ins == INS_SET_CODE { r := SetCode(c.data, chance); }
      else if c.ins == INS_RESET { r := Reset(c.p1, c.p2, chance); }
      else if c.ins == INS_RENAME { r := Rename(c.data, chance.nonce); }
      else if c.ins == INS_LIST { r := List(); }
      else if c.ins == INS_CALCULATE { r := Calculate(c.p2, c.data, chance.nonce); }
      else if c.ins == INS_VALIDATE { r := Validate(c.data, chance.nonce); }
      else if c.ins == INS_CALCULATE_ALL { r := CalculateAll(c.p2, c.data); }
      else { r := Err(R.SW_INS_NOT_SUPPORTED); }
    }

    method Process(c: Command, chance: Chance) returns (r: Answer)
      modifies this, storage`contents
      ensures Follows(crypto, ProcessPlan(crypto, old(InMemory()), c, chance),
                      storage.failing, chance.nonce, old(storage.contents), r, InMemory(), storage.contents)
    {
      hide DispatchPlan, SendRemainingPlan, Blob;
      if c.cla != 0 {
        return Err(SW_CLASS_NOT_SUPPORTED);
      }
      if c.ins == INS_SEND_REMAINING {
        SendRemainingReplies(InMemory(), c.le);
        r := SendRemaining(c.le);
        return;
      }
      r := Dispatch(c, chance);
      match r {
        case Ok(response) =>
          if response.data == [] {
            remaining := None;
          } else {
            var limit := if c.le.Some? then c.le.value else 0;
            remaining := Some((response.data, if limit < |response.data| then limit else |response.data|));
          }
        case Err(_) =>
          remaining := None;
      }
    }

    method Select(chance: Chance) returns (r: Answer)
      modifies this`state, this`validated, storage`contents
      ensures Follows(crypto, SelectPlan(old(InMemory()), chance),
                      storage.failing, chance.nonce, old(storage.contents), r, InMemory(), storage.contents)
    {
      hide Blob;
      validated := false;
      if state.access.Some? {
        state := state.(pending := Some(chance.challenge));
        var ok := PersistState(chance.nonce);
        if !ok {
          return Err(SW_GENERIC_ERROR);
        }
      }
      return DONE;
    }
  }

  function After(out: seq<byte>, rest: Option<seq<byte>>): Option<seq<byte>> {
    match rest
    case None => None
    case Some(more) => Some(out + more)
  }

  lemma ListBodyStep(out: seq<byte>, creds: map<Name, Credential>, n: Name, names: seq<Name>)
    requires n in creds && forall k :: k in names ==> k in creds
    ensures var entry := T.Entry(TAG_NAME_LIST, [creds[n].oathType.Wire() + creds[n].algorithm.Wire()] + n);
      out + ListBody(creds, [n] + names) == (out + entry) + ListBody(creds, names)
  {
    hide T.Entry;
    assert ([n] + names)[1..] == names;
  }

  lemma ListBodyEnd(out: seq<byte>, creds: map<Name, Credential>, names: seq<Name>)
    requires names == []
    ensures out + ListBody(creds, names) == out
  {
  }

  lemma AllCodesStep(out: seq<byte>, crypto: Crypto, creds: map<Name, Credential>, n: Name,
                                        names: seq<Name>, challenge: seq<byte>, truncated: bool)
    requires n in creds && forall k :: k in names ==> k in creds
    ensures var c := creds[n];
      var digest := crypto.hmac(c.algorithm, c.secret, challenge);
      After(out, AllCodes(crypto, creds, [n] + names, challenge, truncated)) ==
      if c.oathType == Totp && !c.touchRequired && (digest.None? || |digest.value| < 20) then None
      else
        var code := if c.oathType == Hotp then T.Entry(TAG_NO_RESPONSE, [])
                    else if c.touchRequired then T.Entry(TAG_TOUCH_RESPONSE, [])
                    else CodeEntry(c.digits, digest.value, truncated);
        After(out + (T.Entry(TAG_NAME, n) + code), AllCodes(crypto, creds, names, challenge, truncated))
  {
    hide T.Entry, CodeEntry;
    assert ([n] + names)[1..] == names;
    assert forall a: seq<byte>, b: seq<byte> :: out + (a + b) == (out + a) + b;
  }

  lemma AllCodesEnd(out: seq<byte>, crypto: Crypto, creds: map<Name, Credential>, names: seq<Name>,
                                       challenge: seq<byte>, truncated: bool)
    requires names == []
    ensures After(out, AllCodes(crypto, creds, names, challenge, truncated)) == Some(out)
  {
    assert out + [] == out;
  }

  lemma SendRemainingReplies(m: Memory, le: Option<nat>)
    ensures SendRemainingPlan(m, le).Reply?
  {
  }
}
