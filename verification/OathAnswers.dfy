/**
 What each OATH command answers and leaves in memory, in terms of the bytes of the request and
 of the answer: which entries are read, what is hashed, and where each byte goes.
 */
module OathAnswers {
  import opened Bytes
  import opened ByteOrder
  import opened OathCodec
  import opened OathPlans
  import opened Apdu
  import S = OathSessions
  import T = Tlv
  import R = CardRouter

  // The command is for an open session of the applet.
  predicate Open(m: Memory, c: Command, ins: byte) {
    c.cla == 0 && c.ins == ins && !(m.state.access.Some? && !m.validated)
  }

  ghost function Outcome(crypto: Crypto, m: Memory, c: Command, chance: Chance, storeOk: bool): (Answer, Memory) {
    Settle(ProcessPlan(crypto, m, c, chance), storeOk)
  }

  // The entries of a request, and the value of its first entry with a tag.
  function Entries(c: Command): seq<T.Tlv> {
    if T.Parsed(c.data).Some? then T.Parsed(c.data).value else []
  }

  // ---------- Reading and writing one entry ----------

  lemma OneEntryReads(tag: byte, value: seq<byte>)
    requires |value| <= 0xff
    ensures T.Parsed(T.Entry(tag, value)) == Some([(tag, value)])
  {
    var tlvs: seq<T.Tlv> := [(tag, value)];
    T.ParsedFlatten(tlvs);
    T.FlattenCons(tag, value, []);
    assert tlvs + [] == tlvs && T.Flatten([]) == [];
    assert T.Flatten(tlvs) == T.Entry(tag, value);
  }

  // ---------- CALCULATE ----------

  // What a code is computed with.
  datatype Key = Key(algorithm: Algorithm, secret: seq<byte>, digits: byte)

  function KeyOf(c: Credential): Key {
    Key(c.algorithm, c.secret, c.digits)
  }

  // The answer holds one entry: the digits followed by the keyed hash of the message, whole or
  // the four bytes at the offset its last hexadecimal digit names (section 5.3 of RFC 4226).
  ghost predicate IsCode(crypto: Crypto, key: Key, message: seq<byte>, truncated: bool, answer: R.Response) {
    var digest := crypto.hmac(key.algorithm, key.secret, message);
    && digest.Some? && |digest.value| >= 20 && answer.sw == None
    && (var offset := digest.value[|digest.value| - 1] as int % 16;
        T.Parsed(answer.data) == Some(
          if truncated then [(0x76 as byte, [key.digits] + digest.value[offset..offset + 4])]
          else [(0x75 as byte, [key.digits] + digest.value)]))
  }

  // The message an HOTP code hashes is the counter; a TOTP code hashes the challenge itself.
  function UsedCounter(c: Credential, challenge: seq<byte>): nat {
    if challenge == [] then c.counter else BeValue(challenge)
  }

  // What an answered CALCULATE has read, hashed and moved.
  ghost predicate Calculated(crypto: Crypto, m: Memory, c: Command, r: R.Response, after: OathState) {
    var name, challenge := FirstValue(Entries(c), 0x71), FirstValue(Entries(c), 0x74);
    && name.Some? && challenge.Some? && name.value in m.state.credentials && c.p2 <= 1
    && (var cr := m.state.credentials[name.value];
        if cr.oathType == Totp then
          challenge.value != [] && after == m.state && IsCode(crypto, KeyOf(cr), challenge.value, c.p2 == 1, r)
        else
          var n := UsedCounter(cr, challenge.value);
          && cr.counter <= n < U64 && |challenge.value| <= 8
          && IsCode(crypto, KeyOf(cr), Be(n, 8), c.p2 == 1, r)
          && after == m.state.(credentials := m.state.credentials[name.value := cr.(counter := if n == U64 - 1 then n else n + 1)]))
  }

  lemma CodeEntryIsCode(crypto: Crypto, key: Key, message: seq<byte>, truncated: bool)
    requires LawfulCrypto(crypto)
    requires var d := crypto.hmac(key.algorithm, key.secret, message); d.Some? && |d.value| >= 20
    ensures var d := crypto.hmac(key.algorithm, key.secret, message).value;
      IsCode(crypto, key, message, truncated, R.Response(CodeEntry(key.digits, d, truncated), None))
  {
    var d := crypto.hmac(key.algorithm, key.secret, message).value;
    OneEntryReads(TAG_TRUNCATED_RESPONSE, [key.digits] + DynamicTruncate(d));
    OneEntryReads(TAG_RESPONSE, [key.digits] + d);
    hide T.Parsed, T.Entry;
  }

  // Which entries CALCULATE takes from its request.
  lemma CalculateReads(c: Command)
    ensures var request := CalculateRequest(c.p2, c.data);
      request.Some? ==>
        && c.p2 <= 1 && |request.value.1| <= MAX_CHALLENGE_LEN
        && FirstValue(Entries(c), 0x71) == Some(request.value.0) && FirstValue(Entries(c), 0x74) == Some(request.value.1)
  {
    TagsOfExact(c.data, [TAG_NAME, TAG_CHALLENGE], []);
    hide T.Parsed, TagsOf, FirstValue, ExactlyTagged;
    if CalculateRequest(c.p2, c.data).Some? {
      var tags := TagsOf(c.data, [TAG_NAME, TAG_CHALLENGE], []).value;
      assert ([TAG_NAME, TAG_CHALLENGE] + [])[0] == TAG_NAME && ([TAG_NAME, TAG_CHALLENGE] + [])[1] == TAG_CHALLENGE;
      assert tags[0] == FirstValue(Entries(c), TAG_NAME) && tags[1] == FirstValue(Entries(c), TAG_CHALLENGE);
    }
  }

  // Every answered CALCULATE answers the code of the message it says it used: the keyed hash of
  // the stored counter in counter mode, of the counter in the challenge in absolute mode, and
  // of the challenge for TOTP.
  lemma CalculateAnswersCode(crypto: Crypto, m: Memory, c: Command, chance: Chance, storeOk: bool)
    requires LawfulCrypto(crypto) && Good(m) && Open(m, c, 0xA2)
    ensures var (answer, after) := Outcome(crypto, m, c, chance, storeOk);
      if answer.Ok? then Calculated(crypto, m, c, answer.value, after.state) else after.state == m.state
  {
    var plan := CalculatePlan(crypto, m, c.p2, c.data);
    CalculatePlanAnswers(crypto, m, c);
    hide CalculatePlan, Calculated;
    assert ProcessPlan(crypto, m, c, chance) == MirroredPlan(plan, c.le);
  }

  lemma CalculatePlanAnswers(crypto: Crypto, m: Memory, c: Command)
    requires LawfulCrypto(crypto) && Good(m)
    ensures var plan := CalculatePlan(crypto, m, c.p2, c.data);
      && (plan.answer.Ok? ==> Calculated(crypto, m, c, plan.answer.value, plan.memory.state))
      && (plan.answer.Err? ==> plan.Reply? && plan.memory.state == m.state)
      && (plan.Commit? ==> plan.onFailure.state == m.state)
  {
    hide CalculateRequest, CodeEntry, IsCode, FirstValue, GoodName;
    CalculateReads(c);
    var request := CalculateRequest(c.p2, c.data);
    if request.Some? && request.value.0 in m.state.credentials {
      var (name, challenge) := request.value;
      var cr := m.state.credentials[name];
      S.FactorInRange(cr, challenge);
      FactorIsTheMessage(cr, challenge);
      hide FactorOf;
      var factor := FactorOf(cr, challenge);
      if factor.Moving? {
        var digest := crypto.hmac(cr.algorithm, cr.secret, factor.challenge);
        if digest.Some? && |digest.value| >= 20 {
          CodeEntryIsCode(crypto, KeyOf(cr), factor.challenge, c.p2 == 1);
        }
      }
    }
  }

  lemma FactorIsTheMessage(cr: Credential, challenge: seq<byte>)
    requires cr.counter < U64
    ensures var f := FactorOf(cr, challenge);
      f.Moving? ==>
        if cr.oathType == Totp then f.challenge == challenge != [] && f.next.None?
        else
          var n := UsedCounter(cr, challenge);
          f.challenge == Be(n, 8) && f.used == n && cr.counter <= n < U64 && |challenge| <= 8
          && f.next == Some(if n == U64 - 1 then n else n + 1)
  {
    S.FactorInRange(cr, challenge);
    hide Be, BeValue, Pow256;
  }

  // ---------- PUT, DELETE, RENAME ----------

  // The first byte of a key entry: the type in the high half, the algorithm in the low one.
  function TypeByte(t: OathType): nat {
    match t case Hotp => 0x10 case Totp => 0x20
  }

  function AlgorithmNumber(a: Algorithm): nat {
    match a case Sha1 => 1 case Sha256 => 2 case Sha512 => 3
  }

  // The credential a PUT request describes, entry by entry: 71 the name, 73 the type,
  // algorithm, digits and secret, 78 the two property bits, 7A the initial counter.
  ghost predicate Describes(tlvs: seq<T.Tlv>, name: Name, c: Credential) {
    var key, prop, imf := FirstValue(tlvs, 0x73), FirstValue(tlvs, 0x78), FirstValue(tlvs, 0x7A);
    && FirstValue(tlvs, 0x71) == Some(name) && 1 <= |name| <= 64
    && key.Some? && |key.value| >= 3
    && key.value[0] as int == TypeByte(c.oathType) + AlgorithmNumber(c.algorithm)
    && key.value[1] == c.digits && 6 <= c.digits <= 8
    && key.value[2..] == c.secret && |c.secret| <= 64
    && (if prop.None? then !c.onlyIncreasing && !c.touchRequired
        else |prop.value| == 1 && prop.value[0] <= 3
             && c.onlyIncreasing == (prop.value[0] in {1, 3}) && c.touchRequired == (prop.value[0] in {2, 3}))
    && (if imf.None? then c.counter == 0
        else c.oathType == Hotp && |imf.value| == 4 && c.counter == BeValue(imf.value))
  }

  ghost predicate Described(c: Command, name: Name, cr: Credential) {
    && T.Parsed(c.data).Some? && ExactlyTagged(Entries(c), [0x71, 0x73], [0x78, 0x7A])
    && Describes(Entries(c), name, cr)
  }

  // A PUT request is read as a credential exactly when its entries describe it.
  lemma PutReads(c: Command, name: Name, cr: Credential)
    ensures PutRequest(c.data) == Some((name, cr)) <==> Described(c, name, cr)
  {
    hide T.Parsed, TagsOf, FirstValue, ExactlyTagged, BeValue, Describes;
    TagsOfExact(c.data, [TAG_NAME, TAG_KEY], [TAG_PROPERTY, TAG_IMF]);
    if TagsOf(c.data, [TAG_NAME, TAG_KEY], [TAG_PROPERTY, TAG_IMF]).Some? {
      var tags := TagsOf(c.data, [TAG_NAME, TAG_KEY], [TAG_PROPERTY, TAG_IMF]).value;
      var asked: seq<byte> := [TAG_NAME, TAG_KEY] + [TAG_PROPERTY, TAG_IMF];
      assert asked[0] == 0x71 && asked[1] == 0x73 && asked[2] == 0x78 && asked[3] == 0x7A;
      assert tags[0] == FirstValue(Entries(c), 0x71) && tags[1] == FirstValue(Entries(c), 0x73);
      assert tags[2] == FirstValue(Entries(c), 0x78) && tags[3] == FirstValue(Entries(c), 0x7A);
      TagsDescribe(c, tags, name, cr);
    }
  }

  lemma TagsDescribe(c: Command, tags: seq<Option<seq<byte>>>, name: Name, cr: Credential)
    requires TagsOf(c.data, [TAG_NAME, TAG_KEY], [TAG_PROPERTY, TAG_IMF]) == Some(tags)
    requires tags == [FirstValue(Entries(c), 0x71), FirstValue(Entries(c), 0x73), FirstValue(Entries(c), 0x78), FirstValue(Entries(c), 0x7A)]
    ensures PutRequest(c.data) == Some((name, cr)) <==> Describes(Entries(c), name, cr)
  {
    hide T.Parsed, TagsOf, FirstValue, ExactlyTagged, BeValue, Entries;
    var key := tags[1].value;
    if key != [] {
      TypeOnTheWire(key[0]);
      hide HighNibble, LowNibble, TypeFromWire, AlgorithmFromWire, TypeByte, AlgorithmNumber;
    }
  }

  lemma TypeOnTheWire(b: byte)
    ensures forall t, a :: TypeFromWire(HighNibble(b)) == Some(t) && AlgorithmFromWire(LowNibble(b)) == Some(a) <==>
      b as int == TypeByte(t) + AlgorithmNumber(a)
  {
  }

  // PUT stores exactly the credential described, under its name, next to the others.  A request
  // that describes none answers 6A80, and a new one over the 32 there can be 6A84.
  lemma PutAnswers(crypto: Crypto, m: Memory, c: Command, chance: Chance, storeOk: bool, name: Name, cr: Credential)
    requires Open(m, c, 0x01)
    ensures var (answer, after) := Outcome(crypto, m, c, chance, storeOk);
      && (answer == Err(0x6A80) <==> !(exists n, k :: Described(c, n, k)))
      && (Described(c, name, cr) ==>
            if name !in m.state.credentials && |m.state.credentials| >= 32 then answer == Err(0x6A84) && after.state == m.state
            else
              && answer == (if storeOk then Ok(R.Response([], None)) else Err(0x6581))
              && after.state == m.state.(credentials := m.state.credentials[name := cr]))
  {
    PutReads(c, name, cr);
    if PutRequest(c.data).Some? {
      PutReads(c, PutRequest(c.data).value.0, PutRequest(c.data).value.1);
    } else {
      forall n, k
        ensures !Described(c, n, k)
      {
        PutReads(c, n, k);
      }
    }
    hide PutRequest, Described;
  }

  // DELETE removes the credential named, and no other; it answers 6984 when there is none.
  lemma DeleteAnswers(crypto: Crypto, m: Memory, c: Command, chance: Chance, storeOk: bool)
    requires Open(m, c, 0x02)
    ensures var (answer, after) := Outcome(crypto, m, c, chance, storeOk);
      var name := FirstValue(Entries(c), 0x71);
      if T.Parsed(c.data).None? || !ExactlyTagged(Entries(c), [0x71], []) then answer == Err(0x6A80) && after.state == m.state
      else if name.None? || name.value !in m.state.credentials then answer == Err(0x6984) && after.state == m.state
      else
        && answer == (if storeOk then Ok(R.Response([], None)) else Err(0x6581))
        && after.state == m.state.(credentials := after.state.credentials)
        && name.value !in after.state.credentials
        && (forall k :: k != name.value ==> (k in after.state.credentials <==> k in m.state.credentials))
        && (forall k :: k in after.state.credentials ==> after.state.credentials[k] == m.state.credentials[k])
  {
    hide T.Parsed, TagsOf, FirstValue, ExactlyTagged;
    TagsOfExact(c.data, [TAG_NAME], []);
    if TagsOf(c.data, [TAG_NAME], []).Some? {
      assert ([TAG_NAME] + [])[0] == TAG_NAME;
      assert TagsOf(c.data, [TAG_NAME], []).value[0] == FirstValue(Entries(c), 0x71);
    }
  }

  // RENAME reads two name entries and nothing else, and moves the credential, as it is, from
  // the first name to the second.
  lemma RenameAnswers(crypto: Crypto, m: Memory, c: Command, chance: Chance, storeOk: bool)
    requires Open(m, c, 0x05)
    ensures var (answer, after) := Outcome(crypto, m, c, chance, storeOk);
      answer.Ok? ==>
        var tlvs := Entries(c);
        && answer.value == R.Response([], None) && storeOk
        && |tlvs| == 2 && tlvs[0].0 == tlvs[1].0 == 0x71
        && (var (current, renamed) := (tlvs[0].1, tlvs[1].1);
            && current in m.state.credentials && renamed !in m.state.credentials && 1 <= |renamed| <= 64
            && after.state == m.state.(credentials := (m.state.credentials - {current})[renamed := m.state.credentials[current]]))
  {
    hide T.Parsed;
    hide T.Values, T.Others;
    if T.Parsed(c.data).Some? && |T.Values(Entries(c), 0x71)| == 2 && T.Others(Entries(c), 0x71) == [] {
      TwoNames(Entries(c));
    }
  }

  lemma TwoNames(tlvs: seq<T.Tlv>)
    requires |T.Values(tlvs, 0x71)| == 2 && T.Others(tlvs, 0x71) == []
    ensures |tlvs| == 2 && tlvs[0].0 == tlvs[1].0 == 0x71 && T.Values(tlvs, 0x71) == [tlvs[0].1, tlvs[1].1]
  {
    assert tlvs != [] && tlvs[1..] != [];
    assert tlvs[1..][1..] == [] by {
      assert T.Values(tlvs[1..][1..], 0x71) == [] && T.Others(tlvs[1..][1..], 0x71) == [];
    }
  }

  // ---------- Access code and session ----------

  // SET CODE: an empty key entry takes the access key away and ends the validated session;
  // otherwise the key given becomes the access key, with a new challenge pending, provided the
  // response is its keyed hash of the challenge given.
  lemma SetCodeAnswers(crypto: Crypto, m: Memory, c: Command, chance: Chance, storeOk: bool)
    requires Open(m, c, 0x03)
    ensures var (answer, after) := Outcome(crypto, m, c, chance, storeOk);
      var key, challenge, response := FirstValue(Entries(c), 0x73), FirstValue(Entries(c), 0x74), FirstValue(Entries(c), 0x75);
      && (answer.Ok? ==> answer.value == R.Response([], None) && storeOk && key.Some?)
      && (answer.Ok? && key.value == [] ==>
            && after.state == m.state.(access := None, pending := None) && !after.validated
            && challenge.None? && response.None?)
      && (answer.Ok? && key.value != [] ==>
            && challenge.Some? && response.Some? && 2 <= |key.value| <= 65 && 1 <= |challenge.value| <= 64
            && (exists a: Algorithm ::
                  && key.value[0] as int % 16 == AlgorithmNumber(a)
                  && crypto.hmac(a, key.value[1..], challenge.value) == response
                  && after.state == m.state.(access := Some(Access(a, key.value[1..])), pending := Some(chance.challenge)))
            && after.validated == m.validated)
  {
    hide T.Parsed, TagsOf, FirstValue, ExactlyTagged;
    TagsOfExact(c.data, [TAG_KEY], [TAG_CHALLENGE, TAG_RESPONSE]);
    if TagsOf(c.data, [TAG_KEY], [TAG_CHALLENGE, TAG_RESPONSE]).Some? {
      var tags := TagsOf(c.data, [TAG_KEY], [TAG_CHALLENGE, TAG_RESPONSE]).value;
      var asked: seq<byte> := [TAG_KEY] + [TAG_CHALLENGE, TAG_RESPONSE];
      assert asked[0] == 0x73 && asked[1] == 0x74 && asked[2] == 0x75;
      assert tags[0] == FirstValue(Entries(c), 0x73) && tags[1] == FirstValue(Entries(c), 0x74);
      assert tags[2] == FirstValue(Entries(c), 0x75);
      if tags[0].value != [] {
        AlgorithmOnTheWire(tags[0].value[0]);
      }
    }
  }

  lemma AlgorithmOnTheWire(b: byte)
    ensures var a := AlgorithmFromWire(LowNibble(b)); a.Some? ==> b as int % 16 == AlgorithmNumber(a.value)
  {
  }

  // RESET needs its two magic bytes and leaves nothing but a new salt.
  lemma ResetAnswers(crypto: Crypto, m: Memory, c: Command, chance: Chance, storeOk: bool)
    requires c.cla == 0 && c.ins == 0x04
    ensures var (answer, after) := Outcome(crypto, m, c, chance, storeOk);
      if (c.p1, c.p2) == (0xDE, 0xAD) then
        && answer == (if storeOk then Ok(R.Response([], None)) else Err(0x6581))
        && after == Memory(OathState(chance.salt, None, None, map[]), false, None)
      else answer == Err(0x6A80) && after.state == m.state && after.validated == m.validated
  {
  }

  // VALIDATE: the response must be the keyed hash of the challenge issued to the host, and the
  // proof answered is the keyed hash of the challenge the host sent.
  lemma ValidateAnswers(crypto: Crypto, m: Memory, c: Command, chance: Chance, storeOk: bool)
    requires LawfulCrypto(crypto) && c.cla == 0 && c.ins == 0xA3
    ensures var (answer, after) := Outcome(crypto, m, c, chance, storeOk);
      var response, challenge := FirstValue(Entries(c), 0x75), FirstValue(Entries(c), 0x74);
      answer.Ok? ==>
        && m.state.access.Some? && m.state.pending.Some? && response.Some? && challenge.Some?
        && (var access := m.state.access.value;
            && crypto.hmac(access.algorithm, access.key, m.state.pending.value) == response
            && after.state == m.state.(pending := challenge) && after.validated
            && (var proof := crypto.hmac(access.algorithm, access.key, challenge.value);
                proof.Some? && answer.value.sw == None && T.Parsed(answer.value.data) == Some([(0x75 as byte, proof.value)])))
  {
    hide T.Parsed, TagsOf, FirstValue, ExactlyTagged, T.Entry;
    TagsOfExact(c.data, [TAG_RESPONSE, TAG_CHALLENGE], []);
    if TagsOf(c.data, [TAG_RESPONSE, TAG_CHALLENGE], []).Some? {
      var tags := TagsOf(c.data, [TAG_RESPONSE, TAG_CHALLENGE], []).value;
      var asked: seq<byte> := [TAG_RESPONSE, TAG_CHALLENGE] + [];
      assert asked[0] == 0x75 && asked[1] == 0x74;
      assert tags[0] == FirstValue(Entries(c), 0x75) && tags[1] == FirstValue(Entries(c), 0x74);
      if m.state.access.Some? {
        var proof := crypto.hmac(m.state.access.value.algorithm, m.state.access.value.key, tags[1].value);
        if proof.Some? {
          OneEntryReads(TAG_RESPONSE, proof.value);
        }
      }
    }
  }

  // A selection ends the validated session, and with an access key it issues a new challenge,
  // which the answer shows with the version and the salt.
  lemma SelectAnswers(m: Memory, chance: Chance, storeOk: bool)
    requires Good(m) && GoodChance(chance)
    ensures var (answer, after) := Settle(SelectPlan(m, chance), storeOk);
      && !after.validated && after.remaining == m.remaining
      && after.state == (if m.state.access.Some? then m.state.(pending := Some(chance.challenge)) else m.state)
      && (answer.Ok? <==> storeOk || m.state.access.None?) && (answer.Err? ==> answer.error == 0x6581)
      && (answer.Ok? ==>
            T.Parsed(SelectBody(after)) == Some([(0x79 as byte, [3, 4, 0]), (0x71 as byte, m.state.salt)]
              + (if m.state.access.None? then []
                 else [(0x74 as byte, chance.challenge), (0x7B as byte, [AlgorithmNumber(m.state.access.value.algorithm) as byte])])))
  {
    SelectBodyReads(Settle(SelectPlan(m, chance), storeOk).1);
    hide T.Parsed, SelectBody;
  }

  lemma SelectBodyReads(m: Memory)
    requires |m.state.salt| <= 0xff && (m.state.access.Some? && m.state.pending.Some? ==> |m.state.pending.value| <= 0xff)
    ensures T.Parsed(SelectBody(m)) == Some(
      [(0x79 as byte, [3, 4, 0]), (0x71 as byte, m.state.salt)]
      + (if m.state.access.None? || m.state.pending.None? then []
         else [(0x74 as byte, m.state.pending.value), (0x7B as byte, [AlgorithmNumber(m.state.access.value.algorithm) as byte])]))
  {
    var shown: seq<T.Tlv> := [(0x79 as byte, [3, 4, 0]), (0x71 as byte, m.state.salt)];
    var more: seq<T.Tlv> :=
      if m.state.access.None? || m.state.pending.None? then []
      else [(0x74 as byte, m.state.pending.value), (0x7B as byte, [AlgorithmNumber(m.state.access.value.algorithm) as byte])];
    TwoEntries(shown);
    Appended(shown, more);
    if more == [] {
      assert T.Flatten([]) == [];
    } else {
      TwoEntries(more);
    }
    hide T.Flatten, T.Entry;
    assert SelectBody(m) == T.Flatten(shown + more);
    T.ParsedFlatten(shown + more);
  }

  lemma TwoEntries(tlvs: seq<T.Tlv>)
    requires |tlvs| == 2
    ensures T.Flatten(tlvs) == T.Entry(tlvs[0].0, tlvs[0].1) + T.Entry(tlvs[1].0, tlvs[1].1)
  {
    assert tlvs[1..][1..] == [] && T.Flatten([]) == [];
    assert T.Flatten(tlvs[1..]) == T.Entry(tlvs[1].0, tlvs[1].1) + [];
  }

  lemma {:induction false} Appended(a: seq<T.Tlv>, b: seq<T.Tlv>)
    ensures T.Flatten(a + b) == T.Flatten(a) + T.Flatten(b)
    decreases |a|
  {
    if a == [] {
      assert a + b == b && T.Flatten([]) == [];
    } else {
      hide T.Flatten, T.Entry;
      Appended(a[1..], b);
      T.FlattenCons(a[0].0, a[0].1, a[1..]);
      T.FlattenCons(a[0].0, a[0].1, a[1..] + b);
      assert a == [a[0]] + a[1..] && a + b == [a[0]] + (a[1..] + b);
    }
  }

  // ---------- LIST and CALCULATE ALL ----------

  // One entry per credential, in the order of the names: type and algorithm, then the name.
  ghost predicate Listed(creds: map<Name, Credential>, names: seq<Name>, tlvs: seq<T.Tlv>) {
    && |tlvs| == |names|
    && forall i :: 0 <= i < |names| ==>
         && names[i] in creds && tlvs[i].0 == 0x72 && |tlvs[i].1| == 1 + |names[i]|
         && tlvs[i].1[0] as int == TypeByte(creds[names[i]].oathType) + AlgorithmNumber(creds[names[i]].algorithm)
         && tlvs[i].1[1..] == names[i]
  }

  lemma {:induction false} ListBodyLists(creds: map<Name, Credential>, names: seq<Name>) returns (tlvs: seq<T.Tlv>)
    requires forall n :: n in names ==> n in creds && GoodName(n)
    ensures Listed(creds, names, tlvs) && T.ShortForm(tlvs) && T.Flatten(tlvs) == ListBody(creds, names)
    decreases |names|
  {
    if names == [] {
      tlvs := [];
      assert T.Flatten([]) == [];
    } else {
      var rest := ListBodyLists(creds, names[1..]);
      var c := creds[names[0]];
      var value: seq<byte> := [c.oathType.Wire() + c.algorithm.Wire()] + names[0];
      tlvs := [(TAG_NAME_LIST, value)] + rest;
      T.FlattenCons(TAG_NAME_LIST, value, rest);
      hide T.Flatten, T.Entry;
      assert value[1..] == names[0];
    }
  }

  // LIST answers every credential once, and reads back as such.
  lemma ListAnswers(crypto: Crypto, m: Memory, c: Command, chance: Chance, storeOk: bool)
    requires Open(m, c, 0xA1) && Good(m)
    ensures var (answer, after) := Outcome(crypto, m, c, chance, storeOk);
      && answer.Ok? && answer.value.sw == None && after.state == m.state
      && T.Parsed(answer.value.data).Some?
      && Listed(m.state.credentials, SortedKeys(m.state.credentials.Keys), T.Parsed(answer.value.data).value)
  {
    var names := SortedKeys(m.state.credentials.Keys);
    var tlvs := ListBodyLists(m.state.credentials, names);
    T.ParsedFlatten(tlvs);
    hide T.Parsed, T.Flatten, ListBody, SortedKeys, Listed, T.ShortForm;
  }

  // What CALCULATE ALL says of a credential after its name: nothing for HOTP and for one that
  // needs a touch, otherwise the code of the challenge.
  ghost predicate SaysOf(crypto: Crypto, cr: Credential, challenge: seq<byte>, truncated: bool, entry: T.Tlv) {
    if cr.oathType == Hotp then entry == (0x77, [])
    else if cr.touchRequired then entry == (0x7C, [])
    else IsCode(crypto, KeyOf(cr), challenge, truncated, R.Response(T.Entry(entry.0, entry.1), None))
  }

  ghost predicate AllSaid(crypto: Crypto, creds: map<Name, Credential>, names: seq<Name>, challenge: seq<byte>, truncated: bool, tlvs: seq<T.Tlv>) {
    && |tlvs| == 2 * |names|
    && forall i :: 0 <= i < |names| ==>
         names[i] in creds && tlvs[2 * i] == (0x71, names[i]) && SaysOf(crypto, creds[names[i]], challenge, truncated, tlvs[2 * i + 1])
  }

  lemma OneSaid(crypto: Crypto, cr: Credential, challenge: seq<byte>, truncated: bool) returns (entry: T.Tlv)
    requires LawfulCrypto(crypto)
    requires cr.oathType == Totp && !cr.touchRequired
    requires var d := crypto.hmac(cr.algorithm, cr.secret, challenge); d.Some? && |d.value| >= 20
    ensures |entry.1| <= 0xff && SaysOf(crypto, cr, challenge, truncated, entry)
    ensures T.Entry(entry.0, entry.1) == CodeEntry(cr.digits, crypto.hmac(cr.algorithm, cr.secret, challenge).value, truncated)
  {
    var d := crypto.hmac(cr.algorithm, cr.secret, challenge).value;
    CodeEntryIsCode(crypto, KeyOf(cr), challenge, truncated);
    entry := if truncated then (TAG_TRUNCATED_RESPONSE, [cr.digits] + DynamicTruncate(d)) else (TAG_RESPONSE, [cr.digits] + d);
    hide IsCode;
  }

  lemma {:induction false} AllCodesSay(crypto: Crypto, creds: map<Name, Credential>, names: seq<Name>, challenge: seq<byte>, truncated: bool)
      returns (tlvs: seq<T.Tlv>)
    requires LawfulCrypto(crypto) && forall n :: n in names ==> n in creds && GoodName(n)
    requires AllCodes(crypto, creds, names, challenge, truncated).Some?
    ensures AllSaid(crypto, creds, names, challenge, truncated, tlvs) && T.ShortForm(tlvs)
    ensures T.Flatten(tlvs) == AllCodes(crypto, creds, names, challenge, truncated).value
    decreases |names|
  {
    if names == [] {
      tlvs := [];
      assert T.Flatten([]) == [];
    } else {
      hide T.Flatten, AllSaid, CodeEntry;
      var cr := creds[names[0]];
      var rest := AllCodesSay(crypto, creds, names[1..], challenge, truncated);
      var entry: T.Tlv;
      if cr.oathType == Hotp {
        entry := (TAG_NO_RESPONSE, []);
      } else if cr.touchRequired {
        entry := (TAG_TOUCH_RESPONSE, []);
      } else {
        entry := OneSaid(crypto, cr, challenge, truncated);
      }
      tlvs := [(TAG_NAME, names[0])] + ([entry] + rest);
      T.FlattenCons(TAG_NAME, names[0], [entry] + rest);
      T.FlattenCons(entry.0, entry.1, rest);
      OneMoreSaid(crypto, creds, names, challenge, truncated, entry, rest);
      hide T.Flatten, T.Entry, CodeEntry, SaysOf, AllSaid;
    }
  }

  lemma OneMoreSaid(crypto: Crypto, creds: map<Name, Credential>, names: seq<Name>, challenge: seq<byte>, truncated: bool,
                    entry: T.Tlv, rest: seq<T.Tlv>)
    requires names != [] && names[0] in creds && AllSaid(crypto, creds, names[1..], challenge, truncated, rest)
    requires SaysOf(crypto, creds[names[0]], challenge, truncated, entry)
    ensures AllSaid(crypto, creds, names, challenge, truncated, [(TAG_NAME, names[0])] + ([entry] + rest))
  {
    hide SaysOf;
    var tlvs: seq<T.Tlv> := [(TAG_NAME, names[0])] + ([entry] + rest);
    forall i | 1 <= i < |names|
      ensures tlvs[2 * i] == rest[2 * (i - 1)] && tlvs[2 * i + 1] == rest[2 * (i - 1) + 1] && names[i] == names[1..][i - 1]
    {
    }
  }

  lemma CalculateAllReads(c: Command)
    ensures var request := CalculateAllRequest(c.p2, c.data);
      request.Some? ==> FirstValue(Entries(c), 0x74) == request && 1 <= |request.value| <= 64 && c.p2 <= 1
  {
    TagsOfExact(c.data, [TAG_CHALLENGE], []);
    hide T.Parsed, TagsOf, FirstValue, ExactlyTagged;
    if CalculateAllRequest(c.p2, c.data).Some? {
      assert ([TAG_CHALLENGE] + [])[0] == TAG_CHALLENGE;
      assert TagsOf(c.data, [TAG_CHALLENGE], []).value[0] == FirstValue(Entries(c), TAG_CHALLENGE);
    }
  }

  // CALCULATE ALL, at the applet, answers for every credential once and moves no counter.
  lemma CalculateAllAnswers(crypto: Crypto, m: Memory, c: Command, chance: Chance, storeOk: bool)
    requires LawfulCrypto(crypto) && Open(m, c, 0xA4) && Good(m)
    ensures var (answer, after) := Outcome(crypto, m, c, chance, storeOk);
      && after.state == m.state
      && (answer.Ok? ==>
            var challenge := FirstValue(Entries(c), 0x74);
            && challenge.Some? && answer.value.sw == None && T.Parsed(answer.value.data).Some?
            && AllSaid(crypto, m.state.credentials, SortedKeys(m.state.credentials.Keys), challenge.value, c.p2 == 1,
                       T.Parsed(answer.value.data).value))
  {
    CalculateAllReads(c);
    var names, request := SortedKeys(m.state.credentials.Keys), CalculateAllRequest(c.p2, c.data);
    if request.Some? && AllCodes(crypto, m.state.credentials, names, request.value, c.p2 == 1).Some? {
      var tlvs := AllCodesSay(crypto, m.state.credentials, names, request.value, c.p2 == 1);
      T.ParsedFlatten(tlvs);
    }
    hide T.Parsed, T.Flatten, AllCodes, SortedKeys, AllSaid, T.ShortForm, FirstValue, CalculateAllRequest;
  }

  // ---------- Everything else ----------

  // A wrong class answers 6E00, an unknown instruction 6D00, and neither changes the state.
  lemma UnknownIsRefused(crypto: Crypto, m: Memory, c: Command, chance: Chance, storeOk: bool)
    requires c.cla != 0 || c.ins !in {0x01, 0x02, 0x03, 0x04, 0x05, 0xA1, 0xA2, 0xA3, 0xA4, 0xA5}
    ensures var (answer, after) := Outcome(crypto, m, c, chance, storeOk);
      answer == Err(if c.cla != 0 then 0x6E00 else 0x6D00) && after.state == m.state && after.validated == m.validated
  {
  }

  // ---------- Which error is answered ----------

  // CALCULATE refuses a request that is not one name and one challenge with 6A80, an unknown
  // name or a counter already passed with 6984, and answers 6581 when it cannot go on.
  lemma CalculateRefuses(crypto: Crypto, m: Memory, c: Command, chance: Chance, storeOk: bool)
    requires Open(m, c, 0xA2)
    ensures var answer := Outcome(crypto, m, c, chance, storeOk).0;
      var name, challenge := FirstValue(Entries(c), 0x71), FirstValue(Entries(c), 0x74);
      if c.p2 > 1 || T.Parsed(c.data).None? || !ExactlyTagged(Entries(c), [0x71, 0x74], []) then answer == Err(0x6A80)
      else
        && name.Some? && challenge.Some?
        && if |challenge.value| > 64 then answer == Err(0x6A80)
           else if name.value !in m.state.credentials then answer == Err(0x6984)
           else
             var cr := m.state.credentials[name.value];
             if cr.oathType == Totp then (challenge.value == [] ==> answer == Err(0x6A80)) && (answer.Err? && challenge.value != [] ==> answer.error == 0x6581)
             else if |challenge.value| > 8 then answer == Err(0x6A80)
             else if challenge.value != [] && BeValue(challenge.value) < cr.counter then answer == Err(0x6984)
             else (answer.Err? ==> answer.error == 0x6581) && (!storeOk ==> answer.Err?)
  {
    hide T.Parsed, TagsOf, FirstValue, ExactlyTagged, BeValue, CodeEntry;
    TagsOfExact(c.data, [TAG_NAME, TAG_CHALLENGE], []);
    if TagsOf(c.data, [TAG_NAME, TAG_CHALLENGE], []).Some? {
      var tags := TagsOf(c.data, [TAG_NAME, TAG_CHALLENGE], []).value;
      var asked: seq<byte> := [TAG_NAME, TAG_CHALLENGE] + [];
      assert asked[0] == 0x71 && asked[1] == 0x74;
      assert tags[0] == FirstValue(Entries(c), 0x71) && tags[1] == FirstValue(Entries(c), 0x74);
    }
  }

  // RENAME refuses anything but two names, the second a good and different one, with 6A80, an
  // unknown first name with 6984 and a second one that is taken with 6A84.
  lemma RenameRefuses(crypto: Crypto, m: Memory, c: Command, chance: Chance, storeOk: bool)
    requires Open(m, c, 0x05)
    ensures var answer := Outcome(crypto, m, c, chance, storeOk).0;
      var names := T.Values(Entries(c), 0x71);
      if T.Parsed(c.data).None? || T.Others(Entries(c), 0x71) != [] || |names| != 2
         || !(1 <= |names[1]| <= 64) || names[0] == names[1] then answer == Err(0x6A80)
      else if names[0] !in m.state.credentials then answer == Err(0x6984)
      else if names[1] in m.state.credentials then answer == Err(0x6A84)
      else answer == if storeOk then Ok(R.Response([], None)) else Err(0x6581)
  {
    hide T.Parsed, T.Values, T.Others;
  }

  // VALIDATE answers 6984 without an access key or to a wrong response, 6A80 to a request that
  // is not one response and one challenge, and 6581 when it cannot go on; only the last can
  // leave anything changed.
  lemma ValidateRefuses(crypto: Crypto, m: Memory, c: Command, chance: Chance, storeOk: bool)
    requires c.cla == 0 && c.ins == 0xA3
    ensures var (answer, after) := Outcome(crypto, m, c, chance, storeOk);
      var response, challenge := FirstValue(Entries(c), 0x75), FirstValue(Entries(c), 0x74);
      if m.state.access.None? || m.state.pending.None? then answer == Err(0x6984) && after.state == m.state
      else if T.Parsed(c.data).None? || !ExactlyTagged(Entries(c), [0x75, 0x74], []) then answer == Err(0x6A80) && after.state == m.state
      else
        && response.Some? && challenge.Some?
        && if !(1 <= |challenge.value| <= 64) then answer == Err(0x6A80) && after.state == m.state
           else
             var expected := crypto.hmac(m.state.access.value.algorithm, m.state.access.value.key, m.state.pending.value);
             if expected.None? then answer == Err(0x6581) && after.state == m.state
             else if expected != response then answer == Err(0x6984) && after.state == m.state && after.validated == m.validated
             else (answer.Err? ==> answer.error == 0x6581) && (!storeOk ==> answer.Err? && after.validated == m.validated)
  {
    hide T.Parsed, TagsOf, FirstValue, ExactlyTagged, T.Entry;
    TagsOfExact(c.data, [TAG_RESPONSE, TAG_CHALLENGE], []);
    if TagsOf(c.data, [TAG_RESPONSE, TAG_CHALLENGE], []).Some? {
      var tags := TagsOf(c.data, [TAG_RESPONSE, TAG_CHALLENGE], []).value;
      var asked: seq<byte> := [TAG_RESPONSE, TAG_CHALLENGE] + [];
      assert asked[0] == 0x75 && asked[1] == 0x74;
      assert tags[0] == FirstValue(Entries(c), 0x75) && tags[1] == FirstValue(Entries(c), 0x74);
    }
  }

  // SET CODE answers 6984 when the response is not the keyed hash of the challenge, and 6A80 to
  // anything else it cannot take.
  lemma SetCodeRefuses(crypto: Crypto, m: Memory, c: Command, chance: Chance, storeOk: bool)
    requires LawfulCrypto(crypto) && Open(m, c, 0x03)
    ensures var (answer, after) := Outcome(crypto, m, c, chance, storeOk);
      var key, challenge, response := FirstValue(Entries(c), 0x73), FirstValue(Entries(c), 0x74), FirstValue(Entries(c), 0x75);
      if T.Parsed(c.data).None? || !ExactlyTagged(Entries(c), [0x73], [0x74, 0x75]) then answer == Err(0x6A80) && after.state == m.state
      else
        && key.Some?
        && if key.value == [] then
             (if challenge.Some? || response.Some? then answer == Err(0x6A80)
              else answer == if storeOk then Ok(R.Response([], None)) else Err(0x6581))
           else if !(2 <= |key.value| <= 65) || key.value[0] as int % 16 !in {1, 2, 3} || challenge.None? || response.None?
                   || !(1 <= |challenge.value| <= 64) then answer == Err(0x6A80) && after.state == m.state
           else
             forall a: Algorithm :: AlgorithmNumber(a) == key.value[0] as int % 16 ==>
               var expected := crypto.hmac(a, key.value[1..], challenge.value);
               (if expected == response then answer == if storeOk then Ok(R.Response([], None)) else Err(0x6581)
                else answer.Err? && (expected.Some? ==> answer.error == 0x6984) && after.state == m.state)
  {
    hide T.Parsed, TagsOf, FirstValue, ExactlyTagged;
    TagsOfExact(c.data, [TAG_KEY], [TAG_CHALLENGE, TAG_RESPONSE]);
    if TagsOf(c.data, [TAG_KEY], [TAG_CHALLENGE, TAG_RESPONSE]).Some? {
      var tags := TagsOf(c.data, [TAG_KEY], [TAG_CHALLENGE, TAG_RESPONSE]).value;
      var asked: seq<byte> := [TAG_KEY] + [TAG_CHALLENGE, TAG_RESPONSE];
      assert asked[0] == 0x73 && asked[1] == 0x74 && asked[2] == 0x75;
      assert tags[0] == FirstValue(Entries(c), 0x73) && tags[1] == FirstValue(Entries(c), 0x74);
      assert tags[2] == FirstValue(Entries(c), 0x75);
    }
  }
}
