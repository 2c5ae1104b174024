/**
 What each OATH command does, as a function of the applet's memory: it either answers at
 once or commits a new state to storage first and answers according to the outcome.
 */
module OathPlans {
  import opened Bytes
  import opened ByteOrder
  import opened OathCodec
  import T = Tlv
  import opened Apdu
  import R = CardRouter

  const TAG_NAME: byte := 0x71
  const TAG_NAME_LIST: byte := 0x72
  const TAG_KEY: byte := 0x73
  const TAG_CHALLENGE: byte := 0x74
  const TAG_RESPONSE: byte := 0x75
  const TAG_TRUNCATED_RESPONSE: byte := 0x76
  const TAG_NO_RESPONSE: byte := 0x77
  const TAG_PROPERTY: byte := 0x78
  const TAG_VERSION: byte := 0x79
  const TAG_IMF: byte := 0x7A
  const TAG_ALGORITHM: byte := 0x7B
  const TAG_TOUCH_RESPONSE: byte := 0x7C

  const INS_PUT: byte := 0x01
  const INS_DELETE: byte := 0x02
  const INS_SET_CODE: byte := 0x03
  const INS_RESET: byte := 0x04
  const INS_RENAME: byte := 0x05
  const INS_LIST: byte := 0xA1
  const INS_CALCULATE: byte := 0xA2
  const INS_VALIDATE: byte := 0xA3
  const INS_CALCULATE_ALL: byte := 0xA4
  const INS_SEND_REMAINING: byte := 0xA5

  const SW_NO_SPACE: nat := 0x6A84
  const SW_WRONG_SYNTAX: nat := 0x6A80
  const SW_NO_SUCH_OBJECT: nat := 0x6984
  const SW_GENERIC_ERROR: nat := 0x6581
  const SW_CLASS_NOT_SUPPORTED: nat := 0x6E00

  const RESPONSE_WINDOW: nat := 255

  // Keyed hash and sealing of the stored blob; only digest lengths and "unsealing what was
  // sealed" are known of them.
  datatype Crypto = Crypto(
    hmac: (Algorithm, seq<byte>, seq<byte>) -> Option<seq<byte>>,
    seal: (seq<byte>, seq<byte>) -> seq<byte>,
    unseal: seq<byte> -> Option<seq<byte>>)

  ghost predicate LawfulCrypto(crypto: Crypto) {
    && (forall a: Algorithm, k: seq<byte>, d: seq<byte> ::
          crypto.hmac(a, k, d).Some? ==> |crypto.hmac(a, k, d).value| == a.DigestLen())
    && (forall nonce: seq<byte>, plain: seq<byte> ::
          crypto.unseal(crypto.seal(nonce, plain)) == Some(plain) && |crypto.seal(nonce, plain)| > 12)
  }

  // The random bytes a command may draw.
  datatype Chance = Chance(salt: seq<byte>, challenge: seq<byte>, nonce: seq<byte>)

  predicate GoodChance(c: Chance) {
    |c.salt| == SALT_LEN && |c.challenge| == CHALLENGE_LEN
  }

  // ---------- Memory of the applet ----------

  datatype Memory = Memory(state: OathState, validated: bool, remaining: Option<(seq<byte>, nat)>)

  // The limits every command keeps.
  ghost predicate Good(m: Memory) {
    && Representable(m.state)
    && (m.state.access.Some? ==> |m.state.access.value.key| <= MAX_SECRET_LEN)
    && (m.state.pending.Some? ==> |m.state.pending.value| <= MAX_CHALLENGE_LEN)
    && (m.validated ==> m.state.access.Some?)
    && (m.remaining.Some? ==> m.remaining.value.1 <= |m.remaining.value.0| && m.remaining.value.0 != [])
  }

  type Answer = Result<R.Response, nat>

  // `Commit`: the state in `memory` is written to storage; if that fails the answer is 6581
  // and memory is `onFailure`.
  datatype Plan =
    | Reply(answer: Answer, memory: Memory)
    | Commit(answer: Answer, memory: Memory, onFailure: Memory)

  // What a plan comes to, when the write it may make succeeds or fails.
  function Settle(plan: Plan, storeOk: bool): (Answer, Memory) {
    match plan
    case Reply(a, m) => (a, m)
    case Commit(a, m, f) => if storeOk then (a, m) else (Err(SW_GENERIC_ERROR), f)
  }

  const DONE: Answer := Ok(R.Response([], None))

  function Data(data: seq<byte>): Answer {
    Ok(R.Response(data, None))
  }

  predicate Locked(m: Memory) {
    m.state.access.Some? && !m.validated
  }

  function Refuse(m: Memory, sw: nat): Plan {
    Reply(Err(sw), m)
  }

  function CommitState(m: Memory, answer: Answer): Plan {
    Commit(answer, m, m)
  }

  // ---------- Requests ----------

  // The values of the tags named, in order; anything else in the request is an error.
  // A required tag must be present.
  function TagsOf(data: seq<byte>, required: seq<byte>, optional: seq<byte>): (r: Option<seq<Option<seq<byte>>>>)
    ensures r.Some? ==> |r.value| == |required| + |optional|
    ensures r.Some? ==> forall i :: 0 <= i < |required| ==> r.value[i].Some?
  {
    match T.Parsed(data)
    case None => None
    case Some(tlvs) => PickTags(tlvs, required, optional)
  }

  function PickTags(tlvs: seq<T.Tlv>, required: seq<byte>, optional: seq<byte>): (r: Option<seq<Option<seq<byte>>>>)
    ensures r.Some? ==> |r.value| == |required| + |optional|
    ensures r.Some? ==> forall i :: 0 <= i < |required| ==> r.value[i].Some?
    decreases |required| + |optional|
  {
    if required == [] && optional == [] then if tlvs == [] then Some([]) else None
    else
      var must := required != [];
      match T.TakeTag(tlvs, if must then required[0] else optional[0])
      case None => None
      case Some((value, others)) =>
        if must && value.None? then None
        else match PickTags(others, if must then required[1..] else [], if must then optional else optional[1..])
          case None => None
          case Some(rest) => Some([value] + rest)
  }

  function TagSet(tlvs: seq<T.Tlv>): set<byte> {
    set t | t in tlvs :: t.0
  }

  // Each required tag once, each optional tag at most once, and no other tag.
  ghost predicate ExactlyTagged(tlvs: seq<T.Tlv>, required: seq<byte>, optional: seq<byte>) {
    && (forall t :: t in required ==> |T.Values(tlvs, t)| == 1)
    && (forall t :: t in optional ==> |T.Values(tlvs, t)| <= 1)
    && (forall t :: t in TagSet(tlvs) ==> t in required + optional)
  }

  predicate Distinct(tags: seq<byte>) {
    forall i, j :: 0 <= i < j < |tags| ==> tags[i] != tags[j]
  }

  function FirstValue(tlvs: seq<T.Tlv>, tag: byte): Option<seq<byte>> {
    if T.Values(tlvs, tag) == [] then None else Some(T.Values(tlvs, tag)[0])
  }

  lemma {:induction false} OthersKept(tlvs: seq<T.Tlv>, tag: byte)
    ensures forall t :: t != tag ==> T.Values(T.Others(tlvs, tag), t) == T.Values(tlvs, t)
    ensures TagSet(T.Others(tlvs, tag)) == TagSet(tlvs) - {tag}
    decreases |tlvs|
  {
    if tlvs != [] {
      var rest := T.Others(tlvs[1..], tag);
      OthersKept(tlvs[1..], tag);
      assert TagSet(tlvs) == {tlvs[0].0} + TagSet(tlvs[1..]) by { assert tlvs == [tlvs[0]] + tlvs[1..]; }
      if tlvs[0].0 != tag {
        assert ([tlvs[0]] + rest)[1..] == rest;
        assert TagSet([tlvs[0]] + rest) == {tlvs[0].0} + TagSet(rest);
      } else {
        assert [] + rest == rest;
      }
    }
  }

  // Which requests are well-tagged: a required tag missing, any tag repeated, or a tag not
  // asked for is refused; and the values are those found under the tags, in the order asked.
  lemma TagsOfExact(data: seq<byte>, required: seq<byte>, optional: seq<byte>)
    requires Distinct(required + optional)
    ensures var r := TagsOf(data, required, optional);
      && (r.Some? <==> T.Parsed(data).Some? && ExactlyTagged(T.Parsed(data).value, required, optional))
      && (r.Some? ==> forall i :: 0 <= i < |required| + |optional| ==>
            r.value[i] == FirstValue(T.Parsed(data).value, (required + optional)[i]))
  {
    hide T.Parsed, ExactlyTagged, T.Values;
    if T.Parsed(data).Some? {
      PickTagsExact(T.Parsed(data).value, required, optional);
    }
  }

  lemma {:induction false} PickTagsExact(tlvs: seq<T.Tlv>, required: seq<byte>, optional: seq<byte>)
    requires Distinct(required + optional)
    ensures var r := PickTags(tlvs, required, optional);
      && (r.Some? <==> ExactlyTagged(tlvs, required, optional))
      && (r.Some? ==> forall i :: 0 <= i < |required| + |optional| ==>
            r.value[i] == FirstValue(tlvs, (required + optional)[i]))
    decreases |required| + |optional|
  {
    hide T.Values, T.Others, ExactlyTagged, Distinct;
    if required == [] && optional == [] {
      NothingAsked(tlvs);
    } else {
      var must := required != [];
      var tag := if must then required[0] else optional[0];
      var required', optional' := if must then required[1..] else [], if must then optional else optional[1..];
      assert required + optional == [tag] + (required' + optional');
      DistinctRest(tag, required' + optional');
      OthersKept(tlvs, tag);
      PickTagsExact(T.Others(tlvs, tag), required', optional');
      Peeled(tlvs, tag, required, optional, required', optional');
    }
  }

  lemma NothingAsked(tlvs: seq<T.Tlv>)
    ensures ExactlyTagged(tlvs, [], []) <==> tlvs == []
  {
    hide T.Values;
    assert tlvs != [] ==> tlvs[0].0 in TagSet(tlvs);
  }

  lemma DistinctRest(tag: byte, tags: seq<byte>)
    requires Distinct([tag] + tags)
    ensures Distinct(tags) && tag !in tags
  {
    forall k | 0 <= k < |tags|
      ensures tags[k] == ([tag] + tags)[k + 1] != ([tag] + tags)[0]
    {
    }
  }

  lemma Peeled(tlvs: seq<T.Tlv>, tag: byte, required: seq<byte>, optional: seq<byte>, required': seq<byte>, optional': seq<byte>)
    requires if required != [] then required == [tag] + required' && optional == optional'
             else optional == [tag] + optional' && required' == []
    requires tag !in required' + optional'
    ensures ExactlyTagged(tlvs, required, optional) <==>
      (if required != [] then |T.Values(tlvs, tag)| == 1 else |T.Values(tlvs, tag)| <= 1)
      && ExactlyTagged(T.Others(tlvs, tag), required', optional')
  {
    hide T.Values, T.Others;
    OthersKept(tlvs, tag);
    assert forall t :: t in required + optional <==> t == tag || t in required' + optional';
    assert forall t :: t in TagSet(tlvs) <==> t in TagSet(T.Others(tlvs, tag)) || (t == tag && tag in TagSet(tlvs));
  }

  function PutRequest(data: seq<byte>): (r: Option<(Name, Credential)>)
    ensures r.Some? ==> GoodName(r.value.0) && GoodCredential(r.value.1)
  {
    match TagsOf(data, [TAG_NAME, TAG_KEY], [TAG_PROPERTY, TAG_IMF])
    case None => None
    case Some(tags) =>
      var name, key := tags[0].value, tags[1].value;
      if !GoodName(name) || |key| < 3 then None
      else
        var oathType, algorithm := TypeFromWire(HighNibble(key[0])), AlgorithmFromWire(LowNibble(key[0]));
        var secret := key[2..];
        if oathType.None? || algorithm.None? || !(6 <= key[1] <= 8) || |secret| > MAX_SECRET_LEN then None
        else if tags[2].Some? && (|tags[2].value| != 1 || tags[2].value[0] > 3) then None
        else if tags[3].Some? && (|tags[3].value| != 4 || oathType.value != Hotp) then None
        else
          var prop := if tags[2].Some? then tags[2].value[0] else 0;
          var counter := if tags[3].Some? then Imf(tags[3].value) else 0;
          Some((name, Credential(secret, oathType.value, algorithm.value, key[1], prop / 2 % 2 != 0, prop % 2 != 0, counter)))
  }

  function Imf(imf: seq<byte>): (r: nat)
    requires |imf| == 4
    ensures r < U32
  {
    BeOfValue(imf);
    Pow256Values();
    BeValue(imf)
  }

  // ---------- Commands ----------

  function PutPlan(m: Memory, data: seq<byte>): Plan {
    match PutRequest(data)
    case None => Refuse(m, SW_WRONG_SYNTAX)
    case Some((name, c)) =>
      var creds := m.state.credentials;
      if name !in creds && |creds| >= MAX_CREDENTIALS then Refuse(m, SW_NO_SPACE)
      else CommitState(m.(state := m.state.(credentials := creds[name := c])), DONE)
  }

  function DeletePlan(m: Memory, data: seq<byte>): Plan {
    match TagsOf(data, [TAG_NAME], [])
    case None => Refuse(m, SW_WRONG_SYNTAX)
    case Some(tags) =>
      if tags[0].value !in m.state.credentials then Refuse(m, SW_NO_SUCH_OBJECT)
      else CommitState(m.(state := m.state.(credentials := m.state.credentials - {tags[0].value})), DONE)
  }

  // Exactly two name entries and nothing else: the current name and the new one.
  function RenameRequest(data: seq<byte>): (r: Option<(Name, Name)>)
    ensures r.Some? ==> GoodName(r.value.1) && r.value.0 != r.value.1
  {
    match T.Parsed(data)
    case None => None
    case Some(tlvs) =>
      var names := T.Values(tlvs, TAG_NAME);
      if T.Others(tlvs, TAG_NAME) != [] || |names| != 2 || !GoodName(names[1]) || names[0] == names[1] then None
      else Some((names[0], names[1]))
  }

  function RenamePlan(m: Memory, data: seq<byte>): Plan {
    match RenameRequest(data)
    case None => Refuse(m, SW_WRONG_SYNTAX)
    case Some((current, renamed)) =>
      var creds := m.state.credentials;
      if current !in creds then Refuse(m, SW_NO_SUCH_OBJECT)
      else if renamed in creds then Refuse(m, SW_NO_SPACE)
      else CommitState(m.(state := m.state.(credentials := (creds - {current})[renamed := creds[current]])), DONE)
  }

  function SetCodePlan(crypto: Crypto, m: Memory, data: seq<byte>, chance: Chance): Plan {
    match TagsOf(data, [TAG_KEY], [TAG_CHALLENGE, TAG_RESPONSE])
    case None => Refuse(m, SW_WRONG_SYNTAX)
    case Some(tags) =>
      var key := tags[0].value;
      if key == [] then
        if tags[1].Some? || tags[2].Some? then Refuse(m, SW_WRONG_SYNTAX)
        else CommitState(m.(state := m.state.(access := None, pending := None), validated := false), DONE)
      else if |key| < 2 || |key| > 1 + MAX_SECRET_LEN || AlgorithmFromWire(LowNibble(key[0])).None?
              || tags[1].None? || tags[2].None? || !(1 <= |tags[1].value| <= MAX_CHALLENGE_LEN) then
        Refuse(m, SW_WRONG_SYNTAX)
      else
        var algorithm := AlgorithmFromWire(LowNibble(key[0])).value;
        if |tags[2].value| != algorithm.DigestLen() then Refuse(m, SW_NO_SUCH_OBJECT)
        else match crypto.hmac(algorithm, key[1..], tags[1].value)
          case None => Refuse(m, SW_GENERIC_ERROR)
          case Some(expected) =>
            if expected != tags[2].value then Refuse(m, SW_NO_SUCH_OBJECT)
            else
              var access := Access(algorithm, key[1..]);
              CommitState(m.(state := m.state.(access := Some(access), pending := Some(chance.challenge))), DONE)
  }

  function Factory(salt: seq<byte>): OathState {
    OathState(salt, None, None, map[])
  }

  function ResetPlan(m: Memory, p1: byte, p2: byte, chance: Chance): Plan {
    if p1 != 0xDE || p2 != 0xAD then Refuse(m, SW_WRONG_SYNTAX)
    else CommitState(Memory(Factory(chance.salt), false, None), DONE)
  }

  function ListBody(creds: map<Name, Credential>, names: seq<Name>): seq<byte>
    requires forall n :: n in names ==> n in creds
  {
    if names == [] then []
    else
      var c := creds[names[0]];
      T.Entry(TAG_NAME_LIST, [c.oathType.Wire() + c.algorithm.Wire()] + names[0]) + ListBody(creds, names[1..])
  }

  ghost function ListPlan(m: Memory): Plan {
    Reply(Data(ListBody(m.state.credentials, SortedKeys(m.state.credentials.Keys))), m)
  }

  // Four raw bytes at the offset the last digit of the digest names (RFC 4226 section 5.3).
  function DynamicTruncate(digest: seq<byte>): (r: seq<byte>)
    requires |digest| >= 20
    ensures |r| == 4
  {
    var offset := LowNibble(digest[|digest| - 1]);
    digest[offset..offset as int + 4]
  }

  function CodeEntry(digits: byte, digest: seq<byte>, truncated: bool): seq<byte>
    requires |digest| >= 20
  {
    if truncated then T.Entry(TAG_TRUNCATED_RESPONSE, [digits] + DynamicTruncate(digest))
    else T.Entry(TAG_RESPONSE, [digits] + digest)
  }

  // The moving factor a CALCULATE uses, with the counter that will follow it for HOTP.
  datatype Factor = Refused(sw: nat) | Moving(challenge: seq<byte>, used: nat, next: Option<nat>)

  function FactorOf(c: Credential, challenge: seq<byte>): Factor {
    match c.oathType
    case Totp => if challenge == [] then Refused(SW_WRONG_SYNTAX) else Moving(challenge, 0, None)
    case Hotp =>
      if challenge == [] then
        if c.counter + 1 >= U64 then Refused(SW_GENERIC_ERROR)
        else Moving(Be(c.counter, 8), c.counter, Some(c.counter + 1))
      else if |challenge| > 8 then Refused(SW_WRONG_SYNTAX)
      else
        var used := BeValue(challenge);
        if used < c.counter then Refused(SW_NO_SUCH_OBJECT)
        else Moving(Filled(8 - |challenge|, 0) + challenge, used, Some(if used + 1 >= U64 then U64 - 1 else used + 1))
  }

  function CalculateRequest(p2: byte, data: seq<byte>): Option<(Name, seq<byte>)> {
    if p2 > 1 then None
    else match TagsOf(data, [TAG_NAME, TAG_CHALLENGE], [])
      case None => None
      case Some(tags) => if |tags[1].value| > MAX_CHALLENGE_LEN then None else Some((tags[0].value, tags[1].value))
  }

  function WithCounter(m: Memory, name: Name, counter: nat): Memory
    requires name in m.state.credentials
  {
    var creds := m.state.credentials;
    m.(state := m.state.(credentials := creds[name := creds[name].(counter := counter)]))
  }

  function CalculatePlan(crypto: Crypto, m: Memory, p2: byte, data: seq<byte>): Plan {
    match CalculateRequest(p2, data)
    case None => Refuse(m, SW_WRONG_SYNTAX)
    case Some((name, challenge)) =>
      if name !in m.state.credentials then Refuse(m, SW_NO_SUCH_OBJECT)
      else
        var c := m.state.credentials[name];
        match FactorOf(c, challenge)
        case Refused(sw) => Refuse(m, sw)
        case Moving(bytes, _, next) =>
          match crypto.hmac(c.algorithm, c.secret, bytes)
          case None => Refuse(m, SW_GENERIC_ERROR)
          case Some(digest) =>
            if |digest| < 20 then Refuse(m, SW_GENERIC_ERROR)
            else
              var answer := Data(CodeEntry(c.digits, digest, p2 == 1));
              if next.None? then Reply(answer, m) else Commit(answer, WithCounter(m, name, next.value), m)
  }

  // One name and one code (or a placeholder) per credential, in name order.
  function AllCodes(crypto: Crypto, creds: map<Name, Credential>, names: seq<Name>, challenge: seq<byte>, truncated: bool): Option<seq<byte>>
    requires forall n :: n in names ==> n in creds
    decreases |names|
  {
    if names == [] then Some([])
    else
      var c := creds[names[0]];
      var code :=
        if c.oathType == Hotp then Some(T.Entry(TAG_NO_RESPONSE, []))
        else if c.touchRequired then Some(T.Entry(TAG_TOUCH_RESPONSE, []))
        else match crypto.hmac(c.algorithm, c.secret, challenge)
          case None => None
          case Some(digest) => if |digest| < 20 then None else Some(CodeEntry(c.digits, digest, truncated));
      if code.None? then None
      else match AllCodes(crypto, creds, names[1..], challenge, truncated)
        case None => None
        case Some(rest) => Some(T.Entry(TAG_NAME, names[0]) + code.value + rest)
  }

  function CalculateAllRequest(p2: byte, data: seq<byte>): Option<seq<byte>> {
    if p2 > 1 then None
    else match TagsOf(data, [TAG_CHALLENGE], [])
      case None => None
      case Some(tags) => if 1 <= |tags[0].value| <= MAX_CHALLENGE_LEN then tags[0] else None
  }

  ghost function CalculateAllPlan(crypto: Crypto, m: Memory, p2: byte, data: seq<byte>): Plan {
    match CalculateAllRequest(p2, data)
    case None => Refuse(m, SW_WRONG_SYNTAX)
    case Some(challenge) =>
      var creds := m.state.credentials;
      match AllCodes(crypto, creds, SortedKeys(creds.Keys), challenge, p2 == 1)
      case None => Refuse(m, SW_GENERIC_ERROR)
      case Some(out) => Reply(Data(out), m)
  }

  function ValidatePlan(crypto: Crypto, m: Memory, data: seq<byte>): Plan {
    if m.state.access.None? || m.state.pending.None? then Refuse(m, SW_NO_SUCH_OBJECT)
    else
      var access, pending := m.state.access.value, m.state.pending.value;
      match TagsOf(data, [TAG_RESPONSE, TAG_CHALLENGE], [])
      case None => Refuse(m, SW_WRONG_SYNTAX)
      case Some(tags) =>
        var response, challenge := tags[0].value, tags[1].value;
        if !(1 <= |challenge| <= MAX_CHALLENGE_LEN) then Refuse(m, SW_WRONG_SYNTAX)
        else match crypto.hmac(access.algorithm, access.key, pending)
          case None => Refuse(m, SW_GENERIC_ERROR)
          case Some(expected) =>
            if expected != response then Refuse(m, SW_NO_SUCH_OBJECT)
            else
              var adopted := m.(state := m.state.(pending := Some(challenge)));
              var answer := match crypto.hmac(access.algorithm, access.key, challenge)
                case None => Err(SW_GENERIC_ERROR)
                case Some(proof) => Data(T.Entry(TAG_RESPONSE, proof));
              Commit(answer, adopted.(validated := true), adopted)
  }

  // The next window of the mirrored response.
  function SendRemainingPlan(m: Memory, le: Option<nat>): Plan {
    match m.remaining
    case None => Refuse(m, R.SW_CONDITIONS_NOT_SATISFIED)
    case Some((buf, pos)) =>
      if pos >= |buf| then Reply(DONE, m.(remaining := None))
      else
        var window := if le.Some? && le.value < RESPONSE_WINDOW then le.value else RESPONSE_WINDOW;
        var end := if pos + window < |buf| then pos + window else |buf|;
        if end < |buf| then
          Reply(Ok(R.Response(buf[pos..end], Some(R.SwMoreData(|buf| - end)))), m.(remaining := Some((buf, end))))
        else Reply(Data(buf[pos..]), m.(remaining := None))
  }

  // A session must be validated for every command but RESET and VALIDATE.
  ghost function DispatchPlan(crypto: Crypto, m: Memory, c: Command, chance: Chance): Plan {
    if c.ins == INS_RESET then ResetPlan(m, c.p1, c.p2, chance)
    else if c.ins == INS_VALIDATE then ValidatePlan(crypto, m, c.data)
    else if c.ins !in {INS_PUT, INS_DELETE, INS_SET_CODE, INS_RENAME, INS_LIST, INS_CALCULATE, INS_CALCULATE_ALL} then
      Refuse(m, R.SW_INS_NOT_SUPPORTED)
    else if Locked(m) then Refuse(m, R.SW_SECURITY_STATUS)
    else if c.ins == INS_PUT then PutPlan(m, c.data)
    else if c.ins == INS_DELETE then DeletePlan(m, c.data)
    else if c.ins == INS_SET_CODE then SetCodePlan(crypto, m, c.data, chance)
    else if c.ins == INS_RENAME then RenamePlan(m, c.data)
    else if c.ins == INS_LIST then ListPlan(m)
    else if c.ins == INS_CALCULATE then CalculatePlan(crypto, m, c.p2, c.data)
    else CalculateAllPlan(crypto, m, c.p2, c.data)
  }

  // The response is mirrored for SEND REMAINING from where the router's inline part ends; an
  // error ends any continuation.
  function Mirrored(m: Memory, answer: Answer, le: Option<nat>): Memory {
    match answer
    case Err(_) => m.(remaining := None)
    case Ok(r) =>
      var limit := if le.Some? then le.value else 0;
      m.(remaining := if r.data == [] then None else Some((r.data, if limit < |r.data| then limit else |r.data|)))
  }

  function MirroredPlan(plan: Plan, le: Option<nat>): Plan {
    match plan
    case Reply(answer, m) => Reply(answer, Mirrored(m, answer, le))
    case Commit(answer, m, f) => Commit(answer, Mirrored(m, answer, le), Mirrored(f, Err(SW_GENERIC_ERROR), le))
  }

  ghost function ProcessPlan(crypto: Crypto, m: Memory, c: Command, chance: Chance): Plan {
    if c.cla != 0 then Refuse(m, SW_CLASS_NOT_SUPPORTED)
    else if c.ins == INS_SEND_REMAINING then
      if Locked(m) then Refuse(m, R.SW_SECURITY_STATUS) else SendRemainingPlan(m, c.le)
    else MirroredPlan(DispatchPlan(crypto, m, c, chance), c.le)
  }

  // A selection ends the validated session and, with an access key set, issues a new challenge.
  function SelectPlan(m: Memory, chance: Chance): Plan {
    var m1 := m.(validated := false);
    if m.state.access.None? then Reply(DONE, m1)
    else CommitState(m1.(state := m.state.(pending := Some(chance.challenge))), DONE)
  }

  function SelectBody(m: Memory): seq<byte> {
    T.Entry(TAG_VERSION, [3, 4, 0]) + T.Entry(TAG_NAME, m.state.salt)
    + if m.state.access.Some? && m.state.pending.Some? then
        T.Entry(TAG_CHALLENGE, m.state.pending.value) + T.Entry(TAG_ALGORITHM, [m.state.access.value.algorithm.Wire()])
      else []
  }

  // What the stored blob boots into: the state it holds, or nothing readable.
  function Loaded(crypto: Crypto, blob: Option<seq<byte>>): Option<OathState> {
    if blob.None? || |blob.value| <= 12 then None
    else match crypto.unseal(blob.value)
      case None => None
      case Some(plain) => Parsed(plain)
  }

  ghost function Blob(crypto: Crypto, state: OathState, nonce: seq<byte>): seq<byte> {
    crypto.seal(nonce, Serialized(state))
  }
}
