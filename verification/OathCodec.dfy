/**
 The persisted state of the OATH applet and its binary format: the serialiser, the
 bounds-checked reader, and the proof that a restart reproduces the state.
 */
module OathCodec {
  import opened Bytes
  import opened ByteOrder

  const STATE_FORMAT_VERSION: byte := 1
  const MAX_CREDENTIALS: nat := 32
  const MAX_NAME_LEN: nat := 64
  const MAX_SECRET_LEN: nat := 64
  const MAX_CHALLENGE_LEN: nat := 64
  const SALT_LEN: nat := 16
  const CHALLENGE_LEN: nat := 8

  datatype Algorithm = Sha1 | Sha256 | Sha512 {
    function Wire(): byte {
      match this
      case Sha1 => 1
      case Sha256 => 2
      case Sha512 => 3
    }

    function DigestLen(): nat {
      match this
      case Sha1 => 20
      case Sha256 => 32
      case Sha512 => 64
    }
  }

  datatype OathType = Hotp | Totp {
    function Wire(): byte {
      match this
      case Hotp => 0x10
      case Totp => 0x20
    }
  }

  function AlgorithmFromWire(b: byte): Option<Algorithm> {
    if b == 1 then Some(Sha1) else if b == 2 then Some(Sha256) else if b == 3 then Some(Sha512) else None
  }

  function TypeFromWire(b: byte): Option<OathType> {
    if b == 0x10 then Some(Hotp) else if b == 0x20 then Some(Totp) else None
  }

  function HighNibble(b: byte): byte {
    b / 0x10 * 0x10
  }

  function LowNibble(b: byte): byte {
    b % 0x10
  }

  type Name = seq<byte>

  datatype Credential = Credential(
    secret: seq<byte>, oathType: OathType, algorithm: Algorithm, digits: byte,
    touchRequired: bool, onlyIncreasing: bool, counter: nat)

  datatype Access = Access(algorithm: Algorithm, key: seq<byte>)

  datatype OathState = OathState(
    salt: seq<byte>, access: Option<Access>, pending: Option<seq<byte>>, credentials: map<Name, Credential>)

  // ---------- What the format can hold ----------

  predicate GoodCredential(c: Credential) {
    1 <= |c.secret| <= MAX_SECRET_LEN && 6 <= c.digits <= 8 && c.counter < U64
  }

  predicate GoodName(n: Name) {
    1 <= |n| <= MAX_NAME_LEN
  }

  ghost predicate Representable(s: OathState) {
    && 1 <= |s.salt| <= 4 * SALT_LEN
    && (s.access.Some? ==> 1 <= |s.access.value.key| <= 0xff)
    && (s.pending.Some? ==> s.access.Some? && 1 <= |s.pending.value| <= 0xff)
    && |s.credentials| <= MAX_CREDENTIALS
    && forall n :: n in s.credentials ==> GoodName(n) && GoodCredential(s.credentials[n])
  }

  // ---------- Writing ----------

  function Prefixed(b: seq<byte>): (r: seq<byte>)
    ensures |r| == 1 + |b|
  {
    [|b| % 0x100] + b
  }

  function Flag(b: bool): byte {
    if b then 1 else 0
  }

  function CredentialRecord(n: Name, c: Credential): seq<byte> {
    Prefixed(n) + [c.oathType.Wire() + c.algorithm.Wire(), c.digits, Flag(c.touchRequired) + 2 * Flag(c.onlyIncreasing)]
    + Be(c.counter, 8) + Prefixed(c.secret)
  }

  function Records(credentials: map<Name, Credential>, names: seq<Name>): seq<byte>
    requires forall n :: n in names ==> n in credentials
  {
    if names == [] then []
    else CredentialRecord(names[0], credentials[names[0]]) + Records(credentials, names[1..])
  }

  function AccessRecord(s: OathState): seq<byte> {
    match s.access
    case None => [0]
    case Some(a) => [1, a.algorithm.Wire()] + Prefixed(a.key) + Prefixed(if s.pending.Some? then s.pending.value else [])
  }

  ghost function Serialized(s: OathState): seq<byte> {
    [STATE_FORMAT_VERSION] + Prefixed(s.salt) + AccessRecord(s)
    + Be(|s.credentials| % U16, 2) + Records(s.credentials, SortedKeys(s.credentials.Keys))
  }

  method SerializeState(s: OathState) returns (out: seq<byte>)
    ensures out == Serialized(s)
  {
    out := [STATE_FORMAT_VERSION];
    out := out + [|s.salt| % 0x100];
    out := out + s.salt;
    match s.access {
      case None =>
        out := out + [0];
      case Some(a) =>
        out := out + [1];
        out := out + [a.algorithm.Wire()];
        out := out + [|a.key| % 0x100];
        out := out + a.key;
        var challenge := if s.pending.Some? then s.pending.value else [];
        out := out + [|challenge| % 0x100];
        out := out + challenge;
    }
    out := out + Be(|s.credentials| % U16, 2);
    assert out == [STATE_FORMAT_VERSION] + Prefixed(s.salt) + AccessRecord(s) + Be(|s.credentials| % U16, 2);
    out := AppendRecords(out, s.credentials);
  }

  // The sorted walk over the credentials.
  method AppendRecords(prefix: seq<byte>, credentials: map<Name, Credential>) returns (out: seq<byte>)
    ensures out == prefix + Records(credentials, SortedKeys(credentials.Keys))
  {
    hide CredentialRecord, Records, SortedKeys;
    NothingLeft(credentials);
    out := prefix;
    var left := credentials.Keys;
    while left != {}
      invariant left <= credentials.Keys
      invariant out + Records(credentials, SortedKeys(left)) == prefix + Records(credentials, SortedKeys(credentials.Keys))
      decreases |left|
    {
      LeastExists(left);
      var n :| n in left && IsLeast(n, left);
      SortedKeysStep(n, left);
      ghost var rest := SortedKeys(left - {n});
      ghost var before := out;
      RecordsStep(credentials, n, rest);
      out := out + CredentialRecord(n, credentials[n]);
      assert out + Records(credentials, rest) == before + Records(credentials, SortedKeys(left));
      left := left - {n};
    }
  }

  lemma RecordsStep(credentials: map<Name, Credential>, n: Name, rest: seq<Name>)
    requires n in credentials && forall k :: k in rest ==> k in credentials
    ensures Records(credentials, [n] + rest) == CredentialRecord(n, credentials[n]) + Records(credentials, rest)
  {
    hide CredentialRecord;
    assert ([n] + rest)[1..] == rest;
  }

  lemma NothingLeft(credentials: map<Name, Credential>)
    ensures Records(credentials, SortedKeys({})) == []
  {
  }

  // ---------- Reading ----------

  function Take(b: seq<byte>, n: nat): (r: Option<(seq<byte>, seq<byte>)>)
    ensures r.Some? ==> b == r.value.0 + r.value.1 && |r.value.0| == n
  {
    if n > |b| then None else Some((b[..n], b[n..]))
  }

  function TakePrefixed(b: seq<byte>): (r: Option<(seq<byte>, seq<byte>)>)
    ensures r.Some? ==> b == Prefixed(r.value.0) + r.value.1 && |r.value.0| <= 0xff
  {
    if b == [] then None else Take(b[1..], b[0])
  }

  function TakeCredential(b: seq<byte>): (r: Option<(Name, Credential, seq<byte>)>)
    ensures r.Some? ==> GoodName(r.value.0)
  {
    match TakePrefixed(b)
    case None => None
    case Some((id, b1)) =>
      if !GoodName(id) then None
      else match TakeBody(b1)
        case None => None
        case Some((c, b2)) => Some((id, c, b2))
  }

  function TakeBody(b: seq<byte>): Option<(Credential, seq<byte>)> {
    match Take(b, 3)
    case None => None
    case Some((head, b1)) =>
      var oathType, algorithm := TypeFromWire(HighNibble(head[0])), AlgorithmFromWire(LowNibble(head[0]));
      if oathType.None? || algorithm.None? || !(6 <= head[1] <= 8) then None
      else match TakeSecret(b1)
        case None => None
        case Some((counter, secret, b2)) =>
          Some((Credential(secret, oathType.value, algorithm.value, head[1],
                           head[2] % 2 != 0, head[2] / 2 % 2 != 0, counter), b2))
  }

  function TakeSecret(b: seq<byte>): Option<(nat, seq<byte>, seq<byte>)> {
    match Take(b, 8)
    case None => None
    case Some((counter, b1)) =>
      match TakePrefixed(b1)
      case None => None
      case Some((secret, b2)) =>
        if !(1 <= |secret| <= MAX_SECRET_LEN) then None else Some((BeValue(counter), secret, b2))
  }

  function TakeCredentials(b: seq<byte>, count: nat, found: map<Name, Credential>): Option<(map<Name, Credential>, seq<byte>)> {
    if count == 0 then Some((found, b))
    else match TakeCredential(b)
      case None => None
      case Some((n, c, rest)) => TakeCredentials(rest, count - 1, found[n := c])
  }

  function TakeAccess(b: seq<byte>): Option<(Option<Access>, Option<seq<byte>>, seq<byte>)> {
    match Take(b, 1)
    case None => None
    case Some((flag, b1)) =>
      if flag[0] == 0 then Some((None, None, b1))
      else match Take(b1, 1)
        case None => None
        case Some((alg, b2)) =>
          if AlgorithmFromWire(alg[0]).None? then None
          else match TakeKey(b2)
            case None => None
            case Some((key, pending, b3)) => Some((Some(Access(AlgorithmFromWire(alg[0]).value, key)), pending, b3))
  }

  function TakeKey(b: seq<byte>): Option<(seq<byte>, Option<seq<byte>>, seq<byte>)> {
    match TakePrefixed(b)
    case None => None
    case Some((key, b1)) =>
      if key == [] then None
      else match TakePrefixed(b1)
        case None => None
        case Some((pending, b2)) => Some((key, if pending == [] then None else Some(pending), b2))
  }

  function Parsed(blob: seq<byte>): Option<OathState> {
    if blob == [] || blob[0] != STATE_FORMAT_VERSION then None
    else match TakePrefixed(blob[1..])
      case None => None
      case Some((salt, b1)) =>
        if salt == [] || |salt| > SALT_LEN * 4 then None
        else match TakeAccess(b1)
          case None => None
          case Some((access, pending, b2)) =>
            match Take(b2, 2)
            case None => None
            case Some((count, b3)) =>
              if BeValue(count) > MAX_CREDENTIALS then None
              else match TakeCredentials(b3, BeValue(count), map[])
                case None => None
                case Some((credentials, rest)) =>
                  if rest != [] then None else Some(OathState(salt, access, pending, credentials))
  }

  // A cursor over the blob; every read checks the bounds first and advances only on success.
  class BlobReader {
    const data: seq<byte>
    var pos: nat

    ghost predicate Valid()
      reads this
    {
      pos <= |data|
    }

    function Rest(): seq<byte>
      reads this
      requires Valid()
    {
      data[pos..]
    }

    constructor (data: seq<byte>)
      ensures Valid() && Rest() == data
    {
      this.data := data;
      pos := 0;
    }

    method TakeBytes(n: nat) returns (r: Option<seq<byte>>)
      requires Valid()
      modifies this
      ensures Valid()
      ensures match Take(old(Rest()), n)
        case None => r == None && Rest() == old(Rest())
        case Some((front, back)) => r == Some(front) && Rest() == back
    {
      var end := pos + n;
      if end > |data| {
        return None;
      }
      var slice := data[pos..end];
      assert slice == Rest()[..n] && data[end..] == Rest()[n..];
      pos := end;
      return Some(slice);
    }

    method TakeLenPrefixed() returns (r: Option<seq<byte>>)
      requires Valid()
      modifies this
      ensures Valid()
      ensures match TakePrefixed(old(Rest()))
        case None => r == None
        case Some((front, back)) => r == Some(front) && Rest() == back
    {
      var len := TakeBytes(1);
      if len.None? {
        return None;
      }
      r := TakeBytes(len.value[0]);
    }

    method TakeOneCredential() returns (r: Option<(Name, Credential)>)
      requires Valid()
      modifies this
      ensures Valid()
      ensures match TakeCredential(old(Rest()))
        case None => r == None
        case Some((n, c, back)) => r == Some((n, c)) && Rest() == back
    {
      hide BeValue, Take, TakePrefixed;
      var id := TakeLenPrefixed();
      if id.None? || !GoodName(id.value) {
        return None;
      }
      var head := TakeBytes(3);
      if head.None? {
        return None;
      }
      var oathType := TypeFromWire(HighNibble(head.value[0]));
      var algorithm := AlgorithmFromWire(LowNibble(head.value[0]));
      var digits, flags := head.value[1], head.value[2];
      if oathType.None? || algorithm.None? || digits < 6 || digits > 8 {
        return None;
      }
      var counter := TakeBytes(8);
      if counter.None? {
        return None;
      }
      var secret := TakeLenPrefixed();
      if secret.None? || secret.value == [] || |secret.value| > MAX_SECRET_LEN {
        return None;
      }
      return Some((id.value, Credential(secret.value, oathType.value, algorithm.value, digits,
                                        flags % 2 != 0, flags / 2 % 2 != 0, BeValue(counter.value))));
    }

    method TakeAccessRecord() returns (r: Option<(Option<Access>, Option<seq<byte>>)>)
      requires Valid()
      modifies this
      ensures Valid()
      ensures match TakeAccess(old(Rest()))
        case None => r == None
        case Some((access, pending, back)) => r == Some((access, pending)) && Rest() == back
    {
      var flag := TakeBytes(1);
      if flag.None? {
        return None;
      }
      if flag.value[0] == 0 {
        return Some((None, None));
      }
      var alg := TakeBytes(1);
      if alg.None? || AlgorithmFromWire(alg.value[0]).None? {
        return None;
      }
      var key := TakeLenPrefixed();
      if key.None? || key.value == [] {
        return None;
      }
      var pending := TakeLenPrefixed();
      if pending.None? {
        return None;
      }
      return Some((Some(Access(AlgorithmFromWire(alg.value[0]).value, key.value)),
                   if pending.value == [] then None else Some(pending.value)));
    }
  }

  method ParseState(blob: seq<byte>) returns (r: Option<OathState>)
    ensures r == Parsed(blob)
  {
    hide Take, TakePrefixed, TakeAccess, TakeCredential, BeValue;
    var reader := new BlobReader(blob);
    var version := reader.TakeBytes(1);
    TakeOne(blob);
    if version.None? || version.value[0] != STATE_FORMAT_VERSION {
      return None;
    }
    var salt := reader.TakeLenPrefixed();
    if salt.None? || salt.value == [] || |salt.value| > SALT_LEN * 4 {
      return None;
    }
    var access := reader.TakeAccessRecord();
    if access.None? {
      return None;
    }
    var count := reader.TakeBytes(2);
    if count.None? || BeValue(count.value) > MAX_CREDENTIALS {
      return None;
    }
    var credentials: map<Name, Credential> := map[];
    ghost var b3 := reader.Rest();
    var left := BeValue(count.value);
    while left > 0
      invariant reader.Valid() && fresh(reader)
      invariant TakeCredentials(reader.Rest(), left, credentials) == TakeCredentials(b3, BeValue(count.value), map[])
    {
      var one := reader.TakeOneCredential();
      if one.None? {
        return None;
      }
      credentials := credentials[one.value.0 := one.value.1];
      left := left - 1;
    }
    if reader.pos != |reader.data| {
      return None;
    }
    return Some(OathState(salt.value, access.value.0, access.value.1, credentials));
  }

  lemma TakeOne(b: seq<byte>)
    ensures Take(b, 1) == if b == [] then None else Some((b[..1], b[1..]))
  {
  }

  // ---------- Round trip ----------

  lemma TakePrefixedBack(b: seq<byte>, rest: seq<byte>)
    requires |b| <= 0xff
    ensures TakePrefixed(Prefixed(b) + rest) == Some((b, rest))
  {
    var all := Prefixed(b) + rest;
    assert all[1..] == b + rest;
    assert (b + rest)[..|b|] == b && (b + rest)[|b|..] == rest;
  }

  lemma TakeBack(b: seq<byte>, rest: seq<byte>)
    ensures Take(b + rest, |b|) == Some((b, rest))
  {
    assert (b + rest)[..|b|] == b && (b + rest)[|b|..] == rest;
  }

  function BodyRecord(c: Credential): seq<byte> {
    [c.oathType.Wire() + c.algorithm.Wire(), c.digits, Flag(c.touchRequired) + 2 * Flag(c.onlyIncreasing)]
    + SecretRecord(c)
  }

  function SecretRecord(c: Credential): seq<byte> {
    Be(c.counter, 8) + Prefixed(c.secret)
  }

  lemma TakeSecretBack(c: Credential, rest: seq<byte>)
    requires GoodCredential(c)
    ensures TakeSecret(SecretRecord(c) + rest) == Some((c.counter, c.secret, rest))
  {
    hide Be, BeValue, Take, TakePrefixed, Prefixed;
    assert SecretRecord(c) + rest == Be(c.counter, 8) + (Prefixed(c.secret) + rest);
    TakeBack(Be(c.counter, 8), Prefixed(c.secret) + rest);
    TakePrefixedBack(c.secret, rest);
    Pow256Values();
    BeRoundTrip(c.counter, 8);
  }

  lemma TakeBodyBack(c: Credential, rest: seq<byte>)
    requires GoodCredential(c)
    ensures TakeBody(BodyRecord(c) + rest) == Some((c, rest))
  {
    hide Take, TakeSecret, SecretRecord;
    var head: seq<byte> := [c.oathType.Wire() + c.algorithm.Wire(), c.digits, Flag(c.touchRequired) + 2 * Flag(c.onlyIncreasing)];
    assert BodyRecord(c) + rest == head + (SecretRecord(c) + rest);
    TakeBack(head, SecretRecord(c) + rest);
    TakeSecretBack(c, rest);
  }

  lemma TakeCredentialBack(n: Name, c: Credential, rest: seq<byte>)
    requires GoodName(n) && GoodCredential(c)
    ensures TakeCredential(CredentialRecord(n, c) + rest) == Some((n, c, rest))
  {
    hide Be, TakePrefixed, Prefixed, TakeBody;
    assert CredentialRecord(n, c) + rest == Prefixed(n) + (BodyRecord(c) + rest);
    TakePrefixedBack(n, BodyRecord(c) + rest);
    TakeBodyBack(c, rest);
  }

  lemma {:induction false} TakeCredentialsBack(credentials: map<Name, Credential>, names: seq<Name>, found: map<Name, Credential>)
    requires forall n :: n in names ==> n in credentials && GoodName(n) && GoodCredential(credentials[n])
    requires forall n :: n in found ==> n in credentials && found[n] == credentials[n]
    ensures TakeCredentials(Records(credentials, names), |names|, found).Some?
    ensures var (all, rest) := TakeCredentials(Records(credentials, names), |names|, found).value;
      && rest == []
      && (forall n :: n in all <==> n in found || n in names)
      && (forall n :: n in all ==> n in credentials && all[n] == credentials[n])
    decreases |names|
  {
    hide CredentialRecord, TakeCredential;
    if names != [] {
      var n := names[0];
      TakeCredentialBack(n, credentials[n], Records(credentials, names[1..]));
      TakeCredentialsBack(credentials, names[1..], found[n := credentials[n]]);
    }
  }

  lemma TakeKeyBack(key: seq<byte>, pending: seq<byte>, rest: seq<byte>)
    requires 1 <= |key| <= 0xff && |pending| <= 0xff
    ensures TakeKey(Prefixed(key) + (Prefixed(pending) + rest))
      == Some((key, if pending == [] then None else Some(pending), rest))
  {
    hide TakePrefixed, Prefixed;
    TakePrefixedBack(key, Prefixed(pending) + rest);
    TakePrefixedBack(pending, rest);
  }

  lemma TakeAccessBack(s: OathState, rest: seq<byte>)
    requires Representable(s)
    ensures TakeAccess(AccessRecord(s) + rest) == Some((s.access, s.pending, rest))
  {
    hide Take, TakeKey, Prefixed;
    if s.access.None? {
      TakeBack([0], rest);
    } else {
      var a := s.access.value;
      var pending := if s.pending.Some? then s.pending.value else [];
      var b2 := Prefixed(a.key) + (Prefixed(pending) + rest);
      assert AccessRecord(s) + rest == [1] + ([a.algorithm.Wire()] + b2);
      TakeBack([1], [a.algorithm.Wire()] + b2);
      TakeBack([a.algorithm.Wire()], b2);
      TakeKeyBack(a.key, pending, rest);
    }
  }

  // Reading inverts writing, for every state within the limits.
  lemma StateRoundTrip(s: OathState)
    requires Representable(s)
    ensures Parsed(Serialized(s)) == Some(s)
  {
    hide Be, BeValue, AccessRecord, TakeAccess, Take, TakePrefixed, Prefixed, Records, TakeCredentials, GoodName, GoodCredential;
    var names := SortedKeys(s.credentials.Keys);
    var b3 := Records(s.credentials, names);
    var b2 := Be(|s.credentials|, 2) + b3;
    var b1 := AccessRecord(s) + b2;
    assert |s.credentials| % U16 == |s.credentials|;
    assert Serialized(s)[1..] == Prefixed(s.salt) + b1;
    TakePrefixedBack(s.salt, b1);
    TakeAccessBack(s, b2);
    TakeBack(Be(|s.credentials|, 2), b3);
    Pow256Values();
    BeRoundTrip(|s.credentials|, 2);
    TakeCredentialsBack(s.credentials, names, map[]);
    assert |names| == |s.credentials|;
    var (all, rest) := TakeCredentials(b3, |names|, map[]).value;
    assert all == s.credentials;
  }

  // Whatever the reader accepts is within the limits - the number of credentials among them -
  // and so is reproduced when written and read again.
  lemma ParsedIsRepresentable(blob: seq<byte>)
    requires Parsed(blob).Some?
    ensures Representable(Parsed(blob).value)
    ensures Parsed(Serialized(Parsed(blob).value)) == Parsed(blob)
  {
    hide Serialized, BeValue, Take, TakePrefixed, TakeCredential;
    var b1 := TakePrefixed(blob[1..]).value.1;
    var b2 := TakeAccess(b1).value.2;
    var (count, b3) := Take(b2, 2).value;
    TakeCredentialsGood(b3, BeValue(count), map[]);
    StateRoundTrip(Parsed(blob).value);
  }

  lemma {:induction false} TakeCredentialsGood(b: seq<byte>, count: nat, found: map<Name, Credential>)
    requires TakeCredentials(b, count, found).Some?
    requires forall n :: n in found ==> GoodName(n) && GoodCredential(found[n])
    ensures var all := TakeCredentials(b, count, found).value.0;
      && |all| <= |found| + count
      && forall n :: n in all ==> GoodName(n) && GoodCredential(all[n])
    decreases count
  {
    hide GoodName, GoodCredential, TakeCredential;
    if count > 0 {
      var (n, c, rest) := TakeCredential(b).value;
      TakenIsGood(b);
      OneMoreKey(found, n, c);
      TakeCredentialsGood(rest, count - 1, found[n := c]);
    }
  }

  lemma OneMoreKey(found: map<Name, Credential>, n: Name, c: Credential)
    ensures |found[n := c]| <= |found| + 1
  {
    assert found[n := c].Keys == found.Keys + {n};
  }

  lemma TakenIsGood(b: seq<byte>)
    requires TakeCredential(b).Some?
    ensures GoodCredential(TakeCredential(b).value.1)
  {
    hide BeValue, Take, TakePrefixed;
    var b1 := TakePrefixed(b).value.1;
    var b2 := Take(b1, 3).value.1;
    var counter := Take(b2, 8).value.0;
    BeOfValue(counter);
    Pow256Values();
  }
}
