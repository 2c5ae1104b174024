/**
 The storage engine's in-memory index of credentials and the key-value backend behind it:
 after any run of operations, reopening the backend rebuilds the same index.
 */
module CredentialIndex {
  import opened Bytes
  import opened ByteOrder

  const LARGE_BLOBS_KEY: string := "sys:large_blobs"

  type Id = seq<byte>

  // The fields the engine itself looks at or changes; the rest travels as it is.
  datatype Credential = Credential(
    id: Id, privateKey: seq<byte>, signCount: nat, createdAt: nat,
    userName: Option<string>, displayName: Option<string>, rest: seq<byte>)

  datatype Stored = Stored(credential: Credential, encryptedPrivateKey: seq<byte>, nonce: seq<byte>)

  // The record format: all that matters is that decoding inverts encoding.
  datatype Codec = Codec(encode: Stored -> seq<byte>, decode: seq<byte> -> Option<Stored>)

  ghost predicate Lawful(codec: Codec) {
    forall s: Stored :: codec.decode(codec.encode(s)) == Some(s)
  }

  type Backend = map<string, seq<byte>>

  datatype EngineError = EncryptionFailed | NotFound | BackendFailed

  // ---------- Keys ----------

  function HexDigit(n: nat): char
    requires n < 16
  {
    "0123456789abcdef"[n]
  }

  function Hex(b: seq<byte>): string {
    if b == [] then "" else [HexDigit(b[0] as int / 16), HexDigit(b[0] as int % 16)] + Hex(b[1..])
  }

  function CredKey(id: Id): string {
    "cred:" + Hex(id)
  }

  lemma HexDigitInjective(m: nat, n: nat)
    requires m < 16 && n < 16 && HexDigit(m) == HexDigit(n)
    ensures m == n
  {
  }

  lemma {:induction false} HexInjective(a: Id, b: Id)
    requires Hex(a) == Hex(b)
    ensures a == b
    decreases |a|
  {
    if a == [] || b == [] {
      assert |Hex(a)| == 0;
    } else {
      var x, y := Hex(a), Hex(b);
      assert x[0] == y[0] && x[1] == y[1];
      HexDigitInjective(a[0] as int / 16, b[0] as int / 16);
      HexDigitInjective(a[0] as int % 16, b[0] as int % 16);
      assert x[2..] == Hex(a[1..]) && y[2..] == Hex(b[1..]);
      HexInjective(a[1..], b[1..]);
      assert a == [a[0]] + a[1..] && b == [b[0]] + b[1..];
    }
  }

  lemma CredKeyInjective(a: Id, b: Id)
    requires CredKey(a) == CredKey(b)
    ensures a == b
  {
    assert CredKey(a)[5..] == Hex(a) && CredKey(b)[5..] == Hex(b);
    HexInjective(a, b);
  }

  lemma CredKeyIsNotBlobs(id: Id)
    ensures CredKey(id) != LARGE_BLOBS_KEY
  {
    assert CredKey(id)[0] == 'c';
  }

  // ---------- Loading ----------

  function LoadOne(codec: Codec, b: Backend, key: string, index: map<Id, Stored>): map<Id, Stored> {
    if key == LARGE_BLOBS_KEY || key !in b then index
    else match codec.decode(b[key])
      case None => index
      case Some(s) => index[s.credential.id := s]
  }

  // The keys in the order the backend lists them.
  function Load(codec: Codec, b: Backend, keys: seq<string>): map<Id, Stored> {
    if keys == [] then map[] else LoadOne(codec, b, keys[|keys| - 1], Load(codec, b, keys[..|keys| - 1]))
  }

  // Every record sits under its own key, is indexed, and nothing else is.
  ghost predicate Agrees(codec: Codec, index: map<Id, Stored>, b: Backend) {
    && (forall id :: id in index ==>
          index[id].credential.id == id && CredKey(id) in b && codec.decode(b[CredKey(id)]) == Some(index[id]))
    && (forall key :: key in b && key != LARGE_BLOBS_KEY && codec.decode(b[key]).Some? ==>
          var id := codec.decode(b[key]).value.credential.id;
          id in index && key == CredKey(id))
  }

  // Every record sits under its own key.
  ghost predicate WellKeyed(codec: Codec, b: Backend) {
    forall key :: key in b && key != LARGE_BLOBS_KEY && codec.decode(b[key]).Some? ==>
      key == CredKey(codec.decode(b[key]).value.credential.id)
  }

  // Whatever the order of the keys, loading a backend whose records are under their own keys
  // gives the index that agrees with it ...
  lemma LoadAgrees(codec: Codec, b: Backend, keys: seq<string>)
    requires WellKeyed(codec, b) && forall k :: k in b <==> k in keys
    ensures Agrees(codec, Load(codec, b, keys), b)
  {
    hide CredKey, Load;
    LoadedPart(codec, b, keys);
  }

  // ... and that index is the only one.
  lemma LoadRebuilds(codec: Codec, index: map<Id, Stored>, b: Backend, keys: seq<string>)
    requires Agrees(codec, index, b) && forall k :: k in b <==> k in keys
    ensures Load(codec, b, keys) == index
  {
    hide CredKey, Load;
    LoadAgrees(codec, b, keys);
    var loaded := Load(codec, b, keys);
    forall id | id in loaded || id in index
      ensures id in loaded && id in index && loaded[id] == index[id]
    {
      CredKeyIsNotBlobs(id);
    }
  }

  // The records found under the keys so far, and only those.
  ghost predicate LoadedSoFar(codec: Codec, b: Backend, keys: seq<string>, loaded: map<Id, Stored>) {
    && (forall id :: id in loaded ==>
          loaded[id].credential.id == id && CredKey(id) in b && codec.decode(b[CredKey(id)]) == Some(loaded[id]))
    && (forall key :: key in keys && key in b && key != LARGE_BLOBS_KEY && codec.decode(b[key]).Some? ==>
          codec.decode(b[key]).value.credential.id in loaded)
  }

  lemma {:induction false} LoadedPart(codec: Codec, b: Backend, keys: seq<string>)
    requires WellKeyed(codec, b)
    ensures LoadedSoFar(codec, b, keys, Load(codec, b, keys))
    decreases |keys|
  {
    if keys != [] {
      var front, last := keys[..|keys| - 1], keys[|keys| - 1];
      LoadedPart(codec, b, front);
      OneMoreLoaded(codec, b, front, last, Load(codec, b, front));
      assert keys == front + [last];
      hide WellKeyed, LoadOne, LoadedSoFar;
    }
  }

  lemma OneMoreLoaded(codec: Codec, b: Backend, front: seq<string>, last: string, loaded: map<Id, Stored>)
    requires WellKeyed(codec, b) && LoadedSoFar(codec, b, front, loaded)
    ensures LoadedSoFar(codec, b, front + [last], LoadOne(codec, b, last, loaded))
  {
    hide CredKey;
  }

  // ---------- The oldest credential ----------

  // Least creation time; among those, the first in key order.
  predicate Before(index: map<Id, Stored>, a: Id, b: Id)
    requires a in index && b in index
  {
    var x, y := index[a].credential.createdAt, index[b].credential.createdAt;
    x < y || (x == y && LexLe(a, b))
  }

  ghost predicate IsOldest(index: map<Id, Stored>, ids: set<Id>, id: Id)
    requires ids <= index.Keys
  {
    id in ids && forall k :: k in ids ==> Before(index, id, k)
  }

  lemma {:induction false} OldestExists(index: map<Id, Stored>, ids: set<Id>)
    requires ids != {} && ids <= index.Keys
    ensures exists id :: IsOldest(index, ids, id)
    decreases |ids|
  {
    hide LexLe;
    var k :| k in ids;
    LexTotal(k, k);
    var others := ids - {k};
    if others == {} {
      assert ids == {k};
      assert IsOldest(index, ids, k);
    } else {
      OldestExists(index, others);
      var m :| IsOldest(index, others, m);
      LexTotal(k, m);
      var first := if Before(index, k, m) then k else m;
      forall x | x in ids
        ensures Before(index, first, x)
      {
        if x != k {
          assert x in others && Before(index, m, x);
          if LexLe(k, m) && LexLe(m, x) {
            LexTransitive(k, m, x);
          }
        }
      }
      assert IsOldest(index, ids, first);
    }
  }

  lemma OldestIsUnique(index: map<Id, Stored>, ids: set<Id>, a: Id, b: Id)
    requires ids <= index.Keys && IsOldest(index, ids, a) && IsOldest(index, ids, b)
    ensures a == b
  {
    hide LexLe;
    assert Before(index, a, b) && Before(index, b, a);
    LexAntisymmetric(a, b);
  }

  ghost function Oldest(index: map<Id, Stored>): (id: Id)
    requires |index| > 0
    ensures IsOldest(index, index.Keys, id)
  {
    OldestExists(index, index.Keys);
    var id :| IsOldest(index, index.Keys, id);
    id
  }

  // The scan in key order: what has been passed precedes what is left.
  ghost predicate Scanned(index: map<Id, Stored>, left: set<Id>, oldest: Option<Id>)
    requires left <= index.Keys
  {
    && (if oldest.None? then left == index.Keys else IsOldest(index, index.Keys - left, oldest.value))
    && (forall a, b :: a in index && a !in left && b in left ==> LexLe(a, b))
  }

  lemma ScanStep(index: map<Id, Stored>, left: set<Id>, oldest: Option<Id>, k: Id)
    requires left <= index.Keys && Scanned(index, left, oldest) && k in left && IsLeast(k, left)
    ensures Scanned(index, left - {k},
                    if oldest.None? || index[k].credential.createdAt < index[oldest.value].credential.createdAt
                    then Some(k) else oldest)
  {
    hide LexLe;
    LexTotal(k, k);
    assert index.Keys - (left - {k}) == index.Keys - left + {k};
  }

  // ---------- Operations ----------

  datatype Engine = Engine(index: map<Id, Stored>, kv: Backend, backend: Option<Backend>, max: Option<nat>)

  // How the backend, if there is one, answers during one operation: whether a deletion and a
  // write succeed, and which keys a wholesale clearing fails to delete.
  datatype Fate = Fate(deletes: bool, writes: bool, stuck: set<string>)

  function Written(b: Option<Backend>, key: string, value: seq<byte>, ok: bool): Option<Backend> {
    match b case None => None case Some(m) => if ok then Some(m[key := value]) else b
  }

  function Erased(b: Option<Backend>, key: string, ok: bool): Option<Backend> {
    match b case None => None case Some(m) => if ok then Some(m - {key}) else b
  }

  function LeftOver(b: Backend, stuck: set<string>): Backend {
    map key | key in b && key in stuck :: b[key]
  }

  datatype Op =
    | StoreKv(key: string, value: seq<byte>)
    | DeleteKv(key: string)
    | StoreCredential(c: Credential, encrypted: Option<seq<byte>>, nonce: seq<byte>)
    | UpdateSignCount(id: Id, signCount: nat)
    | UpdateUserInfo(id: Id, userName: Option<string>, displayName: Option<string>)
    | DeleteCredential(id: Id)
    | Clear
    | SetMax(n: nat)
    | Reopen(keys: seq<string>)

  predicate Fails(e: Engine, ok: bool) {
    e.backend.Some? && !ok
  }

  // A new record reaches the index only after the backend has it ...
  function Put(codec: Codec, e: Engine, s: Stored, ok: bool): Engine {
    if Fails(e, ok) then e else Replaced(codec, e, s, true)
  }

  // ... while a changed one is changed in the index first.
  function Replaced(codec: Codec, e: Engine, s: Stored, ok: bool): Engine {
    e.(index := e.index[s.credential.id := s],
       backend := Written(e.backend, CredKey(s.credential.id), codec.encode(s), ok))
  }

  function Remove(e: Engine, id: Id, ok: bool): Engine {
    if id in e.index then e.(index := e.index - {id}, backend := Erased(e.backend, CredKey(id), ok)) else e
  }

  predicate Full(e: Engine) {
    e.max.Some? && |e.index| >= e.max.value && |e.index| > 0
  }

  ghost function Pruned(e: Engine, ok: bool): Engine {
    if Full(e) then Remove(e, Oldest(e.index), ok) else e
  }

  function WithSignCount(s: Stored, n: nat): Stored {
    s.(credential := s.credential.(signCount := n))
  }

  function WithNames(s: Stored, userName: Option<string>, displayName: Option<string>): Stored {
    s.(credential := s.credential.(userName := userName, displayName := displayName))
  }

  ghost function Next(codec: Codec, e: Engine, op: Op, f: Fate): Engine {
    match op
    case StoreKv(key, value) =>
      if Fails(e, f.writes) then e else e.(kv := e.kv[key := value], backend := Written(e.backend, key, value, true))
    case DeleteKv(key) => e.(kv := e.kv - {key}, backend := Erased(e.backend, key, f.deletes))
    case StoreCredential(c, encrypted, nonce) =>
      if (Full(e) && Fails(e, f.deletes)) || encrypted.None? then Pruned(e, f.deletes)
      else Put(codec, Pruned(e, f.deletes), Stored(c.(privateKey := []), encrypted.value, nonce), f.writes)
    case UpdateSignCount(id, n) =>
      if id !in e.index then e else Replaced(codec, e, WithSignCount(e.index[id], n), f.writes)
    case UpdateUserInfo(id, name, display) =>
      if id !in e.index then e else Replaced(codec, e, WithNames(e.index[id], name, display), f.writes)
    case DeleteCredential(id) => Remove(e, id, f.deletes)
    case Clear =>
      e.(index := map[], kv := map[], backend := if e.backend.None? then None else Some(LeftOver(e.backend.value, f.stuck)))
    case SetMax(n) => e.(max := Some(n))
    case Reopen(keys) =>
      if e.backend.None? then e else e.(index := Load(codec, e.backend.value, keys), kv := map[], max := None)
  }

  // ---------- What a change of the index is, field by field ----------

  ghost predicate OthersKept(before: map<Id, Stored>, id: Id, after: map<Id, Stored>) {
    forall k :: k != id ==> (k in after <==> k in before) && (k in after ==> after[k] == before[k])
  }

  // The record has that count now; nothing else of it has changed, and no other record.
  ghost predicate CountSet(before: map<Id, Stored>, id: Id, n: nat, after: map<Id, Stored>) {
    && id in before && id in after && OthersKept(before, id, after)
    && after[id].credential.signCount == n
    && after[id] == before[id].(credential := before[id].credential.(signCount := after[id].credential.signCount))
  }

  ghost predicate NamesSet(before: map<Id, Stored>, id: Id, userName: Option<string>, displayName: Option<string>, after: map<Id, Stored>) {
    && id in before && id in after && OthersKept(before, id, after)
    && after[id].credential.userName == userName && after[id].credential.displayName == displayName
    && after[id] == before[id].(credential := before[id].credential.(
         userName := after[id].credential.userName, displayName := after[id].credential.displayName))
  }

  // The credential is there, without its private key and with what encrypts it; at most one
  // other has left, and those that stayed are as they were.
  ghost predicate Added(before: map<Id, Stored>, c: Credential, encrypted: seq<byte>, nonce: seq<byte>, after: map<Id, Stored>) {
    && c.id in after
    && after[c.id].credential.privateKey == [] && after[c.id].credential.(privateKey := c.privateKey) == c
    && after[c.id].encryptedPrivateKey == encrypted && after[c.id].nonce == nonce
    && (forall k :: k in after && k != c.id ==> k in before && after[k] == before[k])
    && (forall j, k :: j in before && k in before && j !in after && k !in after ==> j == k)
  }

  lemma FullOrNot(e: Engine, ok: bool)
    ensures !Full(e) ==> Pruned(e, ok) == e
    ensures Pruned(e, ok).max == e.max && Pruned(e, ok).kv == e.kv && Pruned(e, ok).backend.Some? == e.backend.Some?
  {
    hide Hex, LexLe, Before;
  }

  lemma PrunedIsSmaller(e: Engine, ok: bool)
    ensures forall k :: k in Pruned(e, ok).index ==> k in e.index && Pruned(e, ok).index[k] == e.index[k]
    ensures forall j, k :: j in e.index && k in e.index && j !in Pruned(e, ok).index && k !in Pruned(e, ok).index ==> j == k
  {
    hide Hex, LexLe, Before;
  }

  lemma OneMoreRecord(before: map<Id, Stored>, pruned: map<Id, Stored>, c: Credential, encrypted: seq<byte>, nonce: seq<byte>)
    requires forall k :: k in pruned ==> k in before && pruned[k] == before[k]
    requires forall j, k :: j in before && k in before && j !in pruned && k !in pruned ==> j == k
    ensures Added(before, c, encrypted, nonce, pruned[c.id := Stored(c.(privateKey := []), encrypted, nonce)])
  {
  }

  lemma StoredIsAdded(codec: Codec, e: Engine, c: Credential, encrypted: seq<byte>, nonce: seq<byte>, f: Fate)
    requires !(Full(e) && Fails(e, f.deletes)) && !Fails(e, f.writes)
    ensures Added(e.index, c, encrypted, nonce, Next(codec, e, StoreCredential(c, Some(encrypted), nonce), f).index)
  {
    hide CredKey, Pruned, Added;
    FullOrNot(e, f.deletes);
    PrunedIsSmaller(e, f.deletes);
    OneMoreRecord(e.index, Pruned(e, f.deletes).index, c, encrypted, nonce);
  }

  class StorageEngine {
    const codec: Codec
    var index: map<Id, Stored>
    var kv: Backend
    var backend: Option<Backend>
    var max: Option<nat>

    function Snapshot(): Engine
      reads this
    {
      Engine(index, kv, backend, max)
    }

    // Every indexed credential is indexed by its own identifier.
    ghost predicate Valid()
      reads this
    {
      forall id :: id in index ==> index[id].credential.id == id
    }

    // `with_backend`: loads every decodable record, in the order the keys are listed.
    constructor WithBackend(codec: Codec, contents: Backend, keys: seq<string>)
      requires forall k :: k in contents <==> k in keys
      ensures this.codec == codec && Valid()
      ensures Snapshot() == Engine(Load(codec, contents, keys), map[], Some(contents), None)
    {
      this.codec := codec;
      kv, backend, max, index := map[], Some(contents), None, map[];
      new;
      var i := 0;
      while i < |keys|
        invariant 0 <= i <= |keys| && Valid()
        invariant kv == map[] && backend == Some(contents) && max == None
        invariant index == Load(codec, contents, keys[..i])
      {
        assert keys[..i + 1][..i] == keys[..i];
        if keys[i] != LARGE_BLOBS_KEY {
          var found := codec.decode(contents[keys[i]]);
          if found.Some? {
            index := index[found.value.credential.id := found.value];
          }
        }
        i := i + 1;
      }
      assert keys[..|keys|] == keys;
    }

    method SetMaxCredentialCount(n: nat)
      requires Valid()
      modifies this`max
      ensures Valid() && Snapshot() == Next(codec, old(Snapshot()), SetMax(n), Fate(true, true, {}))
    {
      max := Some(n);
    }

    // What the backend has to say about a write or a deletion it is asked for.
    predicate Refuses(ok: bool)
      reads this
    {
      backend.Some? && !ok
    }

    method StoreValue(key: string, value: seq<byte>, f: Fate) returns (r: Result<(), EngineError>)
      requires Valid()
      modifies this
      ensures Valid() && r.Ok? == !Fails(old(Snapshot()), f.writes)
      ensures Snapshot() == Next(codec, old(Snapshot()), StoreKv(key, value), f)
      ensures r.Ok? ==> kv == old(kv)[key := value] && (backend.Some? ==> backend.value == old(backend).value[key := value])
      ensures r.Err? ==> Snapshot() == old(Snapshot())
    {
      if Refuses(f.writes) {
        return Err(BackendFailed);
      }
      if backend.Some? {
        backend := Some(backend.value[key := value]);
      }
      kv := kv[key := value];
      return Ok(());
    }

    // The backend is asked first, then the values stored in this session.
    method Retrieve(key: string) returns (r: Result<seq<byte>, EngineError>)
      ensures r == if backend.Some? && key in backend.value then Ok(backend.value[key])
                   else if key in kv then Ok(kv[key]) else Err(NotFound)
    {
      if backend.Some? && key in backend.value {
        return Ok(backend.value[key]);
      }
      return if key in kv then Ok(kv[key]) else Err(NotFound);
    }

    // A deletion the backend refuses is not reported.
    method DeleteValue(key: string, f: Fate)
      requires Valid()
      modifies this
      ensures Valid() && Snapshot() == Next(codec, old(Snapshot()), DeleteKv(key), f)
      ensures kv == old(kv) - {key} && index == old(index)
      ensures backend.Some? && f.deletes ==> backend.value == old(backend).value - {key}
    {
      if backend.Some? && f.deletes {
        backend := Some(backend.value - {key});
      }
      kv := kv - {key};
    }

    // The index forgets the credential before the backend is asked.
    method Delete(id: Id, f: Fate) returns (r: Result<bool, EngineError>)
      requires Valid()
      modifies this
      ensures Valid() && max == old(max)
      ensures r == if id !in old(index) then Ok(false) else if Fails(old(Snapshot()), f.deletes) then Err(BackendFailed) else Ok(true)
      ensures Snapshot() == Next(codec, old(Snapshot()), DeleteCredential(id), f)
      ensures id !in index && OthersKept(old(index), id, index)
    {
      hide Hex;
      if id !in index {
        return Ok(false);
      }
      index := index - {id};
      if Refuses(f.deletes) {
        return Err(BackendFailed);
      }
      if backend.Some? {
        backend := Some(backend.value - {CredKey(id)});
      }
      return Ok(true);
    }

    // Walks the credentials in key order and keeps the first of least creation time.
    method PruneOldest(f: Fate) returns (r: Result<(), EngineError>)
      requires Valid() && max.Some? && |index| >= max.value
      modifies this
      ensures Valid() && Snapshot() == Pruned(old(Snapshot()), f.deletes)
      ensures r.Ok? == !(Full(old(Snapshot())) && Fails(old(Snapshot()), f.deletes))
    {
      hide Hex, LexLe, Before;
      if |index| == 0 {
        return Ok(());
      }
      var left, oldest := index.Keys, None;
      while left != {}
        invariant left <= index.Keys && Valid() && Snapshot() == old(Snapshot())
        invariant Scanned(index, left, oldest)
        decreases |left|
      {
        LeastExists(left);
        var k :| k in left && IsLeast(k, left);
        ScanStep(index, left, oldest, k);
        if oldest.None? || index[k].credential.createdAt < index[oldest.value].credential.createdAt {
          oldest := Some(k);
        }
        left := left - {k};
      }
      assert index.Keys - left == index.Keys;
      OldestIsUnique(index, index.Keys, oldest.value, Oldest(index));
      var deleted := Delete(oldest.value, f);
      return if deleted.Err? then Err(deleted.error) else Ok(());
    }

    // The private key is encrypted by the caller-supplied engine; the record kept has none.
    method Store(c: Credential, encrypted: Option<seq<byte>>, nonce: seq<byte>, f: Fate) returns (r: Result<(), EngineError>)
      requires Valid()
      modifies this
      ensures Valid()
      ensures r.Ok? == (encrypted.Some? && !(Full(old(Snapshot())) && Fails(old(Snapshot()), f.deletes))
                        && !Fails(old(Snapshot()), f.writes))
      ensures Snapshot() == Next(codec, old(Snapshot()), StoreCredential(c, encrypted, nonce), f)
      ensures r.Ok? ==> Added(old(index), c, encrypted.value, nonce, index)
    {
      hide Hex, LexLe, Before, Pruned, CredKey, Added;
      FullOrNot(Snapshot(), f.deletes);
      if max.Some? && |index| >= max.value {
        var pruned := PruneOldest(f);
        if pruned.Err? {
          return pruned;
        }
      }
      if encrypted.None? {
        return Err(EncryptionFailed);
      }
      var stored := Stored(c.(privateKey := []), encrypted.value, nonce);
      if Refuses(f.writes) {
        return Err(BackendFailed);
      }
      if backend.Some? {
        backend := Some(backend.value[CredKey(stored.credential.id) := codec.encode(stored)]);
      }
      index := index[stored.credential.id := stored];
      StoredIsAdded(codec, old(Snapshot()), c, encrypted.value, nonce, f);
      return Ok(());
    }

    // Changes a record in the index, and then in the backend.
    method Replace(s: Stored, f: Fate) returns (r: Result<(), EngineError>)
      requires Valid()
      modifies this
      ensures Valid() && r.Ok? == !Fails(old(Snapshot()), f.writes)
      ensures Snapshot() == Replaced(codec, old(Snapshot()), s, f.writes)
    {
      hide Hex;
      index := index[s.credential.id := s];
      if Refuses(f.writes) {
        return Err(BackendFailed);
      }
      if backend.Some? {
        backend := Some(backend.value[CredKey(s.credential.id) := codec.encode(s)]);
      }
      return Ok(());
    }

    method SetSignCount(id: Id, signCount: nat, f: Fate) returns (r: Result<(), EngineError>)
      requires Valid()
      modifies this
      ensures Valid() && r.Ok? == (id in old(index) && !Fails(old(Snapshot()), f.writes))
      ensures Snapshot() == Next(codec, old(Snapshot()), UpdateSignCount(id, signCount), f)
      ensures if id in old(index) then CountSet(old(index), id, signCount, index) else index == old(index)
    {
      hide Hex;
      if id !in index {
        return Err(NotFound);
      }
      r := Replace(WithSignCount(index[id], signCount), f);
    }

    method SetUserInfo(id: Id, userName: Option<string>, displayName: Option<string>, f: Fate) returns (r: Result<bool, EngineError>)
      requires Valid()
      modifies this
      ensures Valid()
      ensures r == if id !in old(index) then Ok(false) else if Fails(old(Snapshot()), f.writes) then Err(BackendFailed) else Ok(true)
      ensures Snapshot() == Next(codec, old(Snapshot()), UpdateUserInfo(id, userName, displayName), f)
      ensures if id in old(index) then NamesSet(old(index), id, userName, displayName, index) else index == old(index)
    {
      hide Hex;
      if id !in index {
        return Ok(false);
      }
      var done := Replace(WithNames(index[id], userName, displayName), f);
      return if done.Ok? then Ok(true) else Err(BackendFailed);
    }

    // Deletes key after key; a key the backend refuses to delete stays, unreported.
    method ClearAll(f: Fate)
      modifies this
      ensures Valid() && Snapshot() == Next(codec, old(Snapshot()), Clear, f)
    {
      if backend.Some? {
        var keys := backend.value.Keys;
        ghost var was := backend.value;
        while keys != {}
          invariant backend.Some? && keys <= was.Keys
          invariant backend.value == map key | key in was && (key in keys || key in f.stuck) :: was[key]
          invariant index == old(index) && kv == old(kv) && max == old(max)
          decreases |keys|
        {
          var key :| key in keys;
          if key !in f.stuck {
            backend := Some(backend.value - {key});
          }
          keys := keys - {key};
        }
        assert backend.value == LeftOver(was, f.stuck);
      }
      index := map[];
      kv := map[];
    }
  }

  // ---------- Agreement over runs ----------

  // An operation on plain values keeps the agreement exactly when it stays clear of the
  // records: under a record's key only that record may be written, under any other key
  // nothing that reads as a record.
  lemma KvStoreAgreesIff(codec: Codec, index: map<Id, Stored>, b: Backend, key: string, value: seq<byte>)
    requires Agrees(codec, index, b)
    ensures Agrees(codec, index, b[key := value]) <==>
      (if exists id :: id in index && key == CredKey(id) then
         exists id :: id in index && key == CredKey(id) && codec.decode(value) == Some(index[id])
       else key == LARGE_BLOBS_KEY || codec.decode(value).None?)
  {
    hide Hex;
    var b' := b[key := value];
    if id :| id in index && key == CredKey(id) {
      CredKeyIsNotBlobs(id);
      forall id' | id' in index && CredKey(id') == key
        ensures id' == id
      {
        CredKeyInjective(id, id');
      }
      hide CredKey;
      if codec.decode(value) == Some(index[id]) {
        assert Agrees(codec, index, b');
      }
    } else {
      hide CredKey;
      assert key in b' && codec.decode(b'[key]) == codec.decode(value);
    }
  }

  // What operations are given: values under keys of their own that do not read as credential
  // records, a limit the index is within, and at a reopening the keys the backend has.
  ghost predicate OpOk(codec: Codec, e: Engine, op: Op) {
    match op
    case StoreKv(key, value) => !("cred:" <= key) && (key == LARGE_BLOBS_KEY || codec.decode(value).None?)
    case DeleteKv(key) => !("cred:" <= key)
    case SetMax(n) => |e.index| <= n
    case Reopen(keys) => e.backend.Some? ==> forall k :: (k in e.backend.value.Keys) == (k in keys)
    case _ => true
  }

  // Which failures of the backend part the index from it: an eviction or a deletion whose
  // record stays behind, a change of a record that reaches only the index, a record a clearing
  // leaves behind.  A failed write of a new record or of a value does not.
  ghost predicate Parts(codec: Codec, e: Engine, op: Op, f: Fate) {
    e.backend.Some? &&
    match op
    case StoreCredential(_, _, _) => Full(e) && !f.deletes
    case UpdateSignCount(id, n) => id in e.index && !f.writes && WithSignCount(e.index[id], n) != e.index[id]
    case UpdateUserInfo(id, name, display) => id in e.index && !f.writes && WithNames(e.index[id], name, display) != e.index[id]
    case DeleteCredential(id) => id in e.index && !f.deletes
    case Clear => exists key :: key in LeftOver(e.backend.value, f.stuck) && key != LARGE_BLOBS_KEY
                                && codec.decode(e.backend.value[key]).Some?
    case _ => false
  }

  // What holds of the engine alone, however the backend fares.
  ghost predicate Sound(codec: Codec, e: Engine) {
    && (e.backend.Some? ==> WellKeyed(codec, e.backend.value))
    && (forall id :: id in e.index ==> e.index[id].credential.id == id)
    && (e.max.Some? && e.max.value >= 1 ==> |e.index| <= e.max.value)
  }

  ghost predicate AgreesWithBackend(codec: Codec, e: Engine) {
    e.backend.Some? ==> Agrees(codec, e.index, e.backend.value)
  }

  // ---------- The two ways a record changes ----------

  lemma KeysApart(id: Id)
    ensures CredKey(id) != LARGE_BLOBS_KEY
    ensures forall other :: CredKey(other) == CredKey(id) ==> other == id
  {
    CredKeyIsNotBlobs(id);
    forall other | CredKey(other) == CredKey(id)
      ensures other == id
    {
      CredKeyInjective(other, id);
    }
  }

  lemma ReplacedAgreesIff(codec: Codec, e: Engine, s: Stored, ok: bool)
    requires Lawful(codec) && e.backend.Some? && Agrees(codec, e.index, e.backend.value)
    ensures var e' := Replaced(codec, e, s, ok);
      Agrees(codec, e'.index, e'.backend.value) <==> ok || (s.credential.id in e.index && e.index[s.credential.id] == s)
  {
    hide Hex;
    KeysApart(s.credential.id);
    hide CredKey;
    if !ok && s.credential.id in e.index && e.index[s.credential.id] == s {
      assert Replaced(codec, e, s, ok).index == e.index;
    }
  }

  lemma ReplacedIsWellKeyed(codec: Codec, e: Engine, s: Stored, ok: bool)
    requires Lawful(codec) && e.backend.Some? && WellKeyed(codec, e.backend.value)
    ensures WellKeyed(codec, Replaced(codec, e, s, ok).backend.value)
  {
    hide CredKey;
  }

  lemma RemoveAgreesIff(codec: Codec, e: Engine, id: Id, ok: bool)
    requires e.backend.Some? && Agrees(codec, e.index, e.backend.value)
    ensures var e' := Remove(e, id, ok);
      Agrees(codec, e'.index, e'.backend.value) <==> ok || id !in e.index
  {
    hide Hex;
    KeysApart(id);
    hide CredKey;
  }

  lemma RemoveIsWellKeyed(codec: Codec, e: Engine, id: Id, ok: bool)
    requires e.backend.Some? && WellKeyed(codec, e.backend.value)
    ensures WellKeyed(codec, Remove(e, id, ok).backend.value)
  {
    hide CredKey;
  }

  lemma OneMoreEntry(index: map<Id, Stored>, id: Id, s: Stored)
    ensures |index[id := s]| == |index| + (if id in index then 0 else 1)
    ensures |index - {id}| == |index| - (if id in index then 1 else 0)
  {
    assert index[id := s].Keys == index.Keys + {id};
    assert (index - {id}).Keys == index.Keys - {id};
    if id in index {
      assert index.Keys == (index.Keys - {id}) + {id};
    } else {
      assert index.Keys - {id} == index.Keys;
    }
  }

  // ---------- What every operation keeps ----------

  lemma ReplacedIsSound(codec: Codec, e: Engine, s: Stored, ok: bool)
    requires Lawful(codec) && Sound(codec, e)
    requires e.max.Some? && e.max.value >= 1 ==> |e.index| < e.max.value || s.credential.id in e.index
    ensures Sound(codec, Replaced(codec, e, s, ok))
  {
    hide CredKey, WellKeyed, Lawful;
    OneMoreEntry(e.index, s.credential.id, s);
    if e.backend.Some? {
      ReplacedIsWellKeyed(codec, e, s, ok);
    }
  }

  lemma RemoveIsSound(codec: Codec, e: Engine, id: Id, ok: bool)
    requires Sound(codec, e)
    ensures Sound(codec, Remove(e, id, ok))
    ensures |Remove(e, id, ok).index| == |e.index| - (if id in e.index then 1 else 0)
  {
    hide CredKey, WellKeyed;
    if id in e.index {
      OneMoreEntry(e.index, id, e.index[id]);
      if e.backend.Some? {
        RemoveIsWellKeyed(codec, e, id, ok);
      }
    }
  }

  lemma PrunedIsSound(codec: Codec, e: Engine, ok: bool)
    requires Sound(codec, e)
    ensures Sound(codec, Pruned(e, ok)) && Pruned(e, ok).max == e.max
    ensures |Pruned(e, ok).index| == |e.index| - (if Full(e) then 1 else 0)
  {
    hide Sound, LexLe, Before, Hex;
    if Full(e) {
      RemoveIsSound(codec, e, Oldest(e.index), ok);
    }
  }

  lemma StoreCredentialIsSound(codec: Codec, e: Engine, c: Credential, encrypted: Option<seq<byte>>, nonce: seq<byte>, f: Fate)
    requires Lawful(codec) && Sound(codec, e)
    ensures Sound(codec, Next(codec, e, StoreCredential(c, encrypted, nonce), f))
  {
    hide WellKeyed, Lawful, Pruned, Replaced;
    PrunedIsSound(codec, e, f.deletes);
    if encrypted.Some? {
      ReplacedIsSound(codec, Pruned(e, f.deletes), Stored(c.(privateKey := []), encrypted.value, nonce), true);
      hide Sound;
    }
  }

  lemma CredKeyPrefix(id: Id)
    ensures "cred:" <= CredKey(id)
  {
    hide Hex;
    assert CredKey(id)[..5] == "cred:";
  }

  // No record sits under a key without the prefix, so the index ignores what happens there.
  lemma OtherKeysAreFree(codec: Codec, index: map<Id, Stored>, b: Backend, key: string, value: seq<byte>)
    requires Agrees(codec, index, b) && !("cred:" <= key)
    ensures Agrees(codec, index, b - {key})
    ensures key == LARGE_BLOBS_KEY || codec.decode(value).None? ==> Agrees(codec, index, b[key := value])
  {
    forall id | id in index
      ensures CredKey(id) != key
    {
      CredKeyPrefix(id);
    }
    hide CredKey;
  }

  lemma OtherKeysStayWellKeyed(codec: Codec, b: Backend, key: string, value: seq<byte>, stuck: set<string>)
    requires WellKeyed(codec, b)
    ensures WellKeyed(codec, b - {key}) && WellKeyed(codec, LeftOver(b, stuck))
    ensures key == LARGE_BLOBS_KEY || codec.decode(value).None? ==> WellKeyed(codec, b[key := value])
  {
    hide CredKey;
  }

  lemma StepKeepsSound(codec: Codec, e: Engine, op: Op, f: Fate)
    requires Lawful(codec) && Sound(codec, e) && OpOk(codec, e, op)
    ensures Sound(codec, Next(codec, e, op, f))
  {
    hide Hex, Agrees, WellKeyed, Lawful, Load, Pruned, Replaced, Remove, Put, LeftOver;
    match op
    case StoreKv(key, value) =>
      if e.backend.Some? { OtherKeysStayWellKeyed(codec, e.backend.value, key, value, {}); }
    case DeleteKv(key) =>
      if e.backend.Some? { OtherKeysStayWellKeyed(codec, e.backend.value, key, [], {}); }
    case StoreCredential(c, encrypted, nonce) => StoreCredentialIsSound(codec, e, c, encrypted, nonce, f);
    case UpdateSignCount(id, n) =>
      if id in e.index { ReplacedIsSound(codec, e, WithSignCount(e.index[id], n), f.writes); }
    case UpdateUserInfo(id, name, display) =>
      if id in e.index { ReplacedIsSound(codec, e, WithNames(e.index[id], name, display), f.writes); }
    case DeleteCredential(id) => RemoveIsSound(codec, e, id, f.deletes);
    case Clear =>
      if e.backend.Some? { OtherKeysStayWellKeyed(codec, e.backend.value, "", [], f.stuck); }
    case SetMax(_) =>
    case Reopen(keys) =>
      if e.backend.Some? { LoadKeepsIds(codec, e.backend.value, keys); }
  }

  lemma LoadKeepsIds(codec: Codec, b: Backend, keys: seq<string>)
    requires WellKeyed(codec, b) && forall k :: (k in b.Keys) == (k in keys)
    ensures forall id :: id in Load(codec, b, keys) ==> Load(codec, b, keys)[id].credential.id == id
  {
    hide Load, CredKey;
    LoadAgrees(codec, b, keys);
  }

  // ---------- When index and backend part ----------

  lemma StoreCredentialAgreesIff(codec: Codec, e: Engine, op: Op, f: Fate)
    requires Lawful(codec) && op.StoreCredential? && e.backend.Some? && AgreesWithBackend(codec, e)
    ensures AgreesWithBackend(codec, Next(codec, e, op, f)) <==> !(Full(e) && !f.deletes)
  {
    hide Agrees, Lawful, LexLe, Before, Hex, Replaced, Remove, AgreesWithBackend;
    var pruned := Pruned(e, f.deletes);
    PrunedStep(codec, e, f.deletes);
    hide Pruned, Full;
    if op.encrypted.Some? && AgreesWithBackend(codec, pruned) {
      ReplacedStep(codec, pruned, Stored(op.c.(privateKey := []), op.encrypted.value, op.nonce), true);
    }
  }

  lemma PrunedStep(codec: Codec, e: Engine, ok: bool)
    requires e.backend.Some? && AgreesWithBackend(codec, e)
    ensures Pruned(e, ok).backend.Some?
    ensures AgreesWithBackend(codec, Pruned(e, ok)) <==> !(Full(e) && !ok)
  {
    hide Agrees, LexLe, Before, Hex, Remove, AgreesWithBackend;
    if Full(e) {
      RemoveStep(codec, e, Oldest(e.index), ok);
    }
  }

  lemma ClearAgreesIff(codec: Codec, b: Backend)
    ensures Agrees(codec, map[], b) <==>
      !(exists key :: key in b && key != LARGE_BLOBS_KEY && codec.decode(b[key]).Some?)
  {
    hide CredKey;
  }

  // From an index that agrees with its backend, one operation keeps the agreement exactly when
  // it is not one of the failures listed.  A reopening restores it from anywhere.
  lemma StepAgreesIff(codec: Codec, e: Engine, op: Op, f: Fate)
    requires Lawful(codec) && Sound(codec, e) && OpOk(codec, e, op)
    ensures AgreesWithBackend(codec, e) ==> (AgreesWithBackend(codec, Next(codec, e, op, f)) <==> !Parts(codec, e, op, f))
    ensures op.Reopen? ==> AgreesWithBackend(codec, Next(codec, e, op, f))
  {
    hide Hex, Agrees, Lawful, Load, Pruned, Replaced, Remove, Put, LeftOver, WellKeyed;
    if e.backend.Some? {
      var b := e.backend.value;
      if op.Reopen? {
        LoadAgrees(codec, b, op.keys);
      } else if AgreesWithBackend(codec, e) {
        match op
        case StoreKv(key, value) => OtherKeysAreFree(codec, e.index, b, key, value);
        case DeleteKv(key) => OtherKeysAreFree(codec, e.index, b, key, []);
        case StoreCredential(_, _, _) => StoreCredentialAgreesIff(codec, e, op, f);
        case UpdateSignCount(id, n) =>
          if id in e.index { ReplacedStep(codec, e, WithSignCount(e.index[id], n), f.writes); }
        case UpdateUserInfo(id, name, display) =>
          if id in e.index { ReplacedStep(codec, e, WithNames(e.index[id], name, display), f.writes); }
        case DeleteCredential(id) => RemoveStep(codec, e, id, f.deletes);
        case Clear => ClearStep(codec, e, f);
        case SetMax(_) =>
      }
    } else {
      NoBackendStays(codec, e, op, f);
    }
  }

  lemma NoBackendStays(codec: Codec, e: Engine, op: Op, f: Fate)
    requires e.backend.None?
    ensures Next(codec, e, op, f).backend.None?
  {
    hide Hex, LexLe, Before, Load;
  }

  lemma ReplacedStep(codec: Codec, e: Engine, s: Stored, ok: bool)
    requires Lawful(codec) && e.backend.Some? && AgreesWithBackend(codec, e)
    ensures Replaced(codec, e, s, ok).backend.Some?
    ensures AgreesWithBackend(codec, Replaced(codec, e, s, ok)) <==> ok || (s.credential.id in e.index && e.index[s.credential.id] == s)
  {
    hide Agrees, Hex, Lawful;
    ReplacedAgreesIff(codec, e, s, ok);
  }

  lemma RemoveStep(codec: Codec, e: Engine, id: Id, ok: bool)
    requires e.backend.Some? && AgreesWithBackend(codec, e)
    ensures Remove(e, id, ok).backend.Some?
    ensures AgreesWithBackend(codec, Remove(e, id, ok)) <==> ok || id !in e.index
  {
    hide Agrees, Hex;
    RemoveAgreesIff(codec, e, id, ok);
  }

  lemma ClearStep(codec: Codec, e: Engine, f: Fate)
    requires e.backend.Some?
    ensures AgreesWithBackend(codec, Next(codec, e, Clear, f)) <==> !Parts(codec, e, Clear, f)
  {
    hide Agrees, Hex;
    ClearAgreesIff(codec, LeftOver(e.backend.value, f.stuck));
  }

  // ---------- Runs ----------

  // The engine, and whether the backend failed, since the last opening, in a way that parts
  // the index from it.
  datatype Trace = Trace(engine: Engine, parted: bool)

  ghost function Run(codec: Codec, t: Trace, events: seq<(Op, Fate)>): Trace {
    if events == [] then t
    else
      var before, (op, f) := Run(codec, t, events[..|events| - 1]), events[|events| - 1];
      Trace(Next(codec, before.engine, op, f), !op.Reopen? && (before.parted || Parts(codec, before.engine, op, f)))
  }

  ghost predicate RunOk(codec: Codec, t: Trace, events: seq<(Op, Fate)>) {
    forall i :: 0 <= i < |events| ==> OpOk(codec, Run(codec, t, events[..i]).engine, events[i].0)
  }

  // After any run of operations and reopenings, whatever the backend refuses: the index is
  // within its limit, every record is under its own key, and reopening gives an index that
  // agrees with the backend.  That index is exactly the one in memory - whatever the order in
  // which the backend lists its keys - unless the backend failed, since the last opening, in a
  // way that parts them.
  lemma {:induction false} IndexAgreesAfterAnyRun(codec: Codec, t: Trace, events: seq<(Op, Fate)>, keys: seq<string>)
    requires Lawful(codec) && Sound(codec, t.engine) && RunOk(codec, t, events)
    requires !t.parted ==> AgreesWithBackend(codec, t.engine)
    ensures var now := Run(codec, t, events);
      && Sound(codec, now.engine)
      && (!now.parted ==> AgreesWithBackend(codec, now.engine))
      && (now.engine.backend.Some? && OpOk(codec, now.engine, Reopen(keys)) ==>
            var loaded := Load(codec, now.engine.backend.value, keys);
            && Agrees(codec, loaded, now.engine.backend.value)
            && (!now.parted ==> loaded == now.engine.index))
    decreases |events|
  {
    hide Next, Agrees, Load, Lawful, Parts, Hex, WellKeyed;
    if events != [] {
      var n := |events| - 1;
      forall i | 0 <= i < n
        ensures events[..n][..i] == events[..i] && events[..n][i] == events[i]
      {
      }
      IndexAgreesAfterAnyRun(codec, t, events[..n], keys);
      var before := Run(codec, t, events[..n]);
      StepKeepsSound(codec, before.engine, events[n].0, events[n].1);
      StepAgreesIff(codec, before.engine, events[n].0, events[n].1);
    }
    ReopeningAgrees(codec, Run(codec, t, events), keys);
  }

  lemma ReopeningAgrees(codec: Codec, t: Trace, keys: seq<string>)
    requires Sound(codec, t.engine) && (!t.parted ==> AgreesWithBackend(codec, t.engine))
    ensures t.engine.backend.Some? && OpOk(codec, t.engine, Reopen(keys)) ==>
      var loaded := Load(codec, t.engine.backend.value, keys);
      && Agrees(codec, loaded, t.engine.backend.value)
      && (!t.parted ==> loaded == t.engine.index)
  {
    hide Agrees, Load, WellKeyed;
    if t.engine.backend.Some? && OpOk(codec, t.engine, Reopen(keys)) {
      LoadAgrees(codec, t.engine.backend.value, keys);
      if !t.parted {
        LoadRebuilds(codec, t.engine.index, t.engine.backend.value, keys);
      }
    }
  }

  // An eviction takes a credential of least creation time, and only that one.
  lemma EvictionTakesOldest(e: Engine, ok: bool)
    requires Full(e)
    ensures var gone := e.index.Keys - Pruned(e, ok).index.Keys;
      && |gone| == 1 && gone <= e.index.Keys
      && (forall g, k :: g in gone && k in e.index ==> e.index[g].credential.createdAt <= e.index[k].credential.createdAt)
      && (forall k :: k in Pruned(e, ok).index ==> k in e.index && Pruned(e, ok).index[k] == e.index[k])
  {
    hide LexLe, Hex;
    var id := Oldest(e.index);
    assert e.index.Keys - (e.index - {id}).Keys == {id};
    assert forall k :: k in e.index ==> Before(e.index, id, k);
  }

  // Storing keeps the index within its limit exactly when the limit is not zero (or the
  // backend refuses the record): with a limit of zero there is nothing to evict, and the first
  // credential is stored all the same.
  lemma LimitKeptIff(codec: Codec, e: Engine, c: Credential, encrypted: seq<byte>, nonce: seq<byte>, f: Fate)
    requires e.max.Some? && |e.index| <= e.max.value
    ensures |Next(codec, e, StoreCredential(c, Some(encrypted), nonce), f).index| <= e.max.value <==>
            e.max.value >= 1 || Fails(e, f.writes)
  {
    hide CredKey, Pruned;
    PrunedSize(e, f.deletes);
    OneMoreEntry(Pruned(e, f.deletes).index, c.id, Stored(c.(privateKey := []), encrypted, nonce));
  }

  lemma PrunedSize(e: Engine, ok: bool)
    ensures |Pruned(e, ok).index| == |e.index| - (if Full(e) then 1 else 0)
    ensures Pruned(e, ok).backend.Some? == e.backend.Some?
  {
    hide Hex, LexLe, Before;
    if Full(e) {
      OneMoreEntry(e.index, Oldest(e.index), e.index[Oldest(e.index)]);
    }
  }

  // ---------- What a reopening finds ----------

  // After an operation the backend carried through, a reopening finds the index as it is.
  lemma ReopeningFinds(codec: Codec, e: Engine, op: Op, f: Fate, keys: seq<string>)
    requires Lawful(codec) && Sound(codec, e) && AgreesWithBackend(codec, e) && e.backend.Some?
    requires OpOk(codec, e, op) && !op.Reopen? && !Parts(codec, e, op, f)
    ensures var after := Next(codec, e, op, f);
      after.backend.Some? && OpOk(codec, after, Reopen(keys)) ==> Load(codec, after.backend.value, keys) == after.index
  {
    hide Next, Agrees, Load, Lawful, Parts, Sound;
    StepAgreesIff(codec, e, op, f);
    var after := Next(codec, e, op, f);
    if after.backend.Some? && OpOk(codec, after, Reopen(keys)) {
      LoadRebuilds(codec, after.index, after.backend.value, keys);
    }
  }

  // So the count last set, and the names last set, survive a reopening; so does a credential
  // stored, and one deleted stays away.
  lemma ReopenedRecord(codec: Codec, e: Engine, op: Op, keys: seq<string>)
    requires Lawful(codec) && Sound(codec, e) && AgreesWithBackend(codec, e) && e.backend.Some?
    requires op.UpdateSignCount? || op.UpdateUserInfo? || op.DeleteCredential? ==> op.id in e.index
    requires op.UpdateSignCount? || op.UpdateUserInfo? || op.DeleteCredential? || (op.StoreCredential? && op.encrypted.Some?)
    ensures var after := Next(codec, e, op, Fate(true, true, {}));
      after.backend.Some? && (OpOk(codec, after, Reopen(keys)) ==>
        var found := Load(codec, after.backend.value, keys);
        match op
        case UpdateSignCount(id, n) => CountSet(e.index, id, n, found)
        case UpdateUserInfo(id, userName, displayName) => NamesSet(e.index, id, userName, displayName, found)
        case StoreCredential(c, encrypted, nonce) => Added(e.index, c, encrypted.value, nonce, found)
        case DeleteCredential(id) => id !in found && OthersKept(e.index, id, found)
        case _ => true)
  {
    var f := Fate(true, true, {});
    ReopeningFinds(codec, e, op, f, keys);
    RecordChanges(codec, e, op);
    hide Next, Load, Agrees, Lawful, CountSet, NamesSet, Added, OthersKept, WellKeyed, OpOk;
  }

  lemma RecordChanges(codec: Codec, e: Engine, op: Op)
    requires forall id :: id in e.index ==> e.index[id].credential.id == id
    requires op.UpdateSignCount? || op.UpdateUserInfo? || op.DeleteCredential? ==> op.id in e.index
    ensures var after := Next(codec, e, op, Fate(true, true, {}));
      && after.backend.Some? == e.backend.Some?
      && match op
         case UpdateSignCount(id, n) => CountSet(e.index, id, n, after.index)
         case UpdateUserInfo(id, userName, displayName) => NamesSet(e.index, id, userName, displayName, after.index)
         case StoreCredential(c, encrypted, nonce) => encrypted.Some? ==> Added(e.index, c, encrypted.value, nonce, after.index)
         case DeleteCredential(id) => id !in after.index && OthersKept(e.index, id, after.index)
         case _ => true
  {
    hide CredKey, Pruned, Load, Added;
    FullOrNot(e, true);
    if op.StoreCredential? && op.encrypted.Some? {
      StoredIsAdded(codec, e, op.c, op.encrypted.value, op.nonce, Fate(true, true, {}));
    }
  }
}
