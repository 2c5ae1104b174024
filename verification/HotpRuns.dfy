/**
 HOTP codes are never reused: the OATH applet running on the two-slot flash store, through
 any run of commands, failed writes, power cuts and restarts.
 */
module HotpRuns {
  import opened Bytes
  import opened FlashStore
  import opened FlashCommit
  import opened FlashBackend
  import opened FlashRuns
  import opened OathCodec
  import opened OathPlans
  import opened OathApplet
  import opened Apdu
  import S = OathSessions
  import A = OathAnswers
  import R = CardRouter

  // The device, and what the codes of the credential followed are computed with.
  datatype Setup = Setup(codec: Codec, crypto: Crypto, size: nat, key: A.Key)

  ghost predicate LawfulSetup(u: Setup) {
    Lawful(u.codec) && LawfulCrypto(u.crypto)
  }

  // The device: what is on flash and in the store's memory, and the applet's memory.
  datatype World = World(store: Store, memory: Memory)

  // What becomes of a write: it completes (or does not fit), the device fails after that many
  // steps with power still on, or power is cut after that many steps and the device boots.
  datatype Fate = Completes | Fails(steps: nat) | CutAt(steps: nat)

  datatype WorldEvent =
    | Issue(c: Command, chance: Chance, fate: Fate)   // an OATH command
    | Selected(chance: Chance, fate: Fate)            // the applet is selected
    | Foreign(op: Op, fate: Fate)                     // another user of the store writes another key
    | PowerCycle

  // ---------- The run ----------

  function OpKey(op: Op): string {
    op.key
  }

  function Boot(u: Setup, store: Store): Option<World> {
    var blob := if STORAGE_KEY in store.ram.cache then Some(store.ram.cache[STORAGE_KEY]) else None;
    match Loaded(u.crypto, blob)
    case None => None
    case Some(state) => Some(World(store, Memory(state, false, None)))
  }

  function Reboot(u: Setup, flash: seq<byte>): Option<World>
    requires HEADER_SIZE < u.size && 2 * u.size <= |flash|
  {
    match Reopen(u.codec, u.size, flash)
    case Err(_) => None
    case Ok(store) => Boot(u, store)
  }

  // One write to the store, with the applet's memory after its success and after its failure.
  function Attempt(u: Setup, w: World, op: Op, fate: Fate, onSuccess: Memory, onFailure: Memory): Option<World>
    requires Shaped(u.size, w.store)
  {
    match fate
    case Completes =>
      if Fits(u.codec, u.size, Effect(w.store.ram.cache, op)) then
        Some(World(Next(u.codec, u.size, w.store, Do(op)).value, onSuccess))
      else Some(World(w.store, onFailure))
    case Fails(n) => Some(World(Store(Interrupted(u.codec, u.size, w.store, op, n), w.store.ram), onFailure))
    case CutAt(n) => Reboot(u, Interrupted(u.codec, u.size, w.store, op, n))
  }

  ghost function PlanOf(u: Setup, m: Memory, e: WorldEvent): Plan
    requires e.Issue? || e.Selected?
  {
    match e
    case Issue(c, chance, _) => ProcessPlan(u.crypto, m, c, chance)
    case Selected(chance, _) => SelectPlan(m, chance)
  }

  ghost function PlanOp(u: Setup, plan: Plan, nonce: seq<byte>): Op {
    Write(STORAGE_KEY, Blob(u.crypto, plan.memory.state, nonce))
  }

  ghost function WorldStep(u: Setup, w: World, e: WorldEvent): Option<World>
    requires Shaped(u.size, w.store)
  {
    match e
    case Foreign(op, fate) => Attempt(u, w, op, fate, w.memory, w.memory)
    case PowerCycle => Reboot(u, w.store.flash)
    case _ =>
      var plan := PlanOf(u, w.memory, e);
      if plan.Reply? then Some(World(w.store, plan.memory))
      else Attempt(u, w, PlanOp(u, plan, e.chance.nonce), e.fate, plan.memory, plan.onFailure)
  }

  // ---------- Revealed counters ----------

  // The name and counter of the HOTP code a command would answer with.
  ghost function CodeFor(u: Setup, m: Memory, c: Command): Option<(Name, nat)> {
    if c.cla != 0 || c.ins != INS_CALCULATE || Locked(m) || !CalculatePlan(u.crypto, m, c.p2, c.data).Commit? then None
    else
      var (name, challenge) := CalculateRequest(c.p2, c.data).value;
      Some((name, FactorOf(m.state.credentials[name], challenge).used))
  }

  // The counter an event reveals of a credential: only once its write has completed.
  ghost function Revealed(u: Setup, w: World, e: WorldEvent, name: Name): Option<nat> {
    if e.Issue? && e.fate == Completes && CodeFor(u, w.memory, e.c).Some? && CodeFor(u, w.memory, e.c).value.0 == name
       && Fits(u.codec, u.size, Effect(w.store.ram.cache, PlanOp(u, PlanOf(u, w.memory, e), e.chance.nonce)))
    then Some(CodeFor(u, w.memory, e.c).value.1)
    else None
  }

  // ---------- Following one credential through renames ----------

  // Its name in memory, in the stored state, and in a state that may yet surface.
  datatype Names = Names(ram: Name, stored: Name, doubt: Name)

  ghost function RenamedTo(m: Memory, c: Command, name: Name): Name {
    if c.cla == 0 && c.ins == INS_RENAME && !Locked(m) && RenamePlan(m, c.data).Commit?
       && RenameRequest(c.data).value.0 == name
    then RenameRequest(c.data).value.1 else name
  }

  ghost function DoubtOf(u: Setup, store: Store, flash: seq<byte>): Option<Contents>
    requires Shaped(u.size, store) && |flash| == |store.flash|
  {
    Doubt(u.codec, flash, u.size, store.ram)
  }

  ghost function AttemptNames(u: Setup, w: World, names: Names, op: Op, fate: Fate, ram: Name, written: Name): Names
    requires Shaped(u.size, w.store)
  {
    match fate
    case Completes =>
      if Fits(u.codec, u.size, Effect(w.store.ram.cache, op)) then Names(ram, written, written)
      else names.(ram := ram)
    case Fails(n) =>
      var touched := n > 0 && Fits(u.codec, u.size, Effect(w.store.ram.cache, op));
      Names(ram, names.stored, if touched then written else names.doubt)
    case CutAt(n) =>
      var touched := n > 0 && Fits(u.codec, u.size, Effect(w.store.ram.cache, op));
      var doubt := DoubtOf(u, w.store, Interrupted(u.codec, u.size, w.store, op, n));
      var now := if doubt.None? then names.stored else if touched then written else names.doubt;
      Names(now, now, now)
  }

  ghost function NamesAfter(u: Setup, w: World, names: Names, e: WorldEvent): Names
    requires Shaped(u.size, w.store)
  {
    match e
    case Foreign(op, fate) => AttemptNames(u, w, names, op, fate, names.ram, names.stored)
    case PowerCycle =>
      var now := if DoubtOf(u, w.store, w.store.flash).None? then names.stored else names.doubt;
      Names(now, now, now)
    case _ =>
      var plan := PlanOf(u, w.memory, e);
      if plan.Reply? then names
      else
        var ram := if e.Issue? then RenamedTo(w.memory, e.c, names.ram) else names.ram;
        AttemptNames(u, w, names, PlanOp(u, plan, e.chance.nonce), e.fate, ram, ram)
  }

  // ---------- What is kept ----------

  // The credential is there, computes its codes as it always did, and its counter is past
  // every counter revealed.
  ghost predicate Guard(key: A.Key, creds: map<Name, Credential>, name: Name, high: int) {
    name in creds && creds[name].oathType == Hotp && A.KeyOf(creds[name]) == key && high < creds[name].counter
  }

  ghost predicate Holds(u: Setup, cache: Contents, name: Name, high: int) {
    && STORAGE_KEY in cache
    && (var loaded := Loaded(u.crypto, Some(cache[STORAGE_KEY]));
        loaded.Some? && Guard(u.key, loaded.value.credentials, name, high) && Good(Memory(loaded.value, false, None)))
  }

  ghost predicate Safe(u: Setup, w: World, names: Names, high: int) {
    && Synced(u.codec, w.store.flash, u.size, w.store.ram)
    && Good(w.memory)
    && Guard(u.key, w.memory.state.credentials, names.ram, high)
    && Holds(u, w.store.ram.cache, names.stored, high)
    && (var doubt := Doubt(u.codec, w.store.flash, u.size, w.store.ram);
        doubt.Some? ==> Holds(u, doubt.value, names.doubt, high))
  }

  lemma HoldsLower(u: Setup, cache: Contents, name: Name, high: int, low: int)
    requires Holds(u, cache, name, high) && low <= high
    ensures Holds(u, cache, name, low)
  {
    hide Loaded, Good;
  }

  // ---------- One write ----------

  predicate FateSeparates(u: Setup, w: World, op: Op, fate: Fate) {
    match fate
    case Completes => true
    case Fails(n) => OpSeparates(u.codec, Effect(w.store.ram.cache, op), n)
    case CutAt(n) => OpSeparates(u.codec, Effect(w.store.ram.cache, op), n)
  }

  lemma RebootIsSafe(u: Setup, store: Store, names: Names, high: int)
    requires Synced(u.codec, store.flash, u.size, store.ram) && store.ram.generation + 1 < U64
    requires Holds(u, store.ram.cache, names.stored, high)
    requires var doubt := Doubt(u.codec, store.flash, u.size, store.ram);
      doubt.Some? ==> Holds(u, doubt.value, names.doubt, high)
    ensures Shaped(u.size, store)
    ensures var now := if Doubt(u.codec, store.flash, u.size, store.ram).None? then names.stored else names.doubt;
      var w := Reboot(u, store.flash);
      w.Some? && Safe(u, w.value, Names(now, now, now), high) && w.value.store.ram.generation <= store.ram.generation + 1
  {
    hide Loaded, Good;
    SyncedShape(u, store);
    hide Synced, Doubt;
    OpenSynced(u.codec, store.flash, u.size, store.ram);
  }

  lemma SyncedShape(u: Setup, store: Store)
    requires Synced(u.codec, store.flash, u.size, store.ram)
    ensures Shaped(u.size, store)
  {
    hide ReadSlot, Slot;
  }

  // A write that leaves the credential guarded in memory and in what it stores keeps the
  // device safe, whatever its fate; the higher bound holds once it completed.
  lemma AttemptIsSafe(
      u: Setup, w: World, names: Names, high: int, op: Op, fate: Fate,
      onSuccess: Memory, onFailure: Memory, ram: Name, written: Name, higher: int)
    requires LawfulSetup(u) && Safe(u, w, names, high) && w.store.ram.generation + 1 < U64
    requires FateSeparates(u, w, op, fate) && high <= higher
    requires Good(onSuccess) && Guard(u.key, onSuccess.state.credentials, ram, higher)
    requires Good(onFailure) && Guard(u.key, onFailure.state.credentials, ram, high)
    requires Holds(u, Effect(w.store.ram.cache, op), written, higher)
    ensures Shaped(u.size, w.store)
    ensures var w' := Attempt(u, w, op, fate, onSuccess, onFailure);
      var done := fate == Completes && Fits(u.codec, u.size, Effect(w.store.ram.cache, op));
      && w'.Some? && w'.value.store.ram.generation <= w.store.ram.generation + 1
      && Safe(u, w'.value, AttemptNames(u, w, names, op, fate, ram, written), if done then higher else high)
  {
    hide Loaded, Good, Guard, Holds, Effect, Separates, Interrupted, Completed, Reboot;
    SyncedShape(u, w.store);
    hide Synced, Doubt;
    hide Next;
    HoldsLower(u, Effect(w.store.ram.cache, op), written, higher, high);
    match fate
    case Completes =>
      if Fits(u.codec, u.size, Effect(w.store.ram.cache, op)) {
        CompletionIsSafe(u, w, names, high, op, onSuccess, ram, written, higher);
      }
    case Fails(n) =>
      hide Fits;
      InterruptedSyncs(u.codec, u.size, w.store, op, n);
    case CutAt(n) =>
      CutIsSafe(u, w, names, high, op, n, written);
  }

  lemma CompletionIsSafe(
      u: Setup, w: World, names: Names, high: int, op: Op, onSuccess: Memory, ram: Name, written: Name, higher: int)
    requires LawfulSetup(u) && Safe(u, w, names, high) && w.store.ram.generation + 1 < U64 && Shaped(u.size, w.store)
    requires Good(onSuccess) && Guard(u.key, onSuccess.state.credentials, ram, higher)
    requires Fits(u.codec, u.size, Effect(w.store.ram.cache, op)) && Holds(u, Effect(w.store.ram.cache, op), written, higher)
    ensures var next := Next(u.codec, u.size, w.store, Do(op));
      && next.Ok? && next.value.ram.generation <= w.store.ram.generation + 1
      && Safe(u, World(next.value, onSuccess), Names(ram, written, written), higher)
  {
    hide Loaded, Good, Guard, Holds, Effect, Separates, Interrupted, Completed, Synced, Doubt;
    CompletedSyncs(u.codec, u.size, w.store, Effect(w.store.ram.cache, op));
  }

  lemma CutIsSafe(u: Setup, w: World, names: Names, high: int, op: Op, n: nat, written: Name)
    requires LawfulSetup(u) && Safe(u, w, names, high) && w.store.ram.generation + 1 < U64
    requires OpSeparates(u.codec, Effect(w.store.ram.cache, op), n) && Holds(u, Effect(w.store.ram.cache, op), written, high)
    ensures Shaped(u.size, w.store)
    ensures var flash := Interrupted(u.codec, u.size, w.store, op, n);
      var touched := n > 0 && Fits(u.codec, u.size, Effect(w.store.ram.cache, op));
      var doubt := DoubtOf(u, w.store, flash);
      var now := if doubt.None? then names.stored else if touched then written else names.doubt;
      var w' := Reboot(u, flash);
      && w'.Some? && w'.value.store.ram.generation <= w.store.ram.generation + 1
      && Safe(u, w'.value, Names(now, now, now), high)
  {
    hide Loaded, Good, Guard, Holds, Effect, Separates, Interrupted, Reboot;
    SyncedShape(u, w.store);
    hide Synced, Doubt;
    InterruptedSyncs(u.codec, u.size, w.store, op, n);
    var flash := Interrupted(u.codec, u.size, w.store, op, n);
    var touched := n > 0 && Fits(u.codec, u.size, Effect(w.store.ram.cache, op));
    RebootIsSafe(u, Store(flash, w.store.ram), names.(doubt := if touched then written else names.doubt), high);
  }

  // ---------- One command ----------

  // The command neither replaces nor removes the credential followed.
  ghost predicate Spares(c: Command, name: Name) {
    && !(c.ins == INS_RESET && c.p1 == 0xDE && c.p2 == 0xAD)
    && (c.ins == INS_PUT && PutRequest(c.data).Some? ==> PutRequest(c.data).value.0 != name)
    && (c.ins == INS_DELETE && TagsOf(c.data, [TAG_NAME], []).Some? ==> TagsOf(c.data, [TAG_NAME], []).value[0] != Some(name))
  }

  ghost predicate GuardedPlan(u: Setup, plan: Plan, name: Name, higher: int, high: int) {
    && Guard(u.key, plan.memory.state.credentials, name, higher)
    && (plan.Commit? ==> Guard(u.key, plan.onFailure.state.credentials, name, high))
  }

  lemma CalculateGuards(u: Setup, m: Memory, c: Command, name: Name, high: int)
    requires Good(m) && Guard(u.key, m.state.credentials, name, high)
    requires c.cla == 0 && c.ins == INS_CALCULATE && !Locked(m)
    ensures var code := CodeFor(u, m, c);
      var higher := if code.Some? && code.value.0 == name then code.value.1 else high;
      && (code.Some? && code.value.0 == name ==> high < code.value.1)
      && (higher < U64 - 1 ==> GuardedPlan(u, CalculatePlan(u.crypto, m, c.p2, c.data), name, higher, high))
  {
    hide CalculateRequest, CodeEntry, GoodName;
    var request := CalculateRequest(c.p2, c.data);
    if request.Some? && request.value.0 in m.state.credentials {
      S.FactorInRange(m.state.credentials[request.value.0], request.value.1);
    }
    hide FactorOf;
  }

  lemma CommandGuards(u: Setup, m: Memory, c: Command, chance: Chance, name: Name, high: int)
    requires Good(m) && Guard(u.key, m.state.credentials, name, high) && Spares(c, name)
    ensures var code := CodeFor(u, m, c);
      var higher := if code.Some? && code.value.0 == name then code.value.1 else high;
      var plan := ProcessPlan(u.crypto, m, c, chance);
      && (code.Some? && code.value.0 == name ==> high < higher)
      && (code.Some? ==> plan.Commit?)
      && (plan.Reply? ==> plan.memory.state == m.state)
      && (higher < U64 - 1 ==> GuardedPlan(u, plan, if plan.Reply? then name else RenamedTo(m, c, name), higher, high))
  {
    hide CalculateRequest, CodeEntry, GoodName, FactorOf, TagsOf, PutRequest, RenameRequest, AllCodes, ListBody, Good, CalculatePlan;
    if c.cla == 0 && c.ins == INS_CALCULATE {
      if !Locked(m) {
        CalculateGuards(u, m, c, name, high);
      }
    } else if c.cla == 0 {
      DispatchGuards(u, m, c, chance, name, high);
    }
    if ProcessPlan(u.crypto, m, c, chance).Reply? {
      S.RepliesKeepState(u.crypto, m, c, chance);
    }
  }

  lemma DispatchGuards(u: Setup, m: Memory, c: Command, chance: Chance, name: Name, high: int)
    requires Guard(u.key, m.state.credentials, name, high) && Spares(c, name) && c.ins != INS_CALCULATE
    ensures var plan := DispatchPlan(u.crypto, m, c, chance);
      GuardedPlan(u, plan, if plan.Reply? || c.ins != INS_RENAME || RenameRequest(c.data).value.0 != name then name
                        else RenameRequest(c.data).value.1, high, high)
  {
    OtherPlansGuard(u, m, c, chance, name, high);
    EditPlansGuard(u, m, c, name, high);
    hide ValidatePlan, SetCodePlan, PutPlan, DeletePlan, RenamePlan, ResetPlan, ListPlan, CalculateAllPlan, CalculatePlan;
    hide RenameRequest, PutRequest, TagsOf, GuardedPlan;
  }

  lemma EditPlansGuard(u: Setup, m: Memory, c: Command, name: Name, high: int)
    requires Guard(u.key, m.state.credentials, name, high) && Spares(c, name)
    ensures c.ins == INS_PUT ==> GuardedPlan(u, PutPlan(m, c.data), name, high, high)
    ensures c.ins == INS_DELETE ==> GuardedPlan(u, DeletePlan(m, c.data), name, high, high)
    ensures c.ins == INS_RENAME ==>
      var plan := RenamePlan(m, c.data);
      GuardedPlan(u, plan, if plan.Reply? || RenameRequest(c.data).value.0 != name then name
                        else RenameRequest(c.data).value.1, high, high)
  {
    hide GoodName, TagsOf, PutRequest, RenameRequest;
  }

  lemma OtherPlansGuard(u: Setup, m: Memory, c: Command, chance: Chance, name: Name, high: int)
    requires Guard(u.key, m.state.credentials, name, high) && Spares(c, name)
    ensures c.ins == INS_RESET ==> GuardedPlan(u, ResetPlan(m, c.p1, c.p2, chance), name, high, high)
    ensures GuardedPlan(u, ValidatePlan(u.crypto, m, c.data), name, high, high)
    ensures GuardedPlan(u, SetCodePlan(u.crypto, m, c.data, chance), name, high, high)
    ensures GuardedPlan(u, ListPlan(m), name, high, high)
    ensures GuardedPlan(u, CalculateAllPlan(u.crypto, m, c.p2, c.data), name, high, high)
  {
    hide TagsOf, AllCodes, ListBody, PutRequest;
  }

  // ---------- One event ----------

  ghost predicate EventOk(u: Setup, w: World, names: Names, e: WorldEvent) {
    match e
    case PowerCycle => true
    case Foreign(op, fate) => OpKey(op) != STORAGE_KEY && FateSeparates(u, w, op, fate)
    case Selected(chance, fate) => GoodChance(chance) && PlanSeparates(u, w, e)
    case Issue(c, chance, fate) =>
      && GoodChance(chance) && PlanSeparates(u, w, e) && Spares(c, names.ram)
      && (var code := CodeFor(u, w.memory, c); code.Some? && code.value.0 == names.ram ==> code.value.1 < U64 - 1)
  }

  ghost predicate PlanSeparates(u: Setup, w: World, e: WorldEvent)
    requires e.Issue? || e.Selected?
  {
    var plan := PlanOf(u, w.memory, e);
    plan.Commit? ==> FateSeparates(u, w, PlanOp(u, plan, e.chance.nonce), e.fate)
  }

  // The bound after an event: the counter it reveals of the credential followed, if any.
  ghost function HighAfter(u: Setup, w: World, names: Names, high: int, e: WorldEvent): int {
    var r := Revealed(u, w, e, names.ram);
    if r.Some? then r.value else high
  }

  lemma CommitIsSafe(u: Setup, w: World, names: Names, high: int, e: WorldEvent, ram: Name, higher: int)
    requires LawfulSetup(u) && Safe(u, w, names, high) && w.store.ram.generation + 1 < U64 && high <= higher
    requires (e.Issue? || e.Selected?) && PlanOf(u, w.memory, e).Commit? && PlanSeparates(u, w, e)
    requires S.GoodPlan(PlanOf(u, w.memory, e)) && GuardedPlan(u, PlanOf(u, w.memory, e), ram, higher, high)
    ensures Shaped(u.size, w.store)
    ensures var plan := PlanOf(u, w.memory, e);
      var op := PlanOp(u, plan, e.chance.nonce);
      var w' := Attempt(u, w, op, e.fate, plan.memory, plan.onFailure);
      var done := e.fate == Completes && Fits(u.codec, u.size, Effect(w.store.ram.cache, op));
      && w'.Some? && w'.value.store.ram.generation <= w.store.ram.generation + 1
      && Safe(u, w'.value, AttemptNames(u, w, names, op, e.fate, ram, ram), if done then higher else high)
  {
    var plan := PlanOf(u, w.memory, e);
    hide Loaded, Good, Synced, Doubt, Blob, PlanOf, Attempt, AttemptNames, Safe, LawfulSetup;
    WrittenStateHolds(u, w.store.ram.cache, plan, e.chance.nonce, ram, higher);
    AttemptIsSafe(u, w, names, high, PlanOp(u, plan, e.chance.nonce), e.fate, plan.memory, plan.onFailure, ram, ram, higher);
  }

  lemma WrittenStateHolds(u: Setup, cache: Contents, plan: Plan, nonce: seq<byte>, name: Name, high: int)
    requires LawfulSetup(u) && Good(plan.memory) && Guard(u.key, plan.memory.state.credentials, name, high)
    ensures Holds(u, Effect(cache, PlanOp(u, plan, nonce)), name, high)
  {
    S.StoredStateBoots(u.crypto, plan.memory, nonce);
    hide Loaded, Blob, Representable;
  }

  lemma CommandIsSafe(u: Setup, w: World, names: Names, high: int, e: WorldEvent)
    requires LawfulSetup(u) && Safe(u, w, names, high) && w.store.ram.generation + 1 < U64
    requires e.Issue? && EventOk(u, w, names, e)
    ensures Shaped(u.size, w.store)
    ensures var w' := WorldStep(u, w, e);
      && w'.Some? && w'.value.store.ram.generation <= w.store.ram.generation + 1
      && Safe(u, w'.value, NamesAfter(u, w, names, e), HighAfter(u, w, names, high, e))
      && high <= HighAfter(u, w, names, high, e)
      && (Revealed(u, w, e, names.ram).Some? ==> high < HighAfter(u, w, names, high, e))
  {
    hide Loaded, Good, Synced, Doubt, Blob, ProcessPlan, CodeFor, Attempt, AttemptNames, LawfulSetup, RenamedTo, Spares;
    SyncedShape(u, w.store);
    S.CommandsKeepGood(u.crypto, w.memory, e.c, e.chance);
    CommandGuards(u, w.memory, e.c, e.chance, names.ram, high);
    var code := CodeFor(u, w.memory, e.c);
    var higher := if code.Some? && code.value.0 == names.ram then code.value.1 else high;
    LowEnough(u, w.memory, names.ram, high);
    if PlanOf(u, w.memory, e).Commit? {
      CommitIsSafe(u, w, names, high, e, RenamedTo(w.memory, e.c, names.ram), higher);
    }
  }

  lemma LowEnough(u: Setup, m: Memory, name: Name, high: int)
    requires Good(m) && Guard(u.key, m.state.credentials, name, high)
    ensures high < U64 - 1
  {
  }

  lemma SelectionIsSafe(u: Setup, w: World, names: Names, high: int, e: WorldEvent)
    requires LawfulSetup(u) && Safe(u, w, names, high) && w.store.ram.generation + 1 < U64
    requires e.Selected? && EventOk(u, w, names, e)
    ensures Shaped(u.size, w.store)
    ensures var w' := WorldStep(u, w, e);
      && w'.Some? && w'.value.store.ram.generation <= w.store.ram.generation + 1
      && Safe(u, w'.value, NamesAfter(u, w, names, e), high)
  {
    hide Loaded, Good, Synced, Doubt, Blob, Attempt, AttemptNames, LawfulSetup;
    SyncedShape(u, w.store);
    S.SelectKeepsGood(w.memory, e.chance);
    if PlanOf(u, w.memory, e).Commit? {
      CommitIsSafe(u, w, names, high, e, names.ram, high);
    }
  }

  lemma ForeignIsSafe(u: Setup, w: World, names: Names, high: int, e: WorldEvent)
    requires LawfulSetup(u) && Safe(u, w, names, high) && w.store.ram.generation + 1 < U64
    requires e.Foreign? && EventOk(u, w, names, e)
    ensures Shaped(u.size, w.store)
    ensures var w' := WorldStep(u, w, e);
      && w'.Some? && w'.value.store.ram.generation <= w.store.ram.generation + 1
      && Safe(u, w'.value, NamesAfter(u, w, names, e), high)
  {
    hide Loaded, Good, Synced, Doubt, Attempt, AttemptNames, LawfulSetup;
    assert Holds(u, Effect(w.store.ram.cache, e.op), names.stored, high);
    AttemptIsSafe(u, w, names, high, e.op, e.fate, w.memory, w.memory, names.ram, names.stored, high);
  }

  lemma PowerCycleIsSafe(u: Setup, w: World, names: Names, high: int)
    requires Safe(u, w, names, high) && w.store.ram.generation + 1 < U64
    ensures Shaped(u.size, w.store)
    ensures var w' := WorldStep(u, w, PowerCycle);
      && w'.Some? && w'.value.store.ram.generation <= w.store.ram.generation + 1
      && Safe(u, w'.value, NamesAfter(u, w, names, PowerCycle), high)
  {
    hide Loaded, Good, Synced, Doubt, Reboot;
    RebootIsSafe(u, w.store, names, high);
  }

  ghost predicate SafeStep(u: Setup, w: World, names: Names, high: int, e: WorldEvent) {
    && Shaped(u.size, w.store)
    && (var w' := WorldStep(u, w, e);
        && w'.Some? && w'.value.store.ram.generation <= w.store.ram.generation + 1
        && Safe(u, w'.value, NamesAfter(u, w, names, e), HighAfter(u, w, names, high, e)))
    && high <= HighAfter(u, w, names, high, e)
    && (Revealed(u, w, e, names.ram).Some? ==> high < HighAfter(u, w, names, high, e))
  }

  lemma StepIsSafe(u: Setup, w: World, names: Names, high: int, e: WorldEvent)
    requires LawfulSetup(u) && Safe(u, w, names, high) && w.store.ram.generation + 1 < U64
    requires EventOk(u, w, names, e)
    ensures SafeStep(u, w, names, high, e)
  {
    hide Safe, WorldStep, NamesAfter, EventOk, LawfulSetup;
    match e
    case Issue(_, _, _) => CommandIsSafe(u, w, names, high, e);
    case Selected(_, _) => SelectionIsSafe(u, w, names, high, e);
    case Foreign(_, _) => ForeignIsSafe(u, w, names, high, e);
    case PowerCycle => PowerCycleIsSafe(u, w, names, high);
  }

  // ---------- Runs ----------

  // The device, the names the credential goes by, and the counters revealed of it so far with
  // the answers that revealed them.
  datatype Trace = Trace(world: World, names: Names, revealed: seq<nat>, answers: seq<Code>)

  datatype Code = Code(truncated: bool, response: R.Response)

  // The answer to the command, if the power stays on to give it.
  ghost function AnswerOf(u: Setup, w: World, e: WorldEvent): Option<Answer>
    requires e.Issue?
  {
    var plan := PlanOf(u, w.memory, e);
    if plan.Reply? then Some(plan.answer)
    else match e.fate
      case Completes =>
        Some(if Fits(u.codec, u.size, Effect(w.store.ram.cache, PlanOp(u, plan, e.chance.nonce))) then plan.answer
             else Err(SW_GENERIC_ERROR))
      case Fails(_) => Some(Err(SW_GENERIC_ERROR))
      case CutAt(_) => None
  }

  // What is recorded as revealed is what the host was given: the code of that very counter.
  // And no answered CALCULATE of an HOTP credential goes unrecorded.
  lemma RevealedIsAnswered(u: Setup, w: World, e: WorldEvent, name: Name)
    requires LawfulSetup(u) && Good(w.memory) && e.Issue?
    ensures var n, answer := Revealed(u, w, e, name), AnswerOf(u, w, e);
      && (n.Some? ==>
            && name in w.memory.state.credentials && answer.Some? && answer.value.Ok? && n.value < U64
            && A.IsCode(u.crypto, A.KeyOf(w.memory.state.credentials[name]), Be(n.value, 8), e.c.p2 == 1, answer.value.value))
      && (A.Open(w.memory, e.c, 0xA2) && answer.Some? && answer.value.Ok? && FirstValue(A.Entries(e.c), 0x71) == Some(name)
          && name in w.memory.state.credentials && w.memory.state.credentials[name].oathType == Hotp ==>
            var challenge := FirstValue(A.Entries(e.c), 0x74);
            challenge.Some? && n == Some(A.UsedCounter(w.memory.state.credentials[name], challenge.value)))
  {
    hide DispatchPlan, Blob, Effect, Fits, Good, A.IsCode;
    if A.Open(w.memory, e.c, 0xA2) {
      assert PlanOf(u, w.memory, e) == MirroredPlan(CalculatePlan(u.crypto, w.memory, e.c.p2, e.c.data), e.c.le) by {
        IsCalculate(u, w.memory, e.c, e.chance);
      }
      A.CalculateReads(e.c);
      A.CalculatePlanAnswers(u.crypto, w.memory, e.c);
      CalculateCommits(u, w.memory, e.c);
      hide CalculatePlan, A.Entries, CalculateRequest, ProcessPlan;
    }
  }

  lemma IsCalculate(u: Setup, m: Memory, c: Command, chance: Chance)
    requires A.Open(m, c, 0xA2)
    ensures ProcessPlan(u.crypto, m, c, chance) == MirroredPlan(CalculatePlan(u.crypto, m, c.p2, c.data), c.le)
  {
    hide CalculatePlan;
  }

  // CALCULATE commits exactly when it answers a code of an HOTP credential.
  lemma CalculateCommits(u: Setup, m: Memory, c: Command)
    requires Good(m)
    ensures var plan, request := CalculatePlan(u.crypto, m, c.p2, c.data), CalculateRequest(c.p2, c.data);
      plan.answer.Ok? ==>
        && request.Some? && request.value.0 in m.state.credentials
        && (var cr := m.state.credentials[request.value.0];
            && (plan.Commit? <==> cr.oathType == Hotp)
            && (plan.Commit? ==> FactorOf(cr, request.value.1).used == A.UsedCounter(cr, request.value.1)))
    ensures CalculatePlan(u.crypto, m, c.p2, c.data).Commit? ==> CalculatePlan(u.crypto, m, c.p2, c.data).answer.Ok?
  {
    hide CalculateRequest, CodeEntry;
    var request := CalculateRequest(c.p2, c.data);
    if request.Some? && request.value.0 in m.state.credentials {
      A.FactorIsTheMessage(m.state.credentials[request.value.0], request.value.1);
      hide FactorOf;
    }
  }

  ghost function TraceStep(u: Setup, t: Trace, e: WorldEvent): Option<Trace> {
    if !Shaped(u.size, t.world.store) then None
    else match WorldStep(u, t.world, e)
      case None => None
      case Some(w) =>
        var r := Revealed(u, t.world, e, t.names.ram);
        var names := NamesAfter(u, t.world, t.names, e);
        if r.None? then Some(Trace(w, names, t.revealed, t.answers))
        else
          var answer := AnswerOf(u, t.world, e);
          if answer.None? || answer.value.Err? then None
          else Some(Trace(w, names, t.revealed + [r.value], t.answers + [Code(e.c.p2 == 1, answer.value.value)]))
  }

  ghost function Go(u: Setup, t: Trace, events: seq<WorldEvent>): Option<Trace> {
    if events == [] then Some(t)
    else match Go(u, t, events[..|events| - 1])
      case None => None
      case Some(before) => TraceStep(u, before, events[|events| - 1])
  }

  ghost predicate EventsOk(u: Setup, t: Trace, events: seq<WorldEvent>) {
    forall i :: 0 <= i < |events| ==>
      var before := Go(u, t, events[..i]);
      before.Some? ==> EventOk(u, before.value.world, before.value.names, events[i])
  }

  ghost predicate Ascending(s: seq<nat>) {
    forall i, j :: 0 <= i < j < |s| ==> s[i] < s[j]
  }

  function Last(s: seq<nat>): int {
    if s == [] then -1 else s[|s| - 1]
  }

  // Along any run that does not replace, remove or reset the credential - with renames, failed
  // writes, power cuts after any step, other users of the store and restarts in any order -
  // the device always boots into a readable state, the counters it reveals strictly increase,
  // and the counter in memory, the stored one and the one that could surface all exceed them.
  // Each answer given is the code of the counter recorded with it, under one and the same key.
  lemma {:induction false} CodesAreNeverReused(u: Setup, t: Trace, events: seq<WorldEvent>)
    requires LawfulSetup(u) && t.revealed == [] && t.answers == [] && Safe(u, t.world, t.names, -1)
    requires t.world.store.ram.generation + |events| < U64
    requires EventsOk(u, t, events)
    ensures var end := Go(u, t, events);
      && end.Some?
      && Ascending(end.value.revealed) && AnswersAreCodes(u, end.value)
      && Safe(u, end.value.world, end.value.names, Last(end.value.revealed))
      && end.value.world.store.ram.generation <= t.world.store.ram.generation + |events|
    decreases |events|
  {
    hide Safe, TraceStep, EventOk, EventsOk, LawfulSetup, AnswersAreCodes;
    assert AnswersAreCodes(u, t) by { NoAnswers(u, t); }
    if events != [] {
      var n := |events| - 1;
      PrefixOk(u, t, events);
      CodesAreNeverReused(u, t, events[..n]);
      var before := Go(u, t, events[..n]).value;
      StepIsSafe(u, before.world, before.names, Last(before.revealed), events[n]);
      TraceStepKeeps(u, before, events[n]);
    }
  }

  lemma TraceStepKeeps(u: Setup, t: Trace, e: WorldEvent)
    requires SafeStep(u, t.world, t.names, Last(t.revealed), e) && Ascending(t.revealed)
    requires LawfulSetup(u) && Safe(u, t.world, t.names, Last(t.revealed)) && AnswersAreCodes(u, t)
    ensures var after := TraceStep(u, t, e);
      && after.Some? && Ascending(after.value.revealed) && AnswersAreCodes(u, after.value)
      && Safe(u, after.value.world, after.value.names, Last(after.value.revealed))
      && after.value.world.store.ram.generation <= t.world.store.ram.generation + 1
  {
    hide Safe, WorldStep, NamesAfter, Revealed, AnswerOf, A.IsCode, LawfulSetup, Good, A.Entries, FirstValue, Synced, Shaped;
    hide AnswersAreCodes, Ascending;
    FollowedKey(u, t);
    if e.Issue? {
      RevealedIsAnswered(u, t.world, e, t.names.ram);
      var n := Revealed(u, t.world, e, t.names.ram);
      if n.Some? {
        OneMoreCode(u, t, TraceStep(u, t, e).value, n.value, Code(e.c.p2 == 1, AnswerOf(u, t.world, e).value.value));
      } else {
        SameCodes(u, t, TraceStep(u, t, e).value);
      }
    } else {
      NotRevealed(u, t.world, e, t.names.ram);
      SameCodes(u, t, TraceStep(u, t, e).value);
    }
  }

  lemma OneMoreCode(u: Setup, t: Trace, after: Trace, n: nat, code: Code)
    requires AnswersAreCodes(u, t) && Ascending(t.revealed) && Last(t.revealed) < n < U64
    requires A.IsCode(u.crypto, u.key, Be(n, 8), code.truncated, code.response)
    requires after.revealed == t.revealed + [n] && after.answers == t.answers + [code]
    ensures AnswersAreCodes(u, after) && Ascending(after.revealed) && Last(after.revealed) == n
  {
    hide A.IsCode, Be;
  }

  lemma SameCodes(u: Setup, t: Trace, after: Trace)
    requires AnswersAreCodes(u, t) && after.revealed == t.revealed && after.answers == t.answers
    ensures AnswersAreCodes(u, after)
  {
    hide A.IsCode, Be;
  }

  lemma NotRevealed(u: Setup, w: World, e: WorldEvent, name: Name)
    requires !e.Issue?
    ensures Revealed(u, w, e, name).None?
  {
  }

  lemma FollowedKey(u: Setup, t: Trace)
    requires Safe(u, t.world, t.names, Last(t.revealed))
    ensures Good(t.world.memory) && t.names.ram in t.world.memory.state.credentials
    ensures A.KeyOf(t.world.memory.state.credentials[t.names.ram]) == u.key
  {
    hide Synced, Good, Holds, Doubt;
  }

  // Every answer is the code of the counter revealed with it.
  ghost predicate AnswersAreCodes(u: Setup, t: Trace) {
    && |t.answers| == |t.revealed|
    && forall i :: 0 <= i < |t.revealed| ==>
         t.revealed[i] < U64 && A.IsCode(u.crypto, u.key, Be(t.revealed[i], 8), t.answers[i].truncated, t.answers[i].response)
  }

  lemma NoAnswers(u: Setup, t: Trace)
    requires t.revealed == [] && t.answers == []
    ensures AnswersAreCodes(u, t)
  {
  }

  // No two of the messages hashed are the same.
  lemma MessagesDiffer(u: Setup, t: Trace, i: nat, j: nat)
    requires AnswersAreCodes(u, t) && Ascending(t.revealed) && i < j < |t.revealed|
    ensures Be(t.revealed[i], 8) != Be(t.revealed[j], 8)
  {
    hide Be, BeValue, Pow256, A.IsCode;
    Pow256Values();
    BeRoundTrip(t.revealed[i], 8);
    BeRoundTrip(t.revealed[j], 8);
  }

  lemma PrefixOk(u: Setup, t: Trace, events: seq<WorldEvent>)
    requires EventsOk(u, t, events) && events != []
    ensures EventsOk(u, t, events[..|events| - 1])
    ensures var before := Go(u, t, events[..|events| - 1]);
      before.Some? ==> EventOk(u, before.value.world, before.value.names, events[|events| - 1])
  {
    hide Go, EventOk;
    var n := |events| - 1;
    forall i | 0 <= i < n
      ensures events[..n][..i] == events[..i] && events[..n][i] == events[i]
    {
    }
  }

  // An acknowledged PUT of an HOTP credential, on any device in sync, is where a run starts.
  lemma AcknowledgedPutStartsRun(u: Setup, w: World, c: Command, chance: Chance)
    requires LawfulSetup(u) && Good(w.memory) && GoodChance(chance) && w.store.ram.generation + 1 < U64
    requires Synced(u.codec, w.store.flash, u.size, w.store.ram)
    requires c.cla == 0 && c.ins == INS_PUT && !Locked(w.memory) && PutPlan(w.memory, c.data).Commit?
    requires PutRequest(c.data).value.1.oathType == Hotp && u.key == A.KeyOf(PutRequest(c.data).value.1)
    requires var plan := ProcessPlan(u.crypto, w.memory, c, chance);
      Fits(u.codec, u.size, Effect(w.store.ram.cache, PlanOp(u, plan, chance.nonce)))
    ensures Shaped(u.size, w.store)
    ensures var w' := WorldStep(u, w, Issue(c, chance, Completes));
      var n := PutRequest(c.data).value.0;
      w'.Some? && Safe(u, w'.value, Names(n, n, n), -1)
  {
    hide Loaded, Good, Synced, Doubt, Blob, PutRequest, LawfulSetup, Effect, Completed, Fits;
    SyncedShape(u, w.store);
    var plan := ProcessPlan(u.crypto, w.memory, c, chance);
    S.CommandsKeepGood(u.crypto, w.memory, c, chance);
    var n := PutRequest(c.data).value.0;
    assert Guard(u.key, plan.memory.state.credentials, n, -1);
    WrittenStateHolds(u, w.store.ram.cache, plan, chance.nonce, n, -1);
    assert Lawful(u.codec) by { LawfulParts(u); }
    CompletedSyncs(u.codec, u.size, w.store, Effect(w.store.ram.cache, PlanOp(u, plan, chance.nonce)));
  }

  lemma LawfulParts(u: Setup)
    requires LawfulSetup(u)
    ensures Lawful(u.codec) && LawfulCrypto(u.crypto)
  {
  }

  // ---------- Where it stops ----------

  // The largest 64-bit counter is where never-reuse ends: in absolute mode the counter after
  // it is itself, so the same challenge is accepted again.  Below it, the same challenge is
  // refused once its code has been given.
  lemma AbsoluteChallengeReusableIff(c: Credential, challenge: seq<byte>)
    requires c.oathType == Hotp && c.counter < U64 && FactorOf(c, challenge).Moving? && challenge != []
    ensures var f := FactorOf(c, challenge);
      FactorOf(c.(counter := f.next.value), challenge).Moving? <==> BeValue(challenge) == U64 - 1
  {
    S.FactorInRange(c, challenge);
  }
}
