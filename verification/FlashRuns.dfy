/**
 Whole runs of the flash store: operations that complete, operations that fail on a live
 device, power cuts and restarts in any order.  A run is refined by a ledger of operations
 in effect with at most one operation in doubt.
 */
module FlashRuns {
  import opened Bytes
  import opened FlashStore
  import opened FlashCommit
  import opened FlashBackend

  // ---------- The concrete run ----------

  datatype Store = Store(flash: seq<byte>, ram: Ram)

  datatype Event =
    | Do(op: Op)                 // runs to completion, or is refused because it does not fit
    | Fail(op: Op, steps: nat)   // the device fails after that many steps; power stays on
    | Cut(op: Op, steps: nat)    // power is lost after that many steps; the store is reopened
    | Restart                    // power cycle between operations

  predicate Shaped(size: nat, s: Store) {
    HEADER_SIZE < size && 2 * size <= |s.flash| && s.ram.active < 2
  }

  // The flash after at most `n` steps of the commit of `op`.
  function Interrupted(codec: Codec, size: nat, s: Store, op: Op, n: nat): (r: seq<byte>)
    requires Shaped(size, s)
    ensures |r| == |s.flash|
  {
    var next := Effect(s.ram.cache, op);
    if !Fits(codec, size, next) then s.flash
    else
      var image := NextImage(codec, s.ram, next);
      CutFlash(s.flash, size, 1 - s.ram.active, image, if n <= |image| then n else 1 + |image|)
  }

  // The flash after every step of the commit of `next`.
  function Completed(codec: Codec, size: nat, s: Store, next: Contents): (r: seq<byte>)
    requires Shaped(size, s) && Fits(codec, size, next)
    ensures |r| == |s.flash|
  {
    var image := NextImage(codec, s.ram, next);
    CutFlash(s.flash, size, 1 - s.ram.active, image, 1 + |image|)
  }

  function Reopen(codec: Codec, size: nat, flash: seq<byte>): (r: Result<Store, StoreError>)
    requires HEADER_SIZE < size && 2 * size <= |flash|
    ensures r.Ok? ==> Shaped(size, r.value) && r.value.flash == flash
  {
    match Open(codec, flash, size)
    case Err(e) => Err(e)
    case Ok(ram) => Ok(Store(flash, ram))
  }

  function Next(codec: Codec, size: nat, s: Store, e: Event): (r: Result<Store, StoreError>)
    requires Shaped(size, s)
    ensures r.Ok? ==> Shaped(size, r.value)
  {
    match e
    case Do(op) =>
      var next := Effect(s.ram.cache, op);
      if !Fits(codec, size, next) then Ok(s) else Ok(Store(Completed(codec, size, s, next), Advanced(s.ram, next)))
    case Fail(op, n) => Ok(Store(Interrupted(codec, size, s, op, n), s.ram))
    case Cut(op, n) => Reopen(codec, size, Interrupted(codec, size, s, op, n))
    case Restart => Reopen(codec, size, s.flash)
  }

  function Run(codec: Codec, size: nat, s: Store, events: seq<Event>): (r: Result<Store, StoreError>)
    requires Shaped(size, s)
    ensures r.Ok? ==> Shaped(size, r.value)
  {
    if events == [] then Ok(s)
    else
      var before := Run(codec, size, s, events[..|events| - 1]);
      if before.Err? then before else Next(codec, size, before.value, events[|events| - 1])
  }

  // The object over the device performs these events.
  method Perform(backend: FlashStorageBackend, op: Op) returns (r: Result<(), StoreError>, ghost e: Event)
    requires backend.Valid()
    modifies backend, backend.device, backend.device.bytes
    ensures backend.Valid()
    ensures e == Do(op) || (exists n :: e == Fail(op, n))
    ensures Next(backend.codec, backend.device.sectorSize,
                 Store(old(backend.device.bytes[..]), old(backend.InMemory())), e)
      == Ok(Store(backend.device.bytes[..], backend.InMemory()))
    ensures r.Ok? ==> e == Do(op)
  {
    hide CutFlash, Image;
    assert backend.InMemory().active < 2;
    ghost var next := Effect(backend.cache, op);
    ghost var image := NextImage(backend.codec, backend.InMemory(), next);
    ghost var k := BytesDown(backend.device.failAfterProgramBytes, |image|);
    e := if Fits(backend.codec, backend.device.sectorSize, next) && k < |image| then Fail(op, 1 + k) else Do(op);
    r := backend.Update(op);
  }

  // ---------- The ledger ----------

  // The operations in effect, and one whose commit failed but may still surface.
  datatype Ledger = Ledger(done: seq<Op>, doubt: Option<Op>)

  function EffectAll(ops: seq<Op>): Contents {
    if ops == [] then map[] else Effect(EffectAll(ops[..|ops| - 1]), ops[|ops| - 1])
  }

  predicate Accepts(codec: Codec, size: nat, l: Ledger, op: Op) {
    Fits(codec, size, Effect(EffectAll(l.done), op))
  }

  ghost predicate LedgerStep(codec: Codec, size: nat, l: Ledger, e: Event, l': Ledger) {
    match e
    case Do(op) =>
      l' == if Accepts(codec, size, l, op) then Ledger(l.done + [op], None) else l
    case Fail(op, n) =>
      if n == 0 || !Accepts(codec, size, l, op) then l' == l
      else l'.done == l.done && l'.doubt in {None, Some(op)}
    case Cut(op, n) =>
      && l'.doubt == None
      && (if n == 0 || !Accepts(codec, size, l, op) then Settles(l, l')
          else l'.done == l.done || l'.done == l.done + [op])
    case Restart => l'.doubt == None && Settles(l, l')
  }

  // A reopening keeps the ledger, or lets the operation in doubt surface.
  ghost predicate Settles(l: Ledger, l': Ledger) {
    l'.done == l.done || (l.doubt.Some? && l'.done == l.done + [l.doubt.value])
  }

  ghost predicate Tracks(codec: Codec, size: nat, s: Store, l: Ledger) {
    && Synced(codec, s.flash, size, s.ram)
    && s.ram.cache == EffectAll(l.done)
    && s.ram.generation == |l.done|
    && (var doubt := Doubt(codec, s.flash, size, s.ram);
        doubt.Some? ==> l.doubt.Some? && doubt.value == Effect(s.ram.cache, l.doubt.value))
  }

  // The checksum separates whatever image the event leaves torn.
  predicate EventSeparates(codec: Codec, size: nat, s: Store, e: Event) {
    match e
    case Do(_) => true
    case Restart => true
    case Fail(op, n) => OpSeparates(codec, Effect(s.ram.cache, op), n)
    case Cut(op, n) => OpSeparates(codec, Effect(s.ram.cache, op), n)
  }

  predicate OpSeparates(codec: Codec, next: Contents, n: nat) {
    16 < n <= HEADER_SIZE + |codec.encode(next)| ==> Separates(codec.encode(next), n - 1)
  }

  // ---------- Refinement ----------

  // One event and one ledger step, in step with each other.
  ghost predicate Refined(codec: Codec, size: nat, s: Store, l: Ledger, e: Event, s': Store, l': Ledger) {
    && Shaped(size, s) && Next(codec, size, s, e) == Ok(s')
    && Tracks(codec, size, s', l') && LedgerStep(codec, size, l, e, l') && |l'.done| <= |l.done| + 1
  }

  // What an interrupted operation leaves: memory and flash stay in sync, and in doubt is what
  // was before, or nothing, or the map the operation was writing.
  lemma InterruptedSyncs(codec: Codec, size: nat, s: Store, op: Op, n: nat)
    requires Lawful(codec) && Synced(codec, s.flash, size, s.ram) && s.ram.generation + 1 < U64
    requires OpSeparates(codec, Effect(s.ram.cache, op), n)
    ensures Shaped(size, s)
    ensures var flash := Interrupted(codec, size, s, op, n);
      && Synced(codec, flash, size, s.ram)
      && (if n == 0 || !Fits(codec, size, Effect(s.ram.cache, op)) then flash == s.flash
          else Doubt(codec, flash, size, s.ram) in {None, Some(Effect(s.ram.cache, op))})
  {
    assert Shaped(size, s);
    hide CutFlash, Synced, Image, Separates, Doubt, Effect, Lawful;
    var next := Effect(s.ram.cache, op);
    var flash := Interrupted(codec, size, s, op, n);
    if n > 0 && Fits(codec, size, next) {
      var image := NextImage(codec, s.ram, next);
      var m := if n <= |image| then n else 1 + |image|;
      WholeSeparates(codec.encode(next));
      CutKeepsSync(codec, s.flash, size, s.ram, next, m, flash);
    }
  }

  lemma InterruptedTracks(codec: Codec, size: nat, s: Store, l: Ledger, op: Op, n: nat) returns (l': Ledger)
    requires Lawful(codec) && Tracks(codec, size, s, l) && |l.done| + 1 < U64
    requires OpSeparates(codec, Effect(s.ram.cache, op), n)
    ensures Refined(codec, size, s, l, Fail(op, n), Store(Interrupted(codec, size, s, op, n), s.ram), l')
  {
    InterruptedSyncs(codec, size, s, op, n);
    hide CutFlash, Synced, Image, Separates, Doubt, Interrupted, Effect, EffectAll, Fits, Lawful, OpSeparates, Reopen;
    l' := l;
    if n > 0 && Accepts(codec, size, l, op) {
      l' := Ledger(l.done, if Doubt(codec, Interrupted(codec, size, s, op, n), size, s.ram) == None then None else Some(op));
    }
  }

  // A complete image needs no separating.
  lemma WholeSeparates(payload: seq<byte>)
    ensures Separates(payload, HEADER_SIZE + |payload|)
  {
    assert TornPayload(payload, HEADER_SIZE + |payload|) == payload;
  }

  lemma ReopenTracks(codec: Codec, size: nat, s: Store, l: Ledger) returns (s': Store, l': Ledger)
    requires Tracks(codec, size, s, l) && |l.done| + 1 < U64
    ensures Reopen(codec, size, s.flash) == Ok(s') && Tracks(codec, size, s', l')
    ensures l'.doubt == None && Settles(l, l')
    ensures l'.done == if Doubt(codec, s.flash, size, s.ram).Some? then l.done + [l.doubt.value] else l.done
  {
    assert Shaped(size, s);
    hide Synced, Doubt;
    OpenSynced(codec, s.flash, size, s.ram);
    s' := Store(s.flash, Open(codec, s.flash, size).value);
    l' := Ledger(l.done, None);
    if Doubt(codec, s.flash, size, s.ram).Some? {
      l' := Ledger(l.done + [l.doubt.value], None);
      assert l'.done[..|l'.done| - 1] == l.done;
    }
  }

  lemma TracksFacts(codec: Codec, size: nat, s: Store, l: Ledger)
    requires Tracks(codec, size, s, l)
    ensures Shaped(size, s) && s.ram.generation == |l.done| && s.ram.cache == EffectAll(l.done)
  {
    hide ReadSlot, Slot, EffectAll, Doubt;
  }

  lemma DoTracks(codec: Codec, size: nat, s: Store, l: Ledger, op: Op) returns (s': Store, l': Ledger)
    requires Lawful(codec) && Tracks(codec, size, s, l) && |l.done| + 1 < U64
    ensures Refined(codec, size, s, l, Do(op), s', l')
  {
    if Accepts(codec, size, l, op) {
      var next := Effect(s.ram.cache, op);
      CompletedSyncs(codec, size, s, next);
      EffectOfOneMore(l.done, op);
      s' := Store(Completed(codec, size, s, next), Advanced(s.ram, next));
      l' := Ledger(l.done + [op], None);
      DoneTracks(codec, size, s, l, op, next, s', l');
    } else {
      s', l' := s, l;
    }
  }

  lemma DoneTracks(codec: Codec, size: nat, s: Store, l: Ledger, op: Op, next: Contents, s': Store, l': Ledger)
    requires Tracks(codec, size, s, l) && |l.done| + 1 < U64 && Fits(codec, size, next)
    requires next == Effect(s.ram.cache, op) && s' == Store(Completed(codec, size, s, next), Advanced(s.ram, next))
    requires l' == Ledger(l.done + [op], None) && EffectAll(l'.done) == next
    requires Synced(codec, s'.flash, size, s'.ram) && Doubt(codec, s'.flash, size, s'.ram) == None
    ensures Refined(codec, size, s, l, Do(op), s', l')
  {
    hide Completed, Doubt, Synced, Effect, EffectAll, Interrupted, Reopen, Settles, Fits;
    TracksFacts(codec, size, s, l);
    assert Next(codec, size, s, Do(op)) == Ok(s');
  }

  lemma CompletedSyncs(codec: Codec, size: nat, s: Store, next: Contents)
    requires Lawful(codec) && Synced(codec, s.flash, size, s.ram) && s.ram.generation + 1 < U64
    requires Fits(codec, size, next)
    ensures Synced(codec, Completed(codec, size, s, next), size, Advanced(s.ram, next))
    ensures Doubt(codec, Completed(codec, size, s, next), size, Advanced(s.ram, next)) == None
  {
    assert Shaped(size, s);
    hide Synced, Doubt, CutFlash, Image, Lawful;
    CompletedCommitSyncs(codec, s.flash, size, s.ram, next);
  }

  lemma EffectOfOneMore(ops: seq<Op>, op: Op)
    ensures EffectAll(ops + [op]) == Effect(EffectAll(ops), op)
  {
    assert (ops + [op])[..|ops|] == ops;
  }

  lemma CutTracks(codec: Codec, size: nat, s: Store, l: Ledger, op: Op, n: nat) returns (s': Store, l': Ledger)
    requires Lawful(codec) && Tracks(codec, size, s, l) && |l.done| + 1 < U64
    requires OpSeparates(codec, Effect(s.ram.cache, op), n)
    ensures Refined(codec, size, s, l, Cut(op, n), s', l')
  {
    var mid := InterruptedTracks(codec, size, s, l, op, n);
    hide Interrupted, Synced, Doubt, Effect, EffectAll;
    s', l' := ReopenTracks(codec, size, Store(Interrupted(codec, size, s, op, n), s.ram), mid);
  }

  lemma StepRefines(codec: Codec, size: nat, s: Store, l: Ledger, e: Event) returns (s': Store, l': Ledger)
    requires Lawful(codec) && Tracks(codec, size, s, l) && |l.done| + 1 < U64
    requires EventSeparates(codec, size, s, e)
    ensures Refined(codec, size, s, l, e, s', l')
  {
    match e
    case Do(op) =>
      s', l' := DoTracks(codec, size, s, l, op);
    case Fail(op, n) =>
      l' := InterruptedTracks(codec, size, s, l, op, n);
      s' := Store(Interrupted(codec, size, s, op, n), s.ram);
      hide Refined;
    case Cut(op, n) =>
      hide Refined;
      s', l' := CutTracks(codec, size, s, l, op, n);
    case Restart =>
      hide Synced, Doubt, EffectAll, Effect;
      s', l' := ReopenTracks(codec, size, s, l);
  }

  ghost predicate RunSeparates(codec: Codec, size: nat, s: Store, events: seq<Event>)
    requires Shaped(size, s)
  {
    forall i :: 0 <= i < |events| ==>
      var before := Run(codec, size, s, events[..i]);
      before.Ok? ==> EventSeparates(codec, size, before.value, events[i])
  }

  ghost predicate LedgerRun(codec: Codec, size: nat, ledgers: seq<Ledger>, events: seq<Event>) {
    && |ledgers| == |events| + 1 && ledgers[0] == Ledger([], None)
    && forall i :: 0 <= i < |events| ==> LedgerStep(codec, size, ledgers[i], events[i], ledgers[i + 1])
  }

  // Durability over whole runs: from a blank device every run keeps opening, and its memory
  // and flash are those of a ledger run.  The generation counts the operations in effect, and
  // a reopening now would find them, or them and the one in doubt.
  lemma {:induction false} RunRefines(codec: Codec, size: nat, flash: seq<byte>, events: seq<Event>)
      returns (s: Store, ledgers: seq<Ledger>)
    requires Lawful(codec) && UsableSize(size) && 2 * size <= |flash| && |events| < U64 - 1
    requires forall i :: 0 <= i < |flash| ==> flash[i] == 0xff
    requires RunSeparates(codec, size, Store(flash, Ram(map[], 0, 0)), events)
    ensures Run(codec, size, Store(flash, Ram(map[], 0, 0)), events) == Ok(s)
    ensures LedgerRun(codec, size, ledgers, events)
    ensures Tracks(codec, size, s, ledgers[|events|]) && |ledgers[|events|].done| <= |events|
    decreases |events|
  {
    var s0 := Store(flash, Ram(map[], 0, 0));
    if events == [] {
      BlankTracks(codec, size, flash);
      hide Tracks, Lawful, UsableSize, RunSeparates;
      s, ledgers := s0, [Ledger([], None)];
    } else {
      hide Tracks, LedgerStep, EventSeparates, Next, UsableSize, Lawful, Effect, EffectAll, RunSeparates, LedgerRun;
      var n := |events| - 1;
      PrefixSeparates(codec, size, s0, events);
      var s1, ls := RunRefines(codec, size, flash, events[..n]);
      assert |ls| == n + 1 by { LedgerRunLength(codec, size, ls, events[..n]); }
      var l': Ledger;
      s, l' := StepRefines(codec, size, s1, ls[n], events[n]);
      ledgers := ls + [l'];
      LedgerExtends(codec, size, ls, events, l');
    }
  }

  lemma BlankTracks(codec: Codec, size: nat, flash: seq<byte>)
    requires UsableSize(size) && 2 * size <= |flash| && forall i :: 0 <= i < |flash| ==> flash[i] == 0xff
    ensures Tracks(codec, size, Store(flash, Ram(map[], 0, 0)), Ledger([], None))
  {
    BlankOpens(codec, flash, size);
    hide Synced, Doubt;
  }

  lemma LedgerRunLength(codec: Codec, size: nat, ledgers: seq<Ledger>, events: seq<Event>)
    requires LedgerRun(codec, size, ledgers, events)
    ensures |ledgers| == |events| + 1
  {
  }

  lemma PrefixSeparates(codec: Codec, size: nat, s: Store, events: seq<Event>)
    requires Shaped(size, s) && events != [] && RunSeparates(codec, size, s, events)
    ensures RunSeparates(codec, size, s, events[..|events| - 1])
    ensures var before := Run(codec, size, s, events[..|events| - 1]);
      before.Ok? ==> EventSeparates(codec, size, before.value, events[|events| - 1])
  {
    hide Run, EventSeparates;
    var n := |events| - 1;
    forall i | 0 <= i < n
      ensures events[..n][..i] == events[..i] && events[..n][i] == events[i]
    {
    }
  }

  lemma LedgerExtends(codec: Codec, size: nat, ledgers: seq<Ledger>, events: seq<Event>, l': Ledger)
    requires events != [] && LedgerRun(codec, size, ledgers, events[..|events| - 1])
    requires LedgerStep(codec, size, ledgers[|events| - 1], events[|events| - 1], l')
    ensures LedgerRun(codec, size, ledgers + [l'], events)
  {
    hide LedgerStep;
    var all := ledgers + [l'];
    forall i | 0 <= i < |events|
      ensures LedgerStep(codec, size, all[i], events[i], all[i + 1])
    {
      if i < |events| - 1 {
        assert events[..|events| - 1][i] == events[i];
      }
    }
  }

  // ---------- What a ledger run guarantees ----------

  predicate Subsequence(a: seq<Op>, b: seq<Op>) {
    if a == [] then true
    else if b == [] then false
    else
      || (a[|a| - 1] == b[|b| - 1] && Subsequence(a[..|a| - 1], b[..|b| - 1]))
      || Subsequence(a, b[..|b| - 1])
  }

  // The operations whose commit returned success, in order.
  function Acknowledged(codec: Codec, size: nat, ledgers: seq<Ledger>, events: seq<Event>): seq<Op>
    requires |ledgers| == |events| + 1
  {
    if events == [] then []
    else
      var n := |events| - 1;
      Acknowledged(codec, size, ledgers[..n + 1], events[..n])
      + if events[n].Do? && Accepts(codec, size, ledgers[n], events[n].op) then [events[n].op] else []
  }

  function Reopenings(events: seq<Event>): nat {
    if events == [] then 0
    else Reopenings(events[..|events| - 1]) + if events[|events| - 1].Cut? || events[|events| - 1].Restart? then 1 else 0
  }

  // Every acknowledged operation is in effect, in order, and each reopening added at most
  // one operation that was never acknowledged.
  lemma {:induction false} AcknowledgedStay(codec: Codec, size: nat, ledgers: seq<Ledger>, events: seq<Event>)
    requires LedgerRun(codec, size, ledgers, events)
    ensures var done := ledgers[|events|].done;
      var acked := Acknowledged(codec, size, ledgers, events);
      && Subsequence(acked, done)
      && |done| <= |acked| + Reopenings(events)
    decreases |events|
  {
    if events != [] {
      var n := |events| - 1;
      FrontOfLedgerRun(codec, size, ledgers, events);
      StepAcknowledges(codec, size, ledgers[n], events[n], ledgers[n + 1]);
      hide LedgerRun, LedgerStep, Accepts, Subsequence;
      AcknowledgedStay(codec, size, ledgers[..n + 1], events[..n]);
      var acked := Acknowledged(codec, size, ledgers[..n + 1], events[..n]);
      assert ledgers[..n + 1][n] == ledgers[n] && acked + [] == acked;
      var before, after := ledgers[n].done, ledgers[n + 1].done;
      if after != before {
        SubsequenceGrows(acked, before, after[|before|]);
      }
    }
  }

  // An acknowledged operation comes into effect; otherwise at most a reopening brings one in.
  lemma StepAcknowledges(codec: Codec, size: nat, l: Ledger, e: Event, l': Ledger)
    requires LedgerStep(codec, size, l, e, l')
    ensures if e.Do? && Accepts(codec, size, l, e.op) then l'.done == l.done + [e.op]
            else l'.done == l.done || ((e.Cut? || e.Restart?) && |l'.done| == |l.done| + 1 && l'.done == l.done + [l'.done[|l.done|]])
  {
    hide Accepts;
  }

  lemma FrontOfLedgerRun(codec: Codec, size: nat, ledgers: seq<Ledger>, events: seq<Event>)
    requires LedgerRun(codec, size, ledgers, events) && events != []
    ensures var n := |events| - 1;
      LedgerRun(codec, size, ledgers[..n + 1], events[..n]) && LedgerStep(codec, size, ledgers[n], events[n], ledgers[n + 1])
  {
    hide LedgerStep;
  }

  lemma SubsequenceGrows(a: seq<Op>, b: seq<Op>, op: Op)
    requires Subsequence(a, b)
    ensures Subsequence(a, b + [op]) && Subsequence(a + [op], b + [op])
  {
    assert (a + [op])[..|a|] == a && (b + [op])[..|b|] == b;
  }
}
