/**
 What is found under a key: after one operation, after a restart, and after a whole run.
 */
module FlashLookup {
  import opened Bytes
  import opened FlashStore
  import opened FlashCommit
  import opened FlashBackend
  import opened FlashRuns

  // The device, and the device restarted at once.
  ghost predicate FoundNowAndAfterRestart(codec: Codec, size: nat, before: Contents, op: Op, s: Store) {
    && Shaped(size, s) && Applied(before, op, s.ram.cache)
    && (var restarted := Next(codec, size, s, Restart);
        restarted.Ok? && Applied(before, op, restarted.value.ram.cache) && restarted.value.ram.cache == s.ram.cache)
  }

  // An operation that completes is found at once, and found again after a restart: the key
  // written holds its value, the key deleted is gone, and every other key is as before.  One
  // that does not fit changes nothing.
  lemma CompletedIsFound(codec: Codec, size: nat, s: Store, op: Op)
    requires Lawful(codec) && Synced(codec, s.flash, size, s.ram) && s.ram.generation + 2 < U64
    ensures Shaped(size, s)
    ensures var after := Next(codec, size, s, Do(op));
      && after.Ok?
      && (Fits(codec, size, Effect(s.ram.cache, op)) ==> FoundNowAndAfterRestart(codec, size, s.ram.cache, op, after.value))
      && (!Fits(codec, size, Effect(s.ram.cache, op)) ==> after.value == s)
  {
    SyncedIsShaped(codec, size, s);
    hide Synced, Doubt, Applied, Effect, Lawful, Fits;
    if Fits(codec, size, Effect(s.ram.cache, op)) {
      var s' := DoStep(codec, size, s, op);
      hide Next;
      EffectIsApplied(s.ram.cache, op);
      RestartFindsTheSame(codec, size, s');
    }
  }

  lemma DoStep(codec: Codec, size: nat, s: Store, op: Op) returns (s': Store)
    requires Lawful(codec) && Synced(codec, s.flash, size, s.ram) && s.ram.generation + 2 < U64 && Shaped(size, s)
    requires Fits(codec, size, Effect(s.ram.cache, op))
    ensures Next(codec, size, s, Do(op)) == Ok(s')
    ensures s'.ram.cache == Effect(s.ram.cache, op) && s'.ram.generation == s.ram.generation + 1
    ensures Synced(codec, s'.flash, size, s'.ram)
    ensures Shaped(size, s') && Doubt(codec, s'.flash, size, s'.ram) == None
  {
    hide Synced, Doubt, Effect, Lawful, Completed, Fits;
    DoIsCompleted(codec, size, s, op);
    hide Next;
    var next := Effect(s.ram.cache, op);
    CompletedSyncs(codec, size, s, next);
    s' := Store(Completed(codec, size, s, next), Advanced(s.ram, next));
  }

  lemma SyncedIsShaped(codec: Codec, size: nat, s: Store)
    requires Synced(codec, s.flash, size, s.ram)
    ensures Shaped(size, s)
  {
    hide ReadSlot, Slot;
  }

  lemma DoIsCompleted(codec: Codec, size: nat, s: Store, op: Op)
    requires Shaped(size, s) && Fits(codec, size, Effect(s.ram.cache, op))
    ensures Next(codec, size, s, Do(op)) == Ok(Store(Completed(codec, size, s, Effect(s.ram.cache, op)), Advanced(s.ram, Effect(s.ram.cache, op))))
  {
    hide Effect, Completed, Fits;
  }

  lemma RestartFindsTheSame(codec: Codec, size: nat, s: Store)
    requires Synced(codec, s.flash, size, s.ram) && Doubt(codec, s.flash, size, s.ram) == None && s.ram.generation + 1 < U64
    ensures Shaped(size, s) && Next(codec, size, s, Restart).Ok?
    ensures Next(codec, size, s, Restart).value.ram.cache == s.ram.cache
  {
    assert Shaped(size, s);
    hide Synced, Doubt, Open;
    OpenSynced(codec, s.flash, size, s.ram);
  }

  // An operation that fails, or is cut short, is found whole or not at all.
  lemma InterruptedIsFoundOrNot(codec: Codec, size: nat, s: Store, op: Op, n: nat)
    requires Lawful(codec) && Synced(codec, s.flash, size, s.ram) && s.ram.generation + 2 < U64
    requires Doubt(codec, s.flash, size, s.ram) == None && OpSeparates(codec, Effect(s.ram.cache, op), n)
    ensures Shaped(size, s)
    ensures var after := Next(codec, size, s, Cut(op, n));
      && after.Ok?
      && (after.value.ram.cache == s.ram.cache || Applied(s.ram.cache, op, after.value.ram.cache))
  {
    assert Shaped(size, s);
    hide Synced, Doubt, Applied, Effect, Lawful, Open, Interrupted, OpSeparates, Fits;
    InterruptedSyncs(codec, size, s, op, n);
    EffectIsApplied(s.ram.cache, op);
    OpenSynced(codec, Interrupted(codec, size, s, op, n), size, s.ram);
  }

  // ---------- Over a run ----------

  // The last operation on a key.
  function LastOn(ops: seq<Op>, key: string): Option<Op> {
    if ops == [] then None
    else if ops[|ops| - 1].key == key then Some(ops[|ops| - 1])
    else LastOn(ops[..|ops| - 1], key)
  }

  ghost predicate DecidedBy(found: Contents, key: string, last: Option<Op>) {
    match last
    case None => key !in found
    case Some(Delete(_)) => key !in found
    case Some(Write(_, value)) => key in found && found[key] == value
  }

  // What the operations in effect leave under a key is decided by the last one on that key.
  lemma {:induction false} LastDecides(ops: seq<Op>, key: string)
    ensures DecidedBy(EffectAll(ops), key, LastOn(ops, key))
    decreases |ops|
  {
    if ops != [] {
      var front, op := ops[..|ops| - 1], ops[|ops| - 1];
      LastDecides(front, key);
      EffectIsApplied(EffectAll(front), op);
      hide Effect;
    }
  }

  // The last operation on a key is on that key, and none on it comes after.
  lemma {:induction false} LastOnIsLast(ops: seq<Op>, key: string)
    ensures LastOn(ops, key).None? ==> forall i :: 0 <= i < |ops| ==> ops[i].key != key
    ensures LastOn(ops, key).Some? ==>
      exists i :: 0 <= i < |ops| && ops[i] == LastOn(ops, key).value && ops[i].key == key
                  && forall j :: i < j < |ops| ==> ops[j].key != key
    decreases |ops|
  {
    if ops != [] {
      var front := ops[..|ops| - 1];
      LastOnIsLast(front, key);
      if ops[|ops| - 1].key == key {
        assert ops[|ops| - 1] == LastOn(ops, key).value;
      } else if LastOn(front, key).Some? {
        var i :| 0 <= i < |front| && front[i] == LastOn(front, key).value && front[i].key == key
                 && forall j :: i < j < |front| ==> front[j].key != key;
        assert ops[i] == front[i];
        forall j | i < j < |ops|
          ensures ops[j].key != key
        {
          if j < |front| {
            assert ops[j] == front[j];
          }
        }
      }
    }
  }

  // After any run from a blank device, with failures, cuts and restarts anywhere, what the
  // store finds under a key is what the last operation in effect on that key left.
  lemma FoundAfterRun(codec: Codec, size: nat, flash: seq<byte>, events: seq<Event>)
      returns (s: Store, ledgers: seq<Ledger>)
    requires Lawful(codec) && UsableSize(size) && 2 * size <= |flash| && |events| < U64 - 1
    requires forall i :: 0 <= i < |flash| ==> flash[i] == 0xff
    requires RunSeparates(codec, size, Store(flash, Ram(map[], 0, 0)), events)
    ensures Run(codec, size, Store(flash, Ram(map[], 0, 0)), events) == Ok(s)
    ensures LedgerRun(codec, size, ledgers, events)
    ensures forall key :: DecidedBy(s.ram.cache, key, LastOn(ledgers[|events|].done, key))
  {
    s, ledgers := RunRefines(codec, size, flash, events);
    hide Run, LedgerRun, RunSeparates, EffectAll, DecidedBy, Synced, Doubt;
    forall key
      ensures DecidedBy(s.ram.cache, key, LastOn(ledgers[|events|].done, key))
    {
      LastDecides(ledgers[|events|].done, key);
    }
  }
}
