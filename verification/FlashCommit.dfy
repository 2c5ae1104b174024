/**
 Committing to the two-slot store as a sequence of device steps, with the power cut after
 any of them: a reopened store holds exactly the old map or exactly the new one.
 */
module FlashCommit {
  import opened Bytes
  import opened NorFlash
  import opened FlashStore

  // What the running store keeps in memory.
  datatype Ram = Ram(cache: Contents, active: nat, generation: nat)

  datatype StoreError = TooFewSectors | UndecodableSnapshot | SnapshotTooBig | Device(error: FlashError)

  // ---------- Opening ----------

  // Where slot `i` starts: `i * size`, for the two slots there are.
  function Base(i: nat, size: nat): (r: nat)
    requires i < 2
    ensures r == i * size
  {
    if i == 0 then 0 else size
  }

  function Slot(flash: seq<byte>, size: nat, i: nat): (r: seq<byte>)
    requires i < 2 && 2 * size <= |flash|
    ensures |r| == size
  {
    if i == 0 then flash[..size] else flash[size..2 * size]
  }

  function Prefer(ram: Ram, sector: nat, read: SlotRead): Result<Ram, StoreError> {
    match read
    case Unreadable => Ok(ram)
    case Undecodable => Err(UndecodableSnapshot)
    case Snapshot(generation, cache) =>
      if generation >= ram.generation then Ok(Ram(cache, sector, generation)) else Ok(ram)
  }

  // Both slots are read, in order; the highest generation wins.
  function Open(codec: Codec, flash: seq<byte>, size: nat): Result<Ram, StoreError>
    requires HEADER_SIZE < size && 2 * size <= |flash|
  {
    var first := Prefer(Ram(map[], 0, 0), 0, ReadSlot(codec, Slot(flash, size, 0)));
    if first.Err? then first else Prefer(first.value, 1, ReadSlot(codec, Slot(flash, size, 1)))
  }

  // ---------- Commit, step by step ----------

  datatype Step = EraseSector(start: nat) | ProgramByte(at: nat, value: byte)

  function CommitSteps(start: nat, image: seq<byte>): (r: seq<Step>)
    ensures |r| == 1 + |image|
  {
    [EraseSector(start)] + seq(|image|, i requires 0 <= i < |image| => ProgramByte(start + i, image[i]))
  }

  function Perform(flash: seq<byte>, size: nat, step: Step): (r: seq<byte>)
    ensures |r| == |flash|
  {
    match step
    case EraseSector(start) => if start + size <= |flash| then Erased(flash, start, size) else flash
    case ProgramByte(at, value) => if at < |flash| then flash[at := And(flash[at], value)] else flash
  }

  function PerformAll(flash: seq<byte>, size: nat, steps: seq<Step>): (r: seq<byte>)
    ensures |r| == |flash|
  {
    if steps == [] then flash
    else Perform(PerformAll(flash, size, steps[..|steps| - 1]), size, steps[|steps| - 1])
  }

  // The contents after the first `n` steps of a commit to slot `target`.
  function CutFlash(flash: seq<byte>, size: nat, target: nat, image: seq<byte>, n: nat): (r: seq<byte>)
    requires target < 2 && 2 * size <= |flash| && |image| <= size && n <= 1 + |image|
    ensures |r| == |flash|
  {
    CutAt(flash, size, Base(target, size), image, n)
  }

  function CutAt(flash: seq<byte>, size: nat, start: nat, image: seq<byte>, n: nat): (r: seq<byte>)
    requires start + size <= |flash| && |image| <= size && n <= 1 + |image|
    ensures |r| == |flash|
  {
    if n == 0 then flash else flash[..start] + TornSlot(image, size, n - 1) + flash[start + size..]
  }

  lemma OneMoreByte(flash: seq<byte>, size: nat, start: nat, image: seq<byte>, k: nat)
    requires start + size <= |flash| && k < |image| <= size
    ensures Perform(CutAt(flash, size, start, image, k + 1), size, ProgramByte(start + k, image[k]))
      == CutAt(flash, size, start, image, k + 2)
  {
    hide And;
    var before, after := TornSlot(image, size, k), TornSlot(image, size, k + 1);
    assert before[k] == 0xff;
    AndErased(image[k]);
    assert after == before[k := image[k]];
  }

  lemma {:induction false} StepsReachCut(flash: seq<byte>, size: nat, start: nat, image: seq<byte>, n: nat)
    requires start + size <= |flash| && |image| <= size && n <= 1 + |image|
    ensures PerformAll(flash, size, CommitSteps(start, image)[..n]) == CutAt(flash, size, start, image, n)
    decreases n
  {
    var steps := CommitSteps(start, image);
    if n > 0 {
      StepsReachCut(flash, size, start, image, n - 1);
      assert steps[..n][..n - 1] == steps[..n - 1];
      if n == 1 {
        assert TornSlot(image, size, 0) == Filled(size, 0xff);
      } else {
        OneMoreByte(flash, size, start, image, n - 2);
      }
    }
  }

  // A cut commit touches only its own slot.
  lemma CutSlots(flash: seq<byte>, size: nat, target: nat, image: seq<byte>, n: nat)
    requires target < 2 && 2 * size <= |flash| && |image| <= size && 1 <= n <= 1 + |image|
    ensures Slot(CutFlash(flash, size, target, image, n), size, target) == TornSlot(image, size, n - 1)
    ensures Slot(CutFlash(flash, size, target, image, n), size, 1 - target) == Slot(flash, size, 1 - target)
  {
  }

  // ---------- Memory and flash agree ----------

  // The active slot holds what is in memory (a blank store has no slot yet); the other slot
  // is unreadable, or older, or one generation ahead: a commit that failed after all its
  // meaningful bytes were down.  Two readable slots never share a generation.
  ghost predicate Synced(codec: Codec, flash: seq<byte>, size: nat, ram: Ram) {
    && UsableSize(size) && 2 * size <= |flash| && ram.active < 2 && ram.generation < U64
    && (var held := ReadSlot(codec, Slot(flash, size, ram.active));
        if ram.generation == 0 then ram.active == 0 && ram.cache == map[] && held == Unreadable
        else held == Snapshot(ram.generation, ram.cache))
    && (var other := ReadSlot(codec, Slot(flash, size, 1 - ram.active));
        || other == Unreadable
        || (other.Snapshot? && (other.generation < ram.generation || other.generation == ram.generation + 1)))
  }

  // The map of a failed commit that would nevertheless win on opening.
  function Doubt(codec: Codec, flash: seq<byte>, size: nat, ram: Ram): Option<Contents>
    requires HEADER_SIZE < size && 2 * size <= |flash| && ram.active < 2
  {
    var other := ReadSlot(codec, Slot(flash, size, 1 - ram.active));
    if other.Snapshot? && other.generation > ram.generation then Some(other.cache) else None
  }

  lemma OpenSynced(codec: Codec, flash: seq<byte>, size: nat, ram: Ram)
    requires Synced(codec, flash, size, ram) && ram.generation + 1 < U64
    ensures var doubt := Doubt(codec, flash, size, ram);
      var found := Open(codec, flash, size);
      && found == Ok(if doubt.Some? then Ram(doubt.value, 1 - ram.active, ram.generation + 1) else ram)
      && Synced(codec, flash, size, found.value) && Doubt(codec, flash, size, found.value) == None
  {
    hide ReadSlot;
  }

  // A blank device opens as the empty map at generation 0.
  lemma BlankOpens(codec: Codec, flash: seq<byte>, size: nat)
    requires UsableSize(size) && 2 * size <= |flash|
    requires forall i :: 0 <= i < |flash| ==> flash[i] == 0xff
    ensures Open(codec, flash, size) == Ok(Ram(map[], 0, 0)) && Synced(codec, flash, size, Ram(map[], 0, 0))
    ensures Doubt(codec, flash, size, Ram(map[], 0, 0)) == None
  {
    assert Slot(flash, size, 0)[..4][0] == 0xff && Slot(flash, size, 1)[..4][0] == 0xff;
  }

  // ---------- Atomicity ----------

  function NextGeneration(ram: Ram): nat {
    (ram.generation + 1) % U64
  }

  function NextImage(codec: Codec, ram: Ram, next: Contents): seq<byte> {
    Image(NextGeneration(ram), codec.encode(next))
  }

  predicate Fits(codec: Codec, size: nat, next: Contents) {
    HEADER_SIZE + |codec.encode(next)| <= size
  }

  function Advanced(ram: Ram, next: Contents): Ram
    requires ram.active < 2
  {
    Ram(next, 1 - ram.active, NextGeneration(ram))
  }

  // Stopped after `n` steps with memory unchanged, the store stays in sync; what is in doubt
  // afterwards is nothing or the new map, and certainly the new map once every byte is down.
  lemma CutKeepsSync(codec: Codec, flash: seq<byte>, size: nat, ram: Ram, next: Contents, n: nat, cut: seq<byte>)
    requires Lawful(codec) && Synced(codec, flash, size, ram) && ram.generation + 1 < U64
    requires Fits(codec, size, next) && 0 < n <= 1 + HEADER_SIZE + |codec.encode(next)|
    requires n <= 16 || Separates(codec.encode(next), n - 1)
    requires cut == CutFlash(flash, size, 1 - ram.active, NextImage(codec, ram, next), n)
    ensures Synced(codec, cut, size, ram)
    ensures Doubt(codec, cut, size, ram) in {None, Some(next)}
    ensures n == 1 + HEADER_SIZE + |codec.encode(next)| ==> Doubt(codec, cut, size, ram) == Some(next)
  {
    hide CutFlash, TornSlot, ReadSlot, Image, Separates, Slot, Lawful, Doubt;
    CutSlots(flash, size, 1 - ram.active, NextImage(codec, ram, next), n);
    TornSlotReads(codec, ram.generation + 1, next, size, n - 1);
    RewrittenSlotSync(codec, flash, cut, size, ram, next);
  }

  // Only the inactive slot was rewritten, with nothing readable or with the next snapshot.
  lemma RewrittenSlotSync(codec: Codec, flash: seq<byte>, cut: seq<byte>, size: nat, ram: Ram, next: Contents)
    requires Synced(codec, flash, size, ram) && |cut| == |flash|
    requires Slot(cut, size, ram.active) == Slot(flash, size, ram.active)
    requires var read := ReadSlot(codec, Slot(cut, size, 1 - ram.active));
      read == Unreadable || read == Snapshot(ram.generation + 1, next)
    ensures Synced(codec, cut, size, ram)
    ensures Doubt(codec, cut, size, ram)
      == if ReadSlot(codec, Slot(cut, size, 1 - ram.active)) == Unreadable then None else Some(next)
  {
    hide ReadSlot, Slot;
  }

  lemma CompletedCommitSyncs(codec: Codec, flash: seq<byte>, size: nat, ram: Ram, next: Contents)
    requires Lawful(codec) && Synced(codec, flash, size, ram) && ram.generation + 1 < U64
    requires Fits(codec, size, next)
    ensures var image := NextImage(codec, ram, next);
      var done := CutFlash(flash, size, 1 - ram.active, image, 1 + |image|);
      && Synced(codec, done, size, Advanced(ram, next)) && Doubt(codec, done, size, Advanced(ram, next)) == None
  {
    hide CutFlash, TornSlot, ReadSlot, Image, Slot;
    var image := NextImage(codec, ram, next);
    CutSlots(flash, size, 1 - ram.active, image, 1 + |image|);
    WholeSlotReads(codec, ram.generation + 1, next, size);
  }

  // Power-cut atomicity: cut a commit after any number of device steps and reopen.  The store
  // opens, and holds exactly the old map or exactly the new one; all steps done means the new.
  lemma PowerCutAtomicity(codec: Codec, flash: seq<byte>, size: nat, ram: Ram, next: Contents, n: nat)
    requires Lawful(codec) && Synced(codec, flash, size, ram) && Doubt(codec, flash, size, ram) == None
    requires ram.generation + 1 < U64
    requires Fits(codec, size, next) && n <= 1 + HEADER_SIZE + |codec.encode(next)|
    requires n <= 16 || Separates(codec.encode(next), n - 1)
    ensures var steps := CommitSteps(Base(1 - ram.active, size), NextImage(codec, ram, next));
      var found := Open(codec, PerformAll(flash, size, steps[..n]), size);
      && found.Ok?
      && found.value.cache in {ram.cache, next}
      && (n == 0 ==> found.value.cache == ram.cache)
      && (n == |steps| ==> found.value.cache == next)
  {
    var cut := CutFlash(flash, size, 1 - ram.active, NextImage(codec, ram, next), n);
    StepsReachCut(flash, size, Base(1 - ram.active, size), NextImage(codec, ram, next), n);
    if n > 0 {
      CutKeepsSync(codec, flash, size, ram, next, n, cut);
    }
    OpenSynced(codec, cut, size, ram);
    hide CutAt, TornSlot, ReadSlot, Image, Separates, Slot, Lawful, Synced, Doubt, Open, PerformAll;
  }

  // Losing only the last byte needs no hypothesis about the checksum.
  lemma LastByteCutIsAtomic(codec: Codec, flash: seq<byte>, size: nat, ram: Ram, next: Contents)
    requires Lawful(codec) && Synced(codec, flash, size, ram) && Doubt(codec, flash, size, ram) == None
    requires ram.generation + 1 < U64
    requires Fits(codec, size, next) && |codec.encode(next)| > 0
    ensures var steps := CommitSteps(Base(1 - ram.active, size), NextImage(codec, ram, next));
      var found := Open(codec, PerformAll(flash, size, steps[..|steps| - 1]), size);
      found.Ok? && found.value.cache in {ram.cache, next}
  {
    var payload := codec.encode(next);
    OneByteLossSeparates(payload, HEADER_SIZE + |payload| - 1, |payload| - 1);
    PowerCutAtomicity(codec, flash, size, ram, next, HEADER_SIZE + |payload|);
  }

  // The generation is a 64-bit word that wraps.  A completed commit is what the next opening
  // finds exactly when it did not wrap (or changed nothing).
  lemma CompletedCommitRecoveredIff(codec: Codec, flash: seq<byte>, size: nat, ram: Ram, next: Contents)
    requires Lawful(codec) && Synced(codec, flash, size, ram) && next != ram.cache
    requires Fits(codec, size, next)
    ensures var image := NextImage(codec, ram, next);
      var found := Open(codec, CutFlash(flash, size, 1 - ram.active, image, 1 + |image|), size);
      found.Ok? && (found.value.cache == next <==> ram.generation < U64 - 1)
  {
    hide CutFlash, TornSlot, ReadSlot, Image, Slot;
    var image := NextImage(codec, ram, next);
    CutSlots(flash, size, 1 - ram.active, image, 1 + |image|);
    WholeSlotReads(codec, NextGeneration(ram), next, size);
  }
}
