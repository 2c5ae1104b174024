/**
 The store as an object over a flash device: opening, committing in place, and the
 key-value operations built on a commit.
 */
module FlashBackend {
  import opened Bytes
  import opened NorFlash
  import opened FlashStore
  import opened FlashCommit
  import Fnv

  // ---------- What an operation asks for ----------

  datatype Op = Write(key: string, value: seq<byte>) | Delete(key: string)

  function Effect(cache: Contents, op: Op): Contents {
    match op
    case Write(key, value) => cache[key := value]
    case Delete(key) => cache - {key}
  }

  // What an operation does to a map, key by key: a write sets its key, a delete removes its
  // key, and every other key keeps what it had.
  ghost predicate Applied(before: Contents, op: Op, after: Contents) {
    && (match op
        case Write(key, value) => key in after && after[key] == value
        case Delete(key) => key !in after)
    && forall other :: other != op.key ==>
         (other in after <==> other in before) && (other in after ==> after[other] == before[other])
  }

  lemma EffectIsApplied(cache: Contents, op: Op)
    ensures Applied(cache, op, Effect(cache, op))
  {
  }

  // How many image bytes reach the device when a failure was armed before the commit.  The
  // failure is disarmed by the first program call, which carries the header.
  function BytesDown(limit: Option<nat>, imageLen: nat): nat {
    if limit.Some? && limit.value < HEADER_SIZE then limit.value else imageLen
  }

  class FlashStorageBackend {
    const device: SimulatedFlash
    const codec: Codec
    var cache: Contents
    var activeSector: nat
    var generation: nat

    ghost predicate Valid()
      reads this
    {
      HEADER_SIZE < device.sectorSize && 2 * device.sectorSize <= device.bytes.Length
      && activeSector < 2 && generation < U64
    }

    function InMemory(): Ram
      reads this
    {
      Ram(cache, activeSector, generation)
    }

    constructor (device: SimulatedFlash, codec: Codec)
      ensures this.device == device && this.codec == codec && InMemory() == Ram(map[], 0, 0)
    {
      this.device, this.codec := device, codec;
      cache, activeSector, generation := map[], 0, 0;
    }

    static method New(device: SimulatedFlash, codec: Codec) returns (r: Result<FlashStorageBackend, StoreError>)
      ensures var usable := 2 * device.sectorSize <= device.bytes.Length && HEADER_SIZE < device.sectorSize;
        && (!usable ==> r == Err(TooFewSectors))
        && (usable ==>
            match Open(codec, device.bytes[..], device.sectorSize)
            case Err(e) => r == Err(e)
            case Ok(ram) => r.Ok? && fresh(r.value) && r.value.Valid() && r.value.InMemory() == ram
                            && r.value.device == device && r.value.codec == codec)
    {
      if device.bytes.Length < device.sectorSize * 2 || device.sectorSize <= HEADER_SIZE {
        return Err(TooFewSectors);
      }
      var backend := new FlashStorageBackend(device, codec);
      var loaded := backend.LoadLatest();
      if loaded.Err? {
        return Err(loaded.error);
      }
      return Ok(backend);
    }

    method ReadSector(sector: nat) returns (read: SlotRead)
      requires sector < 2 && HEADER_SIZE < device.sectorSize && 2 * device.sectorSize <= device.bytes.Length
      ensures read == ReadSlot(codec, Slot(device.bytes[..], device.sectorSize, sector))
      ensures read.Snapshot? ==> read.generation < U64
    {
      hide LeValue, Fnv.Checksum;
      var size := device.sectorSize;
      var raw := new byte[size](i => 0xff);
      var got := device.Read(Base(sector, size), raw);
      assert raw[..] == Slot(device.bytes[..], size, sector);
      if raw[..4] != MAGIC {
        return Unreadable;
      }
      var generation := LeValue(raw[4..12]);
      var len := LeValue(raw[12..16]);
      var checksum := LeValue(raw[16..20]);
      LeValueBound(raw[4..12]);
      Pow256Values();
      if len > size - HEADER_SIZE {
        return Unreadable;
      }
      var payload := raw[HEADER_SIZE..HEADER_SIZE + len];
      if Fnv.Checksum(payload) != checksum {
        return Unreadable;
      }
      var decoded := codec.decode(payload);
      match decoded
      case None => return Undecodable;
      case Some(found) => return Snapshot(generation, found);
    }

    method LoadLatest() returns (r: Result<(), StoreError>)
      requires HEADER_SIZE < device.sectorSize && 2 * device.sectorSize <= device.bytes.Length
      requires InMemory() == Ram(map[], 0, 0)
      modifies this
      ensures match Open(codec, device.bytes[..], device.sectorSize)
        case Err(e) => r == Err(e)
        case Ok(ram) => r == Ok(()) && Valid() && InMemory() == ram
    {
      hide ReadSlot;
      var sector := 0;
      while sector < 2
        invariant 0 <= sector <= 2
        invariant Valid()
        invariant sector == 0 ==> InMemory() == Ram(map[], 0, 0)
        invariant sector == 1 ==>
          Prefer(Ram(map[], 0, 0), 0, ReadSlot(codec, Slot(device.bytes[..], device.sectorSize, 0))) == Ok(InMemory())
        invariant sector == 2 ==> Open(codec, device.bytes[..], device.sectorSize) == Ok(InMemory())
      {
        var read := ReadSector(sector);
        match read {
          case Unreadable =>
          case Undecodable => return Err(UndecodableSnapshot);
          case Snapshot(g, found) =>
            if g >= generation {
              generation := g;
              activeSector := sector;
              cache := found;
            }
        }
        sector := sector + 1;
      }
      return Ok(());
    }

    // Erases the inactive sector, programs the header and then the payload, and only then
    // moves on in memory.  The contents left on the device are those of a commit cut after
    // the erase and `BytesDown` bytes.
    method Commit(next: Contents) returns (r: Result<(), StoreError>)
      requires Valid()
      modifies this`activeSector, this`generation, device, device.bytes
      ensures Valid()
      ensures !Fits(codec, device.sectorSize, next) ==>
        r == Err(SnapshotTooBig) && device.bytes[..] == old(device.bytes[..]) && InMemory() == old(InMemory())
      ensures Fits(codec, device.sectorSize, next) ==>
        var image := NextImage(codec, old(InMemory()), next);
        var k := BytesDown(old(device.failAfterProgramBytes), |image|);
        && device.bytes[..] == CutFlash(old(device.bytes[..]), device.sectorSize, 1 - old(activeSector), image, 1 + k)
        && (k == |image| ==> r == Ok(()) && InMemory() == Advanced(old(InMemory()), next).(cache := cache))
        && (k < |image| ==> r == Err(Device(PowerLoss)) && InMemory() == old(InMemory()))
    {
      hide And, Accepted, Programmed, Erased, CutAt, Header, Image, Fnv.Checksum;
      var payload := codec.encode(next);
      var size := device.sectorSize;
      if |payload| > size - HEADER_SIZE {
        return Err(SnapshotTooBig);
      }
      var target := 1 - activeSector;
      ghost var start := Base(target, size);
      ghost var flash0 := device.bytes[..];
      var erased := device.EraseSector(target);
      var newGeneration := (generation + 1) % U64;
      var header := Header(newGeneration, payload);
      ghost var image := Image(newGeneration, payload);
      ProgramsOfCommit(flash0, size, start, newGeneration, payload, device.failAfterProgramBytes);
      assert header[..HEADER_SIZE] == header && payload[..|payload|] == payload;
      var headerDown := device.Program(Base(target, size), header);
      if headerDown.Err? {
        return Err(Device(headerDown.error));
      }
      var payloadDown := device.Program(Base(target, size) + HEADER_SIZE, payload);
      if payloadDown.Err? {
        // The header's program call disarmed any failure, and the sector is erased.
        assert false;
      }
      activeSector := target;
      generation := newGeneration;
      return Ok(());
    }

    // `write` and `delete`: commit the changed map, then adopt it.
    method Update(op: Op) returns (r: Result<(), StoreError>)
      requires Valid()
      modifies this, device, device.bytes
      ensures Valid()
      ensures if r.Ok? then Applied(old(cache), op, cache) else cache == old(cache)
      ensures var next := Effect(old(cache), op);
        && (!Fits(codec, device.sectorSize, next) ==>
            r == Err(SnapshotTooBig) && device.bytes[..] == old(device.bytes[..]) && InMemory() == old(InMemory()))
        && (Fits(codec, device.sectorSize, next) ==>
            var image := NextImage(codec, old(InMemory()), next);
            var k := BytesDown(old(device.failAfterProgramBytes), |image|);
            && device.bytes[..] == CutFlash(old(device.bytes[..]), device.sectorSize, 1 - old(activeSector), image, 1 + k)
            && (k == |image| ==> r == Ok(()) && InMemory() == Advanced(old(InMemory()), next))
            && (k < |image| ==> r == Err(Device(PowerLoss)) && InMemory() == old(InMemory())))
    {
      hide CutFlash, Image;
      var next := Effect(cache, op);
      var committed := Commit(next);
      if committed.Err? {
        return committed;
      }
      EffectIsApplied(cache, op);
      cache := next;
      return Ok(());
    }
  }

  lemma {:induction false} LeValueBound(b: seq<byte>)
    ensures LeValue(b) < Pow256(|b|)
  {
    if b != [] {
      LeValueBound(b[1..]);
    }
  }

  lemma ImageParts(generation: nat, payload: seq<byte>)
    ensures var header, image := Header(generation, payload), Image(generation, payload);
      && image[HEADER_SIZE..HEADER_SIZE + |payload|] == payload
      && forall k {:trigger header[..k]} :: 0 <= k <= HEADER_SIZE ==> header[..k] == image[0..0 + k]
  {
    hide Header;
  }

  // What the two program calls of a commit do to the erased sector, in the device's terms.
  lemma ProgramsOfCommit(
      flash: seq<byte>, size: nat, start: nat, generation: nat, payload: seq<byte>, limit: Option<nat>)
    requires start + size <= |flash| && HEADER_SIZE + |payload| <= size
    ensures var header, image := Header(generation, payload), Image(generation, payload);
      var erased := Erased(flash, start, size);
      var k := Allowed(limit, HEADER_SIZE);
      && Accepted(erased, start, header[..k]) == k
      && Programmed(erased, start, header[..k]) == CutAt(flash, size, start, image, 1 + k)
    ensures var image := Image(generation, payload);
      var headed := CutAt(flash, size, start, image, 1 + HEADER_SIZE);
      && Accepted(headed, start + HEADER_SIZE, payload) == |payload|
      && Programmed(headed, start + HEADER_SIZE, payload) == CutAt(flash, size, start, image, 1 + |image|)
  {
    hide And, Accepted, Programmed, Erased, CutAt, Header, Image;
    var header, image := Header(generation, payload), Image(generation, payload);
    var k := Allowed(limit, HEADER_SIZE);
    ImageParts(generation, payload);
    EraseIsFirstStep(flash, size, start, image);
    ErasedProgram(flash, size, start, image, 0, header[..k]);
    ErasedProgram(flash, size, start, image, HEADER_SIZE, payload);
  }

  lemma EraseIsFirstStep(flash: seq<byte>, size: nat, start: nat, image: seq<byte>)
    requires start + size <= |flash| && |image| <= size
    ensures Erased(flash, start, size) == CutAt(flash, size, start, image, 1)
  {
    assert TornSlot(image, size, 0) == Filled(size, 0xff);
  }

  // Programming the next part of an image over an erased sector is accepted whole and
  // extends what a cut commit would have left.
  lemma ErasedProgram(flash: seq<byte>, size: nat, start: nat, image: seq<byte>, k: nat, data: seq<byte>)
    requires start + size <= |flash| && k + |data| <= |image| <= size && data == image[k..k + |data|]
    ensures var before := CutAt(flash, size, start, image, k + 1);
      && Accepted(before, start + k, data) == |data|
      && Programmed(before, start + k, data) == CutAt(flash, size, start, image, k + |data| + 1)
  {
    CutsDiffer(flash, size, start, image, k, data);
    hide And, Accepted, OnlyClears, Programmed, CutAt, IsErased, IsWritten;
    ErasedTakesAll(CutAt(flash, size, start, image, k + 1), start + k, data);
    ErasedHolds(CutAt(flash, size, start, image, k + 1), CutAt(flash, size, start, image, k + |data| + 1), start + k, data);
  }

  // A later cut differs from an earlier one in the bytes programmed between them.
  lemma CutsDiffer(flash: seq<byte>, size: nat, start: nat, image: seq<byte>, k: nat, data: seq<byte>)
    requires start + size <= |flash| && k + |data| <= |image| <= size && data == image[k..k + |data|]
    ensures var before, after := CutAt(flash, size, start, image, k + 1), CutAt(flash, size, start, image, k + |data| + 1);
      IsErased(before, start + k, |data|) && IsWritten(before, after, start + k, data)
  {
    CutBytes(flash, size, start, image, k);
    CutBytes(flash, size, start, image, k + |data|);
    hide CutAt;
  }

  ghost predicate IsErased(flash: seq<byte>, offset: nat, n: nat) {
    offset + n <= |flash| && forall j :: offset <= j < offset + n ==> flash[j] == 0xff
  }

  ghost predicate IsWritten(before: seq<byte>, after: seq<byte>, offset: nat, data: seq<byte>) {
    && |before| == |after| && offset + |data| <= |before|
    && forall j :: 0 <= j < |before| ==> after[j] == if offset <= j < offset + |data| then data[j - offset] else before[j]
  }

  lemma ErasedTakesAll(flash: seq<byte>, offset: nat, data: seq<byte>)
    requires IsErased(flash, offset, |data|)
    ensures Accepted(flash, offset, data) == |data|
  {
    hide And, Accepted;
    var n := Accepted(flash, offset, data);
    if n < |data| {
      AndErased(data[n]);
    }
  }

  lemma ErasedHolds(before: seq<byte>, after: seq<byte>, offset: nat, data: seq<byte>)
    requires IsErased(before, offset, |data|) && IsWritten(before, after, offset, data)
    ensures Programmed(before, offset, data) == after
  {
    hide And;
    forall j | 0 <= j < |before|
      ensures after[j] == if offset <= j < offset + |data| then And(before[j], data[j - offset]) else before[j]
    {
      if offset <= j < offset + |data| {
        AndErased(data[j - offset]);
      }
    }
    IsProgrammed(before, after, offset, data);
  }

  lemma CutBytes(flash: seq<byte>, size: nat, start: nat, image: seq<byte>, k: nat)
    requires start + size <= |flash| && k <= |image| <= size
    ensures var cut := CutAt(flash, size, start, image, k + 1);
      forall j :: 0 <= j < |flash| ==>
        cut[j] == if start <= j < start + k then image[j - start]
                  else if start <= j < start + size then 0xff else flash[j]
  {
  }
}
