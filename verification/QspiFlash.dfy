/**
 The driver of the on-board QSPI flash: the region set aside for credentials, and the
 256-byte read-modify-write loop that programs an arbitrary byte range page by page.

 The chip is an array of bytes mapped at `XIP_BASE`; the boot ROM's page program is a
 bytewise AND of the page with the staging buffer.
 */
module QspiFlash {
  import opened Bytes
  import opened NorFlash

  const SECTOR_SIZE: nat := 4096
  const REGION_LEN: nat := 128 * 1024
  const XIP_BASE: nat := 0x1000_0000
  const PAGE_SIZE: nat := 256

  // Base and capacity of the credential region at the end of a flash of `totalFlash` bytes.
  function RegionFor(totalFlash: nat): Option<(nat, nat)> {
    if totalFlash < 2 * SECTOR_SIZE then None
    else
      var half := totalFlash / 2;
      var cap := if REGION_LEN < half then REGION_LEN else half;
      var capAligned := (cap / SECTOR_SIZE) * SECTOR_SIZE;
      if capAligned < 2 * SECTOR_SIZE then None else Some((totalFlash - capAligned, capAligned))
  }

  // A region exists exactly from four sectors up.  It is whole sectors, at least two, in the
  // upper half, ends with the flash, and is sector-aligned when the flash is.
  lemma RegionIsContained(totalFlash: nat)
    ensures RegionFor(totalFlash).Some? <==> totalFlash >= 4 * SECTOR_SIZE
    ensures match RegionFor(totalFlash)
      case None => true
      case Some((base, capacity)) =>
        && base + capacity == totalFlash && base >= capacity
        && capacity % SECTOR_SIZE == 0 && 2 * SECTOR_SIZE <= capacity <= REGION_LEN
        && (totalFlash % SECTOR_SIZE == 0 ==> base % SECTOR_SIZE == 0)
        && (capacity == REGION_LEN || capacity + SECTOR_SIZE > totalFlash / 2)
  {
  }

  class QspiFlashDevice {
    const chip: array<byte>
    const regionBase: nat
    const capacity: nat
    const pageBuf: array<byte>

    // What opening the device establishes through `RegionFor`.
    ghost predicate Valid() {
      && pageBuf.Length == PAGE_SIZE && pageBuf != chip
      && capacity % SECTOR_SIZE == 0 && 0 < capacity && regionBase + capacity == chip.Length
      && regionBase % SECTOR_SIZE == 0
      && XIP_BASE + chip.Length <= U32
    }

    // The sizes the boot ROM reports are whole sectors.
    constructor (chip: array<byte>, region: (nat, nat))
      requires chip.Length % SECTOR_SIZE == 0
      requires RegionFor(chip.Length) == Some(region) && XIP_BASE + chip.Length <= U32
      ensures Valid() && this.chip == chip && (regionBase, capacity) == region && fresh(pageBuf)
    {
      RegionIsContained(chip.Length);
      this.chip, regionBase, capacity := chip, region.0, region.1;
      pageBuf := new byte[PAGE_SIZE](i => 0xff);
    }

    function XipAddr(offset: nat): (r: Result<nat, FlashError>)
      requires Valid()
      ensures r.Ok? <==> offset < capacity
      ensures r.Ok? ==> XIP_BASE + regionBase <= r.value < U32
    {
      if offset >= capacity then Err(OutOfBounds) else Ok(XIP_BASE + regionBase + offset)
    }

    method Read(offset: nat, out: array<byte>) returns (r: Result<(), FlashError>)
      requires Valid() && out != chip
      modifies out
      ensures r.Ok? <==> offset < capacity && offset + out.Length <= capacity
      ensures r.Ok? ==> out[..] == chip[regionBase + offset..regionBase + offset + out.Length]
      ensures r.Err? ==> out[..] == old(out[..])
    {
      if out.Length > capacity - (if offset < capacity then offset else capacity) || offset >= capacity {
        return Err(OutOfBounds);
      }
      for i := 0 to out.Length
        invariant forall j :: 0 <= j < i ==> out[j] == chip[regionBase + offset + j]
      {
        out[i] := chip[regionBase + offset + i];
      }
      return Ok(());
    }

    method EraseSector(sector: nat) returns (r: Result<(), FlashError>)
      requires Valid()
      modifies chip
      ensures r.Ok? <==> sector * SECTOR_SIZE + SECTOR_SIZE <= capacity
      ensures r.Ok? ==> chip[..] == Erased(old(chip[..]), regionBase + sector * SECTOR_SIZE, SECTOR_SIZE)
      ensures r.Err? ==> chip[..] == old(chip[..])
    {
      var start := sector * SECTOR_SIZE;
      if start + SECTOR_SIZE > capacity {
        return Err(OutOfBounds);
      }
      var at := XipAddr(start).value - XIP_BASE;
      for i := at to at + SECTOR_SIZE
        invariant forall j :: 0 <= j < chip.Length ==> chip[j] == if at <= j < i then 0xff else old(chip[j])
      {
        chip[i] := 0xff;
      }
      return Ok(());
    }

    // The boot ROM programs one aligned page from the staging buffer.
    method RomProgramPage(xipAddr: nat)
      requires Valid() && XIP_BASE <= xipAddr && xipAddr - XIP_BASE + PAGE_SIZE <= chip.Length
      requires (xipAddr - XIP_BASE) % PAGE_SIZE == 0
      modifies chip
      ensures PageDown(old(chip[..]), chip[..], pageBuf[..], xipAddr - XIP_BASE)
    {
      hide And;
      var at := xipAddr - XIP_BASE;
      for i := 0 to PAGE_SIZE
        invariant forall j :: 0 <= j < chip.Length ==>
          chip[j] == if at <= j < at + i then And(old(chip[j]), pageBuf[j - at]) else old(chip[j])
      {
        chip[at + i] := And(chip[at + i], pageBuf[i]);
      }
    }

    // Reads the page at `at` into the staging buffer and overlays `take` bytes of data on it.
    method StagePage(at: nat, dstOff: nat, data: seq<byte>)
      requires Valid() && at + PAGE_SIZE <= chip.Length && dstOff + |data| <= PAGE_SIZE
      modifies pageBuf
      ensures PageStaged(pageBuf[..], chip[..], at, dstOff, data)
    {
      for i := 0 to PAGE_SIZE
        invariant forall j :: 0 <= j < i ==> pageBuf[j] == chip[at + j]
      {
        pageBuf[i] := chip[at + i];
      }
      for i := 0 to |data|
        invariant forall j :: 0 <= j < PAGE_SIZE ==>
          pageBuf[j] == if dstOff <= j < dstOff + i then data[j - dstOff] else chip[at + j]
      {
        pageBuf[dstOff + i] := data[i];
      }
    }

    // Any byte range inside the region, one read-modify-write page at a time.  Inside the
    // range every byte becomes `old AND data`; no other byte of the chip changes.
    method Program(offset: nat, data: seq<byte>) returns (r: Result<(), FlashError>)
      requires Valid()
      modifies chip, pageBuf
      ensures r.Ok? <==> offset + |data| <= capacity
      ensures r.Ok? ==> chip[..] == Programmed(old(chip[..]), regionBase + offset, data)
      ensures r.Err? ==> r.error == OutOfBounds && chip[..] == old(chip[..])
    {
      hide And, Programmed, Reached, PageDown, PageStaged;
      if offset + |data| > capacity {
        return Err(OutOfBounds);
      }
      if data == [] {
        ReachedEnds(chip[..], chip[..], regionBase + offset, data);
        return Ok(());
      }
      ghost var was := chip[..];
      ghost var first := regionBase + offset;
      ReachedEnds(was, was, first, data);
      var pageStart := offset - offset % PAGE_SIZE;
      var written := 0;
      PagesFollow(offset);
      while written < |data|
        invariant 0 <= written <= |data|
        invariant pageStart % PAGE_SIZE == 0
        invariant written < |data| ==> pageStart <= offset + written < pageStart + PAGE_SIZE
        invariant Reached(was, chip[..], first, data, written)
      {
        var pageEnd := pageStart + PAGE_SIZE;
        PageInRegion(regionBase, pageStart, offset + written, capacity);
        var take := if pageEnd - (offset + written) < |data| - written then pageEnd - (offset + written) else |data| - written;
        var addr := XipAddr(pageStart);
        ghost var before := chip[..];
        StagePage(addr.value - XIP_BASE, offset + written - pageStart, data[written..written + take]);
        RomProgramPage(addr.value);
        PageStep(was, before, chip[..], pageBuf[..], first, data, written, take, addr.value - XIP_BASE);
        PagesFollow(pageStart);
        pageStart := pageStart + PAGE_SIZE;
        written := written + take;
      }
      ReachedEnds(was, chip[..], first, data);
      return Ok(());
    }
  }

  // The page loop's contents once `n` bytes of data are down.
  ghost predicate Reached(was: seq<byte>, now: seq<byte>, first: nat, data: seq<byte>, n: nat) {
    && |was| == |now| && first + |data| <= |was| && n <= |data|
    && forall j :: 0 <= j < |was| ==> now[j] == if first <= j < first + n then And(was[j], data[j - first]) else was[j]
  }

  ghost predicate PageStaged(page: seq<byte>, chip: seq<byte>, at: nat, dstOff: nat, data: seq<byte>) {
    && |page| == PAGE_SIZE && at + PAGE_SIZE <= |chip|
    && forall k :: 0 <= k < PAGE_SIZE ==>
         page[k] == if dstOff <= k < dstOff + |data| then data[k - dstOff] else chip[at + k]
  }

  ghost predicate PageDown(before: seq<byte>, after: seq<byte>, page: seq<byte>, at: nat) {
    && |before| == |after| && |page| == PAGE_SIZE
    && forall j :: 0 <= j < |before| ==>
         after[j] == if at <= j < at + PAGE_SIZE then And(before[j], page[j - at]) else before[j]
  }

  // Programming a staged page: the bytes that were only read back do not change.
  lemma PageStep(was: seq<byte>, before: seq<byte>, after: seq<byte>, page: seq<byte>,
                                    first: nat, data: seq<byte>, written: nat, take: nat, at: nat)
    requires Reached(was, before, first, data, written) && written + take <= |data|
    requires at <= first + written && first + written + take <= at + PAGE_SIZE <= |was|
    requires PageStaged(page, before, at, first + written - at, data[written..written + take])
    requires PageDown(before, after, page, at)
    ensures Reached(was, after, first, data, written + take)
  {
    hide And;
    forall j | 0 <= j < |was|
      ensures after[j] == if first <= j < first + written + take then And(was[j], data[j - first]) else was[j]
    {
      AndSelf(before[j]);
    }
  }

  lemma ReachedEnds(was: seq<byte>, now: seq<byte>, first: nat, data: seq<byte>)
    requires first + |data| <= |was|
    ensures Reached(was, was, first, data, 0)
    ensures Reached(was, now, first, data, |data|) ==> now == Programmed(was, first, data)
  {
    hide And;
  }

  lemma PagesFollow(offset: nat)
    ensures offset % PAGE_SIZE < PAGE_SIZE && (offset - offset % PAGE_SIZE) % PAGE_SIZE == 0
    ensures offset % PAGE_SIZE == 0 ==> (offset + PAGE_SIZE) % PAGE_SIZE == 0
  {
  }

  // A page that starts inside the region ends inside it and is a page of the chip: base and
  // capacity are whole sectors.
  lemma PageInRegion(base: nat, pageStart: nat, inside: nat, capacity: nat)
    requires base % SECTOR_SIZE == 0 && pageStart % PAGE_SIZE == 0 && capacity % SECTOR_SIZE == 0
    requires pageStart <= inside < capacity
    ensures pageStart + PAGE_SIZE <= capacity && (base + pageStart) % PAGE_SIZE == 0
  {
    var page, pages := pageStart / PAGE_SIZE, capacity / SECTOR_SIZE * 16;
    assert pageStart == page * PAGE_SIZE && capacity == pages * PAGE_SIZE;
    assert base == base / SECTOR_SIZE * 16 * PAGE_SIZE;
  }

  // The two drivers on the same contents and data, with no failure armed in the simulated
  // device, which stops at the first byte that asks for a cleared bit (`Accepted` of them are
  // down).  They leave the same contents exactly when no byte from there on would have changed
  // anything; the simulated call succeeds and they agree exactly when the data only clears
  // bits; and that is also exactly when the data reads back.
  lemma DriversAgreeIff(flash: seq<byte>, offset: nat, data: seq<byte>)
    requires offset + |data| <= |flash|
    ensures var n := Accepted(flash, offset, data);
      var simulated, paged := Programmed(flash, offset, data[..n]), Programmed(flash, offset, data);
      && (simulated == paged <==> forall i :: n <= i < |data| ==> And(flash[offset + i], data[i]) == flash[offset + i])
      && (n == |data| && simulated == paged <==> OnlyClears(flash, offset, data))
      && (OnlyClears(flash, offset, data) <==> paged[offset..offset + |data|] == data)
  {
    hide And, Accepted;
    var n := Accepted(flash, offset, data);
    var simulated, paged := Programmed(flash, offset, data[..n]), Programmed(flash, offset, data);
    assert data[..|data|] == data;
    forall i | 0 <= i < |data|
      ensures paged[offset..offset + |data|][i] == paged[offset + i] == And(flash[offset + i], data[i])
      ensures simulated[offset + i] == if i < n then paged[offset + i] else flash[offset + i]
    {
    }
    if forall i :: n <= i < |data| ==> And(flash[offset + i], data[i]) == flash[offset + i] {
      forall j | 0 <= j < |flash|
        ensures simulated[j] == paged[j]
      {
        if offset <= j < offset + |data| {
          assert simulated[offset + (j - offset)] == simulated[j];
        }
      }
      assert simulated == paged;
    }
  }

  // Agreeing on the contents is less than accepting the data: over a cleared byte the page
  // loop changes nothing either, while the simulated device refuses.
  lemma RefusedAndYetTheSame()
    ensures var n := Accepted([0x00], 0, [0xff]);
      && !OnlyClears([0x00], 0, [0xff]) && n == 0
      && Programmed([0x00], 0, [0xff][..n]) == Programmed([0x00], 0, [0xff])
  {
    var flash, data: seq<byte> := [0x00], [0xff];
    assert And(flash[0 + 0], data[0]) != data[0];
    assert Programmed(flash, 0, data)[0] == 0;
  }
}
