/**
 NOR flash as the storage layer sees it: erasing fills a sector with 0xff, programming
 can only turn ones into zeros, and power may fail in the middle of a program call.
 */
module NorFlash {
  import opened Bytes

  datatype FlashError = OutOfBounds | ZeroToOne | PowerLoss

  // ---------- What the two operations do to the contents ----------

  function Erased(flash: seq<byte>, start: nat, size: nat): (r: seq<byte>)
    requires start + size <= |flash|
    ensures |r| == |flash|
  {
    flash[..start] + Filled(size, 0xff) + flash[start + size..]
  }

  function Programmed(flash: seq<byte>, offset: nat, data: seq<byte>): (r: seq<byte>)
    requires offset + |data| <= |flash|
    ensures |r| == |flash|
  {
    seq(|flash|, i requires 0 <= i < |flash| =>
      if offset <= i < offset + |data| then And(flash[i], data[i - offset]) else flash[i])
  }

  // No byte of `data` asks for a bit that is already zero.
  ghost predicate OnlyClears(flash: seq<byte>, offset: nat, data: seq<byte>)
    requires offset + |data| <= |flash|
  {
    forall i :: 0 <= i < |data| ==> And(flash[offset + i], data[i]) == data[i]
  }

  // How many leading bytes of `data` the device accepts before it sees a 0-to-1 change.
  function Accepted(flash: seq<byte>, offset: nat, data: seq<byte>): (n: nat)
    requires offset + |data| <= |flash|
    ensures n <= |data|
    ensures OnlyClears(flash, offset, data[..n])
    ensures n < |data| ==> And(flash[offset + n], data[n]) != data[n]
    decreases |data|
  {
    if data == [] then 0
    else if And(flash[offset], data[0]) != data[0] then 0
    else
      var n := 1 + Accepted(flash, offset + 1, data[1..]);
      assert forall i :: 0 < i < n ==> data[i] == data[1..][i - 1] && flash[offset + i] == flash[offset + 1 + (i - 1)];
      n
  }

  // ---------- The simulated device ----------

  class SimulatedFlash {
    const bytes: array<byte>
    const sectorSize: nat
    var failAfterProgramBytes: Option<nat>

    constructor (sectorSize: nat, sectors: nat)
      requires sectorSize > 0 && sectors >= 2
      ensures this.sectorSize == sectorSize && failAfterProgramBytes == None
      ensures fresh(bytes) && bytes[..] == Filled(sectorSize * sectors, 0xff)
    {
      this.sectorSize := sectorSize;
      bytes := new byte[sectorSize * sectors](i => 0xff);
      failAfterProgramBytes := None;
    }

    method FailAfterProgramBytes(n: nat)
      modifies this
      ensures failAfterProgramBytes == Some(n)
    {
      failAfterProgramBytes := Some(n);
    }

    method Read(offset: nat, out: array<byte>) returns (r: Result<(), FlashError>)
      requires out != bytes
      modifies out
      ensures r.Ok? <==> offset + out.Length <= bytes.Length
      ensures r.Ok? ==> out[..] == bytes[offset..offset + out.Length]
      ensures r.Err? ==> r.error == OutOfBounds && out[..] == old(out[..])
    {
      if offset + out.Length > bytes.Length {
        return Err(OutOfBounds);
      }
      for i := 0 to out.Length
        invariant forall j :: 0 <= j < i ==> out[j] == bytes[offset + j]
      {
        out[i] := bytes[offset + i];
      }
      return Ok(());
    }

    method EraseSector(sector: nat) returns (r: Result<(), FlashError>)
      modifies bytes
      ensures r.Ok? <==> sector * sectorSize + sectorSize <= bytes.Length
      ensures r.Ok? ==> bytes[..] == Erased(old(bytes[..]), sector * sectorSize, sectorSize)
      ensures r.Err? ==> r.error == OutOfBounds && bytes[..] == old(bytes[..])
    {
      var start := sector * sectorSize;
      var end := start + sectorSize;
      if end > bytes.Length {
        return Err(OutOfBounds);
      }
      for i := start to end
        invariant forall j :: start <= j < i ==> bytes[j] == 0xff
        invariant forall j :: 0 <= j < bytes.Length && !(start <= j < i) ==> bytes[j] == old(bytes[j])
      {
        bytes[i] := 0xff;
      }
      return Ok(());
    }

    // Programs byte by byte.  An armed failure stops the call after that many bytes and is
    // disarmed; a 0-to-1 request stops it at once.  What was programmed stays programmed.
    method Program(offset: nat, data: seq<byte>) returns (r: Result<(), FlashError>)
      modifies this, bytes
      ensures offset + |data| > bytes.Length ==>
        r == Err(OutOfBounds) && bytes[..] == old(bytes[..]) && failAfterProgramBytes == old(failAfterProgramBytes)
      ensures offset + |data| <= bytes.Length ==>
        && failAfterProgramBytes == None
        && (var allowed := Allowed(old(failAfterProgramBytes), |data|);
            var n := Accepted(old(bytes[..]), offset, data[..allowed]);
            && bytes[..] == Programmed(old(bytes[..]), offset, data[..n])
            && r == if n < allowed then Err(ZeroToOne) else if allowed < |data| then Err(PowerLoss) else Ok(()))
    {
      hide And, Or, Accepted, Programmed;
      var end := offset + |data|;
      if end > bytes.Length {
        return Err(OutOfBounds);
      }
      var allowed := |data|;
      if failAfterProgramBytes.Some? {
        allowed := if failAfterProgramBytes.value < |data| then failAfterProgramBytes.value else |data|;
      }
      failAfterProgramBytes := None;
      ghost var was := bytes[..];
      ghost var n := Accepted(was, offset, data[..allowed]);
      var i := 0;
      while i < allowed
        invariant 0 <= i <= n
        invariant failAfterProgramBytes == None
        invariant forall j :: 0 <= j < bytes.Length ==>
          bytes[j] == if offset <= j < offset + i then And(was[j], data[..n][j - offset]) else was[j]
      {
        var current, asked := bytes[offset + i], data[i];
        OrKeepsMeansAndGives(current, asked);
        assert data[..allowed][i] == asked;
        if Or(current, asked) != current {
          IsProgrammed(was, bytes[..], offset, data[..n]);
          return Err(ZeroToOne);
        }
        bytes[offset + i] := And(current, asked);
        i := i + 1;
      }
      IsProgrammed(was, bytes[..], offset, data[..n]);
      if allowed != |data| {
        return Err(PowerLoss);
      }
      return Ok(());
    }
  }

  lemma IsProgrammed(was: seq<byte>, now: seq<byte>, offset: nat, data: seq<byte>)
    requires offset + |data| <= |was| == |now|
    requires forall j :: 0 <= j < |was| ==>
      now[j] == if offset <= j < offset + |data| then And(was[j], data[j - offset]) else was[j]
    ensures now == Programmed(was, offset, data)
  {
    hide And;
  }

  function Allowed(limit: Option<nat>, len: nat): nat {
    match limit
    case None => len
    case Some(n) => if n < len then n else len
  }
}
