/**
 The two-slot store kept on NOR flash: the format of a slot, what an interrupted commit
 leaves behind, which slot wins on opening, and the class that does it in place.
 */
module FlashStore {
  import opened Bytes
  import opened NorFlash
  import Fnv

  type Contents = map<string, seq<byte>>

  // The serialiser of the whole map.  Its byte format plays no part: only that decoding
  // inverts encoding.
  datatype Codec = Codec(encode: Contents -> seq<byte>, decode: seq<byte> -> Option<Contents>)

  ghost predicate Lawful(codec: Codec) {
    forall m: Contents :: codec.decode(codec.encode(m)) == Some(m)
  }

  const MAGIC: seq<byte> := [0x4f, 0x4b, 0x46, 0x31]
  const HEADER_SIZE: nat := 20

  // ---------- Slot format ----------

  function Header(generation: nat, payload: seq<byte>): (r: seq<byte>)
    ensures |r| == HEADER_SIZE
  {
    MAGIC + Le(generation, 8) + Le(|payload| % U32, 4) + Le(Fnv.Checksum(payload), 4)
  }

  function Image(generation: nat, payload: seq<byte>): (r: seq<byte>)
    ensures |r| == HEADER_SIZE + |payload|
  {
    Header(generation, payload) + payload
  }

  // The first twenty bytes of a slot: the letters OKF1, then the generation, the length and the
  // checksum, each low byte first; the payload follows.
  lemma SlotLayout(generation: nat, payload: seq<byte>)
    requires generation < U64 && |payload| < U32
    ensures var image := Image(generation, payload);
      && image[..4] == [0x4F, 0x4B, 0x46, 0x31]
      && (forall i :: 0 <= i < 8 ==> image[4 + i] as int == generation / Pow256(i) % 0x100)
      && (forall i :: 0 <= i < 4 ==> image[12 + i] as int == |payload| / Pow256(i) % 0x100)
      && (forall i :: 0 <= i < 4 ==> image[16 + i] as int == Fnv.Checksum(payload) / Pow256(i) % 0x100)
      && image[20..] == payload
  {
    hide Le, Pow256, Fnv.Checksum;
    var image := Image(generation, payload);
    assert |payload| % U32 == |payload|;
    forall i | 0 <= i < 8
      ensures image[4 + i] as int == generation / Pow256(i) % 0x100
    {
      BytesOf(generation, 8, i);
    }
    forall i | 0 <= i < 4
      ensures image[12 + i] as int == |payload| / Pow256(i) % 0x100
      ensures image[16 + i] as int == Fnv.Checksum(payload) / Pow256(i) % 0x100
    {
      BytesOf(|payload|, 4, i);
      BytesOf(Fnv.Checksum(payload), 4, i);
    }
  }

  datatype SlotRead = Unreadable | Undecodable | Snapshot(generation: nat, cache: Contents)

  function ReadSlot(codec: Codec, slot: seq<byte>): SlotRead
    requires |slot| > HEADER_SIZE
  {
    if slot[..4] != MAGIC then Unreadable
    else
      var len := LeValue(slot[12..16]);
      if len > |slot| - HEADER_SIZE then Unreadable
      else
        var payload := slot[HEADER_SIZE..HEADER_SIZE + len];
        if Fnv.Checksum(payload) != LeValue(slot[16..20]) then Unreadable
        else
          match codec.decode(payload)
          case None => Undecodable
          case Some(cache) => Snapshot(LeValue(slot[4..12]), cache)
  }

  // A sector after an erase and the first `k` bytes of an image.
  function TornSlot(image: seq<byte>, size: nat, k: nat): (r: seq<byte>)
    requires k <= |image| <= size
    ensures |r| == size
  {
    image[..k] + Filled(size - k, 0xff)
  }

  // The checksum tells the torn image apart: if the bytes after the cut make the slot pass
  // its own check, they are the bytes that were going to be written.
  predicate Separates(payload: seq<byte>, k: nat)
    requires k <= HEADER_SIZE + |payload|
  {
    var field, rest := TornChecksum(payload, k), TornPayload(payload, k);
    Fnv.Checksum(rest) == LeValue(field) ==> field == Le(Fnv.Checksum(payload), 4) && rest == payload
  }

  function TornChecksum(payload: seq<byte>, k: nat): (r: seq<byte>)
    ensures |r| == 4
  {
    var n := if k <= 16 then 0 else if k >= 20 then 4 else k - 16;
    Le(Fnv.Checksum(payload), 4)[..n] + Filled(4 - n, 0xff)
  }

  function TornPayload(payload: seq<byte>, k: nat): (r: seq<byte>)
    requires k <= HEADER_SIZE + |payload|
    ensures |r| == |payload|
  {
    var n := if k <= HEADER_SIZE then 0 else k - HEADER_SIZE;
    payload[..n] + Filled(|payload| - n, 0xff)
  }

  // A sector whose payload area could make the erased length field look plausible is too big.
  predicate UsableSize(size: nat) {
    HEADER_SIZE < size && size - HEADER_SIZE < 0xff00_0000
  }

  // ---------- Reading a slot after a cut, layer by layer ----------

  lemma TornSlotFields(generation: nat, payload: seq<byte>, size: nat, k: nat)
    requires UsableSize(size) && HEADER_SIZE + |payload| <= size && 16 <= k <= HEADER_SIZE + |payload|
    ensures var slot := TornSlot(Image(generation, payload), size, k);
      && slot[..4] == MAGIC && slot[4..12] == Le(generation, 8) && slot[12..16] == Le(|payload|, 4)
      && slot[16..20] == TornChecksum(payload, k)
      && slot[20..20 + |payload|] == TornPayload(payload, k)
      && slot[20 + |payload|..] == Filled(size - 20 - |payload|, 0xff)
  {
    hide Le, Fnv.Checksum;
    assert |payload| % U32 == |payload|;
    CutPieces(MAGIC, Le(generation, 8), Le(|payload|, 4), Le(Fnv.Checksum(payload), 4), payload, size, k);
  }

  lemma CutPieces(m: seq<byte>, g: seq<byte>, n: seq<byte>, c: seq<byte>, p: seq<byte>, size: nat, k: nat)
    requires |m| == 4 && |g| == 8 && |n| == 4 && |c| == 4
    requires 16 <= k <= 20 + |p| <= size
    ensures var slot := (m + g + n + c + p)[..k] + Filled(size - k, 0xff);
      var j := if k >= 20 then 4 else k - 16;
      var i := if k <= 20 then 0 else k - 20;
      && slot[..4] == m && slot[4..12] == g && slot[12..16] == n
      && slot[16..20] == c[..j] + Filled(4 - j, 0xff)
      && slot[20..20 + |p|] == p[..i] + Filled(|p| - i, 0xff)
      && slot[20 + |p|..] == Filled(size - 20 - |p|, 0xff)
  {
    var all := m + g + n + c + p;
    assert all[..4] == m && all[4..12] == g && all[12..16] == n && all[16..20] == c && all[20..] == p;
    var slot := all[..k] + Filled(size - k, 0xff);
    assert forall i :: 0 <= i < k ==> slot[i] == all[i];
    assert forall i :: k <= i < size ==> slot[i] == 0xff;
    forall i | 0 <= i < |p|
      ensures all[20 + i] == p[i]
    {
      assert all[20..][i] == p[i];
    }
  }

  // A cut inside the magic, the generation or the length is always noticed.
  lemma TornEarly(codec: Codec, generation: nat, payload: seq<byte>, size: nat, k: nat)
    requires UsableSize(size) && HEADER_SIZE + |payload| <= size && k < 16
    ensures ReadSlot(codec, TornSlot(Image(generation, payload), size, k)) == Unreadable
  {
    var slot := TornSlot(Image(generation, payload), size, k);
    if k < 4 {
      assert slot[..4][3] == 0xff;
    } else {
      LeTopByteErased(slot[12..16]);
    }
  }

  // From the checksum field on, the slot is rejected or whole exactly when the checksum
  // separates the torn image from the payload.
  lemma TornLateIffSeparates(codec: Codec, generation: nat, payload: seq<byte>, size: nat, k: nat)
    requires UsableSize(size) && HEADER_SIZE + |payload| <= size && 16 <= k <= HEADER_SIZE + |payload|
    ensures var image := Image(generation, payload);
      var slot := TornSlot(image, size, k);
      Separates(payload, k) <==>
        ReadSlot(codec, slot) == Unreadable || slot == TornSlot(image, size, |image|)
  {
    TornSlotFields(generation, payload, size, k);
    TornSlotFields(generation, payload, size, HEADER_SIZE + |payload|);
    LengthField(payload, size);
    WholeChecksumAgrees(payload);
    var image := Image(generation, payload);
    var slot, whole := TornSlot(image, size, k), TornSlot(image, size, |image|);
    assert TornPayload(payload, HEADER_SIZE + |payload|) == payload;
    assert TornChecksum(payload, HEADER_SIZE + |payload|) == Le(Fnv.Checksum(payload), 4);
    hide Image, TornSlot, TornChecksum, TornPayload, Le, LeValue, Fnv.Checksum;
    Pieces(slot, |payload|);
    Pieces(whole, |payload|);
  }

  lemma Pieces(slot: seq<byte>, n: nat)
    requires 20 + n <= |slot|
    ensures slot == slot[..4] + slot[4..12] + slot[12..16] + slot[16..20] + slot[20..20 + n] + slot[20 + n..]
  {
  }

  lemma LengthField(payload: seq<byte>, size: nat)
    requires UsableSize(size) && HEADER_SIZE + |payload| <= size
    ensures LeValue(Le(|payload|, 4)) == |payload|
  {
    Pow256Values();
    LeRoundTrip(|payload|, 4);
  }

  lemma WholeChecksumAgrees(payload: seq<byte>)
    ensures LeValue(Le(Fnv.Checksum(payload), 4)) == Fnv.Checksum(payload)
  {
    Pow256Values();
    LeRoundTrip(Fnv.Checksum(payload), 4);
  }

  // A complete slot reads back as what was committed.
  lemma WholeSlotReads(codec: Codec, generation: nat, cache: Contents, size: nat)
    requires Lawful(codec) && UsableSize(size) && generation < U64
    requires HEADER_SIZE + |codec.encode(cache)| <= size
    ensures var image := Image(generation, codec.encode(cache));
      ReadSlot(codec, TornSlot(image, size, |image|)) == Snapshot(generation, cache)
  {
    var payload := codec.encode(cache);
    TornSlotFields(generation, payload, size, HEADER_SIZE + |payload|);
    LengthField(payload, size);
    WholeChecksumAgrees(payload);
    Pow256Values();
    LeRoundTrip(generation, 8);
    assert TornPayload(payload, HEADER_SIZE + |payload|) == payload;
    assert TornChecksum(payload, HEADER_SIZE + |payload|) == Le(Fnv.Checksum(payload), 4);
  }

  // Whatever the cut, a slot torn in a way the checksum separates is unreadable or complete.
  lemma TornSlotReads(codec: Codec, generation: nat, cache: Contents, size: nat, k: nat)
    requires Lawful(codec) && UsableSize(size) && generation < U64
    requires k <= HEADER_SIZE + |codec.encode(cache)| <= size
    requires k < 16 || Separates(codec.encode(cache), k)
    ensures var read := ReadSlot(codec, TornSlot(Image(generation, codec.encode(cache)), size, k));
      && (read == Unreadable || read == Snapshot(generation, cache))
      && (k == HEADER_SIZE + |codec.encode(cache)| ==> read == Snapshot(generation, cache))
  {
    WholeSlotReads(codec, generation, cache, size);
    if k < 16 {
      TornEarly(codec, generation, codec.encode(cache), size, k);
    } else {
      TornLateIffSeparates(codec, generation, codec.encode(cache), size, k);
    }
  }

  // The separation hypothesis is proved, not assumed, when the torn payload differs from
  // the payload in at most one byte: for instance when only the last byte was lost.
  lemma OneByteLossSeparates(payload: seq<byte>, k: nat, i: nat)
    requires HEADER_SIZE <= k <= HEADER_SIZE + |payload|
    requires forall j :: k - HEADER_SIZE <= j < |payload| && j != i ==> payload[j] == 0xff
    ensures Separates(payload, k)
  {
    var rest := TornPayload(payload, k);
    WholeChecksumAgrees(payload);
    assert TornChecksum(payload, k) == Le(Fnv.Checksum(payload), 4);
    if rest != payload {
      var j :| 0 <= j < |payload| && rest[j] != payload[j];
      assert j == i;
      Fnv.OneByteSeparates(rest, payload, i);
    }
  }
}
