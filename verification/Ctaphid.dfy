/**
 CTAPHID framing (CTAP 2.1 section 11.2.4): cutting a message into 64-byte packets and the
 stateful assembler that puts packets back together.
 */
module Ctaphid {
  import opened Bytes

  const PACKET_SIZE: nat := 64
  const INIT_PAYLOAD: nat := 57
  const CONT_PAYLOAD: nat := 59
  const MAX_PAYLOAD: nat := 57 + 128 * 59
  const CMD_CANCEL: nat := 0x11

  datatype FrameError = BadPacketLength | PayloadTooLong

  datatype Packet = Packet(isInit: bool, cid: nat, cmd: nat, data: seq<byte>)

  datatype Message = Message(cid: nat, cmd: nat, payload: seq<byte>)

  function Min(a: nat, b: nat): nat {
    if a < b then a else b
  }

  function Bcnt(raw: seq<byte>): nat
    requires |raw| == PACKET_SIZE
  {
    BeValue(raw[5..7])
  }

  function ParsePacket(raw: seq<byte>): Result<Packet, FrameError> {
    if |raw| != PACKET_SIZE then Err(BadPacketLength)
    else
      var cid := BeValue(raw[..4]);
      if raw[4] >= 0x80 then Ok(Packet(true, cid, raw[4] - 0x80, raw[7..7 + Min(Bcnt(raw), INIT_PAYLOAD)]))
      else Ok(Packet(false, cid, raw[4], raw[5..]))
  }

  function PackInit(cid: nat, cmd: nat, data: seq<byte>, totalLen: nat): (raw: seq<byte>)
    requires cid < U32 && totalLen < U16 && |data| <= INIT_PAYLOAD
    ensures |raw| == PACKET_SIZE
  {
    Be(cid, 4) + [0x80 + cmd % 0x80] + Be(totalLen, 2) + data + Filled(INIT_PAYLOAD - |data|, 0)
  }

  function PackCont(cid: nat, seqNo: nat, data: seq<byte>): (raw: seq<byte>)
    requires cid < U32 && |data| <= CONT_PAYLOAD
    ensures |raw| == PACKET_SIZE
  {
    Be(cid, 4) + [seqNo % 0x80] + data + Filled(CONT_PAYLOAD - |data|, 0)
  }

  // ---------- Fragmentation ----------

  // How many continuation packets a payload takes, and the slice the i-th one carries.
  function ContCount(len: nat): nat {
    if len <= INIT_PAYLOAD then 0 else (len - INIT_PAYLOAD + CONT_PAYLOAD - 1) / CONT_PAYLOAD
  }

  lemma ContCountCovers(len: nat, i: nat)
    ensures i < ContCount(len) <==> INIT_PAYLOAD + CONT_PAYLOAD * i < len
  {
  }

  function Reach(len: nat, i: nat): (r: nat)
    ensures r <= len
  {
    Min(INIT_PAYLOAD + CONT_PAYLOAD * i, len)
  }

  function Cont(cid: nat, payload: seq<byte>, i: nat): (raw: seq<byte>)
    requires cid < U32
    ensures |raw| == PACKET_SIZE
  {
    PackCont(cid, i % 0x80, payload[Reach(|payload|, i)..Reach(|payload|, i + 1)])
  }

  function Fragments(cid: nat, cmd: nat, payload: seq<byte>): (r: seq<seq<byte>>)
    requires cid < U32 && |payload| <= MAX_PAYLOAD
    ensures |r| == 1 + ContCount(|payload|)
  {
    [PackInit(cid, cmd, payload[..Reach(|payload|, 0)], |payload|)]
    + seq(ContCount(|payload|), i requires 0 <= i => Cont(cid, payload, i))
  }

  lemma FragmentAt(cid: nat, cmd: nat, payload: seq<byte>, i: nat)
    requires cid < U32 && |payload| <= MAX_PAYLOAD && INIT_PAYLOAD + CONT_PAYLOAD * i < |payload|
    ensures i < ContCount(|payload|)
    ensures var offset := INIT_PAYLOAD + CONT_PAYLOAD * i;
      Fragments(cid, cmd, payload)[1 + i]
        == PackCont(cid, i % 0x80, payload[offset..Min(offset + CONT_PAYLOAD, |payload|)])
  {
    hide PackInit, PackCont, ContCount;
    ContCountCovers(|payload|, i);
    assert Fragments(cid, cmd, payload)[1 + i] == Cont(cid, payload, i);
  }

  method Fragment(cid: nat, cmd: nat, payload: seq<byte>) returns (r: Result<seq<seq<byte>>, FrameError>)
    requires cid < U32
    ensures |payload| > MAX_PAYLOAD ==> r == Err(PayloadTooLong)
    ensures |payload| <= MAX_PAYLOAD ==> r == Ok(Fragments(cid, cmd, payload))
  {
    hide PackInit, PackCont, ContCount;
    if |payload| > MAX_PAYLOAD {
      return Err(PayloadTooLong);
    }
    ghost var all := Fragments(cid, cmd, payload);
    assert |all| == 1 + ContCount(|payload|);
    ContCountCovers(|payload|, 0);
    var packets := [PackInit(cid, cmd, payload[..Min(INIT_PAYLOAD, |payload|)], |payload|)];
    var offset, seqNo := INIT_PAYLOAD, 0;
    ghost var i := 0;
    assert packets[0] == all[0];
    while offset < |payload|
      invariant i <= ContCount(|payload|)
      invariant offset == INIT_PAYLOAD + CONT_PAYLOAD * i && seqNo == i % 0x80
      invariant |packets| == 1 + i && forall j :: 0 <= j <= i ==> packets[j] == all[j]
    {
      hide Fragments, Reach;
      FragmentAt(cid, cmd, payload, i);
      var chunk := payload[offset..Min(offset + CONT_PAYLOAD, |payload|)];
      packets := packets + [PackCont(cid, seqNo, chunk)];
      offset := offset + CONT_PAYLOAD;
      seqNo := (seqNo + 1) % 0x80;
      i := i + 1;
    }
    ContCountCovers(|payload|, i);
    assert |all| == 1 + ContCount(|payload|);
    assert packets == all;
    return Ok(packets);
  }

  // ---------- Assembly ----------

  datatype Asm = Asm(active: bool, cid: nat, cmd: nat, total: nat, buf: seq<byte>, nextSeq: nat)

  const IDLE: Asm := Asm(false, 0, 0, 0, [], 0)

  function Step(a: Asm, raw: seq<byte>): (Option<Message>, Asm)
    requires |raw| == PACKET_SIZE
    requires a.active ==> |a.buf| <= a.total
  {
    var pkt := ParsePacket(raw).value;
    if pkt.isInit then
      if Bcnt(raw) > MAX_PAYLOAD then (None, IDLE)
      else if pkt.cmd == CMD_CANCEL then (Some(Message(pkt.cid, CMD_CANCEL, [])), IDLE)
      else if Bcnt(raw) <= INIT_PAYLOAD then (Some(Message(pkt.cid, pkt.cmd, pkt.data)), IDLE)
      else (None, Asm(true, pkt.cid, pkt.cmd, Bcnt(raw), pkt.data, 0))
    else if !a.active || pkt.cid != a.cid || pkt.cmd != a.nextSeq then (None, IDLE)
    else
      var buf := a.buf + pkt.data[..Min(a.total - |a.buf|, CONT_PAYLOAD)];
      if |buf| >= a.total then (Some(Message(a.cid, a.cmd, buf)), IDLE)
      else (None, a.(buf := buf, nextSeq := (a.nextSeq + 1) % 0x80))
  }

  // While a message is being assembled, more than one packet's worth is expected and less
  // than all of it has arrived.
  ghost predicate Consistent(a: Asm) {
    a.active ==> INIT_PAYLOAD <= |a.buf| < a.total <= MAX_PAYLOAD && a.nextSeq < 0x80
  }

  class Assembler {
    var active: bool
    var cid: nat
    var cmd: nat
    var total: nat
    var buf: seq<byte>
    var nextSeq: nat

    function Snapshot(): Asm
      reads this
    {
      Asm(active, cid, cmd, total, buf, nextSeq)
    }

    constructor ()
      ensures Snapshot() == IDLE
    {
      active, cid, cmd, total, buf, nextSeq := false, 0, 0, 0, [], 0;
    }

    method Reset()
      modifies this
      ensures Snapshot() == IDLE
    {
      active, cid, cmd, total, buf, nextSeq := false, 0, 0, 0, [], 0;
    }

    method Process(raw: seq<byte>) returns (r: Result<Option<Message>, FrameError>)
      requires Consistent(Snapshot())
      modifies this
      ensures Consistent(Snapshot())
      ensures |raw| != PACKET_SIZE ==> r == Err(BadPacketLength) && Snapshot() == old(Snapshot())
      ensures |raw| == PACKET_SIZE ==>
        r.Ok? && (r.value, Snapshot()) == Step(old(Snapshot()), raw)
    {
      var parsed := ParsePacket(raw);
      if parsed.Err? {
        return Err(parsed.error);
      }
      var pkt := parsed.value;
      if pkt.isInit {
        var bcnt := Bcnt(raw);
        if bcnt > MAX_PAYLOAD {
          Reset();
          return Ok(None);
        }
        if pkt.cmd == CMD_CANCEL {
          Reset();
          return Ok(Some(Message(pkt.cid, CMD_CANCEL, [])));
        }
        if bcnt <= INIT_PAYLOAD {
          Reset();
          assert pkt.data[..bcnt] == pkt.data;
          return Ok(Some(Message(pkt.cid, pkt.cmd, pkt.data[..bcnt])));
        }
        active, cid, cmd, total, buf, nextSeq := true, pkt.cid, pkt.cmd, bcnt, pkt.data, 0;
        return Ok(None);
      }
      if !active || pkt.cid != cid || pkt.cmd != nextSeq {
        Reset();
        return Ok(None);
      }
      var remaining := total - |buf|;
      var chunk := pkt.data[..Min(remaining, CONT_PAYLOAD)];
      buf := buf + chunk;
      nextSeq := (nextSeq + 1) % 0x80;
      if |buf| >= total {
        var out := Message(cid, cmd, buf);
        Reset();
        return Ok(Some(out));
      }
      return Ok(None);
    }
  }

  // ---------- Streams ----------

  predicate Packets(stream: seq<seq<byte>>) {
    forall i :: 0 <= i < |stream| ==> |stream[i]| == PACKET_SIZE
  }

  // The assembler after a stream, and what the last packet made it emit.
  function Feed(a: Asm, stream: seq<seq<byte>>): (r: (Option<Message>, Asm))
    requires Packets(stream) && Consistent(a)
    ensures Consistent(r.1)
    decreases |stream|
  {
    if stream == [] then (None, a)
    else
      var before := Feed(a, stream[..|stream| - 1]).1;
      StepKeepsConsistent(before, stream[|stream| - 1]);
      Step(before, stream[|stream| - 1])
  }

  lemma StepKeepsConsistent(a: Asm, raw: seq<byte>)
    requires |raw| == PACKET_SIZE && Consistent(a)
    ensures Consistent(Step(a, raw).1)
  {
  }

  // ---------- Soundness on arbitrary streams ----------

  // The bytes a run of one INIT and `k` continuation packets carries.
  function Carried(run: seq<seq<byte>>): (r: seq<byte>)
    requires Packets(run) && run != []
    ensures |r| == INIT_PAYLOAD + CONT_PAYLOAD * (|run| - 1)
    decreases |run|
  {
    if |run| == 1 then run[0][7..] else Carried(run[..|run| - 1]) + run[|run| - 1][5..]
  }

  // One INIT packet of a message longer than it, then continuations of the same channel
  // numbered 0, 1, 2, ... modulo 128.
  ghost predicate IsRun(run: seq<seq<byte>>, cid: nat, cmd: nat, total: nat) {
    && Packets(run) && run != []
    && (var first := ParsePacket(run[0]).value;
        first.isInit && first.cid == cid && first.cmd == cmd && Bcnt(run[0]) == total)
    && forall i :: 1 <= i < |run| ==>
        var pkt := ParsePacket(run[i]).value;
        !pkt.isInit && pkt.cid == cid && pkt.cmd == (i - 1) % 0x80
  }

  // A message is explained by the last packets of the stream.
  ghost predicate Explains(stream: seq<seq<byte>>, m: Message) {
    exists start :: 0 <= start < |stream| && ExplainsFrom(stream, m, start)
  }

  ghost predicate ExplainsFrom(stream: seq<seq<byte>>, m: Message, start: nat)
    requires start < |stream|
  {
    && IsRun(stream[start..], m.cid, m.cmd, |m.payload|)
    && |stream[start..]| == 1 + ContCount(|m.payload|)
    && m.payload == Carried(stream[start..])[..|m.payload|]
  }

  // While active, the buffer is what the last packets carried, from an INIT on.
  ghost predicate Traced(stream: seq<seq<byte>>, a: Asm) {
    a.active ==> exists start :: 0 <= start < |stream| && TracedFrom(stream, a, start)
  }

  ghost predicate TracedFrom(stream: seq<seq<byte>>, a: Asm, start: nat)
    requires start < |stream|
  {
    && IsRun(stream[start..], a.cid, a.cmd, a.total) && a.cmd != CMD_CANCEL
    && a.buf == Carried(stream[start..])
    && a.nextSeq == (|stream[start..]| - 1) % 0x80
  }

  // Whatever packets arrive, in whatever order: a message other than a CANCEL is exactly as
  // long as its INIT announced and made of that INIT and the following, correctly numbered
  // continuations of its channel.  A CANCEL comes from a CANCEL packet.
  lemma {:induction false} EmittedMessagesAreSound(stream: seq<seq<byte>>)
    requires Packets(stream) && stream != []
    ensures var (out, a) := Feed(IDLE, stream);
      && Traced(stream, a)
      && (out.Some? ==>
          if out.value.cmd == CMD_CANCEL then
            var pkt := ParsePacket(stream[|stream| - 1]).value;
            pkt.isInit && pkt.cmd == CMD_CANCEL && out.value == Message(pkt.cid, CMD_CANCEL, [])
          else Explains(stream, out.value))
    decreases |stream|
  {
    hide BeValue;
    var n := |stream| - 1;
    var raw := stream[n];
    var before := Feed(IDLE, stream[..n]).1;
    if n > 0 {
      EmittedMessagesAreSound(stream[..n]);
    }
    var pkt := ParsePacket(raw).value;
    assert stream[n..] == [raw];
    var (out, a) := Step(before, raw);
    if pkt.isInit {
      if a.active {
        assert TracedFrom(stream, a, n);
      }
      if out.Some? && out.value.cmd != CMD_CANCEL {
        assert ExplainsFrom(stream, out.value, n);
      }
    } else if before.active && pkt.cid == before.cid && pkt.cmd == before.nextSeq {
      var start :| 0 <= start < n && TracedFrom(stream[..n], before, start);
      RunExtends(stream, before, start);
    }
  }

  // A continuation that fits extends the run; when the announced length is reached the run
  // is the message.
  lemma RunExtends(stream: seq<seq<byte>>, before: Asm, start: nat)
    requires Packets(stream) && start < |stream| - 1 && Consistent(before) && before.active
    requires TracedFrom(stream[..|stream| - 1], before, start)
    requires var pkt := ParsePacket(stream[|stream| - 1]).value;
      !pkt.isInit && pkt.cid == before.cid && pkt.cmd == before.nextSeq
    ensures var (out, a) := Step(before, stream[|stream| - 1]);
      && (a.active ==> TracedFrom(stream, a, start))
      && (out.Some? ==> out.value.cmd != CMD_CANCEL && ExplainsFrom(stream, out.value, start))
  {
    hide BeValue;
    var n := |stream| - 1;
    var ended, run := stream[..n][start..], stream[start..];
    assert run[..|run| - 1] == ended && run[|run| - 1] == stream[n];
    forall i | 1 <= i < |run|
      ensures var pkt := ParsePacket(run[i]).value;
        !pkt.isInit && pkt.cid == before.cid && pkt.cmd == (i - 1) % 0x80
    {
      if i < |run| - 1 {
        assert run[i] == ended[i];
      }
    }
    var chunk := stream[n][5..][..Min(before.total - |before.buf|, CONT_PAYLOAD)];
    assert before.buf + chunk == Carried(run)[..Min(before.total, |Carried(run)|)];
  }

  // ---------- Round trip ----------

  lemma ParsePackInit(cid: nat, cmd: nat, data: seq<byte>, totalLen: nat)
    requires cid < U32 && cmd < 0x80 && totalLen < U16 && |data| == Min(totalLen, INIT_PAYLOAD)
    ensures var raw := PackInit(cid, cmd, data, totalLen);
      Bcnt(raw) == totalLen && ParsePacket(raw) == Ok(Packet(true, cid, cmd, data))
  {
    hide Be, BeValue;
    Pow256Values();
    BeRoundTrip(cid, 4);
    BeRoundTrip(totalLen, 2);
    var raw := PackInit(cid, cmd, data, totalLen);
    assert raw[..4] == Be(cid, 4) && raw[5..7] == Be(totalLen, 2) && raw[7..7 + |data|] == data;
  }

  lemma ParsePackCont(cid: nat, seqNo: nat, data: seq<byte>)
    requires cid < U32 && seqNo < 0x80 && |data| <= CONT_PAYLOAD
    ensures var pkt := ParsePacket(PackCont(cid, seqNo, data)).value;
      !pkt.isInit && pkt.cid == cid && pkt.cmd == seqNo && |pkt.data| == CONT_PAYLOAD && pkt.data[..|data|] == data
  {
    hide Be, BeValue;
    Pow256Values();
    BeRoundTrip(cid, 4);
    var raw := PackCont(cid, seqNo, data);
    assert raw[..4] == Be(cid, 4) && raw[5..][..|data|] == data;
  }

  // The assembler's state and output after the first `i + 1` fragments.
  ghost predicate Midway(cid: nat, cmd: nat, payload: seq<byte>, i: nat, out: Option<Message>, a: Asm) {
    if i < ContCount(|payload|) then
      out == None && a == Asm(true, cid, cmd, |payload|, payload[..Reach(|payload|, i)], i % 0x80)
    else out == Some(Message(cid, cmd, payload)) && a == IDLE
  }

  lemma FirstFragment(a: Asm, cid: nat, cmd: nat, payload: seq<byte>)
    requires cid < U32 && cmd < 0x80 && cmd != CMD_CANCEL && |payload| <= MAX_PAYLOAD && Consistent(a)
    ensures var (out, after) := Step(a, Fragments(cid, cmd, payload)[0]);
      Midway(cid, cmd, payload, 0, out, after)
  {
    hide PackInit, ParsePacket, Bcnt, ContCount;
    var n := |payload|;
    ContCountCovers(n, 0);
    ParsePackInit(cid, cmd, payload[..Reach(n, 0)], n);
    assert n <= INIT_PAYLOAD ==> payload[..Reach(n, 0)] == payload;
  }

  lemma NextFragment(a: Asm, cid: nat, cmd: nat, payload: seq<byte>, i: nat)
    requires cid < U32 && |payload| <= MAX_PAYLOAD && i < ContCount(|payload|)
    requires a == Asm(true, cid, cmd, |payload|, payload[..Reach(|payload|, i)], i % 0x80)
    ensures var (out, after) := Step(a, Cont(cid, payload, i));
      Midway(cid, cmd, payload, i + 1, out, after)
  {
    hide PackCont, ParsePacket, Bcnt, ContCount;
    var n := |payload|;
    ContCountCovers(n, i);
    ContCountCovers(n, i + 1);
    var chunk := payload[Reach(n, i)..Reach(n, i + 1)];
    ParsePackCont(cid, i % 0x80, chunk);
    assert payload[..Reach(n, i)] + chunk == payload[..Reach(n, i + 1)];
    assert Reach(n, i + 1) == n ==> payload[..Reach(n, i + 1)] == payload;
  }

  // From any state of the assembler, the fragments of a message make it emit nothing until
  // the last one, and then the message.
  lemma {:induction false} FragmentsReassemble(a: Asm, cid: nat, cmd: nat, payload: seq<byte>, i: nat)
    requires cid < U32 && cmd < 0x80 && cmd != CMD_CANCEL && |payload| <= MAX_PAYLOAD && Consistent(a)
    requires i <= ContCount(|payload|)
    ensures Packets(Fragments(cid, cmd, payload))
    ensures var (out, after) := Feed(a, Fragments(cid, cmd, payload)[..i + 1]);
      Midway(cid, cmd, payload, i, out, after)
    decreases i
  {
    hide PackInit, PackCont, ParsePacket, Bcnt, Step, ContCount, Reach;
    var packets := Fragments(cid, cmd, payload);
    assert packets[..i + 1][..i] == packets[..i];
    if i == 0 {
      FirstFragment(a, cid, cmd, payload);
    } else {
      FragmentsReassemble(a, cid, cmd, payload, i - 1);
      var before := Feed(a, packets[..i]).1;
      NextFragment(before, cid, cmd, payload, i - 1);
      assert packets[i] == Cont(cid, payload, i - 1);
    }
  }

  // ---------- The bytes on the wire ----------

  // Four bytes, the highest first.
  function Word32(raw: seq<byte>): nat
    requires |raw| >= 4
  {
    raw[0] as nat * 0x100_0000 + raw[1] as nat * 0x1_0000 + raw[2] as nat * 0x100 + raw[3] as nat
  }

  lemma BigEndian(b: seq<byte>)
    ensures |b| == 2 ==> BeValue(b) == b[0] as nat * 0x100 + b[1] as nat
    ensures |b| == 4 ==> BeValue(b) == Word32(b)
  {
    if |b| in {2, 4} {
      var b1 := b[..|b| - 1];
      var b2 := b1[..|b1| - 1];
      assert BeValue(b) == 0x100 * BeValue(b1) + b[|b| - 1] as int;
      assert BeValue(b1) == 0x100 * BeValue(b2) + b1[|b1| - 1] as int;
      if |b| == 4 {
        var b3 := b2[..1];
        assert BeValue(b2) == 0x100 * BeValue(b3) + b2[1] as int;
        assert b3[..0] == [] && BeValue(b3) == b3[0] as int;
      } else {
        assert b2 == [] && BeValue(b2) == 0;
      }
    }
  }

  // Where each field of a packet is.
  lemma PacketLayout(raw: seq<byte>)
    requires |raw| == 64
    ensures ParsePacket(raw).Ok?
    ensures var p := ParsePacket(raw).value;
      && (p.isInit <==> raw[4] >= 0x80) && p.cid == Word32(raw) && p.cmd == raw[4] as int % 0x80
      && Bcnt(raw) == raw[5] as nat * 0x100 + raw[6] as nat
      && (p.isInit ==> p.data == raw[7..7 + Min(raw[5] as nat * 0x100 + raw[6] as nat, 57)])
      && (!p.isInit ==> p.data == raw[5..])
  {
    BigEndian(raw[..4]);
    BigEndian(raw[5..7]);
    hide BeValue;
  }

  // A packet of a message on a channel: the channel, then 80 plus the command and the length,
  // or the number of the continuation.
  predicate IsInitOf(raw: seq<byte>, cid: nat, cmd: nat, total: nat) {
    |raw| == 64 && Word32(raw) == cid && raw[4] as int == 0x80 + cmd && raw[5] as nat * 0x100 + raw[6] as nat == total
  }

  predicate IsContOf(raw: seq<byte>, cid: nat, seqNo: nat) {
    |raw| == 64 && Word32(raw) == cid && raw[4] as int == seqNo % 0x80
  }

  // What the last packets of a stream must be for a message to come out of them: its INIT, as
  // many continuations as it takes, numbered from 0, and its bytes in them, in order.
  ghost predicate OnTheWire(stream: seq<seq<byte>>, m: Message, start: nat) {
    && start < |stream| && Packets(stream)
    && IsInitOf(stream[start], m.cid, m.cmd, |m.payload|)
    && (forall i :: start < i < |stream| ==> IsContOf(stream[i], m.cid, i - start - 1))
    && (var k := |stream| - start - 1;
        |m.payload| <= 57 + 59 * k && (k > 0 ==> 57 + 59 * (k - 1) < |m.payload|))
    && m.payload == Carried(stream[start..])[..|m.payload|]
  }

  lemma ExplainedOnTheWire(stream: seq<seq<byte>>, m: Message, start: nat)
    requires Packets(stream) && start < |stream| && ExplainsFrom(stream, m, start)
    ensures OnTheWire(stream, m, start)
  {
    hide ParsePacket, Bcnt, Carried, ContCount;
    var run := stream[start..];
    PacketLayout(run[0]);
    forall i | start < i < |stream|
      ensures IsContOf(stream[i], m.cid, i - start - 1)
    {
      assert stream[i] == run[i - start];
      PacketLayout(run[i - start]);
    }
    ContCountCovers(|m.payload|, |run| - 1);
    if |run| > 1 {
      ContCountCovers(|m.payload|, |run| - 2);
    }
  }

  // Soundness in bytes: whatever comes out of a stream was on the wire, and a CANCEL is the
  // INIT packet with 91 in its fifth byte.
  lemma MessagesWereOnTheWire(stream: seq<seq<byte>>)
    requires Packets(stream) && stream != []
    ensures var out := Feed(IDLE, stream).0;
      out.Some? ==>
        if out.value.cmd == 0x11 then
          var last := stream[|stream| - 1];
          last[4] == 0x91 && out.value == Message(Word32(last), 0x11, [])
        else exists start :: OnTheWire(stream, out.value, start)
  {
    EmittedMessagesAreSound(stream);
    PacketLayout(stream[|stream| - 1]);
    hide ParsePacket, Feed, Traced, OnTheWire;
    var out := Feed(IDLE, stream).0;
    if out.Some? && out.value.cmd != 0x11 {
      var start :| 0 <= start < |stream| && ExplainsFrom(stream, out.value, start);
      ExplainedOnTheWire(stream, out.value, start);
    }
  }

  // What a message looks like on the wire: the first 57 bytes in the INIT, the rest 59 at a
  // time, padded with zeros.
  lemma FragmentBytes(cid: nat, cmd: nat, payload: seq<byte>, i: nat)
    requires cid < U32 && cmd < 0x80 && |payload| <= MAX_PAYLOAD && 57 + 59 * i < |payload|
    ensures var packets := Fragments(cid, cmd, payload);
      && IsInitOf(packets[0], cid, cmd, |payload|) && packets[0][7..] == payload[..57]
      && 1 + i < |packets| && IsContOf(packets[1 + i], cid, i)
      && (var end := if 57 + 59 * (i + 1) < |payload| then 57 + 59 * (i + 1) else |payload|;
          packets[1 + i][5..] == payload[57 + 59 * i..end] + Filled(59 - (end - (57 + 59 * i)), 0))
  {
    hide PackInit, PackCont, ContCount, IsInitOf, IsContOf;
    FragmentAt(cid, cmd, payload, i);
    InitBytes(cid, cmd, payload[..57], |payload|);
    var offset := 57 + 59 * i;
    ContBytes(cid, i % 0x80, payload[offset..Min(offset + 59, |payload|)]);
    SameNumber(Fragments(cid, cmd, payload)[1 + i], cid, i);
    assert payload[..57] + Filled(0, 0) == payload[..57];
  }

  lemma SameNumber(raw: seq<byte>, cid: nat, i: nat)
    ensures IsContOf(raw, cid, i % 0x80) ==> IsContOf(raw, cid, i)
  {
  }

  lemma OnePacketBytes(cid: nat, cmd: nat, payload: seq<byte>)
    requires cid < U32 && cmd < 0x80 && |payload| <= 57
    ensures var packets := Fragments(cid, cmd, payload);
      && |packets| == 1 && IsInitOf(packets[0], cid, cmd, |payload|)
      && packets[0][7..] == payload + Filled(57 - |payload|, 0)
  {
    InitBytes(cid, cmd, payload, |payload|);
    assert payload[..|payload|] == payload;
    hide PackInit, IsInitOf;
  }

  lemma InitBytes(cid: nat, cmd: nat, data: seq<byte>, total: nat)
    requires cid < U32 && cmd < 0x80 && total < U16 && |data| <= 57
    ensures var raw := PackInit(cid, cmd, data, total);
      IsInitOf(raw, cid, cmd, total) && raw[7..] == data + Filled(57 - |data|, 0)
  {
    hide Be;
    Pow256Values();
    BeRoundTrip(cid, 4);
    BeRoundTrip(total, 2);
    BigEndian(Be(cid, 4));
    BigEndian(Be(total, 2));
    hide BeValue;
    var raw := PackInit(cid, cmd, data, total);
    assert raw[..4] == Be(cid, 4) && raw[5..7] == Be(total, 2);
  }

  lemma ContBytes(cid: nat, seqNo: nat, data: seq<byte>)
    requires cid < U32 && seqNo < 0x80 && |data| <= 59
    ensures var raw := PackCont(cid, seqNo, data);
      IsContOf(raw, cid, seqNo) && raw[5..] == data + Filled(59 - |data|, 0)
  {
    hide Be;
    Pow256Values();
    BeRoundTrip(cid, 4);
    BigEndian(Be(cid, 4));
    hide BeValue;
    assert PackCont(cid, seqNo, data)[..4] == Be(cid, 4);
  }
}
