/**
 Two continuations of one response: the router's own chain (GET RESPONSE) and the mirror the
 OATH applet keeps for SEND REMAINING.  They agree on where the inline part ended.
 */
module OathChain {
  import opened Bytes
  import opened Apdu
  import opened OathPlans
  import R = CardRouter
  import T = Tlv

  // The applet's memory and how many commands it has seen; each command meets its own random
  // bytes and its own storage outcome.
  datatype Card = Card(memory: Memory, tick: nat)

  datatype Draw = Draw(chance: Chance, storeOk: bool)

  ghost function OathOnCard(crypto: Crypto, draw: nat -> Draw): R.Applet<Card> {
    R.Applet(
      [0xA0, 0x00, 0x00, 0x05, 0x27, 0x21, 0x01],
      (s: Card) =>
        var (answer, m) := Settle(SelectPlan(s.memory, draw(s.tick).chance), draw(s.tick).storeOk);
        ((match answer case Ok(_) => Ok(()) case Err(sw) => Err(sw)), Card(m, s.tick + 1)),
      (s: Card) => (SelectBody(s.memory), s),
      (s: Card, c: Command) =>
        var (answer, m) := Settle(ProcessPlan(crypto, s.memory, c, draw(s.tick).chance), draw(s.tick).storeOk);
        (answer, Card(m, s.tick + 1)))
  }

  // The OATH applet is registered and selected.
  ghost predicate Selected(crypto: Crypto, draw: nat -> Draw, applets: seq<R.Applet<Card>>, st: R.State<Card>) {
    && R.Valid(applets, st) && st.selected.Some?
    && applets[st.selected.value] == OathOnCard(crypto, draw)
  }

  ghost function MemoryOf(applets: seq<R.Applet<Card>>, st: R.State<Card>): Memory
    requires R.Valid(applets, st) && st.selected.Some?
  {
    st.applets[st.selected.value].memory
  }

  predicate IsSendRemaining(frame: seq<byte>) {
    Parse(frame).Ok? && Parse(frame).value.cla == 0 && Parse(frame).value.ins == INS_SEND_REMAINING
  }

  // An OATH command as the applet gets it from the router.  CALCULATE ALL is not among them:
  // its instruction byte is that of SELECT (see `CalculateAllIsASelection`).
  predicate IsOathCommand(frame: seq<byte>) {
    && R.IsAppletCommand(frame) && Parse(frame).value.cla == 0 && Parse(frame).value.ins != INS_SEND_REMAINING
  }

  // The applet still mirrors `buf` from `pos` on.
  ghost predicate Pending(applets: seq<R.Applet<Card>>, st: R.State<Card>, buf: seq<byte>, pos: nat)
    requires R.Valid(applets, st) && st.selected.Some?
  {
    !Locked(MemoryOf(applets, st)) && MemoryOf(applets, st).remaining == Some((buf, pos)) && pos < |buf|
  }

  // ---------- CALCULATE ALL does not arrive ----------

  // CALCULATE ALL and SELECT share the instruction byte A4, and the router looks at it first:
  // the frame is a selection by its data field, and the OATH applet never sees the command.
  // A request the applet would have answered starts with the challenge tag, so unless an
  // identifier starts with that byte the answer is 6A82, and nothing but the chain changes.
  lemma CalculateAllIsASelection(
      crypto: Crypto, draw: nat -> Draw, applets: seq<R.Applet<Card>>, st: R.State<Card>, frame: seq<byte>)
    requires Selected(crypto, draw, applets, st) && Parse(frame).Ok? && Parse(frame).value.ins == INS_CALCULATE_ALL
    ensures !IsOathCommand(frame)
    ensures R.Process(applets, st, frame) == R.HandleSelect(applets, st.(chain := None), Parse(frame).value.data)
    ensures CalculateAllRequest(Parse(frame).value.p2, Parse(frame).value.data).Some?
            && (forall i :: 0 <= i < |applets| ==> !([TAG_CHALLENGE] <= applets[i].aid)) ==>
      R.Process(applets, st, frame) == (R.Reply([], R.SW_FILE_NOT_FOUND), st.(chain := None))
  {
    var c := Parse(frame).value;
    hide Parse, TagsOf, R.Scan;
    if CalculateAllRequest(c.p2, c.data).Some? && (forall i :: 0 <= i < |applets| ==> !([TAG_CHALLENGE] <= applets[i].aid)) {
      ChallengeComesFirst(c.p2, c.data);
      NothingSelected(applets, c.data);
    }
  }

  lemma ChallengeComesFirst(p2: byte, data: seq<byte>)
    requires CalculateAllRequest(p2, data).Some?
    ensures data != [] && data[0] == TAG_CHALLENGE
  {
    TagsOfExact(data, [TAG_CHALLENGE], []);
    var tlvs := T.Parsed(data).value;
    assert |T.Values(tlvs, TAG_CHALLENGE)| == 1;
    assert tlvs != [] && tlvs[0].0 in TagSet(tlvs);
  }

  lemma NothingSelected(applets: seq<R.Applet<Card>>, requested: seq<byte>)
    requires requested != [] && forall i :: 0 <= i < |applets| ==> !([requested[0]] <= applets[i].aid)
    ensures R.Scan(R.Aids(applets), requested, 0, None, 0) == None
  {
    hide R.Scan;
    var aids := R.Aids(applets);
    R.ScanFindsMatch(aids, requested);
    forall i | 0 <= i < |aids|
      ensures !(requested <= aids[i])
    {
      assert aids[i] == applets[i].aid;
    }
    assert requested !in aids;
  }

  // ---------- After the command ----------

  lemma MirroredRemaining(m: Memory, answer: Answer, le: Option<nat>)
    ensures Mirrored(m, answer, le).remaining == match answer
      case Err(_) => None
      case Ok(r) => if r.data == [] then None
                    else Some((r.data, if le.None? then 0 else if le.value < |r.data| then le.value else |r.data|))
  {
  }

  // Whatever the command that reaches the applet, its Le and the outcome of its write: the
  // mirror holds the whole response, from exactly where the router's inline delivery stopped.
  lemma MirrorStartsWhereInlineEnded(
      crypto: Crypto, draw: nat -> Draw, applets: seq<R.Applet<Card>>, st: R.State<Card>, command: seq<byte>)
    requires Selected(crypto, draw, applets, st) && IsOathCommand(command)
    ensures var c := Parse(command).value;
      var card := st.applets[st.selected.value];
      var answer := Settle(ProcessPlan(crypto, card.memory, c, draw(card.tick).chance), draw(card.tick).storeOk).0;
      var (first, st1) := R.Process(applets, st, command);
      && Selected(crypto, draw, applets, st1)
      && match answer
         case Err(sw) => first == R.Reply([], sw) && MemoryOf(applets, st1).remaining == None
         case Ok(r) =>
           && first.data <= r.data
           && MemoryOf(applets, st1).remaining == (if r.data == [] then None else Some((r.data, |first.data|)))
           && (|first.data| == |r.data| ==> first.sw == R.Sw(r))
           && (|first.data| < |r.data| ==> first.sw == R.SwMoreData(|r.data| - |first.data|))
  {
    hide Parse, DispatchPlan, R.SwMoreData;
    var c := Parse(command).value;
    var card := st.applets[st.selected.value];
    var plan := DispatchPlan(crypto, card.memory, c, draw(card.tick).chance);
    MirroredRemaining(plan.memory, plan.answer, c.le);
    if plan.Commit? {
      MirroredRemaining(plan.onFailure, Err(SW_GENERIC_ERROR), c.le);
    }
  }

  // ---------- Draining the mirror ----------

  function Least(a: nat, b: nat, c: nat): nat {
    if a <= b && a <= c then a else if b <= c then b else c
  }

  // With Le present the window comes back inline, whole: as much as Le asks for, at most 255
  // bytes.  The mirror moves on by exactly that.
  lemma WindowWithLe(
      crypto: Crypto, draw: nat -> Draw, applets: seq<R.Applet<Card>>, st: R.State<Card>, frame: seq<byte>,
      buf: seq<byte>, pos: nat)
    requires Selected(crypto, draw, applets, st) && Pending(applets, st, buf, pos)
    requires IsSendRemaining(frame) && Parse(frame).value.le.Some?
    ensures var (reply, st1) := R.Process(applets, st, frame);
      var end := pos + |reply.data|;
      && Selected(crypto, draw, applets, st1) && st1.chain == None
      && reply.data != [] && end <= |buf| && reply.data == buf[pos..end]
      && |reply.data| == Least(Parse(frame).value.le.value, 255, |buf| - pos)
      && reply.sw == (if end == |buf| then R.SW_NO_ERROR else R.SwMoreData(|buf| - end))
      && (if end == |buf| then MemoryOf(applets, st1).remaining == None else Pending(applets, st1, buf, end))
  {
    hide DispatchPlan, R.SwMoreData;
    var le := Parse(frame).value.le;
    assert le.value >= 1;
    hide Parse;
  }

  // SEND REMAINING delivers the window it takes from the mirror exactly when Le is present.
  // Without Le the router retains the window and sends none of it, while the mirror has
  // already moved on: the bytes are lost to a host that sends SEND REMAINING again.
  lemma WindowDeliveredIffLe(
      crypto: Crypto, draw: nat -> Draw, applets: seq<R.Applet<Card>>, st: R.State<Card>, frame: seq<byte>,
      buf: seq<byte>, pos: nat)
    requires Selected(crypto, draw, applets, st) && Pending(applets, st, buf, pos) && IsSendRemaining(frame)
    ensures var (reply, st1) := R.Process(applets, st, frame);
      var m := MemoryOf(applets, st1).remaining;
      var end := if m.Some? then m.value.1 else |buf|;
      && pos < end <= |buf|
      && (reply.data == buf[pos..end] <==> Parse(frame).value.le.Some?)
      && (Parse(frame).value.le.None? ==>
            reply.data == [] && st1.chain.Some? && st1.chain.value.buf == buf[pos..end] && st1.chain.value.pos == 0)
  {
    hide DispatchPlan, R.SwMoreData;
    var le := Parse(frame).value.le;
    assert le.Some? ==> le.value >= 1;
    hide Parse;
  }

  predicate IsMoreData(sw: nat) {
    sw / 0x100 == 0x61
  }

  lemma MoreDataStatus(left: nat)
    ensures IsMoreData(R.SwMoreData(left)) && !IsMoreData(R.SW_NO_ERROR)
  {
  }

  // SEND REMAINING with Le.
  predicate AsksForWindow(frame: seq<byte>) {
    IsSendRemaining(frame) && Parse(frame).value.le.Some?
  }

  predicate Continues(frames: seq<seq<byte>>, replies: seq<R.Reply>) {
    && |replies| == |frames|
    && (forall i :: 0 <= i < |frames| ==> AsksForWindow(frames[i]))
    && (forall i :: 0 <= i < |frames| - 1 ==> IsMoreData(replies[i].sw))
  }

  lemma ContinuesFront(frames: seq<seq<byte>>, replies: seq<R.Reply>)
    requires Continues(frames, replies) && frames != []
    ensures var n := |frames| - 1;
      && Continues(frames[..n], replies[..n]) && AsksForWindow(frames[n])
      && (n > 0 ==> IsMoreData(replies[n - 1].sw))
  {
    hide AsksForWindow, IsMoreData;
  }

  // The frames a host sends: SEND REMAINING with Le, one after another as long as it is told
  // that more data is available.
  ghost predicate HostContinues(applets: seq<R.Applet<Card>>, st: R.State<Card>, frames: seq<seq<byte>>)
    requires R.Valid(applets, st)
  {
    Continues(frames, R.Session(applets, st, frames).0)
  }

  // What the host has read of `buf` from `pos` on, and where the mirror stands.
  ghost predicate Drained(crypto: Crypto, draw: nat -> Draw, applets: seq<R.Applet<Card>>, st: R.State<Card>,
                          buf: seq<byte>, pos: nat, replies: seq<R.Reply>) {
    var read := pos + |R.Concat(replies)|;
    && Selected(crypto, draw, applets, st)
    && R.ChunksExact(R.Chain(buf, pos, R.SW_NO_ERROR), replies)
    && (read < |buf| ==> Pending(applets, st, buf, read))
    && (read == |buf| ==> replies != [] && replies[|replies| - 1].sw == R.SW_NO_ERROR)
  }

  lemma OneMoreWindow(
      crypto: Crypto, draw: nat -> Draw, applets: seq<R.Applet<Card>>, st: R.State<Card>, frame: seq<byte>,
      buf: seq<byte>, pos: nat, replies: seq<R.Reply>)
    requires Drained(crypto, draw, applets, st, buf, pos, replies)
    requires replies != [] ==> IsMoreData(replies[|replies| - 1].sw)
    requires AsksForWindow(frame)
    ensures R.Valid(applets, st)
    ensures var (reply, st1) := R.Process(applets, st, frame);
      Drained(crypto, draw, applets, st1, buf, pos, replies + [reply])
  {
    hide Parse, R.Process, R.SwMoreData, Pending, IsSendRemaining;
    var read := pos + |R.Concat(replies)|;
    WindowWithLe(crypto, draw, applets, st, frame, buf, read);
    hide Selected;
    R.OneMoreChunk(R.Chain(buf, pos, R.SW_NO_ERROR), replies, R.Process(applets, st, frame).0);
    hide R.ChunksExact;
  }

  lemma FrontContinues(applets: seq<R.Applet<Card>>, st: R.State<Card>, frames: seq<seq<byte>>)
    requires R.Valid(applets, st) && HostContinues(applets, st, frames) && frames != []
    ensures var front := frames[..|frames| - 1];
      var replies := R.Session(applets, st, front).0;
      && HostContinues(applets, st, front)
      && AsksForWindow(frames[|front|])
      && (replies != [] ==> IsMoreData(replies[|replies| - 1].sw))
  {
    SessionFront(applets, st, frames);
    ContinuesFront(frames, R.Session(applets, st, frames).0);
    hide R.Session, IsMoreData, AsksForWindow, R.Valid, Continues;
  }

  lemma SessionFront(applets: seq<R.Applet<Card>>, st: R.State<Card>, frames: seq<seq<byte>>)
    requires R.Valid(applets, st) && frames != []
    ensures R.Session(applets, st, frames[..|frames| - 1]).0 == R.Session(applets, st, frames).0[..|frames| - 1]
  {
    hide R.Process, R.Valid;
  }

  lemma {:induction false} DrainIsExact(
      crypto: Crypto, draw: nat -> Draw, applets: seq<R.Applet<Card>>, st: R.State<Card>, frames: seq<seq<byte>>,
      buf: seq<byte>, pos: nat)
    requires Selected(crypto, draw, applets, st) && Pending(applets, st, buf, pos)
    requires HostContinues(applets, st, frames)
    ensures var (replies, st1) := R.Session(applets, st, frames);
      Drained(crypto, draw, applets, st1, buf, pos, replies)
    decreases |frames|
  {
    hide Parse, R.Process, IsMoreData, AsksForWindow, R.SwMoreData;
    if frames != [] {
      hide Drained, R.Concat, R.ChunksExact;
      var n := |frames| - 1;
      var (replies, st1) := R.Session(applets, st, frames[..n]);
      FrontContinues(applets, st, frames);
      hide HostContinues;
      DrainIsExact(crypto, draw, applets, st, frames[..n], buf, pos);
      OneMoreWindow(crypto, draw, applets, st1, frames[n], buf, pos, replies);
    }
  }

  // Two chains agree: for every response of the OATH applet the router obtains and every Le, a
  // host that goes on only with SEND REMAINING frames carrying Le reads the response with no gap and no repeat, the announced
  // counts are exact, and 9000 comes with the last byte and only then.
  lemma SendRemainingReassembles(
      crypto: Crypto, draw: nat -> Draw, applets: seq<R.Applet<Card>>, st: R.State<Card>, command: seq<byte>,
      frames: seq<seq<byte>>, r: R.Response)
    requires Selected(crypto, draw, applets, st) && IsOathCommand(command)
    requires var card := st.applets[st.selected.value];
      Settle(ProcessPlan(crypto, card.memory, Parse(command).value, draw(card.tick).chance), draw(card.tick).storeOk).0 == Ok(r)
    requires var (first, st1) := R.Process(applets, st, command);
      |first.data| < |r.data| && !Locked(MemoryOf(applets, st1)) && HostContinues(applets, st1, frames)
    ensures var (first, st1) := R.Process(applets, st, command);
      var (replies, _) := R.Session(applets, st1, frames);
      && first.data + R.Concat(replies) <= r.data
      && R.ChunksExact(R.Chain(r.data, |first.data|, R.SW_NO_ERROR), replies)
      && (replies != [] && !IsMoreData(replies[|replies| - 1].sw) ==>
            first.data + R.Concat(replies) == r.data && replies[|replies| - 1].sw == R.SW_NO_ERROR)
  {
    hide Parse, ProcessPlan, R.Process, R.SwMoreData, IsMoreData, HostContinues;
    MirrorStartsWhereInlineEnded(crypto, draw, applets, st, command);
    var (first, st1) := R.Process(applets, st, command);
    DrainIsExact(crypto, draw, applets, st1, frames, r.data, |first.data|);
    ReadToTheEnd(r.data, first.data, R.Session(applets, st1, frames).0);
  }

  lemma ReadToTheEnd(data: seq<byte>, inline: seq<byte>, replies: seq<R.Reply>)
    requires inline <= data && R.ChunksExact(R.Chain(data, |inline|, R.SW_NO_ERROR), replies)
    ensures inline + R.Concat(replies) <= data
    ensures replies != [] && !IsMoreData(replies[|replies| - 1].sw) ==>
      inline + R.Concat(replies) == data && replies[|replies| - 1].sw == R.SW_NO_ERROR
  {
    hide R.Concat, R.SwMoreData, IsMoreData;
    if replies != [] {
      var i := |replies| - 1;
      assert R.StatusExact(R.Chain(data, |inline|, R.SW_NO_ERROR), replies, i) && replies[..i + 1] == replies;
      var read := |inline| + |R.Concat(replies)|;
      if read < |data| {
        MoreDataStatus(|data| - read);
      }
    }
  }
}
