/**
 What a restart finds: runs of commands, selections and power cycles in which any write may
 fail, with the stored blob beside the applet's memory.
 */
module OathRestarts {
  import opened Bytes
  import opened OathCodec
  import opened OathPlans
  import opened Apdu
  import S = OathSessions
  import T = Tlv
  import R = CardRouter

  // The applet's memory and the blob in storage; and, of the run so far, the state at the last
  // write that succeeded, and whether a write was lost since, its change staying in memory.
  datatype Device = Device(memory: Memory, blob: seq<byte>, saved: OathState, lost: bool)

  datatype Event = Serve(e: S.Event) | PowerCycle

  ghost function PlanOf(crypto: Crypto, m: Memory, e: S.Event): Plan {
    match e
    case Issue(c, chance, _) => ProcessPlan(crypto, m, c, chance)
    case Selection(chance, _) => SelectPlan(m, chance)
  }

  // CALCULATE alone takes its change back when its write fails.
  predicate TakesBack(e: S.Event) {
    e.Issue? && e.c.cla == 0 && e.c.ins == INS_CALCULATE
  }

  ghost function After(crypto: Crypto, d: Device, e: Event): Option<Device> {
    match e
    case PowerCycle =>
      (match Loaded(crypto, Some(d.blob))
       case None => None
       case Some(s) => Some(d.(memory := Memory(s, false, None), lost := false)))
    case Serve(ev) =>
      var plan := PlanOf(crypto, d.memory, ev);
      var m := Settle(plan, ev.storeOk).1;
      if plan.Reply? then Some(d.(memory := m))
      else if ev.storeOk then Some(Device(m, Blob(crypto, m.state, ev.chance.nonce), m.state, false))
      else Some(d.(memory := m, lost := d.lost || !TakesBack(ev)))
  }

  ghost function Run(crypto: Crypto, d: Device, events: seq<Event>): Option<Device> {
    if events == [] then Some(d)
    else match Run(crypto, d, events[..|events| - 1])
      case None => None
      case Some(before) => After(crypto, before, events[|events| - 1])
  }

  ghost predicate Tracked(crypto: Crypto, d: Device) {
    && Good(d.memory) && Good(Memory(d.saved, false, None))
    && Loaded(crypto, Some(d.blob)) == Some(d.saved)
    && (!d.lost ==> d.saved == d.memory.state)
  }

  predicate GoodEvent(e: Event) {
    e.Serve? ==> GoodChance(e.e.chance)
  }

  // ---------- Steps ----------

  // The memory after a failed write: as before for CALCULATE, changed for every other command.
  lemma FailureKeepsChange(crypto: Crypto, m: Memory, e: S.Event)
    requires PlanOf(crypto, m, e).Commit?
    ensures var plan := PlanOf(crypto, m, e);
      plan.onFailure.state == if TakesBack(e) then m.state else plan.memory.state
  {
    hide PutRequest, RenameRequest, TagsOf, CalculateRequest, FactorOf, AllCodes, ListBody, CodeEntry;
  }

  lemma RepliesKeepState(crypto: Crypto, m: Memory, e: S.Event)
    requires PlanOf(crypto, m, e).Reply?
    ensures PlanOf(crypto, m, e).memory.state == m.state
  {
    hide ProcessPlan;
    if e.Issue? {
      S.RepliesKeepState(crypto, m, e.c, e.chance);
    }
  }

  lemma SavedIsGood(m: Memory)
    requires Good(m)
    ensures Good(Memory(m.state, false, None))
  {
    hide Representable;
  }

  lemma StepKeepsTracked(crypto: Crypto, d: Device, e: Event)
    requires LawfulCrypto(crypto) && Tracked(crypto, d) && GoodEvent(e)
    ensures After(crypto, d, e).Some? && Tracked(crypto, After(crypto, d, e).value)
  {
    hide Good, PlanOf, Loaded, Blob, LawfulCrypto;
    if e.Serve? {
      var plan := PlanOf(crypto, d.memory, e.e);
      StepKeepsGood(crypto, d.memory, e.e);
      if plan.Reply? {
        RepliesKeepState(crypto, d.memory, e.e);
      } else if e.e.storeOk {
        SavedIsGood(plan.memory);
        S.StoredStateBoots(crypto, plan.memory, e.e.chance.nonce);
      } else {
        FailureKeepsChange(crypto, d.memory, e.e);
      }
    }
  }

  lemma StepKeepsGood(crypto: Crypto, m: Memory, e: S.Event)
    requires Good(m) && GoodChance(e.chance)
    ensures Good(Settle(PlanOf(crypto, m, e), e.storeOk).1)
  {
    hide Good, ProcessPlan, SelectPlan;
    S.StepKeepsGood(crypto, m, e);
  }

  // ---------- Runs ----------

  // Over any run, whatever writes fail: the device keeps booting; a restart finds exactly the
  // state of the last write that succeeded; and that is the state in memory unless a write of
  // a command other than CALCULATE was lost since.
  lemma {:induction false} RestartReproducesState(crypto: Crypto, d: Device, events: seq<Event>)
    requires LawfulCrypto(crypto) && Tracked(crypto, d)
    requires forall i :: 0 <= i < |events| ==> GoodEvent(events[i])
    ensures var now := Run(crypto, d, events);
      && now.Some? && Tracked(crypto, now.value)
      && (var restarted := After(crypto, now.value, PowerCycle);
          && restarted.Some? && restarted.value.memory == Memory(now.value.saved, false, None)
          && (!now.value.lost ==> restarted.value.memory.state == now.value.memory.state))
    decreases |events|
  {
    hide Good, PlanOf, Loaded, Blob, LawfulCrypto;
    if events != [] {
      var n := |events| - 1;
      RestartReproducesState(crypto, d, events[..n]);
      StepKeepsTracked(crypto, Run(crypto, d, events[..n]).value, events[n]);
    }
  }

  // Exactly which step parts memory from storage: a failed write of a change that is not
  // taken back.
  lemma PartedIffLost(crypto: Crypto, d: Device, e: S.Event)
    requires LawfulCrypto(crypto) && Tracked(crypto, d) && !d.lost && GoodChance(e.chance)
    ensures After(crypto, d, Serve(e)).Some?
    ensures var after := After(crypto, d, Serve(e)).value;
      var plan := PlanOf(crypto, d.memory, e);
      (Loaded(crypto, Some(after.blob)) != Some(after.memory.state)) <==>
      (plan.Commit? && !e.storeOk && !TakesBack(e) && plan.memory.state != d.memory.state)
  {
    StepKeepsTracked(crypto, d, Serve(e));
    hide Good, PlanOf, Loaded, Blob, LawfulCrypto;
    if PlanOf(crypto, d.memory, e).Commit? {
      FailureKeepsChange(crypto, d.memory, e);
    }
  }

  // So a restart after a command that answered success need not reproduce the state: after a
  // PUT whose write failed, LIST answers success and counts a credential that a restart drops.
  lemma FailedPutThenList(crypto: Crypto, d: Device, put: S.Event, list: S.Event)
    requires Tracked(crypto, d) && !d.lost && d.memory.state.access.None? && d.memory.state.credentials == map[]
    requires put.Issue? && !put.storeOk && put.c.cla == 0 && put.c.ins == INS_PUT && PutRequest(put.c.data).Some?
    requires list.Issue? && list.c.cla == 0 && list.c.ins == INS_LIST
    ensures var mid := After(crypto, d, Serve(put));
      && mid.Some? && Settle(PlanOf(crypto, d.memory, put), put.storeOk).0 == Err(SW_GENERIC_ERROR)
      && (var now := After(crypto, mid.value, Serve(list));
          && now.Some? && Settle(PlanOf(crypto, mid.value.memory, list), list.storeOk).0.Ok?
          && PutRequest(put.c.data).value.0 in now.value.memory.state.credentials
          && (var restarted := After(crypto, now.value, PowerCycle);
              restarted.Some? && restarted.value.memory.state.credentials == map[]))
  {
    hide Loaded, Blob, ProcessPlan, PutRequest, Good;
    PutIsPlanned(crypto, d.memory, put.c, put.chance);
    var mid := After(crypto, d, Serve(put)).value;
    ListAnswers(crypto, mid.memory, list.c, list.chance);
  }

  // A fresh device, and a PUT and a LIST as a host sends them, meet these conditions.
  lemma SomePutIsLost(crypto: Crypto, chance: Chance) returns (d: Device, put: S.Event, list: S.Event)
    requires LawfulCrypto(crypto) && GoodChance(chance)
    ensures Tracked(crypto, d) && !d.lost && d.memory == Memory(Factory(chance.salt), false, None)
    ensures put.Issue? && !put.storeOk && put.c.cla == 0 && put.c.ins == INS_PUT && PutRequest(put.c.data).Some?
    ensures list.Issue? && list.c.cla == 0 && list.c.ins == INS_LIST
  {
    hide LawfulCrypto, Loaded, Blob, PutRequest, Tracked, T.Flatten;
    var m := Memory(Factory(chance.salt), false, None);
    d := Device(m, Blob(crypto, m.state, chance.nonce), m.state, false);
    FactoryIsTracked(crypto, d, chance);
    var tlvs: seq<T.Tlv> := [(TAG_NAME, [0x61]), (TAG_KEY, [0x21, 6, 1])];
    NewName(tlvs);
    put := S.Issue(Command(0, INS_PUT, 0, 0, T.Flatten(tlvs), None), chance, false);
    list := S.Issue(Command(0, INS_LIST, 0, 0, [], None), chance, true);
  }

  lemma FactoryIsTracked(crypto: Crypto, d: Device, chance: Chance)
    requires LawfulCrypto(crypto) && GoodChance(chance)
    requires d == Device(Memory(Factory(chance.salt), false, None), Blob(crypto, Factory(chance.salt), chance.nonce),
                         Factory(chance.salt), false)
    ensures Tracked(crypto, d)
  {
    hide LawfulCrypto, Loaded, Blob;
    S.StoredStateBoots(crypto, d.memory, chance.nonce);
  }

  lemma PutIsPlanned(crypto: Crypto, m: Memory, c: Command, chance: Chance)
    requires c.cla == 0 && c.ins == INS_PUT && m.state.access.None? && m.state.credentials == map[]
    requires PutRequest(c.data).Some?
    ensures var plan := ProcessPlan(crypto, m, c, chance);
      plan.Commit? && PutRequest(c.data).value.0 in plan.onFailure.state.credentials && plan.onFailure.state.access.None?
  {
    hide PutRequest;
  }

  lemma ListAnswers(crypto: Crypto, m: Memory, c: Command, chance: Chance)
    requires c.cla == 0 && c.ins == INS_LIST && m.state.access.None?
    ensures var plan := ProcessPlan(crypto, m, c, chance);
      plan.Reply? && plan.answer.Ok? && plan.memory.state == m.state
  {
    hide ListBody;
  }

  lemma NewName(tlvs: seq<T.Tlv>)
    requires tlvs == [(TAG_NAME, [0x61]), (TAG_KEY, [0x21, 6, 1])]
    ensures PutRequest(T.Flatten(tlvs)).Some?
  {
    hide T.Flatten, T.Parsed, T.Values, TagsOf, FirstValue;
    var required, optional := [TAG_NAME, TAG_KEY], [TAG_PROPERTY, TAG_IMF];
    T.ParsedFlatten(tlvs);
    TwoValues(tlvs);
    TagsOfExact(T.Flatten(tlvs), required, optional);
    assert ExactlyTagged(tlvs, required, optional);
    hide ExactlyTagged, Distinct;
    var found := TagsOf(T.Flatten(tlvs), required, optional).value;
    forall i | 0 <= i < 4
      ensures found[i] == FirstValue(tlvs, (required + optional)[i])
    {
    }
    assert found == [Some([0x61]), Some([0x21, 6, 1]), None, None];
  }

  lemma TwoValues(tlvs: seq<T.Tlv>)
    requires |tlvs| == 2 && tlvs[0].0 == TAG_NAME && tlvs[1].0 == TAG_KEY
    ensures forall t :: T.Values(tlvs, t) == (if t == TAG_NAME then [tlvs[0].1] else if t == TAG_KEY then [tlvs[1].1] else [])
    ensures FirstValue(tlvs, TAG_NAME) == Some(tlvs[0].1) && FirstValue(tlvs, TAG_KEY) == Some(tlvs[1].1)
    ensures FirstValue(tlvs, TAG_PROPERTY) == None == FirstValue(tlvs, TAG_IMF)
    ensures TagSet(tlvs) == {TAG_NAME, TAG_KEY}
  {
    var rest := tlvs[1..];
    assert rest[1..] == [] && tlvs == [tlvs[0], tlvs[1]];
    forall t: byte
      ensures T.Values(tlvs, t) == if t == TAG_NAME then [tlvs[0].1] else if t == TAG_KEY then [tlvs[1].1] else []
    {
      assert T.Values(rest, t) == if t == TAG_KEY then [tlvs[1].1] else [];
    }
  }
}
