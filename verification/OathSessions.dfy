/**
 What every OATH command keeps: the limits of the state, the access gate, and the agreement
 between memory and what a restart would load.
 */
module OathSessions {
  import opened Bytes
  import opened OathCodec
  import opened OathPlans
  import T = Tlv
  import opened Apdu
  import R = CardRouter

  // ---------- The limits ----------

  ghost predicate GoodPlan(plan: Plan) {
    Good(plan.memory) && (plan.Commit? ==> Good(plan.onFailure))
  }

  lemma MoreCredentials(creds: map<Name, Credential>, name: Name, c: Credential)
    ensures |creds[name := c]| == if name in creds then |creds| else |creds| + 1
    ensures |creds - {name}| <= |creds|
    ensures name in creds ==> |creds - {name}| == |creds| - 1
  {
    assert creds[name := c].Keys == creds.Keys + {name};
    assert (creds - {name}).Keys == creds.Keys - {name};
  }

  lemma EditsKeepGood(m: Memory, data: seq<byte>)
    requires Good(m)
    ensures GoodPlan(PutPlan(m, data)) && GoodPlan(DeletePlan(m, data)) && GoodPlan(RenamePlan(m, data))
  {
    hide GoodCredential, GoodName;
    PutKeepsGood(m, data);
    DeleteKeepsGood(m, data);
    RenameKeepsGood(m, data);
  }

  lemma PutKeepsGood(m: Memory, data: seq<byte>)
    requires Good(m)
    ensures GoodPlan(PutPlan(m, data))
  {
    hide GoodCredential, GoodName, PutRequest;
    var r := PutRequest(data);
    if r.Some? {
      MoreCredentials(m.state.credentials, r.value.0, r.value.1);
    }
  }

  lemma DeleteKeepsGood(m: Memory, data: seq<byte>)
    requires Good(m)
    ensures GoodPlan(DeletePlan(m, data))
  {
    hide GoodCredential, GoodName, TagsOf;
    var tags := TagsOf(data, [TAG_NAME], []);
    if tags.Some? && tags.value[0].value in m.state.credentials {
      MoreCredentials(m.state.credentials, tags.value[0].value, m.state.credentials[tags.value[0].value]);
    }
  }

  lemma RenameKeepsGood(m: Memory, data: seq<byte>)
    requires Good(m)
    ensures GoodPlan(RenamePlan(m, data))
  {
    hide GoodCredential, GoodName, RenameRequest;
    var names := RenameRequest(data);
    if names.Some? && names.value.0 in m.state.credentials {
      var creds := m.state.credentials;
      var c := creds[names.value.0];
      MoreCredentials(creds, names.value.0, c);
      MoreCredentials(creds - {names.value.0}, names.value.1, c);
    }
  }

  lemma CalculateKeepsGood(crypto: Crypto, m: Memory, p2: byte, data: seq<byte>)
    requires Good(m)
    ensures GoodPlan(CalculatePlan(crypto, m, p2, data))
  {
    hide CalculateRequest, CodeEntry, GoodName;
    var request := CalculateRequest(p2, data);
    if request.Some? && request.value.0 in m.state.credentials {
      var (name, challenge) := request.value;
      var c := m.state.credentials[name];
      FactorInRange(c, challenge);
      MoreCredentials(m.state.credentials, name, c);
      hide FactorOf;
      var factor := FactorOf(c, challenge);
      if factor.Moving? && factor.next.Some? {
        MoreCredentials(m.state.credentials, name, c.(counter := factor.next.value));
        assert Good(WithCounter(m, name, factor.next.value));
      }
    }
  }

  // The factor is the counter's own width, never below the counter, and is followed by a
  // counter that exceeds it exactly when it is not the largest 64-bit value.
  lemma FactorInRange(c: Credential, challenge: seq<byte>)
    requires c.counter < U64
    ensures var f := FactorOf(c, challenge);
      f.Moving? && f.next.Some? ==>
        && c.oathType == Hotp
        && c.counter <= f.used < U64 && f.next.value < U64
        && (f.next.value > f.used <==> f.used < U64 - 1)
        && f.challenge == Be(f.used, 8)
  {
    hide Be, BeValue, Pow256;
    Pow256Values();
    if c.oathType == Hotp && challenge != [] && |challenge| <= 8 {
      BeOfValue(challenge);
      Pow256Monotone(|challenge|, 8);
      BePadded(challenge, 8);
    }
  }

  lemma {:induction false} Pow256Monotone(a: nat, b: nat)
    requires a <= b
    ensures Pow256(a) <= Pow256(b)
    decreases b
  {
    if a < b {
      Pow256Monotone(a, b - 1);
    }
  }

  lemma {:induction false} BePadded(b: seq<byte>, w: nat)
    requires |b| <= w
    ensures Be(BeValue(b), w) == Filled(w - |b|, 0) + b
    decreases w
  {
    if b == [] {
      if w > 0 {
        BePadded([], w - 1);
        assert Be(0, w) == Filled(w - 1, 0) + [0];
      }
    } else {
      var front := b[..|b| - 1];
      BePadded(front, w - 1);
      assert BeValue(b) / 0x100 == BeValue(front) && BeValue(b) % 0x100 == b[|b| - 1] as int;
      assert b == front + [b[|b| - 1]];
    }
  }

  // Every command keeps the limits, whatever becomes of its write.
  lemma CommandsKeepGood(crypto: Crypto, m: Memory, c: Command, chance: Chance)
    requires Good(m) && GoodChance(chance)
    ensures GoodPlan(ProcessPlan(crypto, m, c, chance))
  {
    hide GoodCredential, GoodName, TagsOf, SendRemainingPlan, AllCodes, ListBody;
    EditsKeepGood(m, c.data);
    CalculateKeepsGood(crypto, m, c.p2, c.data);
    hide PutPlan, DeletePlan, RenamePlan, CalculatePlan;
    SendRemainingKeepsGood(m, c.le);
    DispatchKeepsGood(crypto, m, c, chance);
    MirrorKeepsGood(DispatchPlan(crypto, m, c, chance), c.le);
    hide DispatchPlan, MirroredPlan;
  }

  lemma DispatchKeepsGood(crypto: Crypto, m: Memory, c: Command, chance: Chance)
    requires Good(m) && GoodChance(chance)
    ensures GoodPlan(DispatchPlan(crypto, m, c, chance))
  {
    hide GoodCredential, GoodName, TagsOf, PutPlan, DeletePlan, RenamePlan, CalculatePlan, AllCodes, ListBody,
      SetCodePlan, ResetPlan, ValidatePlan, Representable;
    EditsKeepGood(m, c.data);
    CalculateKeepsGood(crypto, m, c.p2, c.data);
    SetCodeKeepsGood(crypto, m, c.data, chance);
    ResetKeepsGood(m, c.p1, c.p2, chance);
    ValidateKeepsGood(crypto, m, c.data);
  }

  lemma SetCodeKeepsGood(crypto: Crypto, m: Memory, data: seq<byte>, chance: Chance)
    requires Good(m) && GoodChance(chance)
    ensures GoodPlan(SetCodePlan(crypto, m, data, chance))
  {
    hide GoodCredential, GoodName, TagsOf;
  }

  lemma ResetKeepsGood(m: Memory, p1: byte, p2: byte, chance: Chance)
    requires Good(m) && GoodChance(chance)
    ensures GoodPlan(ResetPlan(m, p1, p2, chance))
  {
  }

  lemma ValidateKeepsGood(crypto: Crypto, m: Memory, data: seq<byte>)
    requires Good(m)
    ensures GoodPlan(ValidatePlan(crypto, m, data))
  {
    hide GoodCredential, GoodName, TagsOf;
  }

  lemma SendRemainingKeepsGood(m: Memory, le: Option<nat>)
    requires Good(m)
    ensures GoodPlan(SendRemainingPlan(m, le))
  {
    hide Representable;
  }

  lemma MirrorKeepsGood(plan: Plan, le: Option<nat>)
    requires GoodPlan(plan)
    ensures GoodPlan(MirroredPlan(plan, le))
  {
    hide Representable;
  }

  lemma SelectKeepsGood(m: Memory, chance: Chance)
    requires Good(m) && GoodChance(chance)
    ensures GoodPlan(SelectPlan(m, chance))
  {
  }

  // ---------- The access gate ----------

  const GATED: set<byte> := {INS_PUT, INS_DELETE, INS_SET_CODE, INS_RENAME, INS_LIST, INS_CALCULATE, INS_CALCULATE_ALL, INS_SEND_REMAINING}

  // With an access key set and the session not validated, every gated command answers 6982,
  // writes nothing and changes neither the state nor the validation.
  lemma LockedSessionRefuses(crypto: Crypto, m: Memory, c: Command, chance: Chance)
    requires Locked(m) && c.cla == 0 && c.ins in GATED
    ensures var plan := ProcessPlan(crypto, m, c, chance);
      plan.Reply? && plan.answer == Err(R.SW_SECURITY_STATUS)
      && plan.memory.state == m.state && plan.memory.validated == m.validated
  {
  }

  // A locked session is only ever opened, and its state only ever touched, by RESET with its
  // two magic bytes or by VALIDATE with the keyed hash of the pending challenge.
  lemma LockedStateChangesOnlyBy(crypto: Crypto, m: Memory, c: Command, chance: Chance, storeOk: bool)
    requires Locked(m)
    ensures var after := Settle(ProcessPlan(crypto, m, c, chance), storeOk).1;
      after.state != m.state || after.validated ==>
        || (c.cla == 0 && c.ins == INS_RESET && c.p1 == 0xDE && c.p2 == 0xAD)
        || (c.cla == 0 && c.ins == INS_VALIDATE && ProvesKey(crypto, m, c.data))
  {
    hide PutPlan, DeletePlan, SetCodePlan, RenamePlan, CalculatePlan, CalculateAllPlan, ListPlan, SendRemainingPlan;
    ValidateCommitsIff(crypto, m, c.data);
    hide ValidatePlan, ProvesKey;
    if c.cla == 0 && c.ins == INS_SEND_REMAINING {
      assert ProcessPlan(crypto, m, c, chance) == Refuse(m, R.SW_SECURITY_STATUS);
    }
  }

  // The host's response is the keyed hash of the challenge issued to it.
  predicate ProvesKey(crypto: Crypto, m: Memory, data: seq<byte>) {
    && m.state.access.Some? && m.state.pending.Some?
    && (var tags := TagsOf(data, [TAG_RESPONSE, TAG_CHALLENGE], []);
        && tags.Some? && 1 <= |tags.value[1].value| <= MAX_CHALLENGE_LEN
        && crypto.hmac(m.state.access.value.algorithm, m.state.access.value.key, m.state.pending.value) == tags.value[0])
  }

  // VALIDATE goes through exactly then; otherwise the state, and the pending challenge with
  // it, are left alone.
  lemma ValidateCommitsIff(crypto: Crypto, m: Memory, data: seq<byte>)
    ensures var plan := ValidatePlan(crypto, m, data);
      && (plan.Commit? <==> ProvesKey(crypto, m, data))
      && (plan.Commit? ==>
            && plan.memory.validated && plan.onFailure.validated == m.validated
            && plan.memory.state == m.state.(pending := plan.memory.state.pending)
            && plan.memory.state.pending == TagsOf(data, [TAG_RESPONSE, TAG_CHALLENGE], []).value[1])
      && (plan.Reply? ==> plan.memory == m && plan.answer.Err?)
  {
    hide TagsOf;
  }

  // ---------- Runs of a session ----------

  datatype Event = Issue(c: Command, chance: Chance, storeOk: bool) | Selection(chance: Chance, storeOk: bool)

  ghost function Step(crypto: Crypto, m: Memory, e: Event): Memory {
    match e
    case Issue(c, chance, storeOk) => Settle(ProcessPlan(crypto, m, c, chance), storeOk).1
    case Selection(chance, storeOk) => Settle(SelectPlan(m, chance), storeOk).1
  }

  ghost function Run(crypto: Crypto, m: Memory, events: seq<Event>): Memory {
    if events == [] then m else Step(crypto, Run(crypto, m, events[..|events| - 1]), events[|events| - 1])
  }

  ghost predicate IsProof(crypto: Crypto, m: Memory, e: Event) {
    e.Issue? && e.storeOk && e.c.cla == 0 && e.c.ins == INS_VALIDATE && ProvesKey(crypto, m, e.c.data)
  }

  // The i-th event proved the key, and no selection came after it.
  ghost predicate ProvedAt(crypto: Crypto, m: Memory, events: seq<Event>, i: nat) {
    && i < |events| && IsProof(crypto, Run(crypto, m, events[..i]), events[i])
    && forall j :: i < j < |events| ==> !events[j].Selection?
  }

  // Only a proof validates; a selection ends the validated session.
  lemma ValidatedStep(crypto: Crypto, m: Memory, e: Event)
    requires Step(crypto, m, e).validated
    ensures !e.Selection? && (m.validated || IsProof(crypto, m, e))
  {
    if e.Issue? {
      hide PutRequest, RenameRequest, TagsOf, CalculateRequest, FactorOf, AllCodes, ListBody, CodeEntry;
      if e.c.cla == 0 && e.c.ins != INS_SEND_REMAINING {
        ValidateCommitsIff(crypto, m, e.c.data);
        DispatchValidated(crypto, m, e.c, e.chance, e.storeOk);
        hide DispatchPlan, ProvesKey;
      }
    }
  }

  lemma DispatchValidated(crypto: Crypto, m: Memory, c: Command, chance: Chance, storeOk: bool)
    requires Settle(DispatchPlan(crypto, m, c, chance), storeOk).1.validated
    ensures m.validated || (c.ins == INS_VALIDATE && storeOk && ProvesKey(crypto, m, c.data))
  {
    hide PutRequest, RenameRequest, TagsOf, CalculateRequest, FactorOf, AllCodes, ListBody, CodeEntry;
    ValidateCommitsIff(crypto, m, c.data);
    hide ValidatePlan, ProvesKey;
  }

  // In every reachable state a validated session has an access key set and a VALIDATE that
  // proved it since the last selection; and the limits hold.
  lemma {:induction false} ValidatedMeansProved(crypto: Crypto, m: Memory, events: seq<Event>)
    requires Good(m) && !m.validated
    requires forall i :: 0 <= i < |events| ==> GoodChance(events[i].chance)
    ensures var now := Run(crypto, m, events);
      && Good(now)
      && (now.validated ==> now.state.access.Some? && exists i :: ProvedAt(crypto, m, events, i))
    decreases |events|
  {
    hide Good, Step, IsProof;
    if events != [] {
      var n := |events| - 1;
      var before, e := Run(crypto, m, events[..n]), events[n];
      ValidatedMeansProved(crypto, m, events[..n]);
      StepKeepsGood(crypto, before, e);
      var now := Run(crypto, m, events);
      if now.validated {
        ValidatedHasKey(now);
        ValidatedStep(crypto, before, e);
        if before.validated {
          var i :| ProvedAt(crypto, m, events[..n], i);
          ProofLasts(crypto, m, events, i);
        } else {
          assert ProvedAt(crypto, m, events, n);
        }
      }
    }
  }

  lemma ProofLasts(crypto: Crypto, m: Memory, events: seq<Event>, i: nat)
    requires events != [] && !events[|events| - 1].Selection?
    requires ProvedAt(crypto, m, events[..|events| - 1], i)
    ensures ProvedAt(crypto, m, events, i)
  {
    hide Run, IsProof;
    var front := events[..|events| - 1];
    assert front[..i] == events[..i];
    forall j | i < j < |events|
      ensures !events[j].Selection?
    {
      if j < |front| {
        assert front[j] == events[j];
      }
    }
  }

  lemma ValidatedHasKey(m: Memory)
    requires Good(m) && m.validated
    ensures m.state.access.Some?
  {
  }

  lemma StepKeepsGood(crypto: Crypto, m: Memory, e: Event)
    requires Good(m) && GoodChance(e.chance)
    ensures Good(Step(crypto, m, e))
  {
    hide Good, ProcessPlan, SelectPlan;
    match e
    case Issue(c, chance, _) => CommandsKeepGood(crypto, m, c, chance);
    case Selection(chance, _) => SelectKeepsGood(m, chance);
  }

  // ---------- Restart ----------

  // The blob a successful write leaves boots into exactly the state in memory.
  lemma StoredStateBoots(crypto: Crypto, m: Memory, nonce: seq<byte>)
    requires LawfulCrypto(crypto) && Good(m)
    ensures Loaded(crypto, Some(Blob(crypto, m.state, nonce))) == Some(m.state)
  {
    hide Serialized, Parsed, Representable;
    StateRoundTrip(m.state);
  }

  // What answers without a write leaves the state alone.
  lemma RepliesKeepState(crypto: Crypto, m: Memory, c: Command, chance: Chance)
    requires ProcessPlan(crypto, m, c, chance).Reply?
    ensures ProcessPlan(crypto, m, c, chance).memory.state == m.state
  {
    hide PutRequest, RenameRequest, TagsOf, CalculateRequest, FactorOf, AllCodes, ListBody, CodeEntry;
  }
}
