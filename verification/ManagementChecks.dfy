/**
 What the two configuration commands check and set, tag by tag and byte by byte.
 */
module ManagementChecks {
  import opened Bytes
  import T = Tlv
  import opened Management

  // ---------- WRITE CONFIG ----------

  predicate HasLength(value: Option<seq<byte>>, n: nat) {
    value.Some? ==> |value.value| == n
  }

  // The value each tag must have, if it is there, for the request to be accepted.
  predicate WellFormed(list: seq<T.Tlv>) {
    && HasLength(LastValue(list, 0x03), 2) && HasLength(LastValue(list, 0x0E), 2)
    && HasLength(LastValue(list, 0x06), 2)
    && HasLength(LastValue(list, 0x07), 1) && HasLength(LastValue(list, 0x08), 1)
    && HasLength(LastValue(list, 0x0A), 16)
    && (LastValue(list, 0x03).Some? ==> And(Word16(LastValue(list, 0x03).value), 0xF9D1) == 0)
  }

  // Two bytes, the first the high one.
  function Word16(value: seq<byte>): nat {
    if |value| == 2 then value[0] as nat * 0x100 + value[1] as nat else 0
  }

  // What an accepted request leaves: every field is the last value of its tag, or as it was.
  ghost predicate Sets(s: State, list: seq<T.Tlv>, t: State) {
    var usb, nfc, eject := LastValue(list, 0x03), LastValue(list, 0x0E), LastValue(list, 0x06);
    var chalresp, flags, lock := LastValue(list, 0x07), LastValue(list, 0x08), LastValue(list, 0x0A);
    && t.serial == s.serial
    && t.usbEnabled == (if usb.None? then s.usbEnabled else Word16(usb.value))
    && t.nfcEnabled == (if nfc.None? then s.nfcEnabled else Word16(nfc.value))
    && t.autoEject == (if eject.None? then s.autoEject else Word16(eject.value))
    && (if chalresp.None? then t.chalresp == s.chalresp else chalresp.value == [t.chalresp])
    && (if flags.None? then t.flags == s.flags else flags.value == [t.flags])
    && (match lock
        case None => t.lock == s.lock
        case Some(code) => t.lock == if forall i :: 0 <= i < |code| ==> code[i] == 0 then None else Some(code))
  }

  // WRITE CONFIG, case by case: the length byte, the entries, the unlock code, the other values;
  // and, accepted, every field.
  lemma WriteConfigIsExact(s: State, data: seq<byte>)
    ensures var change := WriteConfigChange(s, data);
      if data == [] || data[0] as int != |data| - 1 then change == Decline(0x6700)
      else match T.Parsed(data[1..])
        case None => change == Decline(0x6A80)
        case Some(list) =>
          var unlock := LastValue(list, 0x0B);
          if !HasLength(unlock, 16) then change == Decline(0x6A80)
          else if unlock.Some? && s.lock.Some? && unlock.value != s.lock.value then change == Decline(0x6982)
          else if !WellFormed(list) then change == Decline(0x6A80)
          else change.Adopt? && Sets(s, list, change.state)
  {
    hide T.Parsed, And, UpsertAll, Get, BeValue, EntriesOk, LastValue;
    if data != [] && data[0] as int == |data| - 1 && T.Parsed(data[1..]).Some? {
      var list := T.Parsed(data[1..]).value;
      var tlvs := UpsertAll([], list);
      forall tag
        ensures Get(tlvs, tag) == LastValue(list, tag)
      {
        NothingGot(tag);
        LastDuplicateWins([], list, tag);
      }
      OneEntryPerTag([], list);
      WidthsByTag(tlvs);
      RefusalIs(s, list, tlvs);
      if Refusal(s, tlvs).None? {
        ConfiguredSets(s, list, tlvs);
      }
      hide Refusal, Sets, WellFormed, Configured;
    }
  }

  lemma NothingGot(tag: byte)
    ensures Get([], tag) == None
  {
  }

  ghost predicate OneEach(tlvs: seq<T.Tlv>) {
    forall i, j :: 0 <= i < j < |tlvs| ==> tlvs[i].0 != tlvs[j].0
  }

  lemma {:induction false} UpsertKeepsOneEach(out: seq<T.Tlv>, tag: byte, value: seq<byte>)
    requires OneEach(out)
    ensures OneEach(Upsert(out, tag, value))
    ensures forall i :: 0 <= i < |Upsert(out, tag, value)| ==>
      Upsert(out, tag, value)[i].0 == tag || exists j :: 0 <= j < |out| && out[j].0 == Upsert(out, tag, value)[i].0
    decreases |out|
  {
    if out != [] && out[0].0 != tag {
      var rest, up := out[1..], Upsert(out[1..], tag, value);
      assert forall j :: 0 <= j < |rest| ==> rest[j] == out[j + 1];
      UpsertKeepsOneEach(rest, tag, value);
      var all := Upsert(out, tag, value);
      assert all == [out[0]] + up;
      forall i | 0 <= i < |all|
        ensures all[i].0 == tag || exists j :: 0 <= j < |out| && out[j].0 == all[i].0
      {
        if i > 0 && up[i - 1].0 != tag {
          var j :| 0 <= j < |rest| && rest[j].0 == up[i - 1].0;
          assert out[j + 1].0 == all[i].0;
        }
      }
      forall i | 0 < i < |all|
        ensures all[i].0 != all[0].0
      {
        if up[i - 1].0 != tag {
          var j :| 0 <= j < |rest| && rest[j].0 == up[i - 1].0;
          assert out[j + 1].0 != out[0].0;
        }
      }
    }
  }

  lemma {:induction false} OneEntryPerTag(out: seq<T.Tlv>, list: seq<T.Tlv>)
    requires OneEach(out)
    ensures OneEach(UpsertAll(out, list))
    decreases |list|
  {
    hide Upsert, OneEach;
    if list != [] {
      UpsertKeepsOneEach(out, list[0].0, list[0].1);
      OneEntryPerTag(Upsert(out, list[0].0, list[0].1), list[1..]);
    }
  }

  // With one entry per tag, checking every entry is checking every tag.
  lemma WidthsByTag(tlvs: seq<T.Tlv>)
    requires OneEach(tlvs)
    ensures EntriesOk(tlvs) <==>
      && HasLength(Get(tlvs, 0x06), 2) && HasLength(Get(tlvs, 0x07), 1) && HasLength(Get(tlvs, 0x08), 1)
      && HasLength(Get(tlvs, 0x0A), 16)
  {
    GetIsEntry(tlvs, 0x06);
    GetIsEntry(tlvs, 0x07);
    GetIsEntry(tlvs, 0x08);
    GetIsEntry(tlvs, 0x0A);
    hide Get, OneEach;
  }

  lemma {:induction false} GetIsEntry(tlvs: seq<T.Tlv>, tag: byte)
    requires OneEach(tlvs)
    ensures forall i :: 0 <= i < |tlvs| && tlvs[i].0 == tag ==> Get(tlvs, tag) == Some(tlvs[i].1)
    ensures Get(tlvs, tag).Some? ==> exists i :: 0 <= i < |tlvs| && tlvs[i] == (tag, Get(tlvs, tag).value)
    decreases |tlvs|
  {
    if tlvs != [] {
      var rest := tlvs[1..];
      assert forall i :: 0 <= i < |rest| ==> rest[i] == tlvs[i + 1];
      GetIsEntry(rest, tag);
      if tlvs[0].0 == tag {
        assert tlvs[0] == (tag, Get(tlvs, tag).value);
      } else if Get(rest, tag).Some? {
        var i :| 0 <= i < |rest| && rest[i] == (tag, Get(rest, tag).value);
        assert tlvs[i + 1] == (tag, Get(tlvs, tag).value);
      }
      forall i | 0 <= i < |tlvs| && tlvs[i].0 == tag
        ensures Get(tlvs, tag) == Some(tlvs[i].1)
      {
        if i > 0 {
          assert rest[i - 1] == tlvs[i];
        }
      }
    }
  }

  lemma TwoBytes(value: seq<byte>)
    requires |value| == 2
    ensures BeValue(value) == Word16(value)
  {
    assert value[..1][..0] == [];
    assert BeValue(value[..1]) == value[0] as int;
  }

  lemma RefusalIs(s: State, list: seq<T.Tlv>, tlvs: seq<T.Tlv>)
    requires forall tag :: Get(tlvs, tag) == LastValue(list, tag)
    requires EntriesOk(tlvs) <==>
      && HasLength(Get(tlvs, 0x06), 2) && HasLength(Get(tlvs, 0x07), 1) && HasLength(Get(tlvs, 0x08), 1)
      && HasLength(Get(tlvs, 0x0A), 16)
    ensures var unlock := LastValue(list, 0x0B);
      Refusal(s, tlvs) ==
        if !HasLength(unlock, 16) then Some(0x6A80)
        else if unlock.Some? && s.lock.Some? && unlock.value != s.lock.value then Some(0x6982)
        else if !WellFormed(list) then Some(0x6A80)
        else None
  {
    hide And, Get, BeValue, EntriesOk, LastValue;
    assert Get(tlvs, 0x0B) == LastValue(list, 0x0B);
    var usb := LastValue(list, 0x03);
    if usb.Some? && |usb.value| == 2 {
      TwoBytes(usb.value);
    }
  }

  lemma ConfiguredSets(s: State, list: seq<T.Tlv>, tlvs: seq<T.Tlv>)
    requires forall tag :: Get(tlvs, tag) == LastValue(list, tag)
    requires WellFormed(list)
    ensures Sets(s, list, Configured(s, tlvs))
  {
    hide And, Get, BeValue, LastValue;
    forall tag: byte | tag in {0x03 as byte, 0x0E, 0x06}
      ensures LastValue(list, tag).Some? ==> BeValue(Get(tlvs, tag).value) == Word16(LastValue(list, tag).value)
    {
      if LastValue(list, tag).Some? {
        TwoBytes(LastValue(list, tag).value);
      }
    }
    var lock := LastValue(list, 0x0A);
    if lock.Some? {
      assert (forall i :: 0 <= i < |lock.value| ==> lock.value[i] == 0) <==> lock.value == Filled(16, 0);
    }
  }

  // ---------- SET MODE ----------

  // SET MODE takes the interfaces of the code from a table, of which only those supported are
  // enabled, and both timeouts, the second with its low byte first; nothing else changes.
  lemma SetModeIsExact(s: State, p1: byte, data: seq<byte>)
    requires |data| == 4 ==> data[0] % 8 < 7
    ensures var change := SetModeChange(s, p1, data);
      if p1 != 0x11 then change == Decline(0x6B00)
      else if |data| != 4 then change == Decline(0x6700)
      else
        change == Adopt(State(
          s.serial, [0x000, 0x428, 0x428, 0x202, 0x202, 0x62A, 0x62A][data[0] % 8],
          s.nfcEnabled, data[2] as nat + 0x100 * data[3] as nat, data[1], s.flags, s.lock))
  {
    hide And, LeValue;
    if |data| == 4 {
      MaskedCaps();
      LowByteFirst(data[2..]);
    }
  }

  lemma MaskedCaps()
    ensures forall code :: 0 <= code < 7 ==>
      And(ModeCaps(code), SUPPORTED) == [0x000, 0x428, 0x428, 0x202, 0x202, 0x62A, 0x62A][code]
  {
    TopDigits();
    hide And;
    DigitApart(0x0, 0x6, 0, 0, 0, 0, 0, 0, 1, 0);
    DigitApart(0x0, 0x62, 0, 0, 0, 1, 1, 1, 1, 0);
    DigitApart(0x4, 0x6, 0, 0, 1, 1, 0, 0, 1, 0);
    DigitApart(0x43, 0x62, 1, 0, 0, 0, 1, 1, 1, 0);
    DigitApart(0x43, 0x62, 1, 0, 0, 1, 1, 1, 1, 0);
    DigitApart(0x2, 0x6, 0, 0, 0, 0, 0, 0, 1, 0);
    DigitApart(0x20, 0x62, 0, 0, 1, 0, 1, 1, 1, 0);
    DigitApart(0x20, 0x62, 0, 0, 1, 1, 1, 1, 1, 0);
    DigitApart(0x6, 0x6, 0, 0, 1, 1, 0, 0, 1, 0);
    DigitApart(0x63, 0x62, 1, 0, 1, 0, 1, 1, 1, 0);
    DigitApart(0x63, 0x62, 1, 0, 1, 1, 1, 1, 1, 0);
  }

  // One more hexadecimal digit, given by its bits.
  lemma DigitApart(p: nat, q: nat, x3: nat, x2: nat, x1: nat, x0: nat, y3: nat, y2: nat, y1: nat, y0: nat)
    requires x3 < 2 && x2 < 2 && x1 < 2 && x0 < 2 && y3 < 2 && y2 < 2 && y1 < 2 && y0 < 2
    ensures And(16 * p + 8 * x3 + 4 * x2 + 2 * x1 + x0, 16 * q + 8 * y3 + 4 * y2 + 2 * y1 + y0)
      == 16 * And(p, q) + (if x3 == y3 == 1 then 8 else 0) + (if x2 == y2 == 1 then 4 else 0)
         + (if x1 == y1 == 1 then 2 else 0) + (if x0 == y0 == 1 then 1 else 0)
  {
    hide And;
    BitApart(p, q, x3, y3);
    BitApart(2 * p + x3, 2 * q + y3, x2, y2);
    BitApart(4 * p + 2 * x3 + x2, 4 * q + 2 * y3 + y2, x1, y1);
    BitApart(8 * p + 4 * x3 + 2 * x2 + x1, 8 * q + 4 * y3 + 2 * y2 + y1, x0, y0);
  }

  lemma BitApart(p: nat, q: nat, i: nat, j: nat)
    requires i < 2 && j < 2
    ensures And(2 * p + i, 2 * q + j) == 2 * And(p, q) + (if i == j == 1 then 1 else 0)
  {
  }

  lemma TopDigits()
    ensures And(0, 6) == 0 && And(4, 6) == 4 && And(2, 6) == 2 && And(6, 6) == 6
  {
    AndSelf(6);
  }

  lemma LowByteFirst(b: seq<byte>)
    requires |b| == 2
    ensures LeValue(b) == b[0] as nat + 0x100 * b[1] as nat
  {
    assert b[1..][1..] == [];
    assert LeValue(b[1..]) == b[1] as int;
  }
}
