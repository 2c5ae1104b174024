/**
 The YubiKey Management applet: its stored state, the device configuration it reports and
 the two commands that change it.
 */
module Management {
  import opened Bytes
  import T = Tlv
  import R = CardRouter
  import opened OathPlans
  import opened OathApplet

  const MANAGEMENT_KEY: string := "sys:mgmt"
  const FORMAT_V1: byte := 1
  const FORMAT_V2: byte := 2
  const SUPPORTED: nat := 0x062E
  const UNSUPPORTED: nat := 0xF9D1
  const FORM_FACTOR_CODE: byte := 1
  const LOCK_CODE_LEN: nat := 16

  const TAG_USB_SUPPORTED: byte := 0x01
  const TAG_SERIAL: byte := 0x02
  const TAG_USB_ENABLED: byte := 0x03
  const TAG_FORM_FACTOR: byte := 0x04
  const TAG_FIRMWARE: byte := 0x05
  const TAG_AUTO_EJECT_TIMEOUT: byte := 0x06
  const TAG_CHALRESP_TIMEOUT: byte := 0x07
  const TAG_DEVICE_FLAGS: byte := 0x08
  const TAG_CONFIG_LOCK: byte := 0x0A
  const TAG_UNLOCK: byte := 0x0B
  const TAG_NFC_ENABLED: byte := 0x0E

  const P1_DEVICE_CONFIG: byte := 0x11

  datatype State = State(
    serial: nat, usbEnabled: nat, nfcEnabled: nat, autoEject: nat, chalresp: byte, flags: byte, lock: Option<seq<byte>>)

  // Every field fits its place, the serial is set, and only supported interfaces are enabled.
  predicate Good(s: State) {
    && 0 < s.serial < U32 && s.usbEnabled < U16 && s.nfcEnabled < U16 && s.autoEject < U16
    && (s.lock.Some? ==> |s.lock.value| == LOCK_CODE_LEN)
    && Supported(s.usbEnabled)
  }

  predicate Supported(caps: nat) {
    And(caps, UNSUPPORTED) == 0
  }

  function Factory(serial: nat): State {
    State(serial, SUPPORTED, 0, 0, 0, 0, None)
  }

  // ---------- The stored format ----------

  function Serialized(s: State): seq<byte> {
    [FORMAT_V2] + Be(s.serial, 4) + Be(s.usbEnabled, 2) + Be(s.nfcEnabled, 2) + Be(s.autoEject, 2)
    + [s.chalresp, s.flags] + LockRecord(s.lock)
  }

  function LockRecord(lock: Option<seq<byte>>): seq<byte> {
    match lock
    case None => [0] + Filled(LOCK_CODE_LEN, 0)
    case Some(code) => [1] + code
  }

  function Parsed(blob: seq<byte>): Option<State> {
    if blob == [] then None
    else if blob[0] == FORMAT_V1 then
      if |blob| != 5 || BeValue(blob[1..5]) == 0 then None else Some(Factory(BeValue(blob[1..5])))
    else if blob[0] == FORMAT_V2 then
      if |blob| != 30 || BeValue(blob[1..5]) == 0 || blob[13] > 1 then None
      else
        Some(State(BeValue(blob[1..5]), BeValue(blob[5..7]), BeValue(blob[7..9]), BeValue(blob[9..11]), blob[11], blob[12],
                   if blob[13] == 0 then None else Some(blob[14..30])))
    else None
  }

  method SerializeState(s: State) returns (out: seq<byte>)
    ensures out == Serialized(s)
  {
    out := [FORMAT_V2];
    out := out + Be(s.serial, 4);
    out := out + Be(s.usbEnabled, 2);
    out := out + Be(s.nfcEnabled, 2);
    out := out + Be(s.autoEject, 2);
    out := out + [s.chalresp];
    out := out + [s.flags];
    match s.lock {
      case None =>
        out := out + [0];
        out := out + Filled(LOCK_CODE_LEN, 0);
      case Some(code) =>
        out := out + [1];
        out := out + code;
    }
  }

  lemma Fields(a: seq<byte>, b: seq<byte>, c: seq<byte>, d: seq<byte>, e: seq<byte>, rest: seq<byte>)
    requires |a| == 1 && |b| == 4 && |c| == 2 && |d| == 2 && |e| == 2
    ensures var all := a + b + c + d + e + rest;
      all[..1] == a && all[1..5] == b && all[5..7] == c && all[7..9] == d && all[9..11] == e && all[11..] == rest
  {
  }

  // A restart reproduces the state, lock code included.
  lemma StateRoundTrip(s: State)
    requires Good(s)
    ensures Parsed(Serialized(s)) == Some(s)
  {
    hide Be, BeValue;
    var tail := [s.chalresp, s.flags] + LockRecord(s.lock);
    var blob := Serialized(s);
    assert blob == [FORMAT_V2] + Be(s.serial, 4) + Be(s.usbEnabled, 2) + Be(s.nfcEnabled, 2) + Be(s.autoEject, 2) + tail;
    Fields([FORMAT_V2], Be(s.serial, 4), Be(s.usbEnabled, 2), Be(s.nfcEnabled, 2), Be(s.autoEject, 2), tail);
    assert |blob| == 30 && blob[11..] == tail;
    assert blob[11] == tail[0] && blob[12] == tail[1] && blob[13] == tail[2];
    assert blob[14..30] == blob[11..][3..] == LockRecord(s.lock)[1..];
    Pow256Values();
    BeRoundTrip(s.serial, 4);
    BeRoundTrip(s.usbEnabled, 2);
    BeRoundTrip(s.nfcEnabled, 2);
    BeRoundTrip(s.autoEject, 2);
  }

  // The first format held only the serial; it is read without losing it.
  lemma FirstFormatMigrates(serial: nat)
    requires 0 < serial < U32
    ensures Parsed([FORMAT_V1] + Be(serial, 4)) == Some(Factory(serial)) && Good(Factory(serial))
  {
    var blob := [FORMAT_V1] + Be(serial, 4);
    assert blob[1..5] == Be(serial, 4);
    Pow256Values();
    BeRoundTrip(serial, 4);
    SupportedIsSupported();
    hide Be, BeValue;
  }

  lemma {:induction false} AndComplement(a: nat, k: nat)
    requires a < Pow2(k)
    ensures And(a, Pow2(k) - 1 - a) == 0
    decreases k
  {
    if a != 0 {
      AndComplement(a / 2, k - 1);
    }
  }

  lemma SupportedIsSupported()
    ensures And(SUPPORTED, UNSUPPORTED) == 0
  {
    Pow2Values();
    AndComplement(SUPPORTED, 16);
  }

  // ---------- Configuration payloads ----------

  // Adds an entry, or overwrites the one with the same tag.
  function Upsert(out: seq<T.Tlv>, tag: byte, value: seq<byte>): seq<T.Tlv> {
    if out == [] then [(tag, value)]
    else if out[0].0 == tag then [(tag, value)] + out[1..]
    else [out[0]] + Upsert(out[1..], tag, value)
  }

  function Get(tlvs: seq<T.Tlv>, tag: byte): Option<seq<byte>> {
    if tlvs == [] then None else if tlvs[0].0 == tag then Some(tlvs[0].1) else Get(tlvs[1..], tag)
  }

  function UpsertAll(out: seq<T.Tlv>, tlvs: seq<T.Tlv>): seq<T.Tlv>
    decreases |tlvs|
  {
    if tlvs == [] then out else UpsertAll(Upsert(out, tlvs[0].0, tlvs[0].1), tlvs[1..])
  }

  function ConfigTlvs(data: seq<byte>): Result<seq<T.Tlv>, nat> {
    if data == [] || |data| - 1 != data[0] as int then Err(R.SW_WRONG_LENGTH)
    else match T.Parsed(data[1..])
      case None => Err(SW_WRONG_SYNTAX)
      case Some(tlvs) => Ok(UpsertAll([], tlvs))
  }

  method UpsertSlot(out: seq<T.Tlv>, tag: byte, value: seq<byte>) returns (r: seq<T.Tlv>)
    ensures r == Upsert(out, tag, value)
  {
    var i := 0;
    while i < |out| && out[i].0 != tag
      invariant 0 <= i <= |out|
      invariant Upsert(out, tag, value) == out[..i] + Upsert(out[i..], tag, value)
    {
      assert out[i..][1..] == out[i + 1..];
      assert out[..i] + ([out[i]] + Upsert(out[i + 1..], tag, value)) == out[..i + 1] + Upsert(out[i + 1..], tag, value);
      i := i + 1;
    }
    if i < |out| {
      r := out[i := (tag, value)];
      assert r == out[..i] + ([(tag, value)] + out[i..][1..]);
    } else {
      r := out + [(tag, value)];
    }
  }

  method ParseConfigPayload(data: seq<byte>) returns (r: Result<seq<T.Tlv>, nat>)
    ensures r == ConfigTlvs(data)
  {
    if data == [] || |data| - 1 != data[0] as int {
      return Err(R.SW_WRONG_LENGTH);
    }
    var tlvs := T.ParseTlvs(data[1..]);
    if tlvs.None? {
      return Err(SW_WRONG_SYNTAX);
    }
    var out: seq<T.Tlv> := [];
    var i := 0;
    assert tlvs.value[0..] == tlvs.value;
    while i < |tlvs.value|
      invariant 0 <= i <= |tlvs.value|
      invariant UpsertAll(out, tlvs.value[i..]) == UpsertAll([], tlvs.value)
    {
      assert tlvs.value[i..][1..] == tlvs.value[i + 1..];
      out := UpsertSlot(out, tlvs.value[i].0, tlvs.value[i].1);
      i := i + 1;
    }
    return Ok(out);
  }

  lemma {:induction false} GetUpsert(out: seq<T.Tlv>, tag: byte, value: seq<byte>, t: byte)
    ensures Get(Upsert(out, tag, value), t) == if t == tag then Some(value) else Get(out, t)
    decreases |out|
  {
    if out != [] && out[0].0 != tag {
      GetUpsert(out[1..], tag, value, t);
      assert ([out[0]] + Upsert(out[1..], tag, value))[1..] == Upsert(out[1..], tag, value);
    }
  }

  // The last value given for a tag.
  function LastValue(tlvs: seq<T.Tlv>, tag: byte): Option<seq<byte>> {
    var values := T.Values(tlvs, tag);
    if values == [] then None else Some(values[|values| - 1])
  }

  // A repeated tag: the last occurrence wins.
  lemma {:induction false} LastDuplicateWins(out: seq<T.Tlv>, tlvs: seq<T.Tlv>, tag: byte)
    ensures Get(UpsertAll(out, tlvs), tag) == if LastValue(tlvs, tag).Some? then LastValue(tlvs, tag) else Get(out, tag)
    decreases |tlvs|
  {
    if tlvs != [] {
      GetUpsert(out, tlvs[0].0, tlvs[0].1, tag);
      LastDuplicateWins(Upsert(out, tlvs[0].0, tlvs[0].1), tlvs[1..], tag);
      hide Get, Upsert, UpsertAll;
    }
  }

  // ---------- READ CONFIG ----------

  function Optional(emit: bool, tag: byte, value: seq<byte>): seq<T.Tlv> {
    if emit then [(tag, value)] else []
  }

  function DeviceInfo(s: State): seq<T.Tlv> {
    [(TAG_USB_SUPPORTED, Be(SUPPORTED, 2)), (TAG_SERIAL, Be(s.serial, 4)), (TAG_USB_ENABLED, Be(s.usbEnabled, 2)),
     (TAG_FORM_FACTOR, [FORM_FACTOR_CODE]), (TAG_FIRMWARE, [5, 4, 0])]
    + Optional(s.autoEject != 0, TAG_AUTO_EJECT_TIMEOUT, Be(s.autoEject, 2))
    + Optional(s.chalresp != 0, TAG_CHALRESP_TIMEOUT, [s.chalresp])
    + Optional(s.flags != 0, TAG_DEVICE_FLAGS, [s.flags])
    + Optional(s.nfcEnabled != 0, TAG_NFC_ENABLED, Be(s.nfcEnabled, 2))
  }

  function ReadConfigPayload(s: State): seq<byte> {
    [|T.Flatten(DeviceInfo(s))| % 0x100] + T.Flatten(DeviceInfo(s))
  }

  lemma {:induction false} FlattenAppend(a: seq<T.Tlv>, b: seq<T.Tlv>)
    ensures T.Flatten(a + b) == T.Flatten(a) + T.Flatten(b)
    decreases |a|
  {
    hide T.Flatten, T.Entry;
    FlattenNothing();
    if a == [] {
      assert a + b == b;
    } else {
      var (tag, value) := a[0];
      FlattenAppend(a[1..], b);
      T.FlattenCons(tag, value, a[1..]);
      T.FlattenCons(tag, value, a[1..] + b);
      assert a == [(tag, value)] + a[1..] && a + b == [(tag, value)] + (a[1..] + b);
    }
  }

  method ReadConfig(s: State) returns (out: seq<byte>)
    ensures out == ReadConfigPayload(s)
  {
    hide T.Entry, T.Flatten, Be, Optional;
    ghost var list: seq<T.Tlv> := [];
    var tlvs := [];
    FlattenNothing();
    tlvs := PushTlv(tlvs, list, TAG_USB_SUPPORTED, Be(SUPPORTED, 2));
    list := list + [(TAG_USB_SUPPORTED, Be(SUPPORTED, 2))];
    tlvs := PushTlv(tlvs, list, TAG_SERIAL, Be(s.serial, 4));
    list := list + [(TAG_SERIAL, Be(s.serial, 4))];
    tlvs := PushTlv(tlvs, list, TAG_USB_ENABLED, Be(s.usbEnabled, 2));
    list := list + [(TAG_USB_ENABLED, Be(s.usbEnabled, 2))];
    tlvs := PushTlv(tlvs, list, TAG_FORM_FACTOR, [FORM_FACTOR_CODE]);
    list := list + [(TAG_FORM_FACTOR, [FORM_FACTOR_CODE])];
    tlvs := PushTlv(tlvs, list, TAG_FIRMWARE, [5, 4, 0]);
    list := list + [(TAG_FIRMWARE, [5, 4, 0])];
    tlvs := PushOption(tlvs, list, s.autoEject != 0, TAG_AUTO_EJECT_TIMEOUT, Be(s.autoEject, 2));
    tlvs := PushOption(tlvs, list + Options(s)[0], s.chalresp != 0, TAG_CHALRESP_TIMEOUT, [s.chalresp]);
    tlvs := PushOption(tlvs, list + Options(s)[0] + Options(s)[1], s.flags != 0, TAG_DEVICE_FLAGS, [s.flags]);
    tlvs := PushOption(tlvs, list + Options(s)[0] + Options(s)[1] + Options(s)[2],
                       s.nfcEnabled != 0, TAG_NFC_ENABLED, Be(s.nfcEnabled, 2));
    DeviceInfoParts(s);
    assert list == DeviceInfo(s)[..5];
    out := [|tlvs| % 0x100] + tlvs;
  }

  method PushOption(out: seq<byte>, ghost list: seq<T.Tlv>, emit: bool, tag: byte, value: seq<byte>) returns (r: seq<byte>)
    requires out == T.Flatten(list) && |value| <= 0xff
    ensures r == T.Flatten(list + Optional(emit, tag, value))
  {
    if emit {
      r := PushTlv(out, list, tag, value);
    } else {
      assert list + [] == list;
      r := out;
    }
  }

  lemma FlattenNothing()
    ensures T.Flatten([]) == []
  {
  }

  method PushTlv(out: seq<byte>, ghost list: seq<T.Tlv>, tag: byte, value: seq<byte>) returns (r: seq<byte>)
    requires out == T.Flatten(list) && |value| <= 0xff
    ensures r == T.Flatten(list + [(tag, value)])
  {
    FlattenAppend(list, [(tag, value)]);
    assert T.Flatten([(tag, value)]) == T.Entry(tag, value) + [];
    r := out + T.Entry(tag, value);
  }

  // The optional entries, one list each.
  function Options(s: State): (r: seq<seq<T.Tlv>>)
    ensures |r| == 4
  {
    [Optional(s.autoEject != 0, TAG_AUTO_EJECT_TIMEOUT, Be(s.autoEject, 2)),
     Optional(s.chalresp != 0, TAG_CHALRESP_TIMEOUT, [s.chalresp]),
     Optional(s.flags != 0, TAG_DEVICE_FLAGS, [s.flags]),
     Optional(s.nfcEnabled != 0, TAG_NFC_ENABLED, Be(s.nfcEnabled, 2))]
  }

  lemma DeviceInfoParts(s: State)
    ensures |DeviceInfo(s)| >= 5
    ensures var o := Options(s);
      DeviceInfo(s) == DeviceInfo(s)[..5] + o[0] + o[1] + o[2] + o[3]
  {
    hide Be;
  }

  lemma OptionLength(emit: bool, tag: byte, value: seq<byte>)
    ensures |T.Flatten(Optional(emit, tag, value))| <= 2 + |value|
  {
  }

  lemma DeviceInfoLength(s: State)
    ensures |T.Flatten(DeviceInfo(s))| <= 36 && T.ShortForm(DeviceInfo(s))
  {
    hide T.Flatten, Be, Optional;
    DeviceInfoParts(s);
    var base, o := DeviceInfo(s)[..5], Options(s);
    FlattenAppend(base + o[0] + o[1] + o[2], o[3]);
    FlattenAppend(base + o[0] + o[1], o[2]);
    FlattenAppend(base + o[0], o[1]);
    FlattenAppend(base, o[0]);
    BaseLength(base);
    OptionLength(s.autoEject != 0, TAG_AUTO_EJECT_TIMEOUT, Be(s.autoEject, 2));
    OptionLength(s.chalresp != 0, TAG_CHALRESP_TIMEOUT, [s.chalresp]);
    OptionLength(s.flags != 0, TAG_DEVICE_FLAGS, [s.flags]);
    OptionLength(s.nfcEnabled != 0, TAG_NFC_ENABLED, Be(s.nfcEnabled, 2));
    DeviceInfoShort(s);
  }

  lemma DeviceInfoShort(s: State)
    ensures T.ShortForm(DeviceInfo(s))
  {
    hide Be;
  }

  lemma BaseLength(base: seq<T.Tlv>)
    requires |base| == 5 && |base[0].1| == 2 && |base[1].1| == 4 && |base[2].1| == 2 && |base[3].1| == 1 && |base[4].1| == 3
    ensures |T.Flatten(base)| == 22
  {
    var b1, b2, b3, b4 := base[1..], base[2..], base[3..], base[4..];
    assert b1[1..] == b2 && b2[1..] == b3 && b3[1..] == b4 && b4[1..] == [];
    assert |T.Flatten(b4)| == 5;
    assert |T.Flatten(b3)| == 8;
    assert |T.Flatten(b2)| == 12;
    assert |T.Flatten(b1)| == 18;
  }

  // The length byte is exact and the entries read back, by the same reader WRITE CONFIG uses,
  // to the stored values; an optional field that is zero is left out.
  lemma DeviceInfoReadsBack(s: State)
    requires Good(s)
    ensures var out := ReadConfigPayload(s);
      && |out| - 1 == out[0] as int
      && (var back := ConfigTlvs(out);
          && back.Ok?
          && Get(back.value, TAG_USB_SUPPORTED) == Some(Be(SUPPORTED, 2))
          && Get(back.value, TAG_SERIAL) == Some(Be(s.serial, 4))
          && Get(back.value, TAG_USB_ENABLED) == Some(Be(s.usbEnabled, 2))
          && Get(back.value, TAG_FORM_FACTOR) == Some([FORM_FACTOR_CODE])
          && Get(back.value, TAG_FIRMWARE) == Some([5, 4, 0])
          && Get(back.value, TAG_AUTO_EJECT_TIMEOUT) == (if s.autoEject == 0 then None else Some(Be(s.autoEject, 2)))
          && Get(back.value, TAG_CHALRESP_TIMEOUT) == (if s.chalresp == 0 then None else Some([s.chalresp]))
          && Get(back.value, TAG_DEVICE_FLAGS) == (if s.flags == 0 then None else Some([s.flags]))
          && Get(back.value, TAG_NFC_ENABLED) == (if s.nfcEnabled == 0 then None else Some(Be(s.nfcEnabled, 2)))
          && Get(back.value, TAG_CONFIG_LOCK) == None)
  {
    hide T.Flatten, T.Parsed, Get, UpsertAll, Be, Supported;
    var info := DeviceInfo(s);
    DeviceInfoLength(s);
    T.ParsedFlatten(info);
    var out := ReadConfigPayload(s);
    assert out[1..] == T.Flatten(info);
    ReportedValue(s, TAG_USB_SUPPORTED);
    ReportedValue(s, TAG_SERIAL);
    ReportedValue(s, TAG_USB_ENABLED);
    ReportedValue(s, TAG_FORM_FACTOR);
    ReportedValue(s, TAG_FIRMWARE);
    ReportedValue(s, TAG_AUTO_EJECT_TIMEOUT);
    ReportedValue(s, TAG_CHALRESP_TIMEOUT);
    ReportedValue(s, TAG_DEVICE_FLAGS);
    ReportedValue(s, TAG_NFC_ENABLED);
    ReportedValue(s, TAG_CONFIG_LOCK);
  }

  // What the host finds under a tag.
  function Reported(s: State, tag: byte): Option<seq<byte>> {
    if tag == TAG_USB_SUPPORTED then Some(Be(SUPPORTED, 2))
    else if tag == TAG_SERIAL then Some(Be(s.serial, 4))
    else if tag == TAG_USB_ENABLED then Some(Be(s.usbEnabled, 2))
    else if tag == TAG_FORM_FACTOR then Some([FORM_FACTOR_CODE])
    else if tag == TAG_FIRMWARE then Some([5, 4, 0])
    else if tag == TAG_AUTO_EJECT_TIMEOUT && s.autoEject != 0 then Some(Be(s.autoEject, 2))
    else if tag == TAG_CHALRESP_TIMEOUT && s.chalresp != 0 then Some([s.chalresp])
    else if tag == TAG_DEVICE_FLAGS && s.flags != 0 then Some([s.flags])
    else if tag == TAG_NFC_ENABLED && s.nfcEnabled != 0 then Some(Be(s.nfcEnabled, 2))
    else None
  }

  lemma OptionValues(emit: bool, t: byte, value: seq<byte>, tag: byte)
    ensures T.Values(Optional(emit, t, value), tag) == if emit && t == tag then [value] else []
  {
  }

  lemma ReportedValue(s: State, tag: byte)
    ensures Get(UpsertAll([], DeviceInfo(s)), tag) == Reported(s, tag)
  {
    hide Be, UpsertAll, T.Values, Optional;
    LastDuplicateWins([], DeviceInfo(s), tag);
    DeviceInfoParts(s);
    var base, o := DeviceInfo(s)[..5], Options(s);
    ValuesAppend(base + o[0] + o[1] + o[2], o[3], tag);
    ValuesAppend(base + o[0] + o[1], o[2], tag);
    ValuesAppend(base + o[0], o[1], tag);
    ValuesAppend(base, o[0], tag);
    BaseValues(base, tag);
    OptionValues(s.autoEject != 0, TAG_AUTO_EJECT_TIMEOUT, Be(s.autoEject, 2), tag);
    OptionValues(s.chalresp != 0, TAG_CHALRESP_TIMEOUT, [s.chalresp], tag);
    OptionValues(s.flags != 0, TAG_DEVICE_FLAGS, [s.flags], tag);
    OptionValues(s.nfcEnabled != 0, TAG_NFC_ENABLED, Be(s.nfcEnabled, 2), tag);
  }

  lemma BaseValues(base: seq<T.Tlv>, tag: byte)
    requires |base| == 5 && base[0].0 == 1 && base[1].0 == 2 && base[2].0 == 3 && base[3].0 == 4 && base[4].0 == 5
    ensures T.Values(base, tag) == if 1 <= tag <= 5 then [base[tag - 1].1] else []
  {
    var b1, b2, b3, b4 := base[1..], base[2..], base[3..], base[4..];
    assert b1[1..] == b2 && b2[1..] == b3 && b3[1..] == b4 && b4[1..] == [];
    assert T.Values(b4, tag) == if tag == 5 then [base[4].1] else [];
    assert T.Values(b3, tag) == if 4 <= tag <= 5 then [base[tag - 1].1] else [];
    assert T.Values(b2, tag) == if 3 <= tag <= 5 then [base[tag - 1].1] else [];
    assert T.Values(b1, tag) == if 2 <= tag <= 5 then [base[tag - 1].1] else [];
  }

  lemma {:induction false} ValuesAppend(a: seq<T.Tlv>, b: seq<T.Tlv>, tag: byte)
    ensures T.Values(a + b, tag) == T.Values(a, tag) + T.Values(b, tag)
    decreases |a|
  {
    NoValues(tag);
    hide T.Values;
    if a == [] {
      assert a + b == b;
    } else {
      ValuesCons(a, tag);
      ValuesCons(a + b, tag);
      ValuesAppend(a[1..], b, tag);
      assert (a + b)[1..] == a[1..] + b;
    }
  }

  lemma NoValues(tag: byte)
    ensures T.Values([], tag) == []
  {
  }

  lemma ValuesCons(tlvs: seq<T.Tlv>, tag: byte)
    requires tlvs != []
    ensures T.Values(tlvs, tag) == (if tlvs[0].0 == tag then [tlvs[0].1] else []) + T.Values(tlvs[1..], tag)
  {
  }

  // ---------- WRITE CONFIG and SET MODE ----------

  // The widths a request must respect.
  function Width(tag: byte): Option<nat> {
    if tag == TAG_AUTO_EJECT_TIMEOUT then Some(2)
    else if tag == TAG_CHALRESP_TIMEOUT || tag == TAG_DEVICE_FLAGS then Some(1)
    else if tag == TAG_CONFIG_LOCK then Some(LOCK_CODE_LEN)
    else None
  }

  predicate EntryOk(t: T.Tlv) {
    Width(t.0).Some? ==> |t.1| == Width(t.0).value
  }

  predicate EntriesOk(tlvs: seq<T.Tlv>) {
    forall i :: 0 <= i < |tlvs| ==> EntryOk(tlvs[i])
  }

  // All checks come before any change: the refusal code, if there is one.
  function Refusal(s: State, tlvs: seq<T.Tlv>): Option<nat> {
    var unlock, usb, nfc := Get(tlvs, TAG_UNLOCK), Get(tlvs, TAG_USB_ENABLED), Get(tlvs, TAG_NFC_ENABLED);
    if unlock.Some? && |unlock.value| != LOCK_CODE_LEN then Some(SW_WRONG_SYNTAX)
    else if unlock.Some? && s.lock.Some? && unlock != s.lock then Some(R.SW_SECURITY_STATUS)
    else if usb.Some? && (|usb.value| != 2 || !Supported(BeValue(usb.value))) then Some(SW_WRONG_SYNTAX)
    else if nfc.Some? && |nfc.value| != 2 then Some(SW_WRONG_SYNTAX)
    else if !EntriesOk(tlvs) then Some(SW_WRONG_SYNTAX)
    else None
  }

  function Field(tlvs: seq<T.Tlv>, tag: byte, was: nat): nat {
    match Get(tlvs, tag) case None => was case Some(value) => BeValue(value)
  }

  function ByteField(tlvs: seq<T.Tlv>, tag: byte, was: byte): byte {
    match Get(tlvs, tag) case None => was case Some(value) => if value == [] then was else value[0]
  }

  function LockField(tlvs: seq<T.Tlv>, was: Option<seq<byte>>): Option<seq<byte>> {
    match Get(tlvs, TAG_CONFIG_LOCK)
    case None => was
    case Some(code) => if code == Filled(LOCK_CODE_LEN, 0) then None else Some(code)
  }

  function Configured(s: State, tlvs: seq<T.Tlv>): State {
    State(s.serial, Field(tlvs, TAG_USB_ENABLED, s.usbEnabled), Field(tlvs, TAG_NFC_ENABLED, s.nfcEnabled),
          Field(tlvs, TAG_AUTO_EJECT_TIMEOUT, s.autoEject), ByteField(tlvs, TAG_CHALRESP_TIMEOUT, s.chalresp),
          ByteField(tlvs, TAG_DEVICE_FLAGS, s.flags), LockField(tlvs, s.lock))
  }

  function ModeCaps(code: nat): nat
    requires code < 7
  {
    [0x0001, 0x0438, 0x0439, 0x0202, 0x0203, 0x063A, 0x063B][code]
  }

  function ModeSet(s: State, data: seq<byte>): State
    requires |data| == 4 && data[0] % 8 < 7
  {
    s.(usbEnabled := And(ModeCaps(data[0] % 8), SUPPORTED), chalresp := data[1], autoEject := LeValue(data[2..]))
  }

  lemma {:induction false} EntryWidth(tlvs: seq<T.Tlv>, tag: byte)
    requires EntriesOk(tlvs) && Get(tlvs, tag).Some? && Width(tag).Some?
    ensures |Get(tlvs, tag).value| == Width(tag).value
    decreases |tlvs|
  {
    if tlvs[0].0 == tag {
      assert EntryOk(tlvs[0]);
    } else {
      assert EntriesOk(tlvs[1..]);
      EntryWidth(tlvs[1..], tag);
    }
  }

  lemma PairBound(tlvs: seq<T.Tlv>, tag: byte)
    requires Get(tlvs, tag).Some? && |Get(tlvs, tag).value| == 2
    ensures BeValue(Get(tlvs, tag).value) < U16
  {
    BeOfValue(Get(tlvs, tag).value);
    Pow256Values();
    hide Be;
  }

  // An accepted configuration is a good state: it survives a restart unchanged, and enables
  // supported interfaces only.
  lemma ConfiguredIsGood(s: State, tlvs: seq<T.Tlv>)
    requires Good(s) && Refusal(s, tlvs).None?
    ensures Good(Configured(s, tlvs)) && Parsed(Serialized(Configured(s, tlvs))) == Some(Configured(s, tlvs))
  {
    hide Get, Supported, EntriesOk, Serialized, Parsed, BeValue;
    if Get(tlvs, TAG_USB_ENABLED).Some? { PairBound(tlvs, TAG_USB_ENABLED); }
    if Get(tlvs, TAG_NFC_ENABLED).Some? { PairBound(tlvs, TAG_NFC_ENABLED); }
    if Get(tlvs, TAG_AUTO_EJECT_TIMEOUT).Some? {
      EntryWidth(tlvs, TAG_AUTO_EJECT_TIMEOUT);
      PairBound(tlvs, TAG_AUTO_EJECT_TIMEOUT);
    }
    if Get(tlvs, TAG_CONFIG_LOCK).Some? { EntryWidth(tlvs, TAG_CONFIG_LOCK); }
    StateRoundTrip(Configured(s, tlvs));
  }

  lemma {:induction false} MaskedIsDisjoint(a: nat, b: nat, c: nat)
    requires And(b, c) == 0
    ensures And(And(a, b), c) == 0
    decreases a
  {
    if a != 0 && b != 0 && c != 0 {
      MaskedIsDisjoint(a / 2, b / 2, c / 2);
    }
  }

  lemma ModeSetIsGood(s: State, data: seq<byte>)
    requires Good(s) && |data| == 4 && data[0] % 8 < 7
    ensures Good(ModeSet(s, data)) && Parsed(Serialized(ModeSet(s, data))) == Some(ModeSet(s, data))
  {
    hide And, Serialized, Parsed, LeValue;
    SupportedIsSupported();
    MaskedIsDisjoint(ModeCaps(data[0] % 8), SUPPORTED, UNSUPPORTED);
    LePairBound(data[2..]);
    StateRoundTrip(ModeSet(s, data));
  }

  lemma LePairBound(b: seq<byte>)
    requires |b| == 2
    ensures LeValue(b) < U16
  {
    assert b[1..][1..] == [];
    assert LeValue(b[1..]) == b[1] as int;
  }

  // What a configuration command does: refuse, or change the state and store it.
  datatype Change = Decline(sw: nat) | Adopt(state: State)

  function WriteConfigChange(s: State, data: seq<byte>): Change {
    match ConfigTlvs(data)
    case Err(sw) => Decline(sw)
    case Ok(tlvs) =>
      match Refusal(s, tlvs)
      case Some(sw) => Decline(sw)
      case None => Adopt(Configured(s, tlvs))
  }

  function SetModeChange(s: State, p1: byte, data: seq<byte>): Change
    requires |data| == 4 ==> data[0] % 8 < 7
  {
    if p1 != P1_DEVICE_CONFIG then Decline(R.SW_WRONG_P1_P2)
    else if |data| != 4 then Decline(R.SW_WRONG_LENGTH)
    else Adopt(ModeSet(s, data))
  }

  // A refusal of WRITE CONFIG is one of the three documented codes.
  lemma RefusalCodes(s: State, data: seq<byte>)
    ensures var change := WriteConfigChange(s, data);
      change.Decline? ==> change.sw in {R.SW_WRONG_LENGTH, SW_WRONG_SYNTAX, R.SW_SECURITY_STATUS}
  {
    hide T.Parsed, UpsertAll, EntriesOk, Get, Supported, BeValue;
  }

  ghost predicate Carries(crypto: Crypto, change: Change, failing: bool, nonce: seq<byte>, was: State,
                          before: map<string, seq<byte>>, answer: Answer, now: State, after: map<string, seq<byte>>) {
    match change
    case Decline(sw) => answer == Err(sw) && now == was && after == before
    case Adopt(s) =>
      && now == s
      && if failing then answer == Err(R.SW_CONDITIONS_NOT_SATISFIED) && after == before
         else answer == DONE && after == before[MANAGEMENT_KEY := crypto.seal(nonce, Serialized(s))]
  }

  class ManagementApplet {
    const storage: KeyStore
    const crypto: Crypto
    var state: State

    constructor (storage: KeyStore, crypto: Crypto, state: State)
      ensures this.storage == storage && this.crypto == crypto && this.state == state
    {
      this.storage, this.crypto, this.state := storage, crypto, state;
    }

    method PersistState(nonce: seq<byte>) returns (ok: bool)
      modifies storage`contents
      ensures ok <==> !storage.failing
      ensures storage.contents
        == if ok then old(storage.contents)[MANAGEMENT_KEY := crypto.seal(nonce, Serialized(state))] else old(storage.contents)
    {
      hide Serialized;
      var plaintext := SerializeState(state);
      ok := storage.Store(MANAGEMENT_KEY, crypto.seal(nonce, plaintext));
    }

    method WriteConfig(data: seq<byte>, nonce: seq<byte>) returns (r: Answer)
      modifies this, storage`contents
      ensures Carries(crypto, WriteConfigChange(old(state), data), storage.failing, nonce, old(state),
                      old(storage.contents), r, state, storage.contents)
    {
      hide ConfigTlvs, Get, Serialized, BeValue, Supported;
      var parsed := ParseConfigPayload(data);
      if parsed.Err? {
        return Err(parsed.error);
      }
      var tlvs := parsed.value;
      var unlock := Get(tlvs, TAG_UNLOCK);
      if unlock.Some? {
        if |unlock.value| != LOCK_CODE_LEN {
          return Err(SW_WRONG_SYNTAX);
        }
        if state.lock.Some? && unlock.value != state.lock.value {
          return Err(R.SW_SECURITY_STATUS);
        }
      }
      var usb, nfc := Get(tlvs, TAG_USB_ENABLED), Get(tlvs, TAG_NFC_ENABLED);
      if usb.Some? && (|usb.value| != 2 || !Supported(BeValue(usb.value))) {
        return Err(SW_WRONG_SYNTAX);
      }
      if nfc.Some? && |nfc.value| != 2 {
        return Err(SW_WRONG_SYNTAX);
      }
      for i := 0 to |tlvs|
        invariant forall j :: 0 <= j < i ==> EntryOk(tlvs[j])
      {
        if !EntryOk(tlvs[i]) {
          return Err(SW_WRONG_SYNTAX);
        }
      }
      ghost var was := state;
      state := state.(usbEnabled := Field(tlvs, TAG_USB_ENABLED, state.usbEnabled));
      state := state.(nfcEnabled := Field(tlvs, TAG_NFC_ENABLED, state.nfcEnabled));
      state := state.(autoEject := Field(tlvs, TAG_AUTO_EJECT_TIMEOUT, state.autoEject));
      state := state.(chalresp := ByteField(tlvs, TAG_CHALRESP_TIMEOUT, state.chalresp));
      state := state.(flags := ByteField(tlvs, TAG_DEVICE_FLAGS, state.flags));
      state := state.(lock := LockField(tlvs, state.lock));
      assert state == Configured(was, tlvs);
      var ok := PersistState(nonce);
      return if ok then DONE else Err(R.SW_CONDITIONS_NOT_SATISFIED);
    }

    // The mode code is an index into a table of seven: the eighth code is not handled.
    method SetMode(p1: byte, data: seq<byte>, nonce: seq<byte>) returns (r: Answer)
      requires |data| == 4 ==> data[0] % 8 < 7
      modifies this, storage`contents
      ensures Carries(crypto, SetModeChange(old(state), p1, data), storage.failing, nonce, old(state),
                      old(storage.contents), r, state, storage.contents)
    {
      hide Serialized, And, LeValue;
      if p1 != P1_DEVICE_CONFIG {
        return Err(R.SW_WRONG_P1_P2);
      }
      if |data| != 4 {
        return Err(R.SW_WRONG_LENGTH);
      }
      var caps := And(ModeCaps(data[0] % 8), SUPPORTED);
      state := state.(usbEnabled := caps);
      state := state.(chalresp := data[1]);
      state := state.(autoEject := LeValue(data[2..]));
      var ok := PersistState(nonce);
      return if ok then DONE else Err(R.SW_CONDITIONS_NOT_SATISFIED);
    }
  }

  // ---------- Runs ----------

  datatype Request = Write(data: seq<byte>) | Mode(p1: byte, data: seq<byte>)

  // A request with the outcome of its write and the nonce it draws, or a restart.
  datatype Event = Serve(r: Request, storeOk: bool, nonce: seq<byte>) | Restart

  // The state in memory and the blob in storage; and, of the run so far, the state at the last
  // write that succeeded, and whether the last change adopted was not stored.
  datatype Device = Device(state: State, blob: seq<byte>, saved: State, lost: bool)

  // SET MODE with all three mode bits set indexes past the table.
  predicate Handled(r: Request) {
    r.Mode? && |r.data| == 4 ==> r.data[0] % 8 < 7
  }

  predicate GoodEvent(e: Event) {
    e.Serve? ==> Handled(e.r)
  }

  function ChangeOf(s: State, r: Request): Change
    requires Handled(r)
  {
    match r
    case Write(data) => WriteConfigChange(s, data)
    case Mode(p1, data) => SetModeChange(s, p1, data)
  }

  // What the stored blob boots into.
  function Loaded(crypto: Crypto, blob: seq<byte>): Option<State> {
    if |blob| <= 12 then None
    else match crypto.unseal(blob)
      case None => None
      case Some(plain) => Parsed(plain)
  }

  function After(crypto: Crypto, d: Device, e: Event): Option<Device>
    requires GoodEvent(e)
  {
    match e
    case Restart =>
      (match Loaded(crypto, d.blob)
       case None => None
       case Some(s) => Some(d.(state := s, lost := false)))
    case Serve(r, storeOk, nonce) =>
      match ChangeOf(d.state, r)
      case Decline(_) => Some(d)
      case Adopt(s) =>
        if storeOk then Some(Device(s, crypto.seal(nonce, Serialized(s)), s, false)) else Some(d.(state := s, lost := true))
  }

  function Run(crypto: Crypto, d: Device, events: seq<Event>): Option<Device>
    requires forall i :: 0 <= i < |events| ==> GoodEvent(events[i])
  {
    if events == [] then Some(d)
    else match Run(crypto, d, events[..|events| - 1])
      case None => None
      case Some(before) => After(crypto, before, events[|events| - 1])
  }

  ghost predicate Tracked(crypto: Crypto, d: Device) {
    && Good(d.state) && Good(d.saved) && d.state.serial == d.saved.serial
    && Loaded(crypto, d.blob) == Some(d.saved)
    && (!d.lost ==> d.saved == d.state)
  }

  lemma ChangesAreGood(s: State, r: Request)
    requires Good(s) && Handled(r)
    ensures var change := ChangeOf(s, r);
      change.Adopt? ==>
        && Good(change.state) && change.state.serial == s.serial
        && Parsed(Serialized(change.state)) == Some(change.state)
  {
    hide Parsed, Serialized, ConfigTlvs, Refusal, ModeSet, Good;
    match r
    case Write(data) =>
      if ConfigTlvs(data).Ok? && Refusal(s, ConfigTlvs(data).value).None? {
        ConfiguredIsGood(s, ConfigTlvs(data).value);
      }
    case Mode(p1, data) =>
      if |data| == 4 {
        ModeSetIsGood(s, data);
        ModeKeepsSerial(s, data);
      }
  }

  lemma ModeKeepsSerial(s: State, data: seq<byte>)
    requires |data| == 4 && data[0] % 8 < 7
    ensures ModeSet(s, data).serial == s.serial
  {
  }

  lemma StepKeepsTracked(crypto: Crypto, d: Device, e: Event)
    requires LawfulCrypto(crypto) && Tracked(crypto, d) && GoodEvent(e)
    ensures After(crypto, d, e).Some?
    ensures Tracked(crypto, After(crypto, d, e).value) && After(crypto, d, e).value.state.serial == d.state.serial
  {
    hide Good, ChangeOf, Parsed, Serialized;
    if e.Serve? {
      ChangesAreGood(d.state, e.r);
      hide Handled;
    }
  }

  // Over any run, whatever writes fail: the enabled interfaces stay within those supported and
  // the serial never changes, in memory and in storage; the applet keeps booting; and a restart
  // finds the last state stored, which is the state in memory when the last change was stored.
  lemma {:induction false} ReachableStatesAreGood(crypto: Crypto, d: Device, events: seq<Event>)
    requires LawfulCrypto(crypto) && Tracked(crypto, d)
    requires forall i :: 0 <= i < |events| ==> GoodEvent(events[i])
    ensures var now := Run(crypto, d, events);
      && now.Some? && Tracked(crypto, now.value)
      && now.value.state.serial == d.state.serial
      && Supported(now.value.state.usbEnabled) && Supported(now.value.saved.usbEnabled)
      && (var restarted := After(crypto, now.value, Restart);
          && restarted.Some? && restarted.value.state == now.value.saved
          && (!now.value.lost ==> restarted.value.state == now.value.state))
    decreases |events|
  {
    hide Good, Loaded, After, LawfulCrypto, Supported, GoodEvent;
    if events != [] {
      var n := |events| - 1;
      ReachableStatesAreGood(crypto, d, events[..n]);
      StepKeepsTracked(crypto, Run(crypto, d, events[..n]).value, events[n]);
    }
    var now := Run(crypto, d, events).value;
    GoodIsSupported(now.state);
    GoodIsSupported(now.saved);
    RestartFindsSaved(crypto, now);
  }

  lemma RestartFindsSaved(crypto: Crypto, d: Device)
    requires Tracked(crypto, d)
    ensures GoodEvent(Restart) && After(crypto, d, Restart) == Some(d.(state := d.saved, lost := false))
  {
    hide Good, Loaded;
  }

  lemma GoodIsSupported(s: State)
    requires Good(s)
    ensures Supported(s.usbEnabled)
  {
  }

  // Exactly which request parts memory from storage: one adopted whose write fails, unless it
  // asked for the state there already was.
  lemma PartedIffLost(crypto: Crypto, d: Device, r: Request, storeOk: bool, nonce: seq<byte>)
    requires LawfulCrypto(crypto) && Tracked(crypto, d) && !d.lost && Handled(r)
    ensures var after := After(crypto, d, Serve(r, storeOk, nonce));
      && after.Some?
      && ((Loaded(crypto, after.value.blob) != Some(after.value.state)) <==>
          (!storeOk && ChangeOf(d.state, r).Adopt? && ChangeOf(d.state, r).state != d.state))
  {
    StepKeepsTracked(crypto, d, Serve(r, storeOk, nonce));
    hide Good, Loaded, ChangeOf, LawfulCrypto, Handled;
  }

  // There is such a request: a mode the device does not support, with the write failing,
  // disables every interface until the restart.
  lemma SomeConfigurationIsLost(crypto: Crypto, nonce: seq<byte>) returns (d: Device, r: Request)
    requires LawfulCrypto(crypto)
    ensures Tracked(crypto, d) && !d.lost && Handled(r)
    ensures var after := After(crypto, d, Serve(r, false, nonce));
      after.Some? && after.value.state.usbEnabled == 0 && Loaded(crypto, after.value.blob) == Some(Factory(1))
  {
    hide And, Parsed, Serialized, LeValue;
    var s := Factory(1);
    SupportedIsSupported();
    StateRoundTrip(s);
    d := Device(s, crypto.seal(nonce, Serialized(s)), s, false);
    r := Mode(P1_DEVICE_CONFIG, [0, 0, 0, 0]);
    OtpIsNotSupported();
  }

  lemma OtpIsNotSupported()
    ensures And(ModeCaps(0), SUPPORTED) == 0
  {
    assert And(0, 0x317) == 0;
  }
}
