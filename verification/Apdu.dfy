/**
 Command APDUs of ISO/IEC 7816-4 section 5.1: the parser, the seven frame layouts it
 accepts, and the proof that it accepts exactly those and reads each in one way.
 */
module Apdu {
  import opened Bytes

  datatype ApduError = TooShort | TruncatedBody | TrailingBytes

  datatype Command = Command(cla: byte, ins: byte, p1: byte, p2: byte, data: seq<byte>, le: Option<nat>)

  const LE_MAX: nat := 256
  const LE_MAX_EXTENDED: nat := 65536

  function LeFromByte(b: byte): nat {
    if b == 0 then LE_MAX else b
  }

  function Pair(hi: byte, lo: byte): nat {
    hi as nat * 0x100 + lo as nat
  }

  function LeFromPair(hi: byte, lo: byte): nat {
    var value := Pair(hi, lo);
    if value == 0 then LE_MAX_EXTENDED else value
  }

  // An expected length, when present, is at least one: every GET RESPONSE makes progress.
  function Parse(raw: seq<byte>): (r: Result<Command, ApduError>)
    ensures r.Ok? && r.value.le.Some? ==> 1 <= r.value.le.value <= LE_MAX_EXTENDED
    ensures r == Err(TooShort) <==> |raw| < 4
  {
    if |raw| < 4 then Err(TooShort)
    else
      var bare := Command(raw[0], raw[1], raw[2], raw[3], [], None);
      if |raw| == 4 then Ok(bare)
      else if |raw| == 5 then Ok(bare.(le := Some(LeFromByte(raw[4]))))
      else if raw[4] == 0 then
        if |raw| == 6 then Ok(bare.(le := Some(LeFromByte(raw[5]))))
        else if |raw| == 7 then Ok(bare.(le := Some(LeFromPair(raw[5], raw[6]))))
        else
          var lc: nat := Pair(raw[5], raw[6]);
          if |raw| < 7 + lc then Err(TruncatedBody)
          else
            var full := bare.(data := raw[7..7 + lc]);
            if |raw| - (7 + lc) == 0 then Ok(full)
            else if |raw| - (7 + lc) == 2 then Ok(full.(le := Some(LeFromPair(raw[|raw| - 2], raw[|raw| - 1]))))
            else Err(TrailingBytes)
      else
        var lc: nat := raw[4];
        if |raw| < 5 + lc then Err(TruncatedBody)
        else
          var full := bare.(data := raw[5..5 + lc]);
          if |raw| - (5 + lc) == 0 then Ok(full)
          else if |raw| - (5 + lc) == 1 then Ok(full.(le := Some(LeFromByte(raw[5 + lc]))))
          else Err(TrailingBytes)
  }

  // ---------- The layouts, as a host writes them ----------

  datatype Header = Header(cla: byte, ins: byte, p1: byte, p2: byte)

  datatype Layout =
    | Case1
    | Case2S(le: byte)
    | Case3S(data: seq<byte>)
    | Case4S(data: seq<byte>, le: byte)
    | Case2E(hi: byte, lo: byte)
    | Case3E(data: seq<byte>)
    | Case4E(data: seq<byte>, hi: byte, lo: byte)

  // The data each layout can carry.  A case 3 frame carries some: without any it would be
  // five (short) or seven (extended) bytes long, which is case 2.
  predicate WellFormed(l: Layout) {
    match l
    case Case3S(data) => 1 <= |data| <= 0xff
    case Case4S(data, _) => |data| <= 0xff
    case Case3E(data) => 1 <= |data| <= 0xffff
    case Case4E(data, _, _) => |data| <= 0xffff
    case _ => true
  }

  function Encode(h: Header, l: Layout): seq<byte>
    requires WellFormed(l)
  {
    [h.cla, h.ins, h.p1, h.p2] +
    match l
    case Case1 => []
    case Case2S(le) => [le]
    case Case3S(data) => [|data|] + data
    case Case4S(data, le) => [|data|] + data + [le]
    case Case2E(hi, lo) => [0, hi, lo]
    case Case3E(data) => [0, |data| / 0x100, |data| % 0x100] + data
    case Case4E(data, hi, lo) => [0, |data| / 0x100, |data| % 0x100] + data + [hi, lo]
  }

  // How many bytes a host asks for: zero stands for as many as the form allows.
  function ShortLe(le: byte): nat {
    if le == 0 then 256 else le
  }

  function ExtendedLe(hi: byte, lo: byte): nat {
    if hi == 0 && lo == 0 then 65536 else hi as nat * 256 + lo as nat
  }

  lemma LeIsRead(hi: byte, lo: byte)
    ensures LeFromByte(lo) == ShortLe(lo) && LeFromPair(hi, lo) == ExtendedLe(hi, lo)
  {
  }

  function Meaning(h: Header, l: Layout): Command {
    var bare := Command(h.cla, h.ins, h.p1, h.p2, [], None);
    match l
    case Case1 => bare
    case Case2S(le) => bare.(le := Some(ShortLe(le)))
    case Case3S(data) => bare.(data := data)
    case Case4S(data, le) => bare.(data := data, le := Some(ShortLe(le)))
    case Case2E(hi, lo) => bare.(le := Some(ExtendedLe(hi, lo)))
    case Case3E(data) => bare.(data := data)
    case Case4E(data, hi, lo) => bare.(data := data, le := Some(ExtendedLe(hi, lo)))
  }

  lemma LengthBytes(n: nat) returns (high: byte, low: byte)
    requires n <= 0xffff
    ensures high as int == n / 0x100 && low as int == n % 0x100 && Pair(high, low) == n
  {
    high, low := n / 0x100, n % 0x100;
  }

  lemma PairParts(hi: byte, lo: byte)
    ensures Pair(hi, lo) <= 0xffff && Pair(hi, lo) / 0x100 == hi as int && Pair(hi, lo) % 0x100 == lo as int
  {
  }

  // The parser inverts every encoder.
  lemma ParseInvertsEncode(h: Header, l: Layout)
    requires WellFormed(l)
    ensures Parse(Encode(h, l)) == Ok(Meaning(h, l))
  {
    match l
    case Case2S(le) => LeIsRead(0, le);
    case Case2E(hi, lo) => LeIsRead(hi, lo);
    case Case3S(data) => ShortInverted(h, l);
    case Case4S(data, _) => ShortInverted(h, l);
    case Case3E(data) => ExtendedInverted(h, l);
    case Case4E(data, _, _) => ExtendedInverted(h, l);
    case _ =>
  }

  lemma ShortInverted(h: Header, l: Layout)
    requires WellFormed(l) && (l.Case3S? || l.Case4S?)
    ensures Parse(Encode(h, l)) == Ok(Meaning(h, l))
  {
    LeIsRead(0, if l.Case4S? then l.le else 0);
    hide Pair, LeFromByte, LeFromPair, ShortLe;
    var tail := if l.Case4S? then [l.le] else [];
    Framed(Encode(h, l), [h.cla, h.ins, h.p1, h.p2, |l.data|], l.data, tail);
  }

  lemma ExtendedInverted(h: Header, l: Layout)
    requires WellFormed(l) && (l.Case3E? || l.Case4E?)
    ensures Parse(Encode(h, l)) == Ok(Meaning(h, l))
  {
    var high, low := LengthBytes(|l.data|);
    var tail := if l.Case4E? then [l.hi, l.lo] else [];
    Framed(Encode(h, l), [h.cla, h.ins, h.p1, h.p2, 0, high, low], l.data, tail);
    ExtendedParses(Encode(h, l), h, high, low, l.data, tail);
    if l.Case4E? {
      LeIsRead(l.hi, l.lo);
    }
    hide Parse, Encode, LeFromPair, ExtendedLe;
  }

  lemma ExtendedParses(raw: seq<byte>, h: Header, high: byte, low: byte, data: seq<byte>, tail: seq<byte>)
    requires |tail| in {0, 2} && data + tail != [] && Pair(high, low) == |data| && |raw| == 7 + |data| + |tail| && |raw| > 7
    requires raw[0] == h.cla && raw[1] == h.ins && raw[2] == h.p1 && raw[3] == h.p2
    requires raw[4] == 0 && raw[5] == high && raw[6] == low
    requires raw[7..7 + |data|] == data && raw[7 + |data|..] == tail
    ensures Parse(raw) == Ok(Command(h.cla, h.ins, h.p1, h.p2, data, if tail == [] then None else Some(LeFromPair(tail[0], tail[1]))))
  {
    hide Pair, LeFromPair, LeFromByte;
    if tail != [] {
      assert tail[0] == raw[|raw| - 2] && tail[1] == raw[|raw| - 1];
    }
  }

  lemma Framed(raw: seq<byte>, head: seq<byte>, data: seq<byte>, tail: seq<byte>)
    requires raw == head + data + tail
    ensures raw[..|head|] == head && raw[|head|..|head| + |data|] == data && raw[|head| + |data|..] == tail
    ensures forall i :: 0 <= i < |head| ==> raw[i] == head[i]
    ensures forall i :: 0 <= i < |tail| ==> raw[|head| + |data| + i] == tail[i]
  {
  }

  // The layout a frame is an instance of, if it is accepted at all.
  lemma AcceptedFramesAreEncodings(raw: seq<byte>) returns (h: Header, l: Layout)
    requires Parse(raw).Ok?
    ensures WellFormed(l) && raw == Encode(h, l) && Parse(raw) == Ok(Meaning(h, l))
  {
    LeIsRead(0, if |raw| > 4 then raw[|raw| - 1] else 0);
    if |raw| == 7 {
      LeIsRead(raw[5], raw[6]);
    }
    hide LeFromByte, LeFromPair, ShortLe, ExtendedLe;
    h := Header(raw[0], raw[1], raw[2], raw[3]);
    if |raw| == 4 {
      l := Case1;
    } else if |raw| == 5 {
      l := Case2S(raw[4]);
    } else if raw[4] != 0 {
      var data := raw[5..5 + raw[4]];
      l := if |raw| == 5 + |data| then Case3S(data) else Case4S(data, raw[5 + |data|]);
    } else if |raw| == 6 {
      l := Case4S([], raw[5]);
    } else if |raw| == 7 {
      l := Case2E(raw[5], raw[6]);
    } else {
      l := ExtendedLayout(raw, h);
    }
  }

  lemma ExtendedLayout(raw: seq<byte>, h: Header) returns (l: Layout)
    requires |raw| > 7 && raw[4] == 0 && h == Header(raw[0], raw[1], raw[2], raw[3]) && Parse(raw).Ok?
    ensures WellFormed(l) && raw == Encode(h, l) && Parse(raw) == Ok(Meaning(h, l))
  {
    LeIsRead(raw[|raw| - 2], raw[|raw| - 1]);
    PairParts(raw[5], raw[6]);
    hide Pair, LeFromPair, LeFromByte, ExtendedLe;
    var lc: nat := Pair(raw[5], raw[6]);
    var data := raw[7..7 + lc];
    ExtendedParts(raw, lc);
    if |raw| == 7 + lc {
      l := Case3E(data);
    } else {
      var hi, lo := raw[7 + lc], raw[8 + lc];
      l := Case4E(data, hi, lo);
      assert raw[7 + lc..] == [hi, lo];
    }
  }

  lemma ExtendedParts(raw: seq<byte>, lc: nat)
    requires 7 + lc <= |raw|
    ensures raw == [raw[0], raw[1], raw[2], raw[3]] + ([raw[4]] + [raw[5], raw[6]] + raw[7..7 + lc] + raw[7 + lc..])
    ensures [raw[4]] + [raw[5], raw[6]] + raw[7..7 + lc] + [] == [raw[4]] + [raw[5], raw[6]] + raw[7..7 + lc]
  {
  }

  // Accepted frames are the encodings, and nothing else.
  lemma ParserIsExact(raw: seq<byte>)
    ensures Parse(raw).Ok? <==> exists h, l :: WellFormed(l) && raw == Encode(h, l)
  {
    if Parse(raw).Ok? {
      var h, l := AcceptedFramesAreEncodings(raw);
    } else if exists h, l :: WellFormed(l) && raw == Encode(h, l) {
      var h, l :| WellFormed(l) && raw == Encode(h, l);
      ParseInvertsEncode(h, l);
    }
  }

  // No frame has two readings.
  lemma OneReading(h: Header, l: Layout, h': Header, l': Layout)
    requires WellFormed(l) && WellFormed(l') && Encode(h, l) == Encode(h', l')
    ensures h == h' && l == l'
  {
    ParseInvertsEncode(h, l);
    ParseInvertsEncode(h', l');
    hide ShortLe, ExtendedLe;
    var raw := Encode(h, l);
    assert raw[..4] == [h.cla, h.ins, h.p1, h.p2] && Encode(h', l')[..4] == [h'.cla, h'.ins, h'.p1, h'.p2];
    LastBytes(h, l);
    LastBytes(h', l');
    LengthOf(h, l);
    LengthOf(h', l');
  }

  lemma LastBytes(h: Header, l: Layout)
    requires WellFormed(l)
    ensures var raw := Encode(h, l);
      && (l.Case2S? || l.Case4S? ==> raw[|raw| - 1] == l.le)
      && (l.Case2E? || l.Case4E? ==> raw[|raw| - 2] == l.hi && raw[|raw| - 1] == l.lo)
  {
  }

  // Length and fifth byte decide the case.
  lemma LengthOf(h: Header, l: Layout)
    requires WellFormed(l)
    ensures var raw := Encode(h, l);
      match l
      case Case1 => |raw| == 4
      case Case2S(_) => |raw| == 5
      case Case3S(data) => |raw| == 5 + |data| && raw[4] == |data|
      case Case4S(data, _) => |raw| == 6 + |data| && raw[4] == |data|
      case Case2E(_, _) => |raw| == 7 && raw[4] == 0
      case Case3E(data) => |raw| == 7 + |data| && raw[4] == 0
      case Case4E(data, _, _) => |raw| == 9 + |data| && raw[4] == 0
  {
  }
}
