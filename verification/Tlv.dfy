/**
 Short-form tag-length-value lists: writing, reading, and picking tags out of a request.
 */
module Tlv {
  import opened Bytes

  type Tlv = (byte, seq<byte>)

  // One entry, as `push_tlv` appends it (values of at most 255 bytes).
  function Entry(tag: byte, value: seq<byte>): seq<byte> {
    [tag, |value| % 0x100] + value
  }

  function Flatten(tlvs: seq<Tlv>): seq<byte> {
    if tlvs == [] then [] else Entry(tlvs[0].0, tlvs[0].1) + Flatten(tlvs[1..])
  }

  predicate ShortForm(tlvs: seq<Tlv>) {
    forall i :: 0 <= i < |tlvs| ==> |tlvs[i].1| <= 0xff
  }

  // The list a byte string denotes; None when an entry is cut short.
  function Parsed(data: seq<byte>): Option<seq<Tlv>> {
    if data == [] then Some([])
    else if |data| < 2 || 2 + data[1] as int > |data| then None
    else
      var end := 2 + data[1] as int;
      match Parsed(data[end..])
      case None => None
      case Some(rest) => Some([(data[0], data[2..end])] + rest)
  }

  // Reading inverts writing ...
  lemma {:induction false} ParsedFlatten(tlvs: seq<Tlv>)
    requires ShortForm(tlvs)
    ensures Parsed(Flatten(tlvs)) == Some(tlvs)
    decreases |tlvs|
  {
    if tlvs != [] {
      var (tag, value) := tlvs[0];
      var rest := Flatten(tlvs[1..]);
      var data := Flatten(tlvs);
      assert data == [tag, |value|] + value + rest;
      assert data[2..2 + |value|] == value && data[2 + |value|..] == rest;
      ParsedFlatten(tlvs[1..]);
      assert data[1] as int == |value|;
      assert Parsed(data) == Some([(tag, value)] + tlvs[1..]);
      assert [(tag, value)] + tlvs[1..] == tlvs;
    }
  }

  lemma FlattenCons(tag: byte, value: seq<byte>, rest: seq<Tlv>)
    ensures Flatten([(tag, value)] + rest) == Entry(tag, value) + Flatten(rest)
  {
    assert ([(tag, value)] + rest)[1..] == rest;
  }

  // ... and every list read is the only reading of the bytes.
  lemma {:induction false} ParsedIsFlat(data: seq<byte>)
    requires Parsed(data).Some?
    ensures ShortForm(Parsed(data).value) && Flatten(Parsed(data).value) == data
    decreases |data|
  {
    hide Parsed, Flatten;
    if data == [] {
      NothingParsed();
    } else {
      ParsedStep(data);
      var end := 2 + data[1] as int;
      var rest := Parsed(data[end..]).value;
      ParsedIsFlat(data[end..]);
      FlattenCons(data[0], data[2..end], rest);
      assert data == Entry(data[0], data[2..end]) + data[end..];
    }
  }

  lemma NothingParsed()
    ensures Parsed([]) == Some([]) && Flatten([]) == []
  {
  }

  lemma ParsedStep(data: seq<byte>)
    requires data != [] && Parsed(data).Some?
    ensures 2 <= |data| && 2 + data[1] as int <= |data|
    ensures var end := 2 + data[1] as int;
      Parsed(data[end..]).Some? && Parsed(data).value == [(data[0], data[2..end])] + Parsed(data[end..]).value
  {
  }

  // The reading loop.
  method ParseTlvs(data: seq<byte>) returns (r: Option<seq<Tlv>>)
    ensures r == Parsed(data)
  {
    var tlvs: seq<Tlv> := [];
    var pos := 0;
    assert data[0..] == data && forall rest: seq<Tlv> :: tlvs + rest == rest;
    while pos < |data|
      invariant 0 <= pos <= |data|
      invariant Parsed(data) == match Parsed(data[pos..]) case None => None case Some(rest) => Some(tlvs + rest)
    {
      if |data| - pos < 2 {
        return None;
      }
      var tag := data[pos];
      var end := pos + 2 + data[pos + 1] as int;
      if end > |data| {
        return None;
      }
      ghost var suffix := data[pos..];
      assert suffix[2..end - pos] == data[pos + 2..end] && suffix[end - pos..] == data[end..];
      ghost var before := tlvs;
      tlvs := tlvs + [(tag, data[pos + 2..end])];
      assert forall rest :: before + ([(tag, data[pos + 2..end])] + rest) == tlvs + rest;
      pos := end;
    }
    assert tlvs + [] == tlvs;
    return Some(tlvs);
  }

  // ---------- Picking tags ----------

  function Values(tlvs: seq<Tlv>, tag: byte): seq<seq<byte>> {
    if tlvs == [] then []
    else (if tlvs[0].0 == tag then [tlvs[0].1] else []) + Values(tlvs[1..], tag)
  }

  function Others(tlvs: seq<Tlv>, tag: byte): seq<Tlv> {
    if tlvs == [] then []
    else (if tlvs[0].0 == tag then [] else [tlvs[0]]) + Others(tlvs[1..], tag)
  }

  // Removes the only occurrence of a tag; None when it occurs twice.
  function TakeTag(tlvs: seq<Tlv>, tag: byte): Option<(Option<seq<byte>>, seq<Tlv>)> {
    var values := Values(tlvs, tag);
    if |values| > 1 then None
    else Some((if values == [] then None else Some(values[0]), Others(tlvs, tag)))
  }
}
