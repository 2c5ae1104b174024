/**
 The card router: SELECT by application identifier, dispatch to the selected applet, and
 response chaining with GET RESPONSE.  An applet is any deterministic state machine.
 */
module CardRouter {
  import opened Bytes
  import opened Apdu

  const SW_NO_ERROR: nat := 0x9000
  const SW_FILE_NOT_FOUND: nat := 0x6A82
  const SW_INS_NOT_SUPPORTED: nat := 0x6D00
  const SW_WRONG_P1_P2: nat := 0x6B00
  const SW_WRONG_LENGTH: nat := 0x6700
  const SW_CONDITIONS_NOT_SATISFIED: nat := 0x6985
  const SW_SECURITY_STATUS: nat := 0x6982
  const SW_MORE_DATA_BASE: nat := 0x6100

  const INS_SELECT: byte := 0xA4
  const INS_GET_RESPONSE: byte := 0xC0

  // `61 XX`: the number of bytes left, or 00 when 256 or more are.
  function SwMoreData(remaining: nat): nat {
    if remaining > 255 then SW_MORE_DATA_BASE else SW_MORE_DATA_BASE + remaining
  }

  // What an applet answers; no status word means 9000.
  datatype Response = Response(data: seq<byte>, sw: Option<nat>)

  // What the host receives.
  datatype Reply = Reply(data: seq<byte>, sw: nat)

  datatype Applet<!S> = Applet(
    aid: seq<byte>,
    select: S -> (Result<(), nat>, S),
    selectResponse: S -> (seq<byte>, S),
    process: (S, Command) -> (Result<Response, nat>, S))

  datatype Chain = Chain(buf: seq<byte>, pos: nat, finalSw: nat)

  datatype State<S> = State(applets: seq<S>, selected: Option<nat>, chain: Option<Chain>)

  ghost predicate ChainOk(chain: Option<Chain>) {
    chain.Some? ==> chain.value.pos < |chain.value.buf|
  }

  // ---------- Delivery and GET RESPONSE ----------

  function Sw(r: Response): nat {
    match r.sw
    case None => SW_NO_ERROR
    case Some(sw) => sw
  }

  function Deliver(r: Response, le: Option<nat>): (Reply, Option<Chain>) {
    var limit := if le.Some? then le.value else 0;
    if r.data == [] then (Reply([], Sw(r)), None)
    else if |r.data| <= limit then (Reply(r.data, Sw(r)), None)
    else (Reply(r.data[..limit], SwMoreData(|r.data| - limit)), Some(Chain(r.data, limit, Sw(r))))
  }

  function ServeGetResponse(chain: Option<Chain>, le: Option<nat>): (Reply, Option<Chain>)
    requires chain.Some? ==> chain.value.pos <= |chain.value.buf|
  {
    match chain
    case None => (Reply([], SW_CONDITIONS_NOT_SATISFIED), None)
    case Some(c) =>
      var remaining := |c.buf| - c.pos;
      var want := if le.Some? then le.value else LE_MAX;
      var n := if want < remaining then want else remaining;
      if c.pos + n == |c.buf| then (Reply(c.buf[c.pos..], c.finalSw), None)
      else (Reply(c.buf[c.pos..c.pos + n], SwMoreData(remaining - n)), Some(c.(pos := c.pos + n)))
  }

  // ---------- SELECT ----------

  // The scan over registered identifiers from `idx` on, with the best prefix match so far.
  function Scan(aids: seq<seq<byte>>, requested: seq<byte>, idx: nat, best: Option<nat>, bestLen: nat): (r: Option<nat>)
    requires idx <= |aids| && (best.Some? ==> best.value < |aids|)
    ensures r.Some? ==> r.value < |aids|
    decreases |aids| - idx
  {
    if idx == |aids| then best
    else if aids[idx] == requested then Some(idx)
    else if requested <= aids[idx] && |aids[idx]| > bestLen then Scan(aids, requested, idx + 1, Some(idx), |aids[idx]|)
    else Scan(aids, requested, idx + 1, best, bestLen)
  }

  // The rule the scan implements: the first exact match, else the first among the longest
  // identifiers that start with the request, else none.
  ghost predicate IsMatch(aids: seq<seq<byte>>, requested: seq<byte>, found: Option<nat>) {
    if requested in aids then
      found.Some? && found.value < |aids| && aids[found.value] == requested && requested !in aids[..found.value]
    else match found
      case None => forall i :: 0 <= i < |aids| ==> !(requested <= aids[i])
      case Some(k) =>
        && k < |aids| && requested <= aids[k]
        && (forall i :: 0 <= i < |aids| && requested <= aids[i] ==> |aids[i]| <= |aids[k]|)
        && (forall i :: 0 <= i < k && requested <= aids[i] ==> |aids[i]| < |aids[k]|)
  }

  lemma ScanFindsMatch(aids: seq<seq<byte>>, requested: seq<byte>)
    requires requested != []
    ensures IsMatch(aids, requested, Scan(aids, requested, 0, None, 0))
  {
    assert aids[..0] == [];
    ScanFrom(aids, requested, 0, None, 0);
  }

  lemma {:induction false} ScanFrom(aids: seq<seq<byte>>, requested: seq<byte>, idx: nat, best: Option<nat>, bestLen: nat)
    requires requested != [] && idx <= |aids| && requested !in aids[..idx]
    requires IsMatch(aids[..idx], requested, best)
    requires bestLen == if best.Some? then |aids[best.value]| else 0
    ensures IsMatch(aids, requested, Scan(aids, requested, idx, best, bestLen))
    decreases |aids| - idx
  {
    if idx == |aids| {
      assert aids[..idx] == aids;
    } else {
      assert aids[..idx + 1] == aids[..idx] + [aids[idx]];
      if aids[idx] == requested {
        assert aids[idx] in aids;
      } else if requested <= aids[idx] && |aids[idx]| > bestLen {
        ScanFrom(aids, requested, idx + 1, Some(idx), |aids[idx]|);
      } else {
        ScanFrom(aids, requested, idx + 1, best, bestLen);
      }
    }
  }

  // ---------- One exchange ----------

  function HandleSelect<S>(applets: seq<Applet<S>>, st: State<S>, requested: seq<byte>): (Reply, State<S>)
    requires |st.applets| == |applets|
  {
    if requested == [] then (Reply([], SW_FILE_NOT_FOUND), st)
    else
      match Scan(Aids(applets), requested, 0, None, 0)
      case None => (Reply([], SW_FILE_NOT_FOUND), st)
      case Some(idx) =>
        var (outcome, s) := applets[idx].select(st.applets[idx]);
        match outcome
        case Err(sw) => (Reply([], sw), st.(applets := st.applets[idx := s]))
        case Ok(_) =>
          var (data, s') := applets[idx].selectResponse(s);
          (Reply(data, SW_NO_ERROR), st.(applets := st.applets[idx := s'], selected := Some(idx)))
  }

  function Aids<S>(applets: seq<Applet<S>>): (r: seq<seq<byte>>)
    ensures |r| == |applets|
  {
    seq(|applets|, i requires 0 <= i < |applets| => applets[i].aid)
  }

  ghost predicate Valid<S>(applets: seq<Applet<S>>, st: State<S>) {
    && |st.applets| == |applets|
    && (st.selected.Some? ==> st.selected.value < |applets|)
    && ChainOk(st.chain)
  }

  function Process<S>(applets: seq<Applet<S>>, st: State<S>, raw: seq<byte>): (r: (Reply, State<S>))
    requires Valid(applets, st)
    ensures Valid(applets, r.1)
  {
    match Parse(raw)
    case Err(_) => (Reply([], SW_WRONG_LENGTH), st)
    case Ok(c) =>
      if c.ins == INS_GET_RESPONSE then
        var (reply, chain) := ServeGetResponse(st.chain, c.le);
        (reply, st.(chain := chain))
      else
        var st1 := st.(chain := None);
        if c.ins == INS_SELECT then HandleSelect(applets, st1, c.data)
        else match st1.selected
          case None => (Reply([], SW_INS_NOT_SUPPORTED), st1)
          case Some(idx) =>
            var (outcome, s) := applets[idx].process(st1.applets[idx], c);
            var response := match outcome case Ok(r) => r case Err(sw) => Response([], Some(sw));
            var (reply, chain) := Deliver(response, c.le);
            (reply, st1.(applets := st1.applets[idx := s], chain := chain))
  }

  // The identifiers the registered applets answer to, in order.
  ghost predicate AidsAre<S>(applets: seq<Applet<S>>, aids: seq<seq<byte>>) {
    |aids| == |applets| && forall i :: 0 <= i < |aids| ==> aids[i] == applets[i].aid
  }

  lemma MatchIsUnique(aids: seq<seq<byte>>, requested: seq<byte>, a: Option<nat>, b: Option<nat>)
    requires requested != [] && IsMatch(aids, requested, a) && IsMatch(aids, requested, b)
    ensures a == b
  {
  }

  // A SELECT frame selects the applet its data field names: the match for it, if there is one
  // and it accepts.  Then that applet is the selected one, and its data goes out with 9000.
  // With no match the answer is 6A82, with a refusal the status word of the applet, and
  // whatever was selected stays so.  No other applet's state changes, and the chain ends.
  lemma SelectIsExact<S>(applets: seq<Applet<S>>, st: State<S>, raw: seq<byte>, aids: seq<seq<byte>>, found: Option<nat>)
    requires Valid(applets, st) && Parse(raw).Ok? && Parse(raw).value.ins == 0xA4 && AidsAre(applets, aids)
    requires if Parse(raw).value.data == [] then found == None else IsMatch(aids, Parse(raw).value.data, found)
    ensures var (reply, st1) := Process(applets, st, raw);
      && st1.chain == None && |st1.applets| == |st.applets|
      && match found
         case None => reply == Reply([], 0x6A82) && st1.selected == st.selected && st1.applets == st.applets
         case Some(k) =>
           && k < |applets|
           && (var (outcome, s) := applets[k].select(st.applets[k]);
               match outcome
               case Err(sw) => reply == Reply([], sw) && st1.selected == st.selected && st1.applets == st.applets[k := s]
               case Ok(_) =>
                 var (data, s') := applets[k].selectResponse(s);
                 reply == Reply(data, 0x9000) && st1.selected == Some(k) && st1.applets == st.applets[k := s'])
  {
    var requested := Parse(raw).value.data;
    hide Parse, Scan;
    if requested != [] {
      assert Aids(applets) == aids;
      ScanFindsMatch(aids, requested);
      MatchIsUnique(aids, requested, found, Scan(aids, requested, 0, None, 0));
    }
    hide IsMatch;
  }

  // A frame that is neither SELECT nor GET RESPONSE goes to the selected applet: its error is
  // the answer, or its response is, as far as Le lets it, with the rest kept for GET RESPONSE.
  // Without a selected applet the answer is 6D00.  No other applet's state changes.
  lemma SelectedAnswers<S>(applets: seq<Applet<S>>, st: State<S>, raw: seq<byte>)
    requires Valid(applets, st) && Parse(raw).Ok? && Parse(raw).value.ins !in {0xA4, 0xC0}
    ensures var (reply, st1) := Process(applets, st, raw);
      && st1.selected == st.selected
      && match st.selected
         case None => reply == Reply([], 0x6D00) && st1 == st.(chain := None)
         case Some(k) =>
           var c := Parse(raw).value;
           var (outcome, s) := applets[k].process(st.applets[k], c);
           && st1.applets == st.applets[k := s]
           && match outcome
              case Err(sw) => reply == Reply([], sw) && st1.chain == None
              case Ok(r) =>
                var final := if r.sw.Some? then r.sw.value else 0x9000;
                var inline := if c.le.None? then 0 else if c.le.value < |r.data| then c.le.value else |r.data|;
                && reply.data == r.data[..inline]
                && (if inline == |r.data| then reply.sw == final && st1.chain == None
                    else reply.sw == MoreData(|r.data| - inline) && st1.chain == Some(Chain(r.data, inline, final)))
  {
    hide Parse;
    if st.selected.Some? {
      var c := Parse(raw).value;
      var outcome := applets[st.selected.value].process(st.applets[st.selected.value], c).0;
      if outcome.Ok? {
        DeliveredPart(outcome.value, c.le);
        DeliveredAmount(outcome.value, c.le);
        hide Deliver;
      }
    }
  }

  // `61 XX` with the number of bytes left, or 6100 when that does not fit in a byte.
  function MoreData(left: nat): nat {
    0x6100 + (if left < 0x100 then left else 0)
  }

  // GET RESPONSE hands out what Le asks for - 256 bytes without Le - or what is left of it, and
  // without a chain answers 6985.
  lemma GetResponseAnswers<S>(applets: seq<Applet<S>>, st: State<S>, raw: seq<byte>)
    requires Valid(applets, st) && Parse(raw).Ok? && Parse(raw).value.ins == 0xC0
    ensures var (reply, st1) := Process(applets, st, raw);
      && st1.selected == st.selected && st1.applets == st.applets
      && match st.chain
         case None => reply == Reply([], 0x6985) && st1.chain == None
         case Some(c) =>
           var le := Parse(raw).value.le;
           var asked := if le.None? then 256 else le.value;
           var end := if c.pos + asked < |c.buf| then c.pos + asked else |c.buf|;
           && reply.data == c.buf[c.pos..end]
           && (if end == |c.buf| then reply.sw == c.finalSw && st1.chain == None
               else reply.sw == MoreData(|c.buf| - end) && st1.chain == Some(c.(pos := end)))
  {
    hide Parse;
  }

  // A frame that cannot be read answers 6700 and changes nothing, not even the chain.
  lemma MalformedIsRefused<S>(applets: seq<Applet<S>>, st: State<S>, raw: seq<byte>)
    requires Valid(applets, st) && Parse(raw).Err?
    ensures Process(applets, st, raw) == (Reply([], 0x6700), st)
  {
    hide Parse;
  }

  // The selection and what follows: the applet selected answers the next command.
  lemma SelectThenAnswer<S>(applets: seq<Applet<S>>, st: State<S>, select: seq<byte>, next: seq<byte>, aids: seq<seq<byte>>, k: nat)
    requires Valid(applets, st) && Parse(select).Ok? && Parse(select).value.ins == 0xA4 && AidsAre(applets, aids)
    requires Parse(select).value.data != [] && IsMatch(aids, Parse(select).value.data, Some(k))
    requires Parse(next).Ok? && Parse(next).value.ins !in {0xA4, 0xC0}
    ensures k < |applets|
    ensures var (outcome, s) := applets[k].select(st.applets[k]);
      outcome.Ok? ==>
        var st1 := Process(applets, st, select).1;
        var (answer, after) := applets[k].process(applets[k].selectResponse(s).1, Parse(next).value);
        var (reply, st2) := Process(applets, st1, next);
        && st1.selected == Some(k) && st2.selected == Some(k) && st2.applets[k] == after
        && (answer.Err? ==> reply == Reply([], answer.error))
        && (answer.Ok? ==> reply.data <= answer.value.data)
  {
    SelectIsExact(applets, st, select, aids, Some(k));
    SelectedAnswers(applets, Process(applets, st, select).1, next);
    hide Parse, Process, IsMatch;
  }

  // The same applets but for what they do with commands.
  ghost predicate SameButProcess<S(!new)>(applets: seq<Applet<S>>, others: seq<Applet<S>>) {
    && |applets| == |others|
    && forall i :: 0 <= i < |applets| ==>
         && others[i].aid == applets[i].aid && others[i].select == applets[i].select
         && others[i].selectResponse == applets[i].selectResponse
  }

  // Which frames reach the selected applet: what applets do with commands can matter for the
  // outcome exactly for frames other than SELECT (A4) and GET RESPONSE (C0), whatever the
  // applet itself means by those instruction bytes.
  lemma ReachesAppletIff<S(!new)>(applets: seq<Applet<S>>, st: State<S>, raw: seq<byte>)
    requires Valid(applets, st) && st.selected.Some? && Parse(raw).Ok?
    ensures (exists others :: SameButProcess(applets, others) && Process(others, st, raw) != Process(applets, st, raw)) <==>
            Parse(raw).value.ins !in {INS_SELECT, INS_GET_RESPONSE}
  {
    hide Parse;
    var ins := Parse(raw).value.ins;
    if ins in {INS_SELECT, INS_GET_RESPONSE} {
      forall others | SameButProcess(applets, others)
        ensures Process(others, st, raw) == Process(applets, st, raw)
      {
        assert Aids(others) == Aids(applets);
      }
    } else {
      var sw := Process(applets, st, raw).0.sw + 1;
      var k := st.selected.value;
      var others := applets[k := applets[k].(process := (s: S, c: Command) => (Err(sw), s))];
      assert Process(others, st, raw).0.sw == sw;
      assert SameButProcess(applets, others);
    }
  }

  class Router<S> {
    const applets: seq<Applet<S>>
    var states: seq<S>
    var selected: Option<nat>
    var chain: Option<Chain>

    constructor (applets: seq<Applet<S>>, states: seq<S>)
      requires |states| == |applets|
      ensures this.applets == applets && Snapshot() == State(states, None, None) && Valid(applets, Snapshot())
    {
      this.applets, this.states := applets, states;
      selected, chain := None, None;
    }

    function Snapshot(): State<S>
      reads this
    {
      State(states, selected, chain)
    }

    // `process`: one raw frame in, one reply out.
    method Exchange(raw: seq<byte>) returns (reply: Reply)
      requires Valid(applets, Snapshot())
      modifies this
      ensures Valid(applets, Snapshot())
      ensures (reply, Snapshot()) == Process(applets, old(Snapshot()), raw)
    {
      var parsed := Parse(raw);
      if parsed.Err? {
        return Reply([], SW_WRONG_LENGTH);
      }
      var c := parsed.value;
      if c.ins == INS_GET_RESPONSE {
        reply := GetResponse(c.le);
        return;
      }
      chain := None;
      if c.ins == INS_SELECT {
        reply := Select(c.data);
        return;
      }
      match selected {
        case None =>
          return Reply([], SW_INS_NOT_SUPPORTED);
        case Some(idx) =>
          var (outcome, s) := applets[idx].process(states[idx], c);
          states := states[idx := s];
          var response := match outcome case Ok(r) => r case Err(sw) => Response([], Some(sw));
          reply := DeliverInline(response, c.le);
      }
    }

    // Everything inline when it fits in Le; otherwise the part that fits, the rest retained.
    method DeliverInline(r: Response, le: Option<nat>) returns (reply: Reply)
      requires chain == None
      modifies this`chain
      ensures (reply, chain) == Deliver(r, le) && ChainOk(chain)
    {
      var limit := if le.Some? then le.value else 0;
      if |r.data| == 0 {
        return Reply([], Sw(r));
      }
      if |r.data| <= limit {
        return Reply(r.data, Sw(r));
      }
      chain := Some(Chain(r.data, limit, Sw(r)));
      return Reply(r.data[..limit], SwMoreData(|r.data| - limit));
    }

    method GetResponse(le: Option<nat>) returns (reply: Reply)
      requires ChainOk(chain)
      modifies this`chain
      ensures (reply, chain) == ServeGetResponse(old(chain), le) && ChainOk(chain)
    {
      match chain {
        case None =>
          return Reply([], SW_CONDITIONS_NOT_SATISFIED);
        case Some(c) =>
          chain := None;
          var want := if le.Some? then le.value else LE_MAX;
          var remaining := |c.buf| - c.pos;
          var n := if want < remaining then want else remaining;
          var chunk := c.buf[c.pos..c.pos + n];
          assert c.pos + n == |c.buf| ==> chunk == c.buf[c.pos..];
          if c.pos + n == |c.buf| {
            return Reply(chunk, c.finalSw);
          }
          chain := Some(c.(pos := c.pos + n));
          return Reply(chunk, SwMoreData(|c.buf| - (c.pos + n)));
      }
    }

    method Select(requested: seq<byte>) returns (reply: Reply)
      requires Valid(applets, Snapshot()) && chain == None
      modifies this`states, this`selected
      ensures (reply, Snapshot()) == HandleSelect(applets, old(Snapshot()), requested)
    {
      if requested == [] {
        return Reply([], SW_FILE_NOT_FOUND);
      }
      var best: Option<nat>, bestLen: nat, idx: nat := None, 0, 0;
      ghost var aids := Aids(applets);
      while idx < |applets|
        invariant 0 <= idx <= |applets|
        invariant best.Some? ==> best.value < |applets|
        invariant Scan(aids, requested, idx, best, bestLen) == Scan(aids, requested, 0, None, 0)
      {
        var aid := applets[idx].aid;
        assert aids[idx] == aid;
        if aid == requested {
          best := Some(idx);
          break;
        }
        if requested <= aid && |aid| > bestLen {
          best := Some(idx);
          bestLen := |aid|;
        }
        idx := idx + 1;
      }
      assert best == Scan(aids, requested, 0, None, 0);
      if best.None? {
        return Reply([], SW_FILE_NOT_FOUND);
      }
      var (outcome, s) := applets[best.value].select(states[best.value]);
      states := states[best.value := s];
      match outcome {
        case Err(sw) =>
          return Reply([], sw);
        case Ok(_) =>
          selected := best;
          var (data, s') := applets[best.value].selectResponse(s);
          states := states[best.value := s'];
          assert states == old(states)[best.value := s'];
          return Reply(data, SW_NO_ERROR);
      }
    }
  }

  // ---------- Reassembly ----------

  function Concat(replies: seq<Reply>): seq<byte> {
    if replies == [] then [] else Concat(replies[..|replies| - 1]) + replies[|replies| - 1].data
  }

  // What the parser guarantees of the expected lengths of frames.
  predicate NonZero(les: seq<Option<nat>>) {
    forall i :: 0 <= i < |les| ==> les[i] != Some(0)
  }

  // The replies to consecutive GET RESPONSEs, up to the one that ends the chain.
  function Fetch(chain: Option<Chain>, les: seq<Option<nat>>): (r: (seq<Reply>, Option<Chain>))
    requires ChainOk(chain) && NonZero(les)
    ensures ChainOk(r.1) && |r.0| <= |les|
    decreases |les|
  {
    if les == [] || chain == None then ([], chain)
    else
      var (replies, c) := Fetch(chain, les[..|les| - 1]);
      if c == None then (replies, None)
      else
        var (reply, c') := ServeGetResponse(c, les[|les| - 1]);
        (replies + [reply], c')
  }

  // Consecutive non-empty chunks of the retained buffer; each status word tells exactly what
  // is left, and the final one comes with the last byte and only then.
  ghost predicate ChunksExact(c: Chain, replies: seq<Reply>) {
    && c.pos + |Concat(replies)| <= |c.buf|
    && Concat(replies) == c.buf[c.pos..c.pos + |Concat(replies)|]
    && |replies| <= |Concat(replies)|
    && forall i :: 0 <= i < |replies| ==> StatusExact(c, replies, i)
  }

  ghost predicate StatusExact(c: Chain, replies: seq<Reply>, i: nat)
    requires i < |replies|
  {
    var read := c.pos + |Concat(replies[..i + 1])|;
    if read >= |c.buf| then replies[i].sw == c.finalSw && i == |replies| - 1
    else replies[i].sw == SwMoreData(|c.buf| - read)
  }

  lemma FetchStep(chain: Option<Chain>, les: seq<Option<nat>>)
    requires ChainOk(chain) && NonZero(les) && les != [] && chain != None
    ensures var (replies, c) := Fetch(chain, les[..|les| - 1]);
      Fetch(chain, les) ==
      if c == None then (replies, None)
      else (replies + [ServeGetResponse(c, les[|les| - 1]).0], ServeGetResponse(c, les[|les| - 1]).1)
  {
  }

  // One GET RESPONSE: at least one byte, from where the chain stands; the chain goes on after
  // it exactly when bytes are left.
  lemma ServedChunk(c: Chain, le: Option<nat>)
    requires c.pos < |c.buf| && le != Some(0)
    ensures var (reply, c') := ServeGetResponse(Some(c), le);
      var end := c.pos + |reply.data|;
      && reply.data != [] && end <= |c.buf| && reply.data == c.buf[c.pos..end]
      && reply.sw == (if end == |c.buf| then c.finalSw else SwMoreData(|c.buf| - end))
      && c' == (if end == |c.buf| then None else Some(c.(pos := end)))
  {
    hide SwMoreData;
  }

  lemma {:induction false} FetchIsExact(chain: Chain, les: seq<Option<nat>>)
    requires chain.pos < |chain.buf| && NonZero(les)
    ensures var (replies, c) := Fetch(Some(chain), les);
      && ChunksExact(chain, replies)
      && (c == None <==> chain.pos + |Concat(replies)| == |chain.buf|)
      && (c != None ==> c == Some(chain.(pos := chain.pos + |Concat(replies)|)) && |replies| == |les|)
    decreases |les|
  {
    if les != [] {
      hide Fetch, ServeGetResponse, ChunksExact, Concat, SwMoreData;
      var front := les[..|les| - 1];
      FetchIsExact(chain, front);
      FetchStep(Some(chain), les);
      var (replies, c) := Fetch(Some(chain), front);
      if c != None {
        OneFetch(chain, replies, c.value, les[|les| - 1]);
      }
    } else {
      NoChunks(chain);
      hide ChunksExact, Concat, StatusExact;
    }
  }

  lemma OneFetch(chain: Chain, replies: seq<Reply>, c: Chain, le: Option<nat>)
    requires ChunksExact(chain, replies) && c == chain.(pos := chain.pos + |Concat(replies)|) && c.pos < |c.buf| && le != Some(0)
    ensures var (reply, c') := ServeGetResponse(Some(c), le);
      var all := replies + [reply];
      && ChunksExact(chain, all)
      && (c' == None <==> chain.pos + |Concat(all)| == |chain.buf|)
      && (c' != None ==> c' == Some(chain.(pos := chain.pos + |Concat(all)|)))
  {
    hide ServeGetResponse, ChunksExact, Concat, SwMoreData;
    var reply := ServeGetResponse(Some(c), le).0;
    ServedChunk(c, le);
    ChunksFit(chain, replies);
    OneMoreChunk(chain, replies, reply);
    ChunksFit(chain, replies + [reply]);
  }

  lemma NoChunks(c: Chain)
    requires c.pos < |c.buf|
    ensures ChunksExact(c, []) && Concat([]) == []
  {
  }

  lemma ChunksFit(c: Chain, replies: seq<Reply>)
    requires ChunksExact(c, replies)
    ensures |replies| <= |Concat(replies)| && c.pos + |Concat(replies)| <= |c.buf|
  {
  }

  lemma {:induction false} OneMoreChunk(c: Chain, replies: seq<Reply>, reply: Reply)
    requires ChunksExact(c, replies)
    requires var pos := c.pos + |Concat(replies)|;
      && pos + |reply.data| <= |c.buf| && reply.data == c.buf[pos..pos + |reply.data|] && reply.data != []
      && reply.sw == if pos + |reply.data| == |c.buf| then c.finalSw else SwMoreData(|c.buf| - pos - |reply.data|)
    ensures ChunksExact(c, replies + [reply]) && Concat(replies + [reply]) == Concat(replies) + reply.data
  {
    var all := replies + [reply];
    assert all[..|all| - 1] == replies;
    assert Concat(all) == Concat(replies) + reply.data;
    forall i | 0 <= i < |all|
      ensures StatusExact(c, all, i)
    {
      if i < |replies| {
        StatusKept(c, replies, reply, i);
      } else {
        assert all[..i + 1] == all;
      }
    }
    hide StatusExact, SwMoreData, Concat;
  }

  lemma StatusKept(c: Chain, replies: seq<Reply>, reply: Reply, i: nat)
    requires ChunksExact(c, replies) && i < |replies| && c.pos + |Concat(replies)| < |c.buf|
    ensures StatusExact(c, replies + [reply], i)
  {
    hide SwMoreData;
    assert (replies + [reply])[..i + 1] == replies[..i + 1];
    assert StatusExact(c, replies, i);
    PrefixShorter(replies, i + 1);
    hide Concat;
  }

  lemma {:induction false} PrefixShorter(replies: seq<Reply>, i: nat)
    requires i <= |replies|
    ensures |Concat(replies[..i])| <= |Concat(replies)|
    decreases |replies|
  {
    if i < |replies| {
      PrefixShorter(replies[..|replies| - 1], i);
      assert replies[..|replies| - 1][..i] == replies[..i];
    } else {
      assert replies[..i] == replies;
    }
  }

  // What the host has after `les` fetches: the inline part, with the applet's status word if
  // that is all and otherwise the exact count of what is left; then consecutive non-empty
  // chunks, each with the exact count of what is still left, and the applet's own status word
  // on the last chunk and only there.
  ghost predicate HostHas(r: Response, first: Reply, replies: seq<Reply>, end: Option<Chain>) {
    && first.data + Concat(replies) <= r.data
    && |replies| <= |r.data| - |first.data|
    && first.sw == (if |first.data| == |r.data| then Sw(r) else SwMoreData(|r.data| - |first.data|))
    && ChunksExact(Chain(r.data, |first.data|, Sw(r)), replies)
    && (end == None ==>
        && first.data + Concat(replies) == r.data
        && (if replies == [] then first else replies[|replies| - 1]).sw == Sw(r))
  }

  // GET RESPONSE reassembly: for every response and every run of Le values, the inline part
  // and the chunks are the response with no gap or repeat, the applet's status word arrives
  // last, and the chain ends within as many fetches as bytes were left.
  lemma ReassemblyIsExact(r: Response, le: Option<nat>, les: seq<Option<nat>>)
    requires NonZero(les)
    ensures ChainOk(Deliver(r, le).1)
    ensures var (first, chain) := Deliver(r, le);
      var (replies, end) := Fetch(chain, les);
      HostHas(r, first, replies, end) && (|les| >= |r.data| ==> end == None)
  {
    DeliveredPart(r, le);
    hide Deliver, SwMoreData, Sw, ServeGetResponse, HostHas, ChunksExact;
    var (first, chain) := Deliver(r, le);
    if chain.None? {
      AllInline(r, first);
    } else {
      FetchIsExact(chain.value, les);
      hide Fetch, Concat;
      var (replies, end) := Fetch(chain, les);
      Assembled(r, first, replies, end);
      ChunksFit(chain.value, replies);
    }
  }

  // Everything inline, or the part that fits in Le with the rest retained from there on.
  lemma DeliveredPart(r: Response, le: Option<nat>)
    ensures var (first, chain) := Deliver(r, le);
      if chain.None? then first == Reply(r.data, Sw(r))
      else
        && |first.data| < |r.data| && first == Reply(r.data[..|first.data|], SwMoreData(|r.data| - |first.data|))
        && chain == Some(Chain(r.data, |first.data|, Sw(r)))
  {
    hide Sw, SwMoreData;
  }

  lemma DeliveredAmount(r: Response, le: Option<nat>)
    ensures |Deliver(r, le).0.data| == if le.None? then 0 else if le.value < |r.data| then le.value else |r.data|
  {
    hide Sw, SwMoreData;
  }

  lemma AllInline(r: Response, first: Reply)
    requires first == Reply(r.data, Sw(r))
    ensures HostHas(r, first, [], None)
  {
    hide Sw, SwMoreData;
    assert first.data + Concat([]) == r.data;
  }

  lemma Assembled(r: Response, first: Reply, replies: seq<Reply>, end: Option<Chain>)
    requires |first.data| < |r.data| && first == Reply(r.data[..|first.data|], SwMoreData(|r.data| - |first.data|))
    requires ChunksExact(Chain(r.data, |first.data|, Sw(r)), replies)
    requires end == None ==> |first.data| + |Concat(replies)| == |r.data|
    ensures HostHas(r, first, replies, end)
  {
    hide Sw, SwMoreData;
    assert replies == [] ==> Concat(replies) == [];
    hide Concat;
    var c := Chain(r.data, |first.data|, Sw(r));
    ChunksFit(c, replies);
    LastStatus(c, replies);
    hide ChunksExact;
  }

  lemma LastStatus(c: Chain, replies: seq<Reply>)
    requires ChunksExact(c, replies)
    ensures Concat(replies) == c.buf[c.pos..c.pos + |Concat(replies)|]
    ensures replies != [] && c.pos + |Concat(replies)| == |c.buf| ==> replies[|replies| - 1].sw == c.finalSw
  {
    hide Concat, SwMoreData;
    if replies != [] {
      assert StatusExact(c, replies, |replies| - 1);
      assert replies[..|replies|] == replies;
    }
  }

  // ---------- The same over raw frames ----------

  function Session<S>(applets: seq<Applet<S>>, st: State<S>, frames: seq<seq<byte>>): (r: (seq<Reply>, State<S>))
    requires Valid(applets, st)
    ensures Valid(applets, r.1)
    ensures |r.0| == |frames|
    decreases |frames|
  {
    if frames == [] then ([], st)
    else
      var (replies, st1) := Session(applets, st, frames[..|frames| - 1]);
      var (reply, st2) := Process(applets, st1, frames[|frames| - 1]);
      (replies + [reply], st2)
  }

  predicate IsGetResponse(frame: seq<byte>) {
    Parse(frame).Ok? && Parse(frame).value.ins == INS_GET_RESPONSE
  }

  predicate AllGetResponses(frames: seq<seq<byte>>) {
    forall i :: 0 <= i < |frames| ==> IsGetResponse(frames[i])
  }

  function Les(frames: seq<seq<byte>>): (r: seq<Option<nat>>)
    requires AllGetResponses(frames)
    ensures |r| == |frames| && NonZero(r)
    ensures forall i :: 0 <= i < |r| ==> r[i] == Parse(frames[i]).value.le
  {
    seq(|frames|, i requires 0 <= i < |frames| && IsGetResponse(frames[i]) => Parse(frames[i]).value.le)
  }

  // GET RESPONSE frames drain the chain exactly as `Fetch` does, as long as it lasts.
  lemma {:induction false} FramesFetch<S>(applets: seq<Applet<S>>, st: State<S>, frames: seq<seq<byte>>)
    requires Valid(applets, st) && AllGetResponses(frames)
    requires |Fetch(st.chain, Les(frames)).0| == |frames|
    ensures Session(applets, st, frames) == (Fetch(st.chain, Les(frames)).0, st.(chain := Fetch(st.chain, Les(frames)).1))
    decreases |frames|
  {
    hide Parse, ServeGetResponse;
    if frames != [] {
      var front := frames[..|frames| - 1];
      assert Les(frames)[..|frames| - 1] == Les(front);
      FramesFetch(applets, st, front);
      assert IsGetResponse(frames[|frames| - 1]);
    }
  }

  predicate IsAppletCommand(frame: seq<byte>) {
    Parse(frame).Ok? && Parse(frame).value.ins != INS_SELECT && Parse(frame).value.ins != INS_GET_RESPONSE
  }

  // The whole exchange in raw frames: a command to the selected applet, then GET RESPONSEs for
  // as long as the chain lasts, deliver the applet's response exactly.
  lemma RawReassembly<S>(
      applets: seq<Applet<S>>, st: State<S>, command: seq<byte>, frames: seq<seq<byte>>, r: Response)
    requires Valid(applets, st) && st.selected.Some? && IsAppletCommand(command) && AllGetResponses(frames)
    requires applets[st.selected.value].process(st.applets[st.selected.value], Parse(command).value).0 == Ok(r)
    requires ChainOk(Deliver(r, Parse(command).value.le).1)
    requires |frames| == |Fetch(Deliver(r, Parse(command).value.le).1, Les(frames)).0|
    ensures var (first, st1) := Process(applets, st, command);
      var (replies, st2) := Session(applets, st1, frames);
      HostHas(r, first, replies, st2.chain)
  {
    hide Parse, Deliver, Fetch, HostHas, ServeGetResponse, HandleSelect, Session;
    var (first, st1) := Process(applets, st, command);
    assert (first, st1.chain) == Deliver(r, Parse(command).value.le);
    FramesFetch(applets, st1, frames);
    ReassemblyIsExact(r, Parse(command).value.le, Les(frames));
  }
}
