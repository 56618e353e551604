/** Sending: `formatMessage`, and what a receiver makes of the frames it produces. */
module WebSocketFrames {
  import opened Bytes
  import opened Utf8
  import opened WebSocketStream

  // ----- one frame on the wire (section 5.2 of RFC 6455)

  function LengthCode(n: nat): byte { if n < 126 then n else if n <= 0xFFFF then 126 else 127 }

  function ExtendedLength(n: nat): seq<byte> {
    if n < 126 then [] else if n <= 0xFFFF then ToBigEndian(n, 2) else ToBigEndian(n, 8)
  }

  /** `cfg` describes the receiver; `key` is used only when it is a server. */
  function KeyFor(cfg: Config, key: seq<byte>): seq<byte> { if cfg.isServer then key else [] }

  function FrameStart(cfg: Config, fin: bool, op: byte, n: nat): seq<byte>
    requires op < 16
  {
    [(if fin then 128 else 0) + op, (if cfg.isServer then 128 else 0) + LengthCode(n)] + ExtendedLength(n)
  }

  function Frame(cfg: Config, fin: bool, op: byte, payload: seq<byte>, key: seq<byte>): seq<byte>
    requires op < 16 && |key| == 4
  {
    FrameStart(cfg, fin, op, |payload|) + KeyFor(cfg, key) + Unmask(payload, KeyFor(cfg, key))
  }

  /** The frames section 5.2 of RFC 6455 allows: known opcodes, short unfragmented control frames, 64-bit length. */
  predicate LegalFrame(fin: bool, op: byte, n: nat) {
    (op <= 2 || (8 <= op <= 10 && fin && n <= 125)) && n < 0x1_0000_0000_0000_0000
  }

  lemma ParseFrameStart(cfg: Config, fin: bool, op: byte, n: nat, key: seq<byte>, rest: seq<byte>)
    requires LegalFrame(fin, op, n) && |key| == 4
    ensures var start := FrameStart(cfg, fin, op, n) + KeyFor(cfg, key);
            ParseHeader(cfg, start + rest) == Header(fin, op, n, |start|, KeyFor(cfg, key))
  {
    Pow256Values();
    var start := FrameStart(cfg, fin, op, n);
    var data := start + KeyFor(cfg, key) + rest;
    var b0: byte, b1: byte := (if fin then 128 else 0) + op, (if cfg.isServer then 128 else 0) + LengthCode(n);
    assert data[0] == b0 && data[1] == b1;
    assert IsFin(b0) == fin && OpCodeOf(b0) == op && !Reserved(b0) && Length7(b1) == LengthCode(n);
    assert data[|start|..|start| + |KeyFor(cfg, key)|] == KeyFor(cfg, key);
    if n >= 126 {
      assert data[2..|start|] == ExtendedLength(n);
      BigEndianRoundTrip(n, if n <= 0xFFFF then 2 else 8);
    }
  }

  lemma {:induction false} UnmaskTwice(data: seq<byte>, mask: seq<byte>)
    requires IsMask(mask)
    ensures Unmask(Unmask(data, mask), mask) == data
    decreases |data|
  {
    if data != [] && mask != [] {
      XorCancels(data[0], mask[0]);
      UnmaskTwice(data[1..], Turn(mask));
      assert Unmask(data, mask)[1..] == Unmask(data[1..], Turn(mask));
    }
  }

  // ----- what a frame does to its receiver

  datatype FrameData = FrameData(fin: bool, op: byte, payload: seq<byte>, key: seq<byte>)

  predicate Legal(f: FrameData) { |f.key| == 4 && LegalFrame(f.fin, f.op, |f.payload|) }

  predicate AllLegal(frames: seq<FrameData>) {
    forall i | 0 <= i < |frames| :: Legal(frames[i])
  }

  function Wire(cfg: Config, frames: seq<FrameData>): seq<byte>
    requires AllLegal(frames)
    decreases |frames|
  {
    if frames == [] then []
    else Frame(cfg, frames[0].fin, frames[0].op, frames[0].payload, frames[0].key) + Wire(cfg, frames[1..])
  }

  /** The receiver seen frame by frame: no headers, no masks, no partial payloads. */
  ghost function Receive(cfg: Config, core: Core, frames: seq<FrameData>): Outcome
    decreases |frames|
  {
    if frames == [] then Outcome(Head(core, []), [])
    else
      var f := frames[0];
      var accepted := Accept(core, f.op, f.fin);
      if accepted == [] || |f.payload| > cfg.maxPayload then DROP
      else
        var s := Fragment(accepted[0], f.payload, 0);
        if s.closed then Outcome(Closed, s.events)
        else Prepend(s.events, Receive(cfg, Finish(s.core), frames[1..]))
  }

  lemma ParseOneFrame(cfg: Config, core: Core, f: FrameData, rest: seq<byte>)
    requires Legal(f)
    ensures var accepted := Accept(core, f.op, f.fin);
            var o := ParseHeads(cfg, core, Frame(cfg, f.fin, f.op, f.payload, f.key) + rest);
            if accepted == [] || |f.payload| > cfg.maxPayload then o == DROP
            else
              var s := Fragment(accepted[0], f.payload, 0);
              o == if s.closed then Outcome(Closed, s.events)
                   else Prepend(s.events, ParseHeads(cfg, Finish(s.core), rest))
  {
    hide Fragment, Unmask, ParseHeader, Accept;
    var key := KeyFor(cfg, f.key);
    var start := FrameStart(cfg, f.fin, f.op, |f.payload|) + key;
    var body := Unmask(f.payload, key);
    ParseFrameStart(cfg, f.fin, f.op, |f.payload|, f.key, body + rest);
    assert Frame(cfg, f.fin, f.op, f.payload, f.key) + rest == start + (body + rest);
    assert (start + (body + rest))[|start|..] == body + rest;
    assert (body + rest)[..|body|] == body && (body + rest)[|body|..] == rest;
    UnmaskTwice(f.payload, key);
  }

  /** On the octets of any frames the stream parser does what the frame-level receiver does. */
  lemma {:induction false} ParseFrames(cfg: Config, core: Core, frames: seq<FrameData>)
    requires AllLegal(frames)
    ensures ParseHeads(cfg, core, Wire(cfg, frames)) == Receive(cfg, core, frames)
    decreases |frames|
  {
    if frames != [] {
      hide Fragment, Frame;
      ParseOneFrame(cfg, core, frames[0], Wire(cfg, frames[1..]));
      var accepted := Accept(core, frames[0].op, frames[0].fin);
      if accepted != [] {
        FragmentKeepsStack(accepted[0], frames[0].payload, 0);
        ParseFrames(cfg, Finish(Fragment(accepted[0], frames[0].payload, 0).core), frames[1..]);
      }
    }
  }

  // ----- whole messages

  /** A message the receiver is obliged to deliver. */
  predicate Deliverable(cfg: Config, f: FrameData) {
    && Legal(f) && f.fin && f.op in {TEXT, BINARY, PING, PONG} && |f.payload| <= cfg.maxPayload
  }

  ghost predicate DeliverableText(cfg: Config, f: FrameData) {
    Deliverable(cfg, f) && (f.op == TEXT ==> IsUtf8(f.payload))
  }

  ghost predicate AllDeliverable(cfg: Config, frames: seq<FrameData>) {
    forall i | 0 <= i < |frames| :: DeliverableText(cfg, frames[i])
  }

  function Delivery(f: FrameData): seq<Event> {
    if f.op < 3 then [Message(f.op, f.payload)]
    else if f.op == PING then [SendPong(f.payload), Ping(f.payload)]
    else [Pong(f.payload)]
  }

  function Deliveries(frames: seq<FrameData>): seq<Event> {
    if frames == [] then [] else Delivery(frames[0]) + Deliveries(frames[1..])
  }

  lemma ReceiveWholeMessage(cfg: Config, f: FrameData, rest: seq<FrameData>)
    requires DeliverableText(cfg, f)
    ensures Receive(cfg, IDLE, [f] + rest) == Prepend(Delivery(f), Receive(cfg, IDLE, rest))
  {
    hide IsUtf8;
    var core := IDLE.(stack := [f.op]);
    assert [] + [f.op] == [f.op];
    assert Accept(IDLE, f.op, true) == [core];
    assert [] + f.payload == f.payload;
    assert Finish(Fragment(core, f.payload, 0).core) == IDLE;
    assert ([f] + rest)[1..] == rest;
  }

  lemma {:induction false} ReceiveWholeMessages(cfg: Config, frames: seq<FrameData>)
    requires AllDeliverable(cfg, frames)
    ensures Receive(cfg, IDLE, frames) == Outcome(Head(IDLE, []), Deliveries(frames))
    decreases |frames|
  {
    if frames != [] {
      hide Receive, DeliverableText;
      ReceiveWholeMessage(cfg, frames[0], frames[1..]);
      assert [frames[0]] + frames[1..] == frames;
      ReceiveWholeMessages(cfg, frames[1..]);
    }
  }

  /** Round trip: whatever way the sent octets are cut, every message arrives once, in order and unchanged. */
  lemma RoundTrip(cfg: Config, frames: seq<FrameData>, chunks: seq<seq<byte>>)
    requires AllDeliverable(cfg, frames)
    requires Flatten(chunks) == Wire(cfg, frames)
    ensures FeedAll(cfg, Head(IDLE, []), chunks) == Outcome(Head(IDLE, []), Deliveries(frames))
  {
    hide Wire, Feed, Receive, ParseHeads;
    ChunkInvariance(cfg, Head(IDLE, []), chunks);
    IdleParses(cfg, Wire(cfg, frames));
    ParseFrames(cfg, IDLE, frames);
    ReceiveWholeMessages(cfg, frames);
  }

  lemma IdleParses(cfg: Config, data: seq<byte>)
    ensures Feed(cfg, Head(IDLE, []), data) == ParseHeads(cfg, IDLE, data)
  {
    hide ParseHeads;
    assert [] + data == data;
  }

  // ----- fragmented messages

  /** One fragment of a message followed by the ping and pong frames sent before the next fragment. */
  datatype Piece = Piece(payload: seq<byte>, key: seq<byte>, controls: seq<FrameData>)

  predicate ControlFrames(cfg: Config, controls: seq<FrameData>) {
    forall i | 0 <= i < |controls| :: Deliverable(cfg, controls[i]) && controls[i].op > 2
  }

  predicate FragmentPiece(cfg: Config, p: Piece) {
    |p.key| == 4 && |p.payload| <= cfg.maxPayload && |p.payload| < 0x1_0000_0000_0000_0000
    && ControlFrames(cfg, p.controls)
  }

  /** The first fragment carries the opcode, the others are continuations, the last one has FIN set. */
  function FragmentFrames(op: byte, pieces: seq<Piece>): seq<FrameData>
    requires pieces != []
    decreases |pieces|
  {
    var p := pieces[0];
    [FrameData(|pieces| == 1, op, p.payload, p.key)] +
    if |pieces| == 1 then [] else p.controls + FragmentFrames(0, pieces[1..])
  }

  function Payloads(pieces: seq<Piece>): seq<byte>
    decreases |pieces|
  {
    if pieces == [] then [] else pieces[0].payload + Payloads(pieces[1..])
  }

  function ControlDeliveries(pieces: seq<Piece>): seq<Event>
    requires pieces != []
    decreases |pieces|
  {
    if |pieces| == 1 then [] else Deliveries(pieces[0].controls) + ControlDeliveries(pieces[1..])
  }

  /** The core after `n` control frames: only the remembered FIN bit can differ. */
  function AfterControls(core: Core, n: nat): Core {
    if n == 0 then core else core.(lastFin := true)
  }

  /** Control frames in the middle of a message are delivered and leave its first part alone. */
  lemma {:induction false} ReceiveControls(cfg: Config, core: Core, controls: seq<FrameData>, rest: seq<FrameData>)
    requires ControlFrames(cfg, controls) && |core.stack| == 1 && core.control == []
    ensures Receive(cfg, core, controls + rest)
              == Prepend(Deliveries(controls), Receive(cfg, AfterControls(core, |controls|), rest))
    decreases |controls|
  {
    hide Receive, Deliverable, Delivery;
    if controls == [] {
      assert controls + rest == rest;
      PrependNothing(Receive(cfg, core, rest));
    } else {
      var c, next := controls[0], core.(lastFin := true);
      assert controls + rest == [c] + (controls[1..] + rest);
      ReceiveOneControl(cfg, core, c, controls[1..] + rest);
      ReceiveControls(cfg, next, controls[1..], rest);
      assert AfterControls(next, |controls[1..]|) == AfterControls(core, |controls|);
      PrependTwice(Delivery(c), Deliveries(controls[1..]), Receive(cfg, AfterControls(core, |controls|), rest));
    }
  }

  lemma PrependNothing(o: Outcome)
    ensures Prepend([], o) == o
  {
  }

  lemma PrependTwice(a: seq<Event>, b: seq<Event>, o: Outcome)
    ensures Prepend(a, Prepend(b, o)) == Prepend(a + b, o)
  {
    assert a + (b + o.events) == a + b + o.events;
  }

  lemma ReceiveOneControl(cfg: Config, core: Core, c: FrameData, rest: seq<FrameData>)
    requires Deliverable(cfg, c) && c.op > 2 && |core.stack| == 1 && core.control == []
    ensures Receive(cfg, core, [c] + rest) == Prepend(Delivery(c), Receive(cfg, core.(lastFin := true), rest))
  {
    var pushed := core.(stack := core.stack + [c.op], lastFin := true);
    assert Accept(core, c.op, true) == [pushed];
    assert [] + c.payload == c.payload;
    var s := Fragment(pushed, c.payload, 0);
    assert s.core == pushed && s.events == Delivery(c);
    assert pushed.stack[..1] == core.stack;
    assert Finish(s.core) == core.(lastFin := true);
    assert ([c] + rest)[1..] == rest;
  }

  /** One more data fragment: the last one delivers the message, the others join it. */
  lemma ReceiveOneFragment(cfg: Config, core: Core, op: byte, fin: bool, p: Piece, rest: seq<FrameData>)
    requires FragmentPiece(cfg, p) && core.stack == [op] && op in {TEXT, BINARY} && core.control == []
    requires fin && op == TEXT ==> IsUtf8(core.message + p.payload)
    ensures Receive(cfg, core, [FrameData(fin, 0, p.payload, p.key)] + rest)
              == if fin then Prepend([Message(op, core.message + p.payload)], Receive(cfg, IDLE, rest))
                 else Receive(cfg, core.(lastFin := false, message := core.message + p.payload), rest)
  {
    hide IsUtf8;
    assert ([FrameData(fin, 0, p.payload, p.key)] + rest)[1..] == rest;
    var s := Fragment(core.(lastFin := fin), p.payload, 0);
    if fin {
      assert Finish(s.core) == IDLE;
    } else {
      PrependNothing(Receive(cfg, core.(lastFin := false, message := core.message + p.payload), rest));
    }
  }

  predicate AllFragments(cfg: Config, pieces: seq<Piece>) {
    forall i | 0 <= i < |pieces| :: FragmentPiece(cfg, pieces[i])
  }

  /** The rest of a fragmented message, when `core.message` already holds the first part. */
  lemma {:induction false} ReceiveContinuations(cfg: Config, core: Core, op: byte, pieces: seq<Piece>,
                                                rest: seq<FrameData>)
    requires pieces != [] && AllFragments(cfg, pieces)
    requires core.stack == [op] && op in {TEXT, BINARY} && core.control == []
    requires op == TEXT ==> IsUtf8(core.message + Payloads(pieces))
    ensures Receive(cfg, core, FragmentFrames(0, pieces) + rest)
              == Prepend(ControlDeliveries(pieces) + [Message(op, core.message + Payloads(pieces))],
                         Receive(cfg, IDLE, rest))
    decreases |pieces|
  {
    hide IsUtf8, Deliveries, Receive;
    var p := pieces[0];
    assert FragmentPiece(cfg, p);
    if |pieces| == 1 {
      assert Payloads(pieces) == p.payload + Payloads([]) == p.payload;
      ReceiveOneFragment(cfg, core, op, true, p, rest);
      assert FragmentFrames(0, pieces) == [FrameData(true, 0, p.payload, p.key)];
      assert [] + [Message(op, core.message + p.payload)] == [Message(op, core.message + p.payload)];
    } else {
      ContinuationsFirst(pieces, rest);
      var later := FragmentFrames(0, pieces[1..]) + rest;
      var next := core.(lastFin := false, message := core.message + p.payload);
      assert core.message + Payloads(pieces) == next.message + Payloads(pieces[1..]);
      ReceiveOneFragment(cfg, core, op, false, p, p.controls + later);
      ReceiveControls(cfg, next, p.controls, later);
      ReceiveContinuations(cfg, AfterControls(next, |p.controls|), op, pieces[1..], rest);
      var whole := [Message(op, core.message + Payloads(pieces))];
      PrependTwice(Deliveries(p.controls), ControlDeliveries(pieces[1..]) + whole, Receive(cfg, IDLE, rest));
      assert Deliveries(p.controls) + (ControlDeliveries(pieces[1..]) + whole) == ControlDeliveries(pieces) + whole;
    }
  }

  lemma ContinuationsFirst(pieces: seq<Piece>, rest: seq<FrameData>)
    requires |pieces| > 1
    ensures FragmentFrames(0, pieces) + rest
              == [FrameData(false, 0, pieces[0].payload, pieces[0].key)]
                 + (pieces[0].controls + (FragmentFrames(0, pieces[1..]) + rest))
  {
  }

  /** Reassembly: a message sent in fragments, with pings and pongs in between, arrives whole after them. */
  lemma Reassembly(cfg: Config, op: byte, pieces: seq<Piece>, rest: seq<FrameData>)
    requires pieces != [] && AllFragments(cfg, pieces) && op in {TEXT, BINARY}
    requires op == TEXT ==> IsUtf8(Payloads(pieces))
    ensures Receive(cfg, IDLE, FragmentFrames(op, pieces) + rest)
              == Prepend(ControlDeliveries(pieces) + [Message(op, Payloads(pieces))], Receive(cfg, IDLE, rest))
  {
    hide IsUtf8;
    // The opening frame leaves the receiver where a continuation of an empty message would.
    var open := IDLE.(stack := [op]);
    var last := |pieces| == 1;
    assert [] + [op] == [op];
    assert Accept(IDLE, op, last) == [open.(lastFin := last)] == Accept(open, 0, last);
    var opening, continued := FragmentFrames(op, pieces) + rest, FragmentFrames(0, pieces) + rest;
    assert opening[0] == FrameData(last, op, pieces[0].payload, pieces[0].key);
    assert continued[0] == FrameData(last, 0, pieces[0].payload, pieces[0].key);
    assert opening[1..] == continued[1..];
    assert Receive(cfg, IDLE, opening) == Receive(cfg, open, continued);
    assert open.message + Payloads(pieces) == Payloads(pieces);
    ReceiveContinuations(cfg, open, op, pieces, rest);
  }

  lemma {:induction false} FragmentFramesAreLegal(cfg: Config, op: byte, pieces: seq<Piece>)
    requires pieces != [] && AllFragments(cfg, pieces) && op <= 2
    ensures AllLegal(FragmentFrames(op, pieces))
    decreases |pieces|
  {
    assert FragmentPiece(cfg, pieces[0]);
    if |pieces| > 1 {
      FragmentFramesAreLegal(cfg, 0, pieces[1..]);
    }
  }

  // ----- any traffic

  /** A message in one frame, a ping or a pong; or a message in fragments. */
  datatype Sending = Single(f: FrameData) | Fragmented(op: byte, pieces: seq<Piece>)

  ghost predicate Sendable(cfg: Config, s: Sending) {
    match s
    case Single(f) => DeliverableText(cfg, f)
    case Fragmented(op, pieces) =>
      pieces != [] && AllFragments(cfg, pieces) && op in {TEXT, BINARY} && (op == TEXT ==> IsUtf8(Payloads(pieces)))
  }

  ghost predicate AllSendable(cfg: Config, traffic: seq<Sending>) {
    forall i | 0 <= i < |traffic| :: Sendable(cfg, traffic[i])
  }

  function FramesOf(s: Sending): seq<FrameData> {
    match s
    case Single(f) => [f]
    case Fragmented(op, pieces) => if pieces == [] then [] else FragmentFrames(op, pieces)
  }

  function TrafficFrames(traffic: seq<Sending>): seq<FrameData> {
    if traffic == [] then [] else FramesOf(traffic[0]) + TrafficFrames(traffic[1..])
  }

  function Arrivals(s: Sending): seq<Event> {
    match s
    case Single(f) => Delivery(f)
    case Fragmented(op, pieces) => if pieces == [] then []
                                   else ControlDeliveries(pieces) + [Message(op, Payloads(pieces))]
  }

  function TrafficArrivals(traffic: seq<Sending>): seq<Event> {
    if traffic == [] then [] else Arrivals(traffic[0]) + TrafficArrivals(traffic[1..])
  }

  lemma ReceiveSending(cfg: Config, s: Sending, rest: seq<FrameData>)
    requires Sendable(cfg, s)
    ensures Receive(cfg, IDLE, FramesOf(s) + rest) == Prepend(Arrivals(s), Receive(cfg, IDLE, rest))
  {
    match s
    case Single(f) => ReceiveWholeMessage(cfg, f, rest);
    case Fragmented(op, pieces) => Reassembly(cfg, op, pieces, rest);
  }

  lemma {:induction false} ReceiveTraffic(cfg: Config, traffic: seq<Sending>)
    requires AllSendable(cfg, traffic)
    ensures Receive(cfg, IDLE, TrafficFrames(traffic)) == Outcome(Head(IDLE, []), TrafficArrivals(traffic))
    decreases |traffic|
  {
    if traffic != [] {
      hide Sendable, FramesOf, Arrivals, Receive;
      ReceiveSending(cfg, traffic[0], TrafficFrames(traffic[1..]));
      ReceiveTraffic(cfg, traffic[1..]);
    }
  }

  lemma {:induction false} TrafficIsLegal(cfg: Config, traffic: seq<Sending>)
    requires AllSendable(cfg, traffic)
    ensures AllLegal(TrafficFrames(traffic))
    decreases |traffic|
  {
    if traffic != [] {
      assert Sendable(cfg, traffic[0]);
      TrafficIsLegal(cfg, traffic[1..]);
      match traffic[0]
      case Single(f) =>
      case Fragmented(op, pieces) => FragmentFramesAreLegal(cfg, op, pieces);
    }
  }

  function TrafficWire(cfg: Config, traffic: seq<Sending>): seq<byte>
    requires AllSendable(cfg, traffic)
  {
    TrafficIsLegal(cfg, traffic);
    Wire(cfg, TrafficFrames(traffic))
  }

  /**
    * The same for any traffic: messages whole or in any number of fragments, pings and pongs between them and between
    * their fragments, the octets cut in any way.
    */
  lemma FragmentedRoundTrip(cfg: Config, traffic: seq<Sending>, chunks: seq<seq<byte>>)
    requires AllSendable(cfg, traffic)
    requires Flatten(chunks) == TrafficWire(cfg, traffic)
    ensures FeedAll(cfg, Head(IDLE, []), chunks) == Outcome(Head(IDLE, []), TrafficArrivals(traffic))
  {
    hide Wire, Feed, Receive, ParseHeads, AllLegal;
    TrafficIsLegal(cfg, traffic);
    ChunkInvariance(cfg, Head(IDLE, []), chunks);
    IdleParses(cfg, Wire(cfg, TrafficFrames(traffic)));
    ParseFrames(cfg, IDLE, TrafficFrames(traffic));
    ReceiveTraffic(cfg, traffic);
  }

  // ----- close frames

  /** `formatClosePayload`: nothing without a code, otherwise the code and the reason. */
  function ClosePayload(code: nat, reason: seq<byte>): seq<byte>
    requires code < 0x1_0000
  {
    if code == 0 then [] else ToBigEndian(code, 2) + reason
  }

  /** A close frame with a valid code and a textual reason is reported exactly as it was sent. */
  lemma CloseRoundTrip(cfg: Config, code: nat, reason: seq<byte>, key: seq<byte>, rest: seq<byte>)
    requires ValidCloseCode(code) && |reason| <= 123 && IsUtf8(reason) && |key| == 4 && cfg.maxPayload >= 125
    ensures ParseHeads(cfg, IDLE, Frame(cfg, true, CLOSE, ClosePayload(code, reason), key) + rest)
              == Outcome(Closed, [Closing(code, reason)])
  {
    Pow256Values();
    var payload := ClosePayload(code, reason);
    BigEndianRoundTrip(code, 2);
    assert payload[..2] == ToBigEndian(code, 2) && payload[2..] == reason;
    ParseOneFrame(cfg, IDLE, FrameData(true, CLOSE, payload, key), rest);
    assert [] + payload == payload;
  }

  /** Whole frames, and then anything: it is parsed from where the frames left the receiver, or not at all. */
  lemma {:induction false} ParseFramesThen(cfg: Config, core: Core, frames: seq<FrameData>, rest: seq<byte>)
    requires AllLegal(frames)
    ensures var o := Receive(cfg, core, frames);
            && !o.view.Body?
            && ParseHeads(cfg, core, Wire(cfg, frames) + rest)
                 == if o.view.Head? then Prepend(o.events, ParseHeads(cfg, o.view.core, rest)) else o
    decreases |frames|
  {
    hide Fragment, Frame, Accept, ParseHeads, Finish;
    if frames == [] {
      assert [] + rest == rest;
      PrependNothing(ParseHeads(cfg, core, rest));
    } else {
      var f, more := frames[0], Wire(cfg, frames[1..]) + rest;
      assert Wire(cfg, frames) + rest == Frame(cfg, f.fin, f.op, f.payload, f.key) + more;
      ParseOneFrame(cfg, core, f, more);
      var accepted := Accept(core, f.op, f.fin);
      if accepted != [] {
        FragmentKeepsStack(accepted[0], f.payload, 0);
        var s := Fragment(accepted[0], f.payload, 0);
        ParseFramesThen(cfg, Finish(s.core), frames[1..], rest);
        var o := Receive(cfg, Finish(s.core), frames[1..]);
        if o.view.Head? {
          PrependTwice(s.events, o.events, ParseHeads(cfg, o.view.core, rest));
        }
      }
    }
  }

  /**
    * A whole connection: any traffic, a close frame, and whatever bytes follow, cut in any way. Everything arrives, the
    * close is reported with its code and reason, and what follows is ignored.
    */
  lemma ClosingRoundTrip(cfg: Config, traffic: seq<Sending>, code: nat, reason: seq<byte>, key: seq<byte>,
                         rest: seq<byte>,
                         chunks: seq<seq<byte>>)
    requires AllSendable(cfg, traffic)
    requires ValidCloseCode(code) && |reason| <= 123 && IsUtf8(reason) && |key| == 4 && cfg.maxPayload >= 125
    requires Flatten(chunks)
          == TrafficWire(cfg, traffic) + (Frame(cfg, true, CLOSE, ClosePayload(code, reason), key) + rest)
    ensures FeedAll(cfg, Head(IDLE, []), chunks) == Outcome(Closed, TrafficArrivals(traffic) + [Closing(code, reason)])
  {
    hide Wire, Feed, Receive, ParseHeads, AllLegal, Frame, ClosePayload;
    TrafficIsLegal(cfg, traffic);
    ChunkInvariance(cfg, Head(IDLE, []), chunks);
    IdleParses(cfg, Flatten(chunks));
    ParseFramesThen(cfg, IDLE, TrafficFrames(traffic), Frame(cfg, true, CLOSE, ClosePayload(code, reason), key) + rest);
    ReceiveTraffic(cfg, traffic);
    CloseRoundTrip(cfg, code, reason, key, rest);
  }
}
