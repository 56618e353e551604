/**
  * The uWS WebSocket parser read as a function on the whole byte stream, permessage-deflate disabled.
  * `Feed` says what one piece of input does to a connection; the class in WebSocketParser.dfy
  * is proved to compute it inside the receive buffer.
  */
module WebSocketStream {
  import opened Bytes
  import opened Utf8

  const TEXT: byte := 1
  const BINARY: byte := 2
  const CLOSE: byte := 8
  const PING: byte := 9
  const PONG: byte := 10

  /** `isServer` is the role of the receiver: a server gets masked frames, a client unmasked ones. */
  datatype Config = Config(isServer: bool, maxPayload: nat)

  /** What the application sees of a connection, in order. */
  datatype Event =
    | Message(op: byte, data: seq<byte>)
    | SendPong(data: seq<byte>)
    | Ping(data: seq<byte>)
    | Pong(data: seq<byte>)
    | Closing(code: nat, reason: seq<byte>)   // a close frame arrived
    | Dropped                                 // forceClose

  /** Reassembly state: the opcodes of the unfinished messages and the two parts of the shared buffer. */
  datatype Core = Core(stack: seq<byte>, lastFin: bool, message: seq<byte>, control: seq<byte>)

  datatype View =
    | Closed
    | Head(core: Core, spill: seq<byte>)                         // waiting for a whole header
    | Body(core: Core, remaining: nat, mask: seq<byte>)          // inside a payload

  datatype Outcome = Outcome(view: View, events: seq<Event>)

  const IDLE := Core([], true, [], [])

  // ----- headers

  function ShortHeader(cfg: Config): nat { if cfg.isServer then 6 else 2 }
  function MediumHeader(cfg: Config): nat { if cfg.isServer then 8 else 4 }
  function LongHeader(cfg: Config): nat { if cfg.isServer then 14 else 10 }

  function IsFin(b0: byte): bool { b0 >= 128 }               // b0 & 128
  function OpCodeOf(b0: byte): byte { b0 % 16 }              // b0 & 15
  function Reserved(b0: byte): bool { b0 / 16 % 8 != 0 }     // b0 & (64 | 48)
  function Length7(b1: byte): byte { b1 % 128 }              // b1 & 127

  datatype Header =
    | Incomplete
    | Malformed
    | Header(fin: bool, op: byte, payload: nat, size: nat, mask: seq<byte>)

  predicate BadStart(b0: byte, b1: byte) {
    || Reserved(b0)
    || 2 < OpCodeOf(b0) < 8
    || OpCodeOf(b0) > 10
    || (OpCodeOf(b0) > 2 && (!IsFin(b0) || Length7(b1) > 125))
  }

  function MaskAt(cfg: Config, data: seq<byte>, size: nat): (m: seq<byte>)
    requires 4 <= size + (if cfg.isServer then 0 else 4) && size <= |data|
  {
    if cfg.isServer then data[size - 4..size] else []
  }

  function ParseHeader(cfg: Config, data: seq<byte>): Header {
    if |data| < ShortHeader(cfg) then Incomplete
    else if BadStart(data[0], data[1]) then Malformed
    else
      var fin, op, n := IsFin(data[0]), OpCodeOf(data[0]), Length7(data[1]);
      if n < 126 then Header(fin, op, n, ShortHeader(cfg), MaskAt(cfg, data, ShortHeader(cfg)))
      else if n == 126 then
        if |data| < MediumHeader(cfg) then Incomplete
        else Header(fin, op, FromBigEndian(data[2..4]), MediumHeader(cfg), MaskAt(cfg, data, MediumHeader(cfg)))
      else if |data| < LongHeader(cfg) then Incomplete
      else Header(fin, op, FromBigEndian(data[2..10]), LongHeader(cfg), MaskAt(cfg, data, LongHeader(cfg)))
  }

  // ----- masking

  predicate IsMask(mask: seq<byte>) { |mask| == 0 || |mask| == 4 }

  /** The mask as the next octet sees it. A client has no mask. */
  function Turn(mask: seq<byte>): (r: seq<byte>)
    requires IsMask(mask)
    ensures |r| == |mask|
  {
    if mask == [] then [] else [mask[1], mask[2], mask[3], mask[0]]
  }

  function Rotate(mask: seq<byte>, n: nat): (r: seq<byte>)
    requires IsMask(mask)
    ensures |r| == |mask|
    decreases n
  {
    if n == 0 then mask else Rotate(Turn(mask), n - 1)
  }

  function Unmask(data: seq<byte>, mask: seq<byte>): (r: seq<byte>)
    requires IsMask(mask)
    ensures |r| == |data|
    decreases |data|
  {
    if mask == [] || data == [] then data else [Xor(data[0], mask[0])] + Unmask(data[1..], Turn(mask))
  }

  /** Every octet of the payload is combined by exclusive or with the octet of the mask for its position. */
  lemma {:induction false} UnmaskAt(data: seq<byte>, mask: seq<byte>, k: nat)
    requires |mask| == 4 && k < |data|
    ensures Unmask(data, mask)[k] == Xor(data[k], mask[k % 4])
    ensures ExclusiveOr(Unmask(data, mask)[k], data[k], mask[k % 4])
    decreases k
  {
    hide Xor, ExclusiveOr;
    if k > 0 {
      UnmaskAt(data[1..], Turn(mask), k - 1);
      assert Turn(mask)[(k - 1) % 4] == mask[k % 4];
    } else {
      XorIsExclusiveOr(data[0], mask[0]);
    }
  }

  // ----- reassembly

  /** The opcode acceptance rule, as the source has it. */
  function Accept(core: Core, op: byte, fin: bool): (r: seq<Core>)
    ensures |r| <= 1 && (r != [] ==> r[0].stack != [])
  {
    if op != 0 then
      if |core.stack| == 2 || (!core.lastFin && op < 2) then []
      else [core.(stack := core.stack + [op], lastFin := fin)]
    else if core.stack == [] then []
    else [core.(lastFin := fin)]
  }

  datatype Step = Step(core: Core, events: seq<Event>, closed: bool)

  /** What a close frame's payload says: the code and reason, or (0, "") when they are not acceptable. */
  ghost function CloseEvent(payload: seq<byte>): Event {
    if |payload| < 2 then Closing(0, [])
    else
      var code := FromBigEndian(payload[..2]);
      if ValidCloseCode(code) && IsUtf8(payload[2..]) then Closing(code, payload[2..]) else Closing(0, [])
  }

  predicate ValidCloseCode(code: nat) {
    1000 <= code <= 4999 && !(1011 < code < 4000) && !(1004 <= code <= 1006)
  }

  /** One piece of payload arrives for the message on top of the stack; `remaining` octets are still due. */
  ghost function Fragment(core: Core, payload: seq<byte>, remaining: nat): Step
    requires core.stack != []
  {
    var op := core.stack[|core.stack| - 1];
    var done := remaining == 0 && core.lastFin;
    if op < 3 then
      var whole := core.message + payload;
      if !done then Step(core.(message := whole), [], false)
      else if op == TEXT && !IsUtf8(whole) then Step(core, [Dropped], true)
      else Step(core.(message := []), [Message(op, whole)], false)
    else
      var whole := core.control + payload;
      if !done then Step(core.(control := whole), [], false)
      else if op == CLOSE then Step(core, [CloseEvent(whole)], true)
      else Step(core.(control := []), if op == PING then [SendPong(whole), Ping(whole)] else [Pong(whole)], false)
  }

  /** A finished message leaves the stack. */
  function Finish(core: Core): Core
    requires core.stack != []
  {
    if core.lastFin then core.(stack := core.stack[..|core.stack| - 1]) else core
  }

  lemma FragmentKeepsStack(core: Core, payload: seq<byte>, remaining: nat)
    requires core.stack != []
    ensures var s := Fragment(core, payload, remaining);
            s.core.stack == core.stack && s.core.lastFin == core.lastFin
    ensures remaining > 0 ==>
              Fragment(core, payload, remaining).events == [] && !Fragment(core, payload, remaining).closed
  {
  }

  // ----- the stream

  function Prepend(events: seq<Event>, o: Outcome): Outcome {
    Outcome(o.view, events + o.events)
  }

  const DROP := Outcome(Closed, [Dropped])

  ghost function ParseHeads(cfg: Config, core: Core, data: seq<byte>): Outcome
    decreases |data|, 0
  {
    match ParseHeader(cfg, data)
    case Incomplete => Outcome(Head(core, data), [])
    case Malformed => DROP
    case Header(fin, op, payload, size, mask) =>
      var accepted := Accept(core, op, fin);
      if accepted == [] || payload > cfg.maxPayload then DROP
      else FeedBody(cfg, accepted[0], payload, mask, data[size..])
  }

  ghost function FeedBody(cfg: Config, core: Core, remaining: nat, mask: seq<byte>, data: seq<byte>): Outcome
    requires core.stack != [] && IsMask(mask)
    decreases |data|, 1
  {
    if |data| < remaining then Outcome(PartOfPayload(core, remaining, mask, data), [])
    else
      var s := RestOfPayload(core, remaining, mask, data);
      if s.closed then Outcome(Closed, s.events)
      else Prepend(s.events, ParseHeads(cfg, Finish(s.core), data[remaining..]))
  }

  ghost function PartOfPayload(core: Core, remaining: nat, mask: seq<byte>, data: seq<byte>): View
    requires core.stack != [] && IsMask(mask) && |data| < remaining
  {
    Body(Fragment(core, Unmask(data, mask), remaining - |data|).core, remaining - |data|, Rotate(mask, |data|))
  }

  ghost function RestOfPayload(core: Core, remaining: nat, mask: seq<byte>, data: seq<byte>): Step
    requires core.stack != [] && IsMask(mask) && remaining <= |data|
  {
    Fragment(core, Unmask(data[..remaining], mask), 0)
  }

  /** What the next piece of input does to a connection. */
  ghost function Feed(cfg: Config, v: View, data: seq<byte>): Outcome
    requires Stable(cfg, v)
  {
    match v
    case Closed => Outcome(Closed, [])
    case Head(core, spill) => ParseHeads(cfg, core, spill + data)
    case Body(core, remaining, mask) => FeedBody(cfg, core, remaining, mask, data)
  }

  /** The states a connection rests in between two pieces of input. */
  predicate Stable(cfg: Config, v: View) {
    match v
    case Closed => true
    case Head(core, spill) => ParseHeader(cfg, spill) == Incomplete
    case Body(core, remaining, mask) =>
      remaining > 0 && core.stack != [] && |mask| == if cfg.isServer then 4 else 0
  }

  // ----- chunk invariance

  lemma HeaderIsPrefixStable(cfg: Config, a: seq<byte>, b: seq<byte>)
    requires ParseHeader(cfg, a) != Incomplete
    ensures ParseHeader(cfg, a + b) == ParseHeader(cfg, a)
  {
    var h := ParseHeader(cfg, a);
    if h.Header? {
      assert (a + b)[..h.size] == a[..h.size];
      assert cfg.isServer ==> (a + b)[h.size - 4..h.size] == a[h.size - 4..h.size];
      if h.size >= MediumHeader(cfg) { assert (a + b)[2..4] == a[2..4]; }
      if h.size >= LongHeader(cfg) { assert (a + b)[2..10] == a[2..10]; }
    }
  }

  lemma {:induction false} RotateTwice(mask: seq<byte>, m: nat, n: nat)
    requires IsMask(mask)
    ensures Rotate(Rotate(mask, m), n) == Rotate(mask, m + n)
    decreases m
  {
    if m > 0 {
      RotateTwice(Turn(mask), m - 1, n);
    }
  }

  /** Unmasking in two pieces, the second with the mask rotated by the length of the first. */
  lemma {:induction false} UnmaskPieces(a: seq<byte>, b: seq<byte>, mask: seq<byte>)
    requires IsMask(mask)
    ensures Unmask(a + b, mask) == Unmask(a, mask) + Unmask(b, Rotate(mask, |a|))
    decreases |a|
  {
    hide Xor;
    if a == [] {
      assert a + b == b;
    } else if mask == [] {
      ClientHasNoMask(|a|);
    } else {
      assert (a + b)[1..] == a[1..] + b;
      UnmaskPieces(a[1..], b, Turn(mask));
    }
  }

  lemma {:induction false} ClientHasNoMask(n: nat)
    ensures Rotate([], n) == []
  {
    if n > 0 {
      ClientHasNoMask(n - 1);
    }
  }

  lemma FragmentPieces(core: Core, a: seq<byte>, b: seq<byte>, ra: nat, rb: nat)
    requires core.stack != [] && ra > 0
    ensures Fragment(Fragment(core, a, ra).core, b, rb).events == Fragment(core, a + b, rb).events
    ensures Fragment(Fragment(core, a, ra).core, b, rb).closed == Fragment(core, a + b, rb).closed
    ensures !Fragment(core, a + b, rb).closed ==>
              Fragment(Fragment(core, a, ra).core, b, rb).core == Fragment(core, a + b, rb).core
  {
    assert core.message + (a + b) == core.message + a + b;
    assert core.control + (a + b) == core.control + a + b;
  }

  lemma ParseHeadsRestsStable(cfg: Config, core: Core, data: seq<byte>)
    ensures Stable(cfg, ParseHeads(cfg, core, data).view)
    decreases |data|, 0
  {
    var h := ParseHeader(cfg, data);
    if h.Header? && Accept(core, h.op, h.fin) != [] && h.payload <= cfg.maxPayload {
      FeedBodyRestsStable(cfg, Accept(core, h.op, h.fin)[0], h.payload, h.mask, data[h.size..]);
    }
  }

  lemma FeedBodyRestsStable(cfg: Config, core: Core, remaining: nat, mask: seq<byte>, data: seq<byte>)
    requires core.stack != [] && |mask| == if cfg.isServer then 4 else 0
    ensures Stable(cfg, FeedBody(cfg, core, remaining, mask, data).view)
    decreases |data|, 1
  {
    if |data| >= remaining {
      var s := RestOfPayload(core, remaining, mask, data);
      if !s.closed {
        ParseHeadsRestsStable(cfg, Finish(s.core), data[remaining..]);
      }
    }
  }

  lemma FeedRestsStable(cfg: Config, v: View, data: seq<byte>)
    requires Stable(cfg, v)
    ensures Stable(cfg, Feed(cfg, v, data).view)
  {
    match v
    case Closed =>
    case Head(core, spill) => ParseHeadsRestsStable(cfg, core, spill + data);
    case Body(core, remaining, mask) => FeedBodyRestsStable(cfg, core, remaining, mask, data);
  }

  /** Feeding `b` where feeding `a` stopped. */
  ghost function Continue(cfg: Config, o: Outcome, b: seq<byte>): Outcome
    requires Stable(cfg, o.view)
  {
    Prepend(o.events, Feed(cfg, o.view, b))
  }

  lemma ContinueAfter(cfg: Config, events: seq<Event>, o: Outcome, b: seq<byte>)
    requires Stable(cfg, o.view)
    ensures Prepend(events, Continue(cfg, o, b)) == Continue(cfg, Prepend(events, o), b)
  {
    hide Feed;
    assert events + (o.events + Feed(cfg, o.view, b).events) == events + o.events + Feed(cfg, o.view, b).events;
  }

  lemma ParseHeadsPieces(cfg: Config, core: Core, a: seq<byte>, b: seq<byte>)
    ensures Stable(cfg, ParseHeads(cfg, core, a).view)
    ensures ParseHeads(cfg, core, a + b) == Continue(cfg, ParseHeads(cfg, core, a), b)
    decreases |a|, 0
  {
    ParseHeadsRestsStable(cfg, core, a);
    var h := ParseHeader(cfg, a);
    if h == Incomplete {
      assert [] + ParseHeads(cfg, core, a + b).events == ParseHeads(cfg, core, a + b).events;
    } else {
      HeaderIsPrefixStable(cfg, a, b);
      if h.Header? && Accept(core, h.op, h.fin) != [] && h.payload <= cfg.maxPayload {
        assert (a + b)[h.size..] == a[h.size..] + b;
        FeedBodyPieces(cfg, Accept(core, h.op, h.fin)[0], h.payload, h.mask, a[h.size..], b);
      }
    }
  }

  lemma FeedBodyPieces(cfg: Config, core: Core, remaining: nat, mask: seq<byte>, a: seq<byte>, b: seq<byte>)
    requires core.stack != [] && |mask| == if cfg.isServer then 4 else 0
    ensures Stable(cfg, FeedBody(cfg, core, remaining, mask, a).view)
    ensures FeedBody(cfg, core, remaining, mask, a + b) == Continue(cfg, FeedBody(cfg, core, remaining, mask, a), b)
    decreases |a|, 1
  {
    hide Fragment, Unmask, Rotate, ParseHeads;
    FeedBodyRestsStable(cfg, core, remaining, mask, a);
    if |a| >= remaining {
      assert (a + b)[..remaining] == a[..remaining];
      var s := RestOfPayload(core, remaining, mask, a);
      assert s == RestOfPayload(core, remaining, mask, a + b);
      FragmentKeepsStack(core, Unmask(a[..remaining], mask), 0);
      if !s.closed {
        assert (a + b)[remaining..] == a[remaining..] + b;
        ParseHeadsPieces(cfg, Finish(s.core), a[remaining..], b);
        ContinueAfter(cfg, s.events, ParseHeads(cfg, Finish(s.core), a[remaining..]), b);
      }
    } else {
      MidPayloadPieces(cfg, core, remaining, mask, a, b);
    }
  }

  lemma MidPayloadPieces(cfg: Config, core: Core, remaining: nat, mask: seq<byte>, a: seq<byte>, b: seq<byte>)
    requires core.stack != [] && |mask| == (if cfg.isServer then 4 else 0) && |a| < remaining
    ensures Stable(cfg, FeedBody(cfg, core, remaining, mask, a).view)
    ensures FeedBody(cfg, core, remaining, mask, a + b) == Continue(cfg, FeedBody(cfg, core, remaining, mask, a), b)
  {
    hide Fragment, Unmask, Rotate, ParseHeads;
    FragmentKeepsStack(core, Unmask(a, mask), remaining - |a|);
    if |b| < remaining - |a| {
      PartThenPart(core, remaining, mask, a, b);
    } else {
      PartThenRest(core, remaining, mask, a, b);
      assert (a + b)[remaining..] == b[remaining - |a|..];
    }
  }

  lemma PartThenPart(core: Core, remaining: nat, mask: seq<byte>, a: seq<byte>, b: seq<byte>)
    requires core.stack != [] && IsMask(mask) && |a| + |b| < remaining
    ensures var v := PartOfPayload(core, remaining, mask, a);
            v.core.stack != [] &&
            PartOfPayload(core, remaining, mask, a + b) == PartOfPayload(v.core, v.remaining, v.mask, b)
  {
    FragmentKeepsStack(core, Unmask(a, mask), remaining - |a|);
    UnmaskPieces(a, b, mask);
    FragmentPieces(core, Unmask(a, mask), Unmask(b, Rotate(mask, |a|)), remaining - |a|, remaining - |a| - |b|);
    RotateTwice(mask, |a|, |b|);
  }

  lemma PartThenRest(core: Core, remaining: nat, mask: seq<byte>, a: seq<byte>, b: seq<byte>)
    requires core.stack != [] && IsMask(mask) && |a| < remaining <= |a| + |b|
    ensures var v := PartOfPayload(core, remaining, mask, a);
            var s, s' := RestOfPayload(core, remaining, mask, a + b), RestOfPayload(v.core, v.remaining, v.mask, b);
            v.core.stack != [] && s.events == s'.events && s.closed == s'.closed && (s.closed || s.core == s'.core)
  {
    FragmentKeepsStack(core, Unmask(a, mask), remaining - |a|);
    var b1 := b[..remaining - |a|];
    UnmaskPieces(a, b1, mask);
    FragmentPieces(core, Unmask(a, mask), Unmask(b1, Rotate(mask, |a|)), remaining - |a|, 0);
    assert (a + b)[..remaining] == a + b1;
  }

  /** Two pieces in a row do what their concatenation does. */
  lemma FeedPieces(cfg: Config, v: View, a: seq<byte>, b: seq<byte>)
    requires Stable(cfg, v)
    ensures Stable(cfg, Feed(cfg, v, a).view)
    ensures Feed(cfg, v, a + b) == Continue(cfg, Feed(cfg, v, a), b)
  {
    match v
    case Closed =>
    case Head(core, spill) =>
      assert spill + (a + b) == spill + a + b;
      ParseHeadsPieces(cfg, core, spill + a, b);
    case Body(core, remaining, mask) => FeedBodyPieces(cfg, core, remaining, mask, a, b);
  }

  lemma FeedNothing(cfg: Config, v: View)
    requires Stable(cfg, v)
    ensures Feed(cfg, v, []) == Outcome(v, [])
  {
    match v
    case Closed =>
    case Head(core, spill) => assert spill + [] == spill;
    case Body(core, remaining, mask) =>
      assert core.message + [] == core.message && core.control + [] == core.control;
      assert Unmask([], mask) == [];
  }

  /** Feeding the pieces one after the other. */
  ghost function FeedAll(cfg: Config, v: View, chunks: seq<seq<byte>>): Outcome
    requires Stable(cfg, v)
    decreases |chunks|
  {
    if chunks == [] then Outcome(v, [])
    else
      FeedRestsStable(cfg, v, chunks[0]);
      var o := Feed(cfg, v, chunks[0]);
      Prepend(o.events, FeedAll(cfg, o.view, chunks[1..]))
  }

  /** Chunk invariance: how the stream was cut changes neither the events nor the state it ends in. */
  lemma {:induction false} ChunkInvariance(cfg: Config, v: View, chunks: seq<seq<byte>>)
    requires Stable(cfg, v)
    ensures FeedAll(cfg, v, chunks) == Feed(cfg, v, Flatten(chunks))
    decreases |chunks|
  {
    if chunks == [] {
      FeedNothing(cfg, v);
    } else {
      FeedPieces(cfg, v, chunks[0], Flatten(chunks[1..]));
      ChunkInvariance(cfg, Feed(cfg, v, chunks[0]).view, chunks[1..]);
    }
  }
}
