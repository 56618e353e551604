/** What holds of a connection in every state some input leads to. */
module WebSocketInvariants {
  import opened Bytes
  import opened Utf8
  import opened WebSocketStream

  // ----- what a connection between two reads looks like

  /** Opcodes of unfinished messages: at most two, only the top one can be a control frame. */
  predicate GoodStack(stack: seq<byte>) {
    && |stack| <= 2
    && (|stack| >= 1 ==> KnownOpcode(stack[|stack| - 1]))
    && (|stack| == 2 ==> 1 <= stack[0] <= 2)
  }

  predicate KnownOpcode(op: byte) { 1 <= op <= 2 || 8 <= op <= 10 }

  predicate CoreAtRest(core: Core) {
    && GoodStack(core.stack)
    && (core.stack != [] ==> core.stack[|core.stack| - 1] < 3)
    && (core.stack == [] ==> core.message == [])
    && core.control == []
  }

  /** A payload is due for the top of the stack: control frames are short, whole, and keep to their own tail. */
  predicate CoreInBody(core: Core, remaining: nat) {
    && GoodStack(core.stack)
    && core.stack != []
    && (if core.stack[|core.stack| - 1] < 3 then core.control == []
        else core.lastFin && |core.control| + remaining <= 125 && (|core.stack| == 1 ==> core.message == []))
  }

  predicate WellFormed(cfg: Config, v: View) {
    && Stable(cfg, v)
    && match v
       case Closed => true
       case Head(core, spill) => CoreAtRest(core)
       case Body(core, remaining, mask) => CoreInBody(core, remaining) && remaining <= cfg.maxPayload
  }

  lemma ClosedIsWellFormed(cfg: Config)
    ensures WellFormed(cfg, Closed)
  {
  }

  lemma IncompleteIsShort(cfg: Config, data: seq<byte>)
    requires ParseHeader(cfg, data) == Incomplete
    ensures |data| < LongHeader(cfg)
  {
  }

  lemma AcceptedIsInBody(cfg: Config, core: Core, data: seq<byte>)
    requires CoreAtRest(core) && ParseHeader(cfg, data).Header?
    ensures var h := ParseHeader(cfg, data);
            var accepted := Accept(core, h.op, h.fin);
            accepted != [] ==> CoreInBody(accepted[0], h.payload)
  {
    var h := ParseHeader(cfg, data);
    var accepted := Accept(core, h.op, h.fin);
    if accepted != [] {
      assert h.op == OpCodeOf(data[0]) && !BadStart(data[0], data[1]);
      if h.op > 2 {
        assert Length7(data[1]) <= 125 && h.payload == Length7(data[1]);
      }
    }
  }

  lemma FragmentKeepsBody(core: Core, payload: seq<byte>, remaining: nat)
    requires CoreInBody(core, |payload| + remaining)
    ensures var s := Fragment(core, payload, remaining);
            !s.closed ==> if remaining > 0 then CoreInBody(s.core, remaining) else CoreAtRest(Finish(s.core))
  {
    hide IsUtf8;
    var s := Fragment(core, payload, remaining);
    var n := |core.stack|;
    if remaining == 0 && !s.closed && core.lastFin {
      assert Finish(s.core).stack == core.stack[..n - 1];
      assert n == 2 ==> core.stack[..n - 1][0] == core.stack[0];
    }
  }

  lemma ParseHeadsKeepsWellFormed(cfg: Config, core: Core, data: seq<byte>)
    requires CoreAtRest(core)
    ensures WellFormed(cfg, ParseHeads(cfg, core, data).view)
    decreases |data|, 0
  {
    hide Fragment;
    var h := ParseHeader(cfg, data);
    if h.Header? && Accept(core, h.op, h.fin) != [] && h.payload <= cfg.maxPayload {
      AcceptedIsInBody(cfg, core, data);
      FeedBodyKeepsWellFormed(cfg, Accept(core, h.op, h.fin)[0], h.payload, h.mask, data[h.size..]);
    }
  }

  lemma FeedBodyKeepsWellFormed(cfg: Config, core: Core, remaining: nat, mask: seq<byte>, data: seq<byte>)
    requires CoreInBody(core, remaining) && remaining <= cfg.maxPayload && |mask| == if cfg.isServer then 4 else 0
    ensures WellFormed(cfg, FeedBody(cfg, core, remaining, mask, data).view)
    decreases |data|, 1
  {
    hide Fragment, ParseHeads, Unmask, Rotate;
    if |data| < remaining {
      FragmentKeepsStack(core, Unmask(data, mask), remaining - |data|);
      FragmentKeepsBody(core, Unmask(data, mask), remaining - |data|);
    } else {
      var payload := Unmask(data[..remaining], mask);
      FragmentKeepsStack(core, payload, 0);
      FragmentKeepsBody(core, payload, 0);
      var s := Fragment(core, payload, 0);
      if !s.closed {
        ParseHeadsKeepsWellFormed(cfg, Finish(s.core), data[remaining..]);
      }
    }
  }

  /** Every reachable state is well formed: at most two opcodes, a short spill, a payload due when in a body. */
  lemma FeedKeepsWellFormed(cfg: Config, v: View, data: seq<byte>)
    requires WellFormed(cfg, v)
    ensures WellFormed(cfg, Feed(cfg, v, data).view)
  {
    match v
    case Closed =>
    case Head(core, spill) => ParseHeadsKeepsWellFormed(cfg, core, spill + data);
    case Body(core, remaining, mask) => FeedBodyKeepsWellFormed(cfg, core, remaining, mask, data);
  }

  /** The states some input leads to from a fresh connection. */
  ghost predicate Reachable(cfg: Config, v: View) {
    exists chunks: seq<seq<byte>> :: FeedAll(cfg, Head(IDLE, []), chunks).view == v
  }

  lemma {:induction false} FeedAllKeepsWellFormed(cfg: Config, v: View, chunks: seq<seq<byte>>)
    requires WellFormed(cfg, v)
    ensures WellFormed(cfg, FeedAll(cfg, v, chunks).view)
    decreases |chunks|
  {
    if chunks != [] {
      hide Feed, WellFormed;
      WellFormedIsStable(cfg, v);
      FeedRestsStable(cfg, v, chunks[0]);
      FeedKeepsWellFormed(cfg, v, chunks[0]);
      FeedAllKeepsWellFormed(cfg, Feed(cfg, v, chunks[0]).view, chunks[1..]);
    }
  }

  lemma WellFormedIsStable(cfg: Config, v: View)
    requires WellFormed(cfg, v)
    ensures Stable(cfg, v)
  {
  }

  /** In every reachable state the bounds hold that the packed fields of the source rely on. */
  lemma ReachableBounds(cfg: Config, v: View)
    requires Reachable(cfg, v)
    ensures v.Head? ==> |v.core.stack| <= 2 && |v.spill| <= LongHeader(cfg) - 1 && v.core.control == []
    ensures v.Body? ==> 1 <= |v.core.stack| <= 2 && 0 < v.remaining <= cfg.maxPayload && |v.core.control| <= 125
  {
    var chunks: seq<seq<byte>> :| FeedAll(cfg, Head(IDLE, []), chunks).view == v;
    FeedAllKeepsWellFormed(cfg, Head(IDLE, []), chunks);
    if v.Head? {
      IncompleteIsShort(cfg, v.spill);
    }
  }

  // ----- what the application gets

  /** Texts and closing reasons are UTF-8, control payloads short, and closing codes those of section 7.4. */
  ghost predicate Proper(e: Event) {
    match e
    case Message(op, data) => (op == 1 && IsUtf8(data)) || op == 2
    case SendPong(data) => |data| <= 125
    case Ping(data) => |data| <= 125
    case Pong(data) => |data| <= 125
    case Closing(code, reason) =>
      || (code == 0 && reason == [])
      || ((1000 <= code <= 1003 || 1007 <= code <= 1011 || 4000 <= code <= 4999) && IsUtf8(reason))
    case Dropped => true
  }

  ghost predicate AllProper(events: seq<Event>) { forall i | 0 <= i < |events| :: Proper(events[i]) }

  lemma FragmentIsProper(core: Core, payload: seq<byte>, remaining: nat)
    requires CoreInBody(core, |payload| + remaining)
    ensures AllProper(Fragment(core, payload, remaining).events)
  {
    hide IsUtf8;
  }

  lemma ParseHeadsIsProper(cfg: Config, core: Core, data: seq<byte>)
    requires CoreAtRest(core)
    ensures AllProper(ParseHeads(cfg, core, data).events)
    decreases |data|, 0
  {
    hide Fragment;
    var h := ParseHeader(cfg, data);
    if h.Header? && Accept(core, h.op, h.fin) != [] && h.payload <= cfg.maxPayload {
      AcceptedIsInBody(cfg, core, data);
      FeedBodyIsProper(cfg, Accept(core, h.op, h.fin)[0], h.payload, h.mask, data[h.size..]);
    }
  }

  lemma FeedBodyIsProper(cfg: Config, core: Core, remaining: nat, mask: seq<byte>, data: seq<byte>)
    requires CoreInBody(core, remaining) && |mask| == if cfg.isServer then 4 else 0
    ensures AllProper(FeedBody(cfg, core, remaining, mask, data).events)
    decreases |data|, 1
  {
    hide Fragment, ParseHeads, Unmask, Proper;
    if |data| >= remaining {
      var payload := Unmask(data[..remaining], mask);
      FragmentIsProper(core, payload, 0);
      FragmentKeepsStack(core, payload, 0);
      FragmentKeepsBody(core, payload, 0);
      var s := Fragment(core, payload, 0);
      if !s.closed {
        ParseHeadsIsProper(cfg, Finish(s.core), data[remaining..]);
      }
    }
  }

  lemma FeedIsProper(cfg: Config, v: View, data: seq<byte>)
    requires WellFormed(cfg, v)
    ensures AllProper(Feed(cfg, v, data).events)
  {
    match v
    case Closed =>
    case Head(core, spill) => ParseHeadsIsProper(cfg, core, spill + data);
    case Body(core, remaining, mask) => FeedBodyIsProper(cfg, core, remaining, mask, data);
  }

  /** Whatever the peer sends, in whatever pieces, the application gets proper events only. */
  lemma {:induction false} EveryEventIsProper(cfg: Config, v: View, chunks: seq<seq<byte>>)
    requires WellFormed(cfg, v)
    ensures AllProper(FeedAll(cfg, v, chunks).events)
    decreases |chunks|
  {
    if chunks != [] {
      hide Feed, WellFormed, Proper;
      WellFormedIsStable(cfg, v);
      FeedRestsStable(cfg, v, chunks[0]);
      FeedKeepsWellFormed(cfg, v, chunks[0]);
      FeedIsProper(cfg, v, chunks[0]);
      EveryEventIsProper(cfg, Feed(cfg, v, chunks[0]).view, chunks[1..]);
    }
  }

  lemma MalformedDrops(cfg: Config, core: Core, data: seq<byte>)
    requires |data| >= ShortHeader(cfg) && BadStart(data[0], data[1])
    ensures ParseHeads(cfg, core, data) == DROP
  {
  }

  lemma IncompleteSpills(cfg: Config, core: Core, data: seq<byte>)
    requires ParseHeader(cfg, data) == Incomplete && CoreAtRest(core)
    ensures ParseHeads(cfg, core, data) == Outcome(Head(core, data), [])
    ensures WellFormed(cfg, Head(core, data)) && |data| < LongHeader(cfg)
  {
  }

  lemma TooShortForHeader(cfg: Config, data: seq<byte>)
    requires |data| < ShortHeader(cfg)
    ensures ParseHeader(cfg, data) == Incomplete
  {
  }

  lemma HeaderFacts(cfg: Config, data: seq<byte>)
    requires ParseHeader(cfg, data).Header?
    ensures var h := ParseHeader(cfg, data);
            && ShortHeader(cfg) <= h.size <= |data| && h.op == OpCodeOf(data[0]) && h.fin == IsFin(data[0])
            && h.mask == if cfg.isServer then data[h.size - 4..h.size] else []
  {
  }

  /** One frame of `ParseHeads`, with its branches laid out as `consumeMessage` has them. */
  lemma ParseHeadsOnFrame(cfg: Config, core: Core, data: seq<byte>)
    requires ParseHeader(cfg, data).Header?
    ensures var h := ParseHeader(cfg, data);
            var accepted := Accept(core, h.op, h.fin);
            ParseHeads(cfg, core, data)
              == if accepted == [] || h.payload > cfg.maxPayload then DROP
                 else if h.payload + h.size <= |data| then
                   var s := RestOfPayload(accepted[0], h.payload, h.mask, data[h.size..]);
                   if s.closed then Outcome(Closed, s.events)
                   else
                     FragmentKeepsStack(accepted[0], Unmask(data[h.size..][..h.payload], h.mask), 0);
                     Prepend(s.events, ParseHeads(cfg, Finish(s.core), data[h.size + h.payload..]))
                 else Outcome(PartOfPayload(accepted[0], h.payload, h.mask, data[h.size..]), [])
  {
    hide Fragment, Unmask, Rotate;
    var h := ParseHeader(cfg, data);
    if h.payload + h.size <= |data| {
      assert data[h.size..][h.payload..] == data[h.size + h.payload..];
    }
  }
}
