/**
  * Section 5.4 of RFC 6455 forbids the fragments of one message to be interleaved with another message. The
  * acceptance rule of the source is laxer: exactly where, what comes of it, and that nothing does otherwise.
  */
module WebSocketInterleaving {
  import opened Bytes
  import opened Utf8
  import opened WebSocketStream
  import opened WebSocketFrames
  import opened WebSocketInvariants

  /** Section 5.4: a data frame continues a message exactly when one is unfinished; control frames come at any time. */
  predicate Permitted(unfinished: bool, op: byte) { op > 2 || (op == 0 <==> unfinished) }

  /** A new message starts inside an unfinished one, and the source lets it. */
  predicate Intrudes(unfinished: bool, lastFin: bool, op: byte) {
    unfinished && (op == BINARY || (op == TEXT && lastFin))
  }

  /** The acceptance rule agrees with section 5.4 if and only if the frame is not such an intruder. */
  lemma AcceptAgrees(core: Core, fin: bool, op: byte, n: nat)
    requires CoreAtRest(core) && |core.stack| <= 1 && LegalFrame(fin, op, n) && (core.stack == [] ==> core.lastFin)
    ensures (Accept(core, op, fin) != [] <==> Permitted(core.stack != [], op)) <==>
            !Intrudes(core.stack != [], core.lastFin, op)
  {
  }

  // ----- what comes of an intruder

  const KEY: seq<byte> := [0, 0, 0, 0]

  /** The bytes of the unfinished text are delivered inside the binary message that intrudes. */
  lemma BinaryIntruder(cfg: Config)
    requires cfg.maxPayload >= 1
    ensures var frames := [FrameData(false, TEXT, [97], KEY), FrameData(true, BINARY, [98], KEY)];
            AllLegal(frames) && Receive(cfg, IDLE, frames).events == [Message(BINARY, [97, 98])]
  {
    var first, second := FrameData(false, TEXT, [97], KEY), FrameData(true, BINARY, [98], KEY);
    var core1 := IDLE.(stack := [TEXT], lastFin := false, message := [97]);
    assert [] + [97] == [97] && [] + [TEXT] == [TEXT];
    assert [first, second][1..] == [second] && [second][1..] == [];
    var core2 := core1.(stack := [TEXT, BINARY], lastFin := true);
    assert [97] + [98] == [97, 98] && [TEXT] + [BINARY] == [TEXT, BINARY];
    assert Accept(core1, BINARY, true) == [core2];
    assert Receive(cfg, core1, [second]).events == [Message(BINARY, [97, 98])];
    PrependNothing(Receive(cfg, core1, [second]));
  }

  /** An unfinished text whose last frame was a ping: a second text takes the bytes of the first. */
  lemma SecondText(cfg: Config)
    requires cfg.maxPayload >= 1
    ensures var core := IDLE.(stack := [TEXT], lastFin := true, message := [97]);
            Receive(cfg, core, [FrameData(true, TEXT, [98], KEY)]).events == [Message(TEXT, [97, 98])]
  {
    var core, second := IDLE.(stack := [TEXT], lastFin := true, message := [97]), FrameData(true, TEXT, [98], KEY);
    assert [97] + [98] == [97, 98] && [TEXT] + [TEXT] == [TEXT, TEXT] && [second][1..] == [];
    assert Accept(core, TEXT, true) == [core.(stack := [TEXT, TEXT])];
    AsciiIsUtf8();
  }

  /** After a ping inside the unfinished text even another text is let in, and takes the bytes of the first. */
  lemma TextIntruderAfterPing(cfg: Config)
    requires cfg.maxPayload >= 1
    ensures var frames :=
              [FrameData(false, TEXT, [97], KEY), FrameData(true, PING, [], KEY), FrameData(true, TEXT, [98], KEY)];
            && AllLegal(frames)
            && Receive(cfg, IDLE, frames).events == [SendPong([]), Ping([]), Message(TEXT, [97, 98])]
  {
    hide IsUtf8;
    var first, ping := FrameData(false, TEXT, [97], KEY), FrameData(true, PING, [], KEY);
    var second := FrameData(true, TEXT, [98], KEY);
    var core1 := IDLE.(stack := [TEXT], lastFin := false, message := [97]);
    assert [] + [97] == [97] && [] + [TEXT] == [TEXT];
    assert [first, ping, second][1..] == [ping, second] == [ping] + [second];
    assert Deliverable(cfg, ping);
    ReceiveOneControl(cfg, core1, ping, [second]);
    SecondText(cfg);
    PrependNothing(Receive(cfg, core1, [ping, second]));
  }

  lemma AsciiIsUtf8()
    ensures IsUtf8([97, 98])
  {
    assert EncodeAll([97, 98]) == Encode(97) + EncodeAll([98]) by { assert [97, 98][1..] == [98]; }
    assert EncodeAll([98]) == Encode(98) + EncodeAll([]) by { assert [98][1..] == []; }
    assert EncodeAll([97, 98]) == [97, 98];
  }

  // ----- a receiver that goes by section 5.4

  /** The message that is being received in fragments, if there is one. */
  datatype Partial = Nothing | Unfinished(op: byte, data: seq<byte>)

  datatype Strict = Strict(open: bool, partial: Partial, events: seq<Event>)

  /** One frame, by the book: `data` is what its message has so far. */
  ghost function StrictStep(cfg: Config, p: Partial, f: FrameData): Strict {
    if !Permitted(p.Unfinished?, f.op) || |f.payload| > cfg.maxPayload then Strict(false, p, [Dropped])
    else if f.op == CLOSE then Strict(false, p, [CloseEvent(f.payload)])
    else if f.op > 2 then Strict(true, p, Delivery(f))
    else
      var op, data := if p.Unfinished? then p.op else f.op, (if p.Unfinished? then p.data else []) + f.payload;
      if !f.fin then Strict(true, Unfinished(op, data), [])
      else if op == TEXT && !IsUtf8(data) then Strict(false, p, [Dropped])
      else Strict(true, Nothing, [Message(op, data)])
  }

  ghost function StrictReceive(cfg: Config, p: Partial, frames: seq<FrameData>): Strict
    decreases |frames|
  {
    if frames == [] then Strict(true, p, [])
    else
      var s := StrictStep(cfg, p, frames[0]);
      if !s.open then s
      else
        var r := StrictReceive(cfg, s.partial, frames[1..]);
        r.(events := s.events + r.events)
  }

  /** No frame intrudes; `lastFin` is the FIN bit of the frame before. */
  predicate NoIntruder(unfinished: bool, lastFin: bool, frames: seq<FrameData>)
    decreases |frames|
  {
    frames == [] ||
    (!Intrudes(unfinished, lastFin, frames[0].op) &&
     NoIntruder(if frames[0].op > 2 then unfinished else !frames[0].fin, frames[0].fin, frames[1..]))
  }

  function PartialOf(core: Core): Partial {
    if core.stack == [] then Nothing else Unfinished(core.stack[0], core.message)
  }

  predicate Plain(core: Core) {
    && |core.stack| <= 1 && core.control == []
    && (if core.stack == [] then core.lastFin && core.message == [] else core.stack[0] in {TEXT, BINARY})
  }

  ghost predicate SameStep(cfg: Config, core: Core, f: FrameData) {
    var accepted, strict := Accept(core, f.op, f.fin), StrictStep(cfg, PartialOf(core), f);
    if accepted == [] || |f.payload| > cfg.maxPayload then strict == Strict(false, PartialOf(core), [Dropped])
    else
      var s := Fragment(accepted[0], f.payload, 0);
      && strict.open == !s.closed && strict.events == s.events
      && (!s.closed ==> s.core.stack != [] && Plain(Finish(s.core)) && PartialOf(Finish(s.core)) == strict.partial
                        && Finish(s.core).lastFin == f.fin
                        && (Finish(s.core).stack != [] <==> if f.op > 2 then core.stack != [] else !f.fin))
  }

  lemma ControlByTheBook(cfg: Config, core: Core, f: FrameData)
    requires Plain(core) && Legal(f) && f.op > 2
    ensures SameStep(cfg, core, f)
  {
    hide IsUtf8, CloseEvent;
    var pushed := core.(stack := core.stack + [f.op], lastFin := true);
    assert Accept(core, f.op, f.fin) == [pushed];
    assert [] + f.payload == f.payload;
    assert pushed.stack[..|core.stack|] == core.stack;
  }

  lemma FirstByTheBook(cfg: Config, core: Core, f: FrameData)
    requires Plain(core) && Legal(f) && f.op <= 2 && core.stack == []
    ensures SameStep(cfg, core, f)
  {
    hide IsUtf8;
    assert [] + f.payload == f.payload && [] + [f.op] == [f.op];
    assert f.op != 0 ==> Accept(core, f.op, f.fin) == [core.(stack := [f.op], lastFin := f.fin)];
  }

  lemma NextByTheBook(cfg: Config, core: Core, f: FrameData)
    requires Plain(core) && Legal(f) && f.op <= 2 && core.stack != [] && !Intrudes(true, core.lastFin, f.op)
    ensures SameStep(cfg, core, f)
  {
    hide IsUtf8;
    assert f.op != 0 ==> Accept(core, f.op, f.fin) == [];
    assert core.stack[..0] == [];
  }

  /** One frame that does not intrude is handled by the book. */
  lemma StepByTheBook(cfg: Config, core: Core, f: FrameData)
    requires Plain(core) && Legal(f) && !Intrudes(core.stack != [], core.lastFin, f.op)
    ensures SameStep(cfg, core, f)
  {
    hide SameStep, Plain;
    if f.op > 2 {
      ControlByTheBook(cfg, core, f);
    } else if core.stack == [] {
      FirstByTheBook(cfg, core, f);
    } else {
      NextByTheBook(cfg, core, f);
    }
  }

  /**
    * As long as no frame intrudes, the receiver is the one of section 5.4, to the last event: every message is made of
    * its own fragments.
    */
  lemma {:induction false} ByTheBook(cfg: Config, core: Core, frames: seq<FrameData>)
    requires AllLegal(frames) && Plain(core) && NoIntruder(core.stack != [], core.lastFin, frames)
    ensures var o, s := Receive(cfg, core, frames), StrictReceive(cfg, PartialOf(core), frames);
            && o.events == s.events
            && (if s.open then o.view.Head? && PartialOf(o.view.core) == s.partial else o.view == Closed)
    decreases |frames|
  {
    if frames != [] {
      hide Plain, PartialOf, StrictStep, Fragment, Finish, Intrudes;
      var f := frames[0];
      StepByTheBook(cfg, core, f);
      var accepted := Accept(core, f.op, f.fin);
      if accepted != [] && |f.payload| <= cfg.maxPayload {
        var s := Fragment(accepted[0], f.payload, 0);
        if !s.closed {
          ByTheBook(cfg, Finish(s.core), frames[1..]);
        }
      }
    }
  }

  // ----- exactly when

  /**
    * The frame intrudes and is short enough to be let in. (A text that the intruder completes and that is no text at
    * all drops the connection, as section 5.4 would have.)
    */
  ghost predicate Deviates(cfg: Config, p: Partial, lastFin: bool, f: FrameData) {
    && Intrudes(p.Unfinished?, lastFin, f.op) && |f.payload| <= cfg.maxPayload
    && (f.op == TEXT && f.fin ==> IsUtf8(p.data + f.payload))
  }

  /** An intruder that is let in, and no other frame, is not handled by the book. */
  lemma DeviatesExactly(cfg: Config, core: Core, f: FrameData)
    requires Plain(core) && Legal(f)
    ensures SameStep(cfg, core, f) <==> !Deviates(cfg, PartialOf(core), core.lastFin, f)
  {
    hide IsUtf8;
    if Intrudes(core.stack != [], core.lastFin, f.op) {
      assert Accept(core, f.op, f.fin) == [core.(stack := core.stack + [f.op], lastFin := f.fin)];
    } else {
      StepByTheBook(cfg, core, f);
    }
  }

  /** No frame is let in that intrudes, as long as a receiver by the book keeps the connection open. */
  ghost predicate NeverDeviates(cfg: Config, p: Partial, lastFin: bool, frames: seq<FrameData>)
    decreases |frames|
  {
    frames == [] ||
    (var s := StrictStep(cfg, p, frames[0]);
     && !Deviates(cfg, p, lastFin, frames[0])
     && (s.open ==> NeverDeviates(cfg, s.partial, frames[0].fin, frames[1..])))
  }

  /** The same events, and the connection is open on both sides or on neither. */
  ghost predicate SameRun(cfg: Config, core: Core, frames: seq<FrameData>) {
    var o, s := Receive(cfg, core, frames), StrictReceive(cfg, PartialOf(core), frames);
    o.events == s.events && (o.view.Head? <==> s.open)
  }

  lemma DeviationShows(cfg: Config, core: Core, f: FrameData)
    requires Plain(core) && Legal(f) && Deviates(cfg, PartialOf(core), core.lastFin, f)
    ensures !SameRun(cfg, core, [f])
  {
    hide IsUtf8;
    var pushed := core.(stack := core.stack + [f.op], lastFin := f.fin);
    assert Accept(core, f.op, f.fin) == [pushed];
    var s := Fragment(pushed, f.payload, 0);
    assert !s.closed && s.core.stack != [];
    assert [f][1..] == [] && Receive(cfg, Finish(s.core), []).view.Head?;
    assert Receive(cfg, core, [f]).view.Head?;
    assert !StrictStep(cfg, PartialOf(core), f).open;
  }

  lemma SameEvents(a: seq<Event>, b: seq<Event>, c: seq<Event>)
    ensures a + b == a + c <==> b == c
  {
    assert (a + b)[|a|..] == b && (a + c)[|a|..] == c;
  }

  /** After a frame that is handled by the book, the rest decides. */
  lemma SameRunAfter(cfg: Config, core: Core, frames: seq<FrameData>)
    requires AllLegal(frames) && Plain(core) && frames != [] && SameStep(cfg, core, frames[0])
    ensures var f := frames[0];
            var strict := StrictStep(cfg, PartialOf(core), f);
            if !strict.open then SameRun(cfg, core, frames)
            else
              && Accept(core, f.op, f.fin) != []
              && Fragment(Accept(core, f.op, f.fin)[0], f.payload, 0).core.stack != []
              && var next := Finish(Fragment(Accept(core, f.op, f.fin)[0], f.payload, 0).core);
                 && Plain(next) && PartialOf(next) == strict.partial && next.lastFin == f.fin
                 && (SameRun(cfg, core, frames) <==> SameRun(cfg, next, frames[1..]))
  {
    hide Plain, PartialOf, StrictStep, Fragment, Finish;
    var f := frames[0];
    var accepted := Accept(core, f.op, f.fin);
    if accepted != [] && |f.payload| <= cfg.maxPayload && !Fragment(accepted[0], f.payload, 0).closed {
      var s := Fragment(accepted[0], f.payload, 0);
      var next := Finish(s.core);
      SameEvents(s.events, Receive(cfg, next, frames[1..]).events,
                 StrictReceive(cfg, PartialOf(next), frames[1..]).events);
    }
  }

  /**
    * The source does what section 5.4 says, at every point of a run, if and only if no intruder is let in: the first
    * one that is makes the two part at once.
    */
  lemma {:induction false} ExactlyByTheBook(cfg: Config, core: Core, frames: seq<FrameData>)
    requires AllLegal(frames) && Plain(core)
    ensures NeverDeviates(cfg, PartialOf(core), core.lastFin, frames) <==>
            forall n | 0 <= n <= |frames| :: SameRun(cfg, core, frames[..n])
    decreases |frames|
  {
    hide Plain, PartialOf, StrictStep, Fragment, Finish, SameRun, Deviates, SameStep, Accept;
    NothingReceived(cfg, core);
    if frames == [] {
      assert frames[..0] == [];
    } else {
      var f := frames[0];
      DeviatesExactly(cfg, core, f);
      if Deviates(cfg, PartialOf(core), core.lastFin, f) {
        DeviationShows(cfg, core, f);
        assert frames[..1] == [f];
      } else {
        forall n | 1 <= n <= |frames| ensures frames[..n][0] == f && frames[..n][1..] == frames[1..][..n - 1] {
        }
        SameRunAfter(cfg, core, frames);
        if StrictStep(cfg, PartialOf(core), f).open {
          RestDecides(cfg, core, frames);
        } else {
          forall n | 0 <= n <= |frames| ensures SameRun(cfg, core, frames[..n]) {
            if n == 0 {
              assert frames[..0] == [];
            } else {
              SameRunAfter(cfg, core, frames[..n]);
            }
          }
        }
      }
    }
  }

  lemma NothingReceived(cfg: Config, core: Core)
    ensures SameRun(cfg, core, [])
  {
  }

  lemma RestDecides(cfg: Config, core: Core, frames: seq<FrameData>)
    requires AllLegal(frames) && Plain(core) && frames != [] && SameStep(cfg, core, frames[0])
    requires StrictStep(cfg, PartialOf(core), frames[0]).open
    requires !Deviates(cfg, PartialOf(core), core.lastFin, frames[0])
    ensures NeverDeviates(cfg, PartialOf(core), core.lastFin, frames) <==>
            forall n | 0 <= n <= |frames| :: SameRun(cfg, core, frames[..n])
    decreases |frames|, 0
  {
    hide Plain, PartialOf, StrictStep, Fragment, Finish, SameRun, Deviates, SameStep, Accept;
    var f, rest := frames[0], frames[1..];
    SameRunAfter(cfg, core, frames);
    var next := Finish(Fragment(Accept(core, f.op, f.fin)[0], f.payload, 0).core);
    ExactlyByTheBook(cfg, next, rest);
    forall n | 1 <= n <= |frames| ensures SameRun(cfg, core, frames[..n]) <==> SameRun(cfg, next, rest[..n - 1]) {
      assert frames[..n][0] == f && frames[..n][1..] == rest[..n - 1];
      SameRunAfter(cfg, core, frames[..n]);
    }
    NothingReceived(cfg, core);
    assert frames[..0] == [];
    if forall n | 0 <= n <= |frames| :: SameRun(cfg, core, frames[..n]) {
      forall n | 0 <= n <= |rest| ensures SameRun(cfg, next, rest[..n]) {
        assert SameRun(cfg, core, frames[..n + 1]);
      }
    }
  }

  // ----- every message is made of its own fragments

  /** The payloads of the data frames, one after the other. */
  function DataOf(frames: seq<FrameData>): seq<byte>
    decreases |frames|
  {
    if frames == [] then []
    else DataOf(frames[..|frames| - 1]) + if frames[|frames| - 1].op <= 2 then frames[|frames| - 1].payload else []
  }

  /** Frame `i` opens a message of kind `op`, the data frames up to `n` continue it, and together they are `data`. */
  predicate Fragments(frames: seq<FrameData>, i: nat, n: nat, op: byte, data: seq<byte>) {
    && i < n <= |frames| && frames[i].op == op && 1 <= op <= 2
    && (forall k | i < k < n :: frames[k].op == 0 || frames[k].op > 2)
    && DataOf(frames[i..n]) == data
  }

  ghost predicate Begun(frames: seq<FrameData>, n: nat, op: byte, data: seq<byte>) {
    exists i: nat :: Fragments(frames, i, n, op, data)
  }

  ghost predicate OwnFragments(frames: seq<FrameData>, e: Event) {
    e.Message? ==>
      exists i: nat, n: nat :: Fragments(frames, i, n, e.op, e.data) && frames[n - 1].fin && frames[n - 1].op <= 2
  }

  lemma OneMoreFrame(frames: seq<FrameData>, i: nat, n: nat)
    requires i <= n < |frames|
    ensures DataOf(frames[i..n + 1]) == DataOf(frames[i..n]) + if frames[n].op <= 2 then frames[n].payload else []
  {
    assert frames[i..n + 1][..n - i] == frames[i..n];
  }

  lemma {:induction false} StrictOrigins(cfg: Config, p: Partial, frames: seq<FrameData>, n: nat)
    requires n <= |frames| && (p.Unfinished? ==> Begun(frames, n, p.op, p.data))
    ensures forall k | 0 <= k < |StrictReceive(cfg, p, frames[n..]).events| ::
              OwnFragments(frames, StrictReceive(cfg, p, frames[n..]).events[k])
    decreases |frames| - n
  {
    if n < |frames| {
      var f, s := frames[n], StrictStep(cfg, p, frames[n]);
      assert frames[n..][0] == f && frames[n..][1..] == frames[n + 1..];
      StrictStepOrigin(cfg, p, frames, n);
      if s.open {
        hide StrictStep, OwnFragments, Fragments;
        StrictOrigins(cfg, s.partial, frames, n + 1);
      }
    }
  }

  lemma StrictStepOrigin(cfg: Config, p: Partial, frames: seq<FrameData>, n: nat)
    requires n < |frames| && (p.Unfinished? ==> Begun(frames, n, p.op, p.data))
    ensures var s := StrictStep(cfg, p, frames[n]);
            && (forall k | 0 <= k < |s.events| :: OwnFragments(frames, s.events[k]))
            && (s.open && s.partial.Unfinished? ==> Begun(frames, n + 1, s.partial.op, s.partial.data))
  {
    hide IsUtf8, DataOf;
    var f, s := frames[n], StrictStep(cfg, p, frames[n]);
    if s.open && p.Unfinished? {
      var i: nat :| Fragments(frames, i, n, p.op, p.data);
      OneMoreFrame(frames, i, n);
      if f.op > 2 {
        assert p.data + [] == p.data;
        assert Fragments(frames, i, n + 1, p.op, p.data);
      } else {
        assert Fragments(frames, i, n + 1, p.op, p.data + f.payload);
      }
    } else if s.open && f.op <= 2 {
      OneMoreFrame(frames, n, n);
      NoData(frames[n..n]);
      assert Fragments(frames, n, n + 1, f.op, [] + f.payload);
    }
  }

  lemma NoData(frames: seq<FrameData>)
    requires frames == []
    ensures DataOf(frames) == []
  {
  }

  /** From an idle connection: whatever is delivered from frames without an intruder is made of its own fragments. */
  lemma DeliveredFromOwnFragments(cfg: Config, frames: seq<FrameData>)
    requires AllLegal(frames) && NoIntruder(false, true, frames)
    ensures forall k | 0 <= k < |Receive(cfg, IDLE, frames).events| ::
              OwnFragments(frames, Receive(cfg, IDLE, frames).events[k])
  {
    hide OwnFragments, StrictReceive, Receive;
    ByTheBook(cfg, IDLE, frames);
    StrictOrigins(cfg, Nothing, frames, 0);
    assert frames[0..] == frames;
  }
}
