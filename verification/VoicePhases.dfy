/**
  * The sessions of `VoiceActivation` as a small automaton that knows no audio, only how much of it was heard: when a
  * session is opened, suspended, resumed and closed, and what the application is told. `processfrm` follows it in every
  * run with local voice detection.
  */
module VoicePhases {
  import opened AudioBuffer
  import opened VoiceSession

  // ----- voice detection

  /** The samples of all detection frames. */
  function Samples(vad: seq<Detection>): seq<real>
    decreases |vad|
  {
    if vad == [] then [] else vad[0].samples + Samples(vad[1..])
  }

  /** No voice, and none starts. */
  lemma {:induction false} StaysQuiet(vad: seq<Detection>)
    requires forall k | 0 <= k < |vad| :: !vad[k].started
    ensures CheckVad(false, vad) == Vad(false, false, [], false)
    decreases |vad|
  {
    if vad != [] {
      StaysQuiet(vad[1..]);
    }
  }

  /** Voice starts in detection frame `i`: its samples are voice, and from the next one on voice is going on. */
  lemma {:induction false} Starts(vad: seq<Detection>, i: nat)
    requires i < |vad| && vad[i].started && forall k | 0 <= k < i :: !vad[k].started
    ensures var rest := CheckVad(true, vad[i + 1..]);
            CheckVad(false, vad) == rest.(on := true, samples := vad[i].samples + rest.samples)
    decreases i
  {
    if i > 0 {
      Starts(vad[1..], i - 1);
      assert vad[1..][i..] == vad[i + 1..];
    }
  }

  /** Voice goes on to the end. */
  lemma {:induction false} GoesOn(vad: seq<Detection>)
    requires forall k | 0 <= k < |vad| :: !vad[k].stopped
    ensures CheckVad(true, vad) == Vad(false, false, Samples(vad), true)
    decreases |vad|
  {
    if vad != [] {
      GoesOn(vad[1..]);
    }
  }

  /** Voice stops in detection frame `i`, whose samples are the last. */
  lemma {:induction false} Stops(vad: seq<Detection>, i: nat)
    requires i < |vad| && vad[i].stopped && forall k | 0 <= k < i :: !vad[k].stopped
    ensures CheckVad(true, vad) == Vad(false, true, Samples(vad[..i + 1]), false)
    decreases i
  {
    assert vad[..i + 1][1..] == vad[1..][..i];
    if i > 0 {
      Stops(vad[1..], i - 1);
    } else {
      assert Samples([]) == [] && vad[..1][1..] == [];
    }
  }

  // ----- the automaton

  /** No session; the application is receiving; or output is held back since `at` samples had been heard. */
  datatype Phase = Idle | Receiving | Suspended(at: nat)

  /**
    * What decides: whether voice is going on, how many samples of it were heard, whether a wake word started it, and
    * whether the application wants to listen.
    */
  datatype Desk = Desk(phase: Phase, voice: bool, heard: nat, woken: bool, wanted: bool)

  /** What is to be done, and what the application is told. */
  datatype Turn = Turn(phase: Phase, told: seq<Event>)

  datatype Reply = Reply(desk: Desk, told: seq<Event>)

  const SILENT := Desk(Idle, false, 0, false, false)

  predicate Woken(f: Frame) { f.pre && !f.cancel }

  /** A wake word starts from the beginning. */
  function AfterWake(d: Desk, f: Frame): Desk { if Woken(f) then SILENT else d }

  /** So does voice, but for what the application wants. */
  function AfterStart(d: Desk, f: Frame, on: bool): Desk {
    var called := Woken(f) && f.word == AwakeWord;
    if on then Desk(Idle, true, 0, called, d.wanted || called) else d
  }

  /** Six seconds of voice, or nobody who listens, suspend the output. */
  function Limited(d: Desk, n: nat): Turn {
    if n > 96000 || !(d.woken || d.wanted) then Turn(Suspended(n), [VadCancel]) else Turn(Receiving, [])
  }

  /** Voice is going on, and `n` samples have been heard with this frame. */
  function NextPhase(d: Desk, f: Frame, n: nat): Turn {
    var known := Woken(f) && f.word != OtherWord;
    match d.phase
    case Idle =>
      if known && f.cmd then Turn(Limited(d, n).phase, [VadStart] + Limited(d, n).told)
      else if known && f.noCmd then Turn(Suspended(n), [])
      else if d.wanted && !d.woken then Turn(Limited(d, n).phase, [VadStart] + Limited(d, n).told)
      else Turn(Idle, [])
    case Receiving => Limited(d, n)
    case Suspended(at) =>
      if d.woken && n < 96000 && n > at + 8000 then Turn(Receiving, [VadStart]) else Turn(Suspended(at), [])
  }

  /** The words the application is told about. */
  function Words(f: Frame): seq<Event> {
    if !Woken(f) then []
    else
      match f.word
      case AwakeWord => (if f.noCmd then [WakeNoCmd] else []) + (if f.cmd then [LocalWake] else [])
      case SleepWord => if f.noCmd then [LocalSleep] else []
      case HotWord => if f.noCmd then [HotWordFound] else []
      case OtherWord => []
  }

  /** What is told before voice is dealt with. */
  function ToldFirst(d: Desk, f: Frame, on: bool): seq<Event> {
    (if Woken(f) && d.phase != Idle then [VadCancel] else [])
    + (if on && Woken(f) && f.word == AwakeWord then [VadComing, VtInfo] else [])
    + Words(f)
  }

  /** One frame. */
  function Next(d: Desk, f: Frame): Reply {
    var d0 := AfterWake(d, f);
    var vad := CheckVad(d0.voice, f.vad);
    var d1 := AfterStart(d0, f, vad.on);
    var told := ToldFirst(d, f, vad.on);
    if !d1.voice then Reply(d1, told)
    else
      var n := d1.heard + |vad.samples|;
      var turn := NextPhase(d1, f, n);
      if vad.off then
        Reply(Desk(Idle, false, n, d1.woken, false),
              told + turn.told + if turn.phase == Receiving then [VadEnd] else [])
      else Reply(d1.(phase := turn.phase, heard := n), told + turn.told)
  }

  /** The application may ask for voice to be listened to, or not. */
  function Asked(d: Desk, a: Action): Desk {
    match a
    case SetAwake => d.(wanted := true)
    case SetSleep => d.(woken := false, wanted := false)
    case OtherAction => d
  }

  function Script(d: Desk, inputs: seq<Input>): Reply
    decreases |inputs|
  {
    if inputs == [] then Reply(d, [])
    else
      match inputs[0]
      case Control(a) => Script(Asked(d, a), inputs[1..])
      case Audio(f) =>
        var rest := Script(Next(d, f).desk, inputs[1..]);
        rest.(told := Next(d, f).told + rest.told)
  }

  // ----- the machine follows it

  /** The events without the audio. */
  function Told(events: seq<Event>): seq<Event>
    decreases |events|
  {
    if events == [] then []
    else
      var n := |events| - 1;
      Told(events[..n]) + if events[n].VadData? then [] else [events[n]]
  }

  lemma {:induction false} ToldMore(events: seq<Event>, more: seq<Event>)
    requires forall i | 0 <= i < |more| :: !more[i].VadData?
    ensures Told(events + more) == Told(events) + more
    decreases |more|
  {
    if more == [] {
      assert events + more == events;
    } else {
      var n := |more| - 1;
      ToldMore(events, more[..n]);
      assert (events + more)[..|events + more| - 1] == events + more[..n];
      assert more == more[..n] + [more[n]];
    }
  }

  lemma ToldSend(s: State, e: Event)
    ensures Told(Send(s, e).events) == Told(s.events) + if e.VadData? then [] else [e]
  {
    assert Send(s, e).events[..|s.events|] == s.events;
  }

  /** The state shows what the desk says. */
  predicate Shows(s: State, d: Desk) {
    && d.voice == s.vadFlag && d.heard == |s.cod.raw| && d.woken == s.awaked && d.wanted == s.needAsr
    && d.phase == if !s.dataOutput then Idle else if s.canceled then Suspended(s.cod.pauseAt) else Receiving
  }

  lemma WakeFollows(cfg: Config, s: State, d: Desk, f: Frame)
    requires cfg.vadEnable && Inv(cfg, false, s) && Shows(s, d)
    ensures Shows(WakeStage(cfg, s, f), AfterWake(d, f))
    ensures Told(WakeStage(cfg, s, f).events)
         == Told(s.events) + if Woken(f) && d.phase != Idle then [VadCancel] else []
  {
    hide Inv;
    ToldSend(s, VadCancel);
  }

  lemma StartFollowsDesk(s: State, d: Desk, f: Frame, on: bool)
    requires Shows(s, d)
    ensures Shows(VadOnStage(s, f, on), AfterStart(d, f, on))
    ensures Told(VadOnStage(s, f, on).events)
         == Told(s.events) + if on && Woken(f) && f.word == AwakeWord then [VadComing, VtInfo] else []
  {
    ToldMore(s.events, [VadComing, VtInfo]);
    assert s.events + [VadComing] + [VtInfo] == s.events + [VadComing, VtInfo];
  }

  lemma WordsFollow(s: State, f: Frame)
    ensures WordEvents(f) == Words(f) && Told(s.events + WordEvents(f)) == Told(s.events) + Words(f)
  {
    ToldMore(s.events, WordEvents(f));
  }

  lemma DeliverTellsNothing(cfg: Config, s: State, threshold: nat)
    requires ValidCod(s.cod)
    ensures var s' := Deliver(cfg, s, threshold);
            && ValidCod(s'.cod) && Told(s'.events) == Told(s.events) && s' == s.(cod := s'.cod, events := s'.events)
            && s'.cod.raw == s.cod.raw && s'.cod.pauseAt == s.cod.pauseAt
  {
    hide Out, Gain, Told;
    var c := ProcessData(s.cod);
    ToldSend(s.(cod := c.(cur := c.cod)), VadData(Out(c, cfg.scaling)[c.cur..]));
  }

  lemma DataTellsNothing(cfg: Config, s: State, f: Frame, off: bool)
    requires ValidCod(s.cod)
    ensures var s' := DataStage(cfg, s, f, off);
            && Told(s'.events) == Told(s.events) && s' == s.(cod := s'.cod, events := s'.events)
            && s'.cod.raw == s.cod.raw && s'.cod.pauseAt == s.cod.pauseAt
  {
    hide Deliver, Told;
    if !s.canceled {
      DeliverTellsNothing(cfg, s, 100);
      DeliverTellsNothing(cfg, if AwakePre(f) then s else Deliver(cfg, s, 100), 0);
    }
  }

  /** Output that is on is suspended, or resumed, or left as it is. */
  function NextOutput(d: Desk): Turn
    requires d.phase != Idle
  {
    if d.phase == Receiving then Limited(d, d.heard)
    else if d.woken && d.heard < 96000 && d.heard > d.phase.at + 8000 then Turn(Receiving, [VadStart])
    else Turn(d.phase, [])
  }

  lemma OutputFollows(cfg: Config, s: State, d: Desk)
    requires cfg.vadEnable && Shows(s, d) && s.dataOutput && Ready(s)
    ensures var s', turn := ResumeStage(cfg, CancelStage(cfg, s)), NextOutput(d);
            && Shows(s', d.(phase := turn.phase)) && Told(s'.events) == Told(s.events) + turn.told
            && s'.cod.raw == s.cod.raw && (ValidCod(s.cod) ==> ValidCod(s'.cod))
  {
    hide Told;
    ToldSend(s, VadCancel);
    ToldSend(s, VadStart);
  }

  /** What may turn output on. */
  function NextStart(d: Desk, f: Frame): (turn: Turn)
    requires d.phase == Idle
    ensures turn.phase == Idle ==> turn.told == []
  {
    var known := Woken(f) && f.word != OtherWord;
    if known && f.cmd then Turn(Receiving, [VadStart])
    else if known && f.noCmd then Turn(Suspended(d.heard), [])
    else if d.wanted && !d.woken then Turn(Receiving, [VadStart])
    else Turn(Idle, [])
  }

  lemma OpeningFollows(s: State, d: Desk, f: Frame)
    requires Shows(s, d) && Ready(s)
    ensures var s', turn := StartStage(s, f), if d.phase == Idle then NextStart(d, f) else Turn(d.phase, []);
            && Shows(s', d.(phase := turn.phase)) && Ready(s') && Told(s'.events) == Told(s.events) + turn.told
            && (ValidCod(s.cod) ==> ValidCod(s'.cod))
  {
    hide Told;
    ToldSend(s, VadStart);
  }

  lemma PhaseInTwo(d: Desk, f: Frame)
    ensures var first := if d.phase == Idle then NextStart(d, f) else Turn(d.phase, []);
            NextPhase(d, f, d.heard)
              == if first.phase == Idle then Turn(Idle, [])
                 else
                   var second := NextOutput(d.(phase := first.phase));
                   Turn(second.phase, first.told + second.told)
  {
    assert [] + NextPhase(d, f, d.heard).told == NextPhase(d, f, d.heard).told;
    assert [VadStart] + [] == [VadStart];
  }

  lemma VoiceFollowsDesk(cfg: Config, s: State, d: Desk, f: Frame, vad: Vad)
    requires cfg.vadEnable && Shows(s, d) && Safe(s) && Ready(s) && s.vadFlag
    ensures var s', n := VoiceStage(cfg, s, f, vad), d.heard + |vad.samples|;
            var turn := NextPhase(d, f, n);
            && Shows(s', d.(heard := n, phase := turn.phase)) && Told(s'.events) == Told(s.events) + turn.told
  {
    hide Told, DataStage, ResumeStage, CancelStage, StartStage, NextOutput, NextStart;
    var n := d.heard + |vad.samples|;
    var d0 := d.(heard := n);
    var s0 := s.(cod := Process(s.cod, vad.samples));
    var first := if d0.phase == Idle then NextStart(d0, f) else Turn(d0.phase, []);
    PhaseInTwo(d0, f);
    assert NextPhase(d, f, n) == NextPhase(d0, f, n);
    OpeningFollows(s0, d0, f);
    var s1, d1 := StartStage(s0, f), d0.(phase := first.phase);
    if s1.dataOutput {
      OutputFollows(cfg, s1, d1);
      var second := NextOutput(d1);
      assert Told(s.events) + first.told + second.told == Told(s.events) + (first.told + second.told);
      DataTellsNothing(cfg, ResumeStage(cfg, CancelStage(cfg, s1)), f, vad.off);
    }
  }

  lemma EndFollows(cfg: Config, s: State, d: Desk)
    requires cfg.vadEnable && Shows(s, d)
    ensures var s' := VadOffStage(cfg, s, true);
            && Shows(s', Desk(Idle, false, d.heard, d.woken, false))
            && Told(s'.events) == Told(s.events) + if d.phase == Receiving then [VadEnd] else []
  {
    hide Told;
    ToldSend(s.(vadFlag := false, needAsr := false), VadEnd);
  }

  /** The state in which voice is dealt with. */
  function Prepared(cfg: Config, s: State, f: Frame): State {
    var s2 := VadOnStage(WakeStage(cfg, s, f).(hasVad := VadOf(s, f).hasVad), f, VadOf(s, f).on);
    s2.(events := s2.events + WordEvents(f))
  }

  lemma PreparedKeeps(cfg: Config, s: State, f: Frame)
    requires cfg.vadEnable && Inv(cfg, false, s)
    ensures var s3 := Prepared(cfg, s, f);
            && Safe(s3) && (s3.vadFlag ==> Ready(s3)) && (VadOf(s, f).off ==> s3.vadFlag) && ValidCod(s.cod)
    ensures WakeStage(cfg, s, f).hasVad == WakeStage(cfg, s, f).vadFlag == (s.hasVad && !AwakePre(f))
  {
    hide CheckVad, WakeStage, VadOnStage, WordEvents;
    WakeStageKeeps(cfg, false, s, f);
    var vad, s1 := VadOf(s, f), WakeStage(cfg, s, f);
    VadBits(s1.hasVad, f.vad);
    WakeRestartsVad(cfg, s, f);
    VadOnStageKeeps(cfg, false, s1.(hasVad := vad.hasVad), f, vad.on);
  }

  lemma PreparedFollows(cfg: Config, s: State, d: Desk, f: Frame)
    requires cfg.vadEnable && Inv(cfg, false, s) && Shows(s, d)
    ensures var s3, vad := Prepared(cfg, s, f), CheckVad(AfterWake(d, f).voice, f.vad);
            && vad == VadOf(s, f) && Shows(s3, AfterStart(AfterWake(d, f), f, vad.on))
            && Told(s3.events) == Told(s.events) + ToldFirst(d, f, vad.on)
  {
    hide Inv, Told, CheckVad, WakeStage, VadOnStage, AfterWake, AfterStart, Words, WordEvents;
    var vad, s1, d1 := VadOf(s, f), WakeStage(cfg, s, f), AfterWake(d, f);
    WakeFollows(cfg, s, d, f);
    PreparedKeeps(cfg, s, f);
    var s1' := s1.(hasVad := vad.hasVad);
    StartFollowsDesk(s1', d1, f, vad.on);
    WordsFollow(VadOnStage(s1', f, vad.on), f);
  }

  /** One call of `processfrm` does and tells what the automaton says. */
  lemma FrameFollows(cfg: Config, s: State, d: Desk, f: Frame)
    requires cfg.vadEnable && Inv(cfg, false, s) && Shows(s, d)
    ensures var s', r := ProcessFrame(cfg, s, f), Next(d, f);
            Shows(s', r.desk) && Told(s'.events) == Told(s.events) + r.told
  {
    hide Inv, Safe, Told, VadOf, CheckVad, VoiceStage, VadOffStage, AfterWake, AfterStart, NextPhase, ToldFirst,
         Prepared;
    PreparedKeeps(cfg, s, f);
    PreparedFollows(cfg, s, d, f);
    var vad, s3, d2 := VadOf(s, f), Prepared(cfg, s, f), AfterStart(AfterWake(d, f), f, VadOf(s, f).on);
    SafeIsValid(s3);
    SpelledOut(cfg, s, f);
    NextSpelledOut(d, f);
    if s3.vadFlag {
      VoiceFollowsDesk(cfg, s3, d2, f, vad);
      var n := d2.heard + |vad.samples|;
      EndFollows(cfg, VoiceStage(cfg, s3, f, vad), d2.(heard := n, phase := NextPhase(d2, f, n).phase));
    }
  }

  lemma SafeIsValid(s: State)
    requires Safe(s)
    ensures ValidCod(s.cod)
  {
  }

  lemma NextSpelledOut(d: Desk, f: Frame)
    ensures var vad := CheckVad(AfterWake(d, f).voice, f.vad);
            var d1 := AfterStart(AfterWake(d, f), f, vad.on);
            var n, told := d1.heard + |vad.samples|, ToldFirst(d, f, vad.on);
            Next(d, f) == if !d1.voice then Reply(d1, told)
                          else
                            var turn := NextPhase(d1, f, n);
                            if vad.off then
                              Reply(Desk(Idle, false, n, d1.woken, false),
                                    told + turn.told + if turn.phase == Receiving then [VadEnd] else [])
                            else Reply(d1.(phase := turn.phase, heard := n), told + turn.told)
  {
    hide CheckVad, AfterWake, AfterStart, NextPhase, Words;
  }

  lemma WakeRestartsVad(cfg: Config, s: State, f: Frame)
    requires cfg.vadEnable && Inv(cfg, false, s)
    ensures WakeStage(cfg, s, f).hasVad == (s.hasVad && !AwakePre(f))
  {
    hide Inv;
  }

  lemma SpelledOut(cfg: Config, s: State, f: Frame)
    requires ValidCod(s.cod) && ValidCod(Prepared(cfg, s, f).cod)
    ensures var s3, vad := Prepared(cfg, s, f), VadOf(s, f);
            var v := VoiceStage(cfg, s3, f, vad);
            && ProcessFrame(cfg, s, f) == (if vad.off then VadOffStage(cfg, v, true) else v)
            && (!s3.vadFlag ==> v == s3)
  {
    hide CheckVad, WakeStage, VadOnStage, WordEvents;
  }

  lemma ControlFollows(s: State, d: Desk, a: Action)
    requires Shows(s, d)
    ensures Shows(ApplyControl(s, a), Asked(d, a)) && ApplyControl(s, a).events == s.events
  {
  }

  lemma InvIsSafe(cfg: Config, s: State)
    requires Inv(cfg, false, s)
    ensures Safe(s) && ValidCod(s.cod)
  {
  }

  lemma {:induction false} RunFollows(cfg: Config, s: State, d: Desk, inputs: seq<Input>)
    requires cfg.vadEnable && Inv(cfg, false, s) && Shows(s, d)
    ensures var s', r := Run(cfg, s, inputs), Script(d, inputs);
            Shows(s', r.desk) && Told(s'.events) == Told(s.events) + r.told
    decreases |inputs|
  {
    hide Inv, Shows, Told, ProcessFrame, ApplyControl, Next;
    if inputs != [] {
      InvIsSafe(cfg, s);
      StepKeepsInv(cfg, s, inputs[0]);
      match inputs[0]
      case Control(a) =>
        ControlFollows(s, d, a);
        RunFollows(cfg, ApplyControl(s, a), Asked(d, a), inputs[1..]);
      case Audio(f) =>
        FrameFollows(cfg, s, d, f);
        var r := Next(d, f);
        RunFollows(cfg, ProcessFrame(cfg, s, f), r.desk, inputs[1..]);
        assert Told(s.events) + r.told + Script(r.desk, inputs[1..]).told
            == Told(s.events) + (r.told + Script(r.desk, inputs[1..]).told);
    }
  }

  /**
    * In every run with local voice detection the application is told exactly what the automaton says, apart from the
    * audio, and a session is open exactly when it says so.
    */
  lemma EveryRunFollows(cfg: Config, inputs: seq<Input>)
    requires cfg.vadEnable
    ensures var s, r := Run(cfg, FRESH, inputs), Script(SILENT, inputs);
            Told(s.events) == r.told && (SessionOf(s.events).Open? <==> r.desk.phase == Receiving)
  {
    hide Run, Script;
    StartsWell(cfg);
    RunFollows(cfg, FRESH, SILENT, inputs);
    EveryRun(cfg, inputs);
    assert Told([]) == [] && [] + Script(SILENT, inputs).told == Script(SILENT, inputs).told;
  }

  // ----- what follows for single frames

  function DeskOf(s: State): Desk {
    Desk(if !s.dataOutput then Idle else if s.canceled then Suspended(s.cod.pauseAt) else Receiving, s.vadFlag,
         |s.cod.raw|, s.awaked, s.needAsr)
  }

  lemma SessionAfter(cfg: Config, s: State, f: Frame)
    requires cfg.vadEnable && Inv(cfg, false, s)
    ensures SessionOf(ProcessFrame(cfg, s, f).events).Open? <==> Next(DeskOf(s), f).desk.phase == Receiving
  {
    hide ProcessFrame, Next;
    FrameFollows(cfg, s, DeskOf(s), f);
    FrameKeepsInv(cfg, false, s, f);
  }

  /**
    * A wake word without a command suspends the output. A frame that is no wake word and in which voice just goes on
    * resumes it if and only if more than half a second of voice has been heard since, and less than six in all.
    */
  lemma ResumedExactly(cfg: Config, s: State, f: Frame)
    requires cfg.vadEnable && Inv(cfg, false, s) && s.vadFlag && s.dataOutput && s.canceled && s.awaked
    requires !AwakePre(f) && !VadOf(s, f).on && !VadOf(s, f).off
    ensures var n := |s.cod.raw| + |VadOf(s, f).samples|;
            SessionOf(ProcessFrame(cfg, s, f).events).Open? <==> n < 96000 && n - s.cod.pauseAt > 8000
  {
    hide ProcessFrame, SessionOf, CheckVad, Inv;
    SessionAfter(cfg, s, f);
    VadOfDesk(cfg, s, f);
  }

  lemma VadOfDesk(cfg: Config, s: State, f: Frame)
    requires cfg.vadEnable && Inv(cfg, false, s)
    ensures CheckVad(AfterWake(DeskOf(s), f).voice, f.vad) == VadOf(s, f)
  {
    hide CheckVad;
  }

  /** An open session goes on exactly up to six seconds of voice, as long as somebody wants it. */
  lemma SuspendedExactly(cfg: Config, s: State, f: Frame)
    requires cfg.vadEnable && Inv(cfg, false, s) && s.vadFlag && s.dataOutput && !s.canceled
    requires !AwakePre(f) && !VadOf(s, f).on && !VadOf(s, f).off
    ensures SessionOf(ProcessFrame(cfg, s, f).events).Open?
       <==> |s.cod.raw| + |VadOf(s, f).samples| <= 96000 && (s.awaked || s.needAsr)
  {
    hide ProcessFrame, SessionOf, CheckVad, Inv;
    SessionAfter(cfg, s, f);
    VadOfDesk(cfg, s, f);
  }

  /** Voice that starts without a wake word opens a session if and only if the application has asked to listen. */
  lemma OpenedOnRequest(cfg: Config, s: State, f: Frame)
    requires cfg.vadEnable && Inv(cfg, false, s) && !AwakePre(f) && VadOf(s, f).on && !VadOf(s, f).off
    ensures SessionOf(ProcessFrame(cfg, s, f).events).Open? <==> s.needAsr && |VadOf(s, f).samples| <= 96000
  {
    hide ProcessFrame, SessionOf, CheckVad, Inv;
    SessionAfter(cfg, s, f);
    VadOfDesk(cfg, s, f);
  }

  lemma ControlKeepsInv(cfg: Config, s: State, a: Action)
    requires cfg.vadEnable && Inv(cfg, false, s)
    ensures Inv(cfg, false, ApplyControl(s, a))
  {
  }

  /**
    * What the application's commands do to the next voice: after "awake" it opens a session, after "sleep" it does
    * not, and a session that is open when "sleep" comes is suspended in the next frame of voice, for good.
    */
  lemma ControlDecides(cfg: Config, s: State, f: Frame)
    requires cfg.vadEnable && Inv(cfg, false, s) && !AwakePre(f) && !VadOf(s, f).off
    ensures var awake, sleep := ProcessFrame(cfg, ApplyControl(s, SetAwake), f),
                                ProcessFrame(cfg, ApplyControl(s, SetSleep), f);
            && (VadOf(s, f).on ==> (SessionOf(awake.events).Open? <==> |VadOf(s, f).samples| <= 96000))
            && SessionOf(sleep.events) == NoSession
  {
    hide ProcessFrame, SessionOf, CheckVad, Inv;
    ControlKeepsInv(cfg, s, SetAwake);
    ControlKeepsInv(cfg, s, SetSleep);
    if VadOf(s, f).on {
      OpenedOnRequest(cfg, ApplyControl(s, SetAwake), f);
    }
    SessionAfter(cfg, ApplyControl(s, SetSleep), f);
    VadOfDesk(cfg, ApplyControl(s, SetSleep), f);
  }

  /**
    * With voice detection left to the server there is no limit and no END: an open session goes on until voice stops,
    * or is cancelled, and voice with it, in the first frame in which nobody wants it.
    */
  lemma RemoteDetection(cfg: Config, s: State, f: Frame)
    requires !cfg.vadEnable && Safe(s) && s.vadFlag && s.dataOutput && !s.canceled
    requires !AwakePre(f) && !VadOf(s, f).on
    ensures var s', on := ProcessFrame(cfg, s, f), s.awaked || s.needAsr;
            && Told(s'.events) == Told(s.events) + (if on then [] else [VadCancel])
            && s'.vadFlag == s'.dataOutput == (on && !VadOf(s, f).off) && s'.canceled == !on && s'.needAsr == s.needAsr
  {
    hide CheckVad, Told, VoiceStage, GainIsFixed, Aligned;
    var vad := VadOf(s, f);
    SpelledOut(cfg, s, f);
    assert s.events + [] == s.events;
    RemoteVoice(cfg, s.(hasVad := vad.hasVad), f, vad);
    assert Prepared(cfg, s, f) == s.(hasVad := vad.hasVad);
  }

  lemma RemoteVoice(cfg: Config, s: State, f: Frame, vad: Vad)
    requires !cfg.vadEnable && ValidCod(s.cod) && s.vadFlag && s.dataOutput && !s.canceled
    ensures var s', on := VoiceStage(cfg, s, f, vad), s.awaked || s.needAsr;
            && Told(s'.events) == Told(s.events) + (if on then [] else [VadCancel])
            && s'.vadFlag == s'.dataOutput == on && s'.canceled == !on && s'.needAsr == s.needAsr
  {
    hide Told, DataStage;
    var s0 := s.(cod := Process(s.cod, vad.samples));
    assert StartStage(s0, f) == s0;
    var stopped := s0.(vadFlag := false, dataOutput := false, canceled := true, cod := Pause(s0.cod));
    ToldSend(stopped, VadCancel);
    assert CancelStage(cfg, s0) == if s.awaked || s.needAsr then s0 else Send(stopped, VadCancel);
    assert ResumeStage(cfg, CancelStage(cfg, s0)) == CancelStage(cfg, s0);
    DataTellsNothing(cfg, CancelStage(cfg, s0), f, vad.off);
    assert Told(s.events) + [] == Told(s.events);
  }

  // ----- how much is delivered

  /** Whole frames of 320 samples, short of the last sample. */
  function Due(n: nat): nat { if n == 0 then 0 else (n - 1) / 320 * 320 }

  lemma DueIsEncoded(n: nat)
    ensures Due(n) + Tail(n) == n
  {
  }

  lemma DeliversDue(cfg: Config, s: State)
    requires Safe(s)
    ensures var d := Due(|s.cod.raw|);
            Deliver(cfg, s, 100).cod.cur == if d - s.cod.cur > 50 then d else s.cod.cur
  {
    hide Out, Gain, Advance, GainIsFixed, Aligned, Tail, Due;
    EncodingAligns(s.cod);
    DueIsEncoded(|s.cod.raw|);
  }

  lemma OutputKeepsCur(cfg: Config, s: State)
    requires cfg.vadEnable && Ready(s) && s.dataOutput
    ensures var s' := ResumeStage(cfg, CancelStage(cfg, s));
            && s'.dataOutput && s'.cod.raw == s.cod.raw
            && (!s'.canceled ==> s'.cod.cur == if s.canceled then 0 else s.cod.cur)
  {
  }

  lemma VoiceDelivers(cfg: Config, s: State, f: Frame, vad: Vad)
    requires cfg.vadEnable && Safe(s) && Ready(s) && s.vadFlag && !AwakePre(f) && !vad.off
    ensures var s' := VoiceStage(cfg, s, f, vad);
            s'.dataOutput && !s'.canceled ==>
              var c, d := if s.dataOutput && !s.canceled then s.cod.cur else 0, Due(|s.cod.raw| + |vad.samples|);
              s'.cod.cur == if d - c > 50 then d else c
  {
    hide Due, Deliver, CancelStage, ResumeStage, Aligned, GainIsFixed;
    var s0 := s.(cod := Process(s.cod, vad.samples));
    ProcessKeepsOut(cfg, s.cod, vad.samples);
    StartFollows(s0, f);
    var s1 := StartStage(s0, f);
    if s1.dataOutput {
      CancelFollows(cfg, s1);
      ResumeFollows(cfg, CancelStage(cfg, s1));
      OutputKeepsCur(cfg, s1);
      var s2 := ResumeStage(cfg, CancelStage(cfg, s1));
      if !s2.canceled {
        DeliversDue(cfg, s2);
      }
    }
  }

  /**
    * An open session gets everything that is due as soon as that is more than 50 samples, in one piece, and nothing
    * before.
    */
  lemma AmountDelivered(cfg: Config, s: State, f: Frame)
    requires cfg.vadEnable && Inv(cfg, false, s) && !AwakePre(f)
    ensures var s' := ProcessFrame(cfg, s, f);
            var before, after := SessionOf(s.events), SessionOf(s'.events);
            after.Open? ==>
              var c, d := if before.Open? then |before.sent| else 0, Due(|s'.cod.raw|);
              |after.sent| == if d - c > 50 then d else c
  {
    hide Ready, VadOf, CheckVad, VoiceStage, Due, SessionOf, Protocol, Out, GainIsFixed, Aligned, Prepared, Normalised,
         ProcessFrame;
    PreparedKeeps(cfg, s, f);
    SpelledOut(cfg, s, f);
    FrameKeepsInv(cfg, false, s, f);
    PreparedWithoutWord(cfg, s, f);
    var s3 := Prepared(cfg, s, f);
    if s3.vadFlag && !VadOf(s, f).off {
      VoiceDelivers(cfg, s3, f, VadOf(s, f));
      VoiceFollows(cfg, s3, f, VadOf(s, f));
      LengthNormalised(VadOf(s, f).samples);
    }
  }

  lemma LengthNormalised(samples: seq<real>)
    ensures |Normalised(samples)| == |samples|
  {
  }

  lemma PreparedWithoutWord(cfg: Config, s: State, f: Frame)
    requires cfg.vadEnable && Inv(cfg, false, s) && !AwakePre(f)
    ensures var s3 := Prepared(cfg, s, f);
            && (s3.dataOutput && !s3.canceled <==> s.dataOutput && !s.canceled) && (s3.dataOutput ==> s3.vadFlag)
            && (s.dataOutput ==> s3.cod == s.cod)
  {
    hide CheckVad;
    VadBits(s.hasVad, f.vad);
  }

  /** The wake word, a pause, and the question: heard for half a second more, it is delivered. */
  lemma WakePauseQuestion(scaling: int)
    ensures var wake := Frame(true, false, false, true, AwakeWord, [Detection(true, false, [])]);
            var question := Frame(false, false, false, false, OtherWord,
                                  [Detection(false, false, seq(8001, _ => 1.0))]);
            var s := Run(Config(true, scaling), FRESH, [Audio(wake), Audio(question)]);
            && Told(s.events) == [VadComing, VtInfo, WakeNoCmd, VadStart]
            && SessionOf(s.events).Open? && |SessionOf(s.events).sent| == 8000
  {
    var cfg := Config(true, scaling);
    var wake := Frame(true, false, false, true, AwakeWord, [Detection(true, false, [])]);
    var samples := seq(8001, _ => 1.0);
    var question := Frame(false, false, false, false, OtherWord, [Detection(false, false, samples)]);
    TwoScripts(SILENT, wake, question);
    WakeDesk(wake);
    QuestionDesk(question, samples);
    EveryRunFollows(cfg, [Audio(wake), Audio(question)]);
    StepKeepsSafe(cfg, FRESH, Audio(wake));
    TwoInputs(cfg, FRESH, Audio(wake), Audio(question));
    var s1 := ProcessFrame(cfg, FRESH, wake);
    StartsWell(cfg);
    FrameKeepsInv(cfg, false, FRESH, wake);
    FrameFollows(cfg, FRESH, SILENT, wake);
    AmountDelivered(cfg, s1, question);
    FrameFollows(cfg, s1, Next(SILENT, wake).desk, question);
  }

  lemma TwoScripts(d: Desk, a: Frame, b: Frame)
    ensures var r := Next(Next(d, a).desk, b);
            Script(d, [Audio(a), Audio(b)]) == Reply(r.desk, Next(d, a).told + r.told)
  {
    hide Next;
    var inputs := [Audio(a), Audio(b)];
    var d1 := Next(d, a).desk;
    assert inputs[1..] == [Audio(b)] && [Audio(b)][1..] == [];
    assert Script(Next(d1, b).desk, []) == Reply(Next(d1, b).desk, []);
    assert Next(d1, b).told + [] == Next(d1, b).told;
    assert Script(d1, [Audio(b)]) == Next(d1, b);
  }

  lemma WakeDesk(wake: Frame)
    requires wake == Frame(true, false, false, true, AwakeWord, [Detection(true, false, [])])
    ensures Next(SILENT, wake) == Reply(Desk(Suspended(0), true, 0, true, true), [VadComing, VtInfo, WakeNoCmd])
  {
    assert wake.vad[1..] == [];
    assert CheckVad(false, wake.vad) == Vad(true, false, [], true);
  }

  lemma QuestionDesk(question: Frame, samples: seq<real>)
    requires |samples| == 8001
    requires question == Frame(false, false, false, false, OtherWord, [Detection(false, false, samples)])
    ensures Next(Desk(Suspended(0), true, 0, true, true), question)
         == Reply(Desk(Receiving, true, 8001, true, true), [VadStart])
  {
    GoesOn(question.vad);
    assert question.vad[1..] == [] && samples + [] == samples;
    assert CheckVad(true, question.vad) == Vad(false, false, samples, true);
  }
}
