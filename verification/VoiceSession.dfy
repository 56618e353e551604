/**
  * The control state of `VoiceActivation`: wake words, voice detection, and the START/DATA/END/CANCEL protocol
  * towards the application. Wake-word recognition and voice detection are oracles: their answers are inputs.
  */
module VoiceSession {
  import opened AudioBuffer

  datatype Word = AwakeWord | SleepWord | HotWord | OtherWord

  /** One detection frame: has voice started, has it stopped, and the voice samples that became available. */
  datatype Detection = Detection(started: bool, stopped: bool, samples: seq<real>)

  /** What the oracles answer for one call of `processfrm`. */
  datatype Frame = Frame(pre: bool, cancel: bool, cmd: bool, noCmd: bool, word: Word, vad: seq<Detection>)

  datatype Action = SetAwake | SetSleep | OtherAction

  datatype Input = Audio(frame: Frame) | Control(action: Action)

  datatype Event =
    | VadComing | VtInfo | LocalSleep | WakeNoCmd | HotWordFound | LocalWake
    | VadStart | VadData(data: seq<int>) | VadEnd | VadCancel

  /** `vadFlag` is the ON bit of `vad_flag`. */
  datatype State = State(vadFlag: bool, hasVad: bool, needAsr: bool, dataOutput: bool, awaked: bool, canceled: bool,
                         cod: Cod, events: seq<Event>)

  datatype Config = Config(vadEnable: bool, scaling: int)

  const FRESH := State(false, false, false, false, false, false, EMPTY, [])

  function Send(s: State, e: Event): State { s.(events := s.events + [e]) }

  // ----- the recognisers' answers

  function AwakePre(f: Frame): bool { f.pre && !f.cancel }
  function Awake(f: Frame): bool { AwakePre(f) && f.word == AwakeWord }
  function Named(f: Frame): bool { f.word != OtherWord }
  function Cmd(f: Frame): bool { AwakePre(f) && f.cmd && Named(f) }
  function NoCmd(f: Frame): bool { AwakePre(f) && f.noCmd && Named(f) }

  /** `check_voice_activity`: ON and OFF bits, the voice samples, and whether voice is still going on. */
  datatype Vad = Vad(on: bool, off: bool, samples: seq<real>, hasVad: bool)

  function CheckVad(hasVad: bool, vad: seq<Detection>): Vad
    decreases |vad|
  {
    if vad == [] then Vad(false, false, [], hasVad)
    else
      var d := vad[0];
      var on := !hasVad && d.started;
      if hasVad && d.stopped then Vad(false, true, d.samples, false)
      else
        var rest := CheckVad(hasVad || on, vad[1..]);
        Vad(on || rest.on, rest.off, (if hasVad || on then d.samples else []) + rest.samples, rest.hasVad)
  }

  // ----- one frame, stage by stage

  /** `reset_asr`. */
  function ResetAsr(cfg: Config, s: State): State {
    var cleared := s.(vadFlag := false, awaked := false, canceled := false, needAsr := false, hasVad := false,
                      cod := Reset(s.cod));
    var told := if s.dataOutput then Send(cleared, VadCancel) else cleared;
    if cfg.vadEnable then told.(dataOutput := false) else told
  }

  function WakeStage(cfg: Config, s: State, f: Frame): State {
    if AwakePre(f) then ResetAsr(cfg, s) else s
  }

  function VadOnStage(s: State, f: Frame, on: bool): State {
    if !on then s
    else
      var cleared := s.(vadFlag := true, awaked := false, canceled := false, dataOutput := false, cod := Reset(s.cod));
      if Awake(f) then Send(Send(cleared.(awaked := true, needAsr := true), VadComing), VtInfo) else cleared
  }

  /** The purely informative events. */
  function WordEvents(f: Frame): seq<Event> {
    (if NoCmd(f) && f.word == SleepWord then [LocalSleep] else [])
    + (if NoCmd(f) && f.word == AwakeWord then [WakeNoCmd] else [])
    + (if NoCmd(f) && f.word == HotWord then [HotWordFound] else [])
    + (if Cmd(f) && f.word == AwakeWord then [LocalWake] else [])
  }

  function StartStage(s: State, f: Frame): State {
    if s.dataOutput then s
    else if Cmd(f) then Send(s.(dataOutput := true), VadStart)
    else if NoCmd(f) then s.(dataOutput := true, canceled := true, cod := Pause(s.cod))
    else if s.needAsr && !s.awaked then Send(s.(dataOutput := true), VadStart)
    else s
  }

  function CancelStage(cfg: Config, s: State): State {
    if !s.canceled && ((cfg.vadEnable && IsTooLong(s.cod)) || (!s.awaked && !s.needAsr)) then
      var stopped := if cfg.vadEnable then s else s.(vadFlag := false, dataOutput := false);
      Send(stopped.(canceled := true, cod := Pause(s.cod)), VadCancel)
    else s
  }

  function ResumeStage(cfg: Config, s: State): State {
    if cfg.vadEnable && s.canceled && s.awaked && IsNeedResume(s.cod) then
      Send(s.(canceled := false, cod := Resume(s.cod)), VadStart)
    else s
  }

  /** Encodes what is waiting and hands it out when there is more than `threshold` of it, in bytes. */
  function Deliver(cfg: Config, s: State, threshold: nat): State
    requires ValidCod(s.cod)
  {
    var c := ProcessData(s.cod);
    if 2 * Left(c) > threshold then Send(s.(cod := c.(cur := c.cod)), VadData(Out(c, cfg.scaling)[c.cur..]))
    else s.(cod := c)
  }

  function DataStage(cfg: Config, s: State, f: Frame, off: bool): State
    requires ValidCod(s.cod)
  {
    if s.canceled then s
    else
      var s1 := if AwakePre(f) then s else Deliver(cfg, s, 100);
      if off then Deliver(cfg, s1, 0) else s1
  }

  /** Everything that happens while voice is on. */
  function VoiceStage(cfg: Config, s: State, f: Frame, vad: Vad): State
    requires ValidCod(s.cod)
  {
    if !s.vadFlag then s
    else
      var s1 := StartStage(s.(cod := Process(s.cod, vad.samples)), f);
      if s1.dataOutput then DataStage(cfg, ResumeStage(cfg, CancelStage(cfg, s1)), f, vad.off) else s1
  }

  function VadOffStage(cfg: Config, s: State, off: bool): State {
    if !off then s
    else
      var s1 := s.(vadFlag := false, needAsr := s.needAsr && !cfg.vadEnable);
      (if cfg.vadEnable && s.dataOutput && !s.canceled then Send(s1, VadEnd) else s1).(dataOutput := false)
  }

  /** The detector's answer for a frame: a wake word restarts it first. */
  function VadOf(s: State, f: Frame): Vad {
    CheckVad(s.hasVad && !AwakePre(f), f.vad)
  }

  /** `processfrm` up to the handling of the end of voice. */
  function BeforeVadOff(cfg: Config, s: State, f: Frame): State
    requires ValidCod(s.cod)
  {
    var vad := VadOf(s, f);
    var s1 := WakeStage(cfg, s, f);
    var s2 := VadOnStage(s1.(hasVad := vad.hasVad), f, vad.on);
    VoiceStage(cfg, s2.(events := s2.events + WordEvents(f)), f, vad)
  }

  /** `processfrm`. */
  function ProcessFrame(cfg: Config, s: State, f: Frame): State
    requires ValidCod(s.cod)
  {
    VadOffStage(cfg, BeforeVadOff(cfg, s, f), VadOf(s, f).off)
  }

  /** `control`. */
  function ApplyControl(s: State, a: Action): State {
    match a
    case SetAwake => s.(needAsr := true)
    case SetSleep => s.(awaked := false, needAsr := false)
    case OtherAction => s
  }

  function Step(cfg: Config, s: State, input: Input): State
    requires ValidCod(s.cod)
  {
    match input
    case Audio(f) => ProcessFrame(cfg, s, f)
    case Control(a) => ApplyControl(s, a)
  }

  // ----- what the application sees

  /** A session is open with what has been delivered in it, or none is. */
  datatype Session = NoSession | Open(sent: seq<int>)

  function NextSession(x: Session, e: Event): Session {
    match e
    case VadStart => Open([])
    case VadData(data) => if x.Open? then Open(x.sent + data) else NoSession
    case VadEnd => NoSession
    case VadCancel => NoSession
    case _ => x
  }

  /** With `strict`, CANCEL too is allowed in an open session only. */
  predicate Allowed(strict: bool, x: Session, e: Event) {
    match e
    case VadStart => x.NoSession?
    case VadData(_) => x.Open?
    case VadEnd => x.Open?
    case VadCancel => strict ==> x.Open?
    case _ => true
  }

  function SessionOf(events: seq<Event>): Session {
    if events == [] then NoSession
    else NextSession(SessionOf(events[..|events| - 1]), events[|events| - 1])
  }

  /** START only when no session is open, DATA and END only when one is. */
  predicate Protocol(strict: bool, events: seq<Event>)
    decreases |events|
  {
    events == [] ||
    (Protocol(strict, events[..|events| - 1])
     && Allowed(strict, SessionOf(events[..|events| - 1]), events[|events| - 1]))
  }

  lemma AfterSend(strict: bool, s: State, e: Event)
    ensures SessionOf(Send(s, e).events) == NextSession(SessionOf(s.events), e)
    ensures Protocol(strict, Send(s, e).events) <==>
            Protocol(strict, s.events) && Allowed(strict, SessionOf(s.events), e)
  {
    assert Send(s, e).events[..|s.events|] == s.events;
  }

  // ----- the invariant

  /** What every state keeps, with local voice detection on or off. */
  predicate Safe(s: State) {
    && ValidCod(s.cod) && Aligned(s.cod) && GainIsFixed(s.cod)
    && (s.cod.paused ==> s.canceled)
  }

  /** The application's view agrees with the flags, and it has received exactly the encoded audio so far. */
  predicate InStep(cfg: Config, strict: bool, s: State) {
    && Safe(s)
    && Protocol(strict, s.events)
    && SessionOf(s.events) == if s.dataOutput && !s.canceled then Open(Out(s.cod, cfg.scaling)[..s.cod.cur])
                              else NoSession
  }

  /** While voice is on, nothing is lost before a session starts, nor while one is suspended. */
  predicate Ready(s: State) {
    && (!s.dataOutput ==> !s.canceled && s.cod.cur == 0)
    && (s.dataOutput && s.canceled ==> s.cod.paused && s.cod.cur == 0)
  }

  /** At most 50 encoded samples are held back, and at most a frame is not encoded. */
  predicate Prompt(c: Cod) {
    c.cod <= c.cur + 50 && |c.raw| <= c.cod + FRAME
  }

  predicate Inv(cfg: Config, strict: bool, s: State) {
    && InStep(cfg, strict, s)
    && (s.vadFlag <==> s.hasVad)
    && (s.dataOutput ==> s.vadFlag)
    && (s.vadFlag ==> Ready(s))
  }

  // ----- each stage keeps it

  lemma WakeStageKeeps(cfg: Config, strict: bool, s: State, f: Frame)
    requires cfg.vadEnable && Inv(cfg, strict, s)
    requires strict ==> !(AwakePre(f) && s.dataOutput && s.canceled)
    ensures Inv(cfg, strict, WakeStage(cfg, s, f))
  {
    if AwakePre(f) && s.dataOutput {
      var cleared := s.(vadFlag := false, awaked := false, canceled := false, needAsr := false, hasVad := false,
                        cod := Reset(s.cod));
      AfterSend(strict, cleared, VadCancel);
    }
  }

  lemma {:induction false} VadBits(hasVad: bool, vad: seq<Detection>)
    ensures var v := CheckVad(hasVad, vad);
            && (v.on ==> !hasVad) && (v.off ==> hasVad || v.on)
            && v.hasVad == ((hasVad || v.on) && !v.off)
    decreases |vad|
  {
    if vad != [] && !(hasVad && vad[0].stopped) {
      VadBits(hasVad || vad[0].started, vad[1..]);
    }
  }

  lemma VadOnStageKeeps(cfg: Config, strict: bool, s: State, f: Frame, on: bool)
    requires InStep(cfg, strict, s) && (s.dataOutput ==> s.vadFlag) && (s.vadFlag ==> Ready(s)) && (on ==> !s.vadFlag)
    ensures var s' := VadOnStage(s, f, on);
            && InStep(cfg, strict, s') && (s'.dataOutput ==> s'.vadFlag) && (s'.vadFlag ==> Ready(s'))
            && s'.vadFlag == (s.vadFlag || on) && s'.hasVad == s.hasVad
  {
    if on {
      var cleared := s.(vadFlag := true, awaked := false, canceled := false, dataOutput := false, cod := Reset(s.cod));
      assert SessionOf(s.events) == NoSession;
      if Awake(f) {
        var told := cleared.(awaked := true, needAsr := true);
        AfterSend(strict, told, VadComing);
        AfterSend(strict, Send(told, VadComing), VtInfo);
      }
    }
  }

  lemma WordEventsAreNeutral(strict: bool, events: seq<Event>, f: Frame)
    ensures SessionOf(events + WordEvents(f)) == SessionOf(events)
    ensures Protocol(strict, events + WordEvents(f)) == Protocol(strict, events)
  {
    NeutralEvents(strict, events, WordEvents(f));
  }

  lemma {:induction false} NeutralEvents(strict: bool, events: seq<Event>, more: seq<Event>)
    requires forall i | 0 <= i < |more| :: more[i] in {LocalSleep, WakeNoCmd, HotWordFound, LocalWake}
    ensures SessionOf(events + more) == SessionOf(events)
    ensures Protocol(strict, events + more) == Protocol(strict, events)
    decreases |more|
  {
    if more == [] {
      assert events + more == events;
    } else {
      var n := |more| - 1;
      NeutralEvents(strict, events, more[..n]);
      assert (events + more)[..|events + more| - 1] == events + more[..n];
    }
  }

  lemma ProcessKeepsOut(cfg: Config, c: Cod, samples: seq<real>)
    requires ValidCod(c)
    ensures Aligned(c) ==> Aligned(Process(c, samples))
    ensures GainIsFixed(c) ==> GainIsFixed(Process(c, samples))
    ensures ValidCod(Process(c, samples)) && Out(Process(c, samples), cfg.scaling) == Out(c, cfg.scaling)
  {
    hide GainIsFixed;
    assert Process(c, samples).raw[..c.cod] == c.raw[..c.cod];
    if GainIsFixed(c) {
      ProcessKeepsGain(c, samples);
    }
  }

  lemma StartStageKeeps(cfg: Config, strict: bool, s: State, f: Frame)
    requires InStep(cfg, strict, s) && Ready(s)
    ensures var s' := StartStage(s, f);
            InStep(cfg, strict, s') && Ready(s') && s'.vadFlag == s.vadFlag && s'.hasVad == s.hasVad
  {
    if !s.dataOutput {
      AfterSend(strict, s.(dataOutput := true), VadStart);
    }
  }

  lemma CancelStageKeeps(cfg: Config, strict: bool, s: State)
    requires cfg.vadEnable && InStep(cfg, strict, s) && Ready(s) && s.dataOutput
    ensures var s' := CancelStage(cfg, s);
            InStep(cfg, strict, s') && Ready(s') && s'.dataOutput && s'.vadFlag == s.vadFlag && s'.hasVad == s.hasVad
  {
    AfterSend(strict, s.(canceled := true, cod := Pause(s.cod)), VadCancel);
  }

  lemma ResumeStageKeeps(cfg: Config, strict: bool, s: State)
    requires cfg.vadEnable && InStep(cfg, strict, s) && Ready(s) && s.dataOutput
    ensures var s' := ResumeStage(cfg, s);
            InStep(cfg, strict, s') && Ready(s') && s'.dataOutput && s'.vadFlag == s.vadFlag && s'.hasVad == s.hasVad
  {
    AfterSend(strict, s.(canceled := false, cod := Resume(s.cod)), VadStart);
  }

  lemma EncodedSplit(c: Cod, scaling: int)
    requires ValidCod(c)
    ensures var d := ProcessData(c);
            && ValidCod(d) && d.cur == c.cur && d.raw == c.raw && d.paused == c.paused && d.cod + FRAME >= |c.raw|
            && (Aligned(c) ==> Aligned(d) && |d.raw| - d.cod == Tail(|d.raw|))
            && (GainIsFixed(c) ==> GainIsFixed(d))
            && Out(d, scaling)[..c.cur] == Out(c, scaling)[..c.cur]
            && Out(c, scaling)[..c.cur] + Out(d, scaling)[c.cur..] == Out(d, scaling)
            && Out(d, scaling)[..d.cod] == Out(d, scaling)
  {
    hide Out, Gain, Advance, GainIsFixed;
    OutOnlyGrows(c, scaling);
    if GainIsFixed(c) {
      EncodingFixesGain(c);
    }
    if Aligned(c) {
      EncodingAligns(c);
    }
  }

  /** A delivery sends exactly the part of the encoded audio that has not been sent. */
  lemma DeliverKeeps(cfg: Config, strict: bool, s: State, threshold: nat)
    requires InStep(cfg, strict, s) && s.dataOutput && !s.canceled
    ensures var s' := Deliver(cfg, s, threshold);
            && InStep(cfg, strict, s') && s' == s.(cod := s'.cod, events := s'.events) && !s'.cod.paused
            && s'.cod.raw == s.cod.raw && s'.cod.cod + Tail(|s.cod.raw|) == |s.cod.raw|
            && 2 * Left(s'.cod) <= threshold
  {
    hide Out, ProcessData, SessionOf, Protocol, GainIsFixed;
    var c := ProcessData(s.cod);
    EncodedSplit(s.cod, cfg.scaling);
    if 2 * Left(c) > threshold {
      SameOut(c, cfg.scaling);
      AfterSend(strict, s.(cod := c.(cur := c.cod)), VadData(Out(c, cfg.scaling)[c.cur..]));
    }
  }

  lemma SameOut(c: Cod, scaling: int)
    requires ValidCod(c)
    ensures Out(c.(cur := c.cod), scaling) == Out(c, scaling) && (GainIsFixed(c) ==> GainIsFixed(c.(cur := c.cod)))
  {
  }

  lemma DataStageKeeps(cfg: Config, strict: bool, s: State, f: Frame, off: bool)
    requires InStep(cfg, strict, s) && Ready(s) && s.dataOutput
    ensures var s' := DataStage(cfg, s, f, off);
            && InStep(cfg, strict, s') && Ready(s') && s'.dataOutput && s'.vadFlag == s.vadFlag && s'.hasVad == s.hasVad
            && s'.canceled == s.canceled
            && (off && !s'.canceled ==> s'.cod.cur == s'.cod.cod && s'.cod.cod + Tail(|s'.cod.raw|) == |s'.cod.raw|)
            && (!AwakePre(f) && !s'.canceled ==> Prompt(s'.cod))
  {
    hide Deliver;
    if !s.canceled {
      var s1 := s;
      if !AwakePre(f) {
        DeliverKeeps(cfg, strict, s, 100);
        s1 := Deliver(cfg, s, 100);
      }
      if off {
        DeliverKeeps(cfg, strict, s1, 0);
      }
    }
  }

  lemma VoiceStageKeeps(cfg: Config, strict: bool, s: State, f: Frame, vad: Vad)
    requires cfg.vadEnable && InStep(cfg, strict, s) && (s.dataOutput ==> s.vadFlag) && (s.vadFlag ==> Ready(s))
    ensures var s' := VoiceStage(cfg, s, f, vad);
            && InStep(cfg, strict, s') && (s'.dataOutput ==> s'.vadFlag) && (s'.vadFlag ==> Ready(s'))
            && s'.vadFlag == s.vadFlag && s'.hasVad == s.hasVad
            && (vad.off && s'.dataOutput && !s'.canceled ==>
                  s'.cod.cur == s'.cod.cod && s'.cod.cod + Tail(|s'.cod.raw|) == |s'.cod.raw|)
            && (s.vadFlag && !AwakePre(f) && s'.dataOutput && !s'.canceled ==> Prompt(s'.cod))
  {
    if s.vadFlag {
      hide StartStage, CancelStage, ResumeStage, DataStage;
      ProcessKeepsOut(cfg, s.cod, vad.samples);
      var s0 := s.(cod := Process(s.cod, vad.samples));
      StartStageKeeps(cfg, strict, s0, f);
      var s1 := StartStage(s0, f);
      if s1.dataOutput {
        CancelStageKeeps(cfg, strict, s1);
        ResumeStageKeeps(cfg, strict, CancelStage(cfg, s1));
        DataStageKeeps(cfg, strict, ResumeStage(cfg, CancelStage(cfg, s1)), f, vad.off);
      }
    }
  }

  lemma VadOffStageKeeps(cfg: Config, strict: bool, s: State, off: bool)
    requires cfg.vadEnable && InStep(cfg, strict, s) && (s.dataOutput ==> s.vadFlag) && (s.vadFlag ==> Ready(s))
    requires s.hasVad == (s.vadFlag && !off)
    ensures Inv(cfg, strict, VadOffStage(cfg, s, off))
  {
    if off {
      AfterSend(strict, s.(vadFlag := false, needAsr := false), VadEnd);
    }
  }

  /** The state in which a frame's end-of-voice handling finds the machine. */
  lemma BeforeVadOffKeeps(cfg: Config, strict: bool, s: State, f: Frame)
    requires cfg.vadEnable && Inv(cfg, strict, s)
    requires strict ==> !(AwakePre(f) && s.dataOutput && s.canceled)
    ensures var v, off := BeforeVadOff(cfg, s, f), VadOf(s, f).off;
            && InStep(cfg, strict, v) && (v.dataOutput ==> v.vadFlag) && (v.vadFlag ==> Ready(v))
            && v.hasVad == (v.vadFlag && !off) == VadOf(s, f).hasVad
            && (off && v.dataOutput && !v.canceled ==>
                  v.cod.cur == v.cod.cod && v.cod.cod + Tail(|v.cod.raw|) == |v.cod.raw|)
            && (!AwakePre(f) && v.dataOutput && !v.canceled ==> Prompt(v.cod))
  {
    hide VadOnStage, VoiceStage, CheckVad, WordEvents;
    WakeStageKeeps(cfg, strict, s, f);
    var s1 := WakeStage(cfg, s, f);
    VadBits(s1.hasVad, f.vad);
    var vad := VadOf(s, f);
    var s1' := s1.(hasVad := vad.hasVad);
    VadOnStageKeeps(cfg, strict, s1', f, vad.on);
    var s2 := VadOnStage(s1', f, vad.on);
    WordEventsAreNeutral(strict, s2.events, f);
    VoiceStageKeeps(cfg, strict, s2.(events := s2.events + WordEvents(f)), f, vad);
  }

  /** One call of `processfrm` keeps the protocol and the audio. */
  lemma FrameKeepsInv(cfg: Config, strict: bool, s: State, f: Frame)
    requires cfg.vadEnable && Inv(cfg, strict, s)
    requires strict ==> !(AwakePre(f) && s.dataOutput && s.canceled)
    ensures Inv(cfg, strict, ProcessFrame(cfg, s, f))
  {
    hide VadOffStage, BeforeVadOff;
    BeforeVadOffKeeps(cfg, strict, s, f);
    VadOffStageKeeps(cfg, strict, BeforeVadOff(cfg, s, f), VadOf(s, f).off);
  }

  /**
    * When a session ends, the application has everything that was encoded in it, and what stays unencoded is the
    * exact tail of the utterance: between 1 and 320 samples of it, so that delivery is complete only if nothing was
    * heard.
    */
  lemma EndIsComplete(cfg: Config, s: State, f: Frame)
    requires cfg.vadEnable && Inv(cfg, false, s)
    ensures var v, s' := BeforeVadOff(cfg, s, f), ProcessFrame(cfg, s, f);
            if VadOf(s, f).off && v.dataOutput && !v.canceled then
              && s'.events == v.events + [VadEnd] && ValidCod(s'.cod)
              && SessionOf(v.events) == Open(Out(s'.cod, cfg.scaling))
              && |SessionOf(v.events).sent| + Tail(|s'.cod.raw|) == |s'.cod.raw|
              && (|SessionOf(v.events).sent| == |s'.cod.raw| <==> s'.cod.raw == [])
            else s'.events == v.events
  {
    hide BeforeVadOff, Pcm;
    BeforeVadOffKeeps(cfg, false, s, f);
    var v := BeforeVadOff(cfg, s, f);
    assert Out(v.cod, cfg.scaling)[..v.cod.cod] == Out(v.cod, cfg.scaling);
  }

  /** A command of exactly one frame of samples: the session opens and ends, and none of it is delivered. */
  lemma WholeFrameLost(scaling: int)
    ensures var start := Frame(true, false, true, false, AwakeWord, [Detection(true, false, [])]);
            var stop := Frame(false, false, false, false, OtherWord, [Detection(false, true, seq(FRAME, _ => 1.0))]);
            Run(Config(true, scaling), FRESH, [Audio(start), Audio(stop)]).events
              == [VadComing, VtInfo, LocalWake, VadStart, VadEnd]
  {
    var cfg := Config(true, scaling);
    var start := Frame(true, false, true, false, AwakeWord, [Detection(true, false, [])]);
    var stop := Frame(false, false, false, false, OtherWord, [Detection(false, true, seq(FRAME, _ => 1.0))]);
    assert start.vad[1..] == [];
    assert VadOf(FRESH, start) == Vad(true, false, [], true);
    var s1 := Step(cfg, FRESH, Audio(start));
    assert s1.events == [VadComing, VtInfo, LocalWake, VadStart];
    assert s1.dataOutput && !s1.canceled && s1.vadFlag && s1.hasVad;
    StepKeepsSafe(cfg, FRESH, Audio(start));
    assert VadOf(s1, stop) == Vad(false, true, seq(FRAME, _ => 1.0), false);
    var s2 := Step(cfg, s1, Audio(stop));
    LastFrameOnly(cfg, s1, stop);
    TwoInputs(cfg, FRESH, Audio(start), Audio(stop));
  }

  /** With no more than a frame of samples there is nothing to deliver, and voice that stops just ends the session. */
  lemma LastFrameOnly(cfg: Config, s: State, f: Frame)
    requires cfg.vadEnable && Safe(s) && s.vadFlag && s.dataOutput && !s.canceled && s.awaked && s.cod.raw == []
    requires f == Frame(false, false, false, false, OtherWord, f.vad)
    requires VadOf(s, f).off && !VadOf(s, f).on && |VadOf(s, f).samples| <= FRAME
    ensures ProcessFrame(cfg, s, f).events == s.events + [VadEnd]
  {
    hide CheckVad, Pcm;
    assert s.events + [] == s.events;
  }

  /** Audio is passed on promptly: a frame that leaves a session open leaves no more than 370 samples behind. */
  lemma PromptDelivery(cfg: Config, s: State, f: Frame)
    requires cfg.vadEnable && Inv(cfg, false, s) && !AwakePre(f)
    ensures var s' := ProcessFrame(cfg, s, f);
            SessionOf(s'.events).Open? ==>
              ValidCod(s'.cod) && |s'.cod.raw| <= |SessionOf(s'.events).sent| + 370
  {
    hide BeforeVadOff, VadOf, Out, AwakePre;
    BeforeVadOffKeeps(cfg, false, s, f);
    FrameKeepsInv(cfg, false, s, f);
  }

  /** A wake word with a command opens a session in the frame in which the voice starts, and tells its coming first. */
  lemma WakeCommandOpens(cfg: Config, s: State, f: Frame)
    requires cfg.vadEnable && Inv(cfg, false, s) && Awake(f) && Cmd(f)
    requires var vad := VadOf(s, f); vad.on && !vad.off && |vad.samples| <= TOO_LONG
    ensures var s' := ProcessFrame(cfg, s, f);
            && SessionOf(s'.events) == Open([])
            && s'.events == WakeStage(cfg, s, f).events + [VadComing, VtInfo] + WordEvents(f) + [VadStart]
  {
    hide CheckVad, WordEvents, Out, SessionOf, Protocol;
    var s1 := WakeStage(cfg, s, f);
    FrameKeepsInv(cfg, false, s, f);
  }

  // ----- the samples themselves, with local voice detection on or off

  function Normalised(samples: seq<real>): seq<real> {
    seq(|samples|, i requires 0 <= i < |samples| => samples[i] / 32768.0)
  }

  /** `s'` is safe again, no event is taken back, and the samples are the same. */
  predicate Follows(s: State, s': State) {
    Safe(s') && s.events <= s'.events && s'.cod.raw == s.cod.raw
  }

  lemma StartFollows(s: State, f: Frame)
    requires Safe(s)
    ensures Follows(s, StartStage(s, f))
  {
    hide Cmd, NoCmd;
  }

  lemma CancelFollows(cfg: Config, s: State)
    requires Safe(s)
    ensures Follows(s, CancelStage(cfg, s))
  {
  }

  lemma ResumeFollows(cfg: Config, s: State)
    requires Safe(s)
    ensures Follows(s, ResumeStage(cfg, s))
  {
  }

  lemma DeliverFollows(cfg: Config, s: State, threshold: nat)
    requires Safe(s)
    ensures Follows(s, Deliver(cfg, s, threshold))
  {
    hide Pcm, Gain, Advance, Aligned, GainIsFixed;
    EncodingAligns(s.cod);
    EncodingFixesGain(s.cod);
    SameAlignment(ProcessData(s.cod));
  }

  lemma SameAlignment(c: Cod)
    requires ValidCod(c) && Aligned(c) && GainIsFixed(c)
    ensures Aligned(c.(cur := c.cod)) && GainIsFixed(c.(cur := c.cod))
  {
  }

  lemma DataFollows(cfg: Config, s: State, f: Frame, off: bool)
    requires Safe(s)
    ensures Follows(s, DataStage(cfg, s, f, off))
  {
    hide Deliver;
    DeliverFollows(cfg, s, 100);
    DeliverFollows(cfg, s, 0);
    DeliverFollows(cfg, Deliver(cfg, s, 100), 0);
  }

  lemma VoiceFollows(cfg: Config, s: State, f: Frame, vad: Vad)
    requires Safe(s)
    ensures var s' := VoiceStage(cfg, s, f, vad);
            && Safe(s') && s.events <= s'.events
            && s'.cod.raw == if s.vadFlag then s.cod.raw + Normalised(vad.samples) else s.cod.raw
  {
    hide StartStage, CancelStage, ResumeStage, DataStage;
    if s.vadFlag {
      hide GainIsFixed;
      var s0 := s.(cod := Process(s.cod, vad.samples));
      ProcessKeepsGain(s.cod, vad.samples);
      assert Normalised(vad.samples) == seq(|vad.samples|,
                                            i requires 0 <= i < |vad.samples| => vad.samples[i] / 32768.0);
      StartFollows(s0, f);
      var s1 := StartStage(s0, f);
      if s1.dataOutput {
        CancelFollows(cfg, s1);
        ResumeFollows(cfg, CancelStage(cfg, s1));
        DataFollows(cfg, ResumeStage(cfg, CancelStage(cfg, s1)), f, vad.off);
      }
    }
  }

  /**
    * One call of `processfrm`: the assertions of the buffer hold, no voice sample is dropped (each frame's samples
    * follow those before it, from the start of the voice on), and only the reset that a wake word causes comes
    * before the other events.
    */
  lemma FrameKeepsSamples(cfg: Config, s: State, f: Frame)
    requires Safe(s)
    ensures var vad, s' := VadOf(s, f), ProcessFrame(cfg, s, f);
            var earlier := if AwakePre(f) || vad.on then [] else s.cod.raw;
            var listening := (s.vadFlag && !AwakePre(f)) || vad.on;
            && Safe(s') && WakeStage(cfg, s, f).events <= s'.events
            && s'.cod.raw == if listening then earlier + Normalised(vad.samples) else earlier
  {
    hide CheckVad, WordEvents, VoiceStage, Awake, Normalised, Gain, Pcm;
    var vad := VadOf(s, f);
    var s2 := VadOnStage(WakeStage(cfg, s, f).(hasVad := vad.hasVad), f, vad.on);
    VoiceFollows(cfg, s2.(events := s2.events + WordEvents(f)), f, vad);
  }

  // ----- every run

  /** With local voice detection on or off, the assertions of the buffer are never violated. */
  lemma StepKeepsSafe(cfg: Config, s: State, input: Input)
    requires Safe(s)
    ensures Safe(Step(cfg, s, input))
  {
    hide ProcessFrame;
    if input.Audio? {
      FrameKeepsSamples(cfg, s, input.frame);
    }
  }

  function Run(cfg: Config, s: State, inputs: seq<Input>): State
    requires Safe(s)
    decreases |inputs|
  {
    if inputs == [] then s
    else
      StepKeepsSafe(cfg, s, inputs[0]);
      Run(cfg, Step(cfg, s, inputs[0]), inputs[1..])
  }

  lemma TwoInputs(cfg: Config, s: State, a: Input, b: Input)
    requires Safe(s) && Safe(Step(cfg, s, a))
    ensures Run(cfg, s, [a, b]) == Step(cfg, Step(cfg, s, a), b)
  {
    hide Step;
    StepKeepsSafe(cfg, s, a);
    var s1 := Step(cfg, s, a);
    StepKeepsSafe(cfg, s1, b);
    assert [a, b][1..] == [b] && [b][1..] == [];
    assert Run(cfg, Step(cfg, s1, b), []) == Step(cfg, s1, b);
    assert Run(cfg, s1, [b]) == Step(cfg, s1, b);
  }

  lemma ThreeInputs(cfg: Config, s: State, a: Input, b: Input, c: Input)
    requires Safe(s) && Safe(Step(cfg, s, a)) && Safe(Step(cfg, Step(cfg, s, a), b))
    ensures Run(cfg, s, [a, b, c]) == Step(cfg, Step(cfg, Step(cfg, s, a), b), c)
  {
    hide Step;
    StepKeepsSafe(cfg, s, a);
    TwoInputs(cfg, Step(cfg, s, a), b, c);
    assert [a, b, c][1..] == [b, c];
  }

  lemma StepKeepsInv(cfg: Config, s: State, input: Input)
    requires cfg.vadEnable && Inv(cfg, false, s)
    ensures Inv(cfg, false, Step(cfg, s, input))
  {
    hide ProcessFrame;
    if input.Audio? {
      FrameKeepsInv(cfg, false, s, input.frame);
    }
  }

  lemma {:induction false} RunKeepsInv(cfg: Config, s: State, inputs: seq<Input>)
    requires cfg.vadEnable && Inv(cfg, false, s)
    ensures Inv(cfg, false, Run(cfg, s, inputs))
    decreases |inputs|
  {
    hide Step;
    if inputs != [] {
      StepKeepsInv(cfg, s, inputs[0]);
      RunKeepsInv(cfg, Step(cfg, s, inputs[0]), inputs[1..]);
    }
  }

  /**
    * Gap-free audio and the session protocol, for every run: START comes only when no session is open, DATA and
    * END only when one is, a session is open exactly when output is on and not canceled, and what was delivered
    * since the latest START is the beginning of the encoded audio, with nothing missing and nothing twice.
    */
  lemma EveryRun(cfg: Config, inputs: seq<Input>)
    requires cfg.vadEnable
    ensures var s := Run(cfg, FRESH, inputs);
            && Protocol(false, s.events)
            && (SessionOf(s.events).Open? <==> s.dataOutput && !s.canceled)
            && ValidCod(s.cod)
            && (SessionOf(s.events).Open? ==> SessionOf(s.events).sent == Out(s.cod, cfg.scaling)[..s.cod.cur])
            && (s.cod.paused ==> s.canceled)
  {
    hide Run;
    RunKeepsInv(cfg, FRESH, inputs);
  }

  // ----- what was heard

  /** Whether voice is going on, and the voice samples since it last started; a wake word starts afresh. */
  datatype Hearing = Hearing(voice: bool, samples: seq<real>)

  function Hear(h: Hearing, input: Input): Hearing {
    match input
    case Control(_) => h
    case Audio(f) =>
      var before := if AwakePre(f) then Hearing(false, []) else h;
      var vad := CheckVad(before.voice, f.vad);
      var earlier := if vad.on then [] else before.samples;
      Hearing(vad.hasVad, if before.voice || vad.on then earlier + vad.samples else earlier)
  }

  function HeardFrom(h: Hearing, inputs: seq<Input>): Hearing
    decreases |inputs|
  {
    if inputs == [] then h else HeardFrom(Hear(h, inputs[0]), inputs[1..])
  }

  /** The voice samples since voice last started, from the inputs alone. */
  function Heard(inputs: seq<Input>): seq<real> { HeardFrom(Hearing(false, []), inputs).samples }

  predicate Hears(s: State, h: Hearing) { s.hasVad == h.voice && s.cod.raw == Normalised(h.samples) }

  lemma NormalisedSum(a: seq<real>, b: seq<real>)
    ensures Normalised(a + b) == Normalised(a) + Normalised(b)
  {
  }

  lemma StepHears(cfg: Config, s: State, h: Hearing, input: Input)
    requires cfg.vadEnable && Inv(cfg, false, s) && Hears(s, h)
    ensures Hears(Step(cfg, s, input), Hear(h, input))
  {
    if input.Audio? {
      var f := input.frame;
      hide ProcessFrame, BeforeVadOff, CheckVad, Normalised, AwakePre, WakeStage;
      FrameKeepsSamples(cfg, s, f);
      BeforeVadOffKeeps(cfg, false, s, f);
      HasVadAfter(cfg, s, f);
      NormalisedSum(h.samples, VadOf(s, f).samples);
      NothingNormalised();
      assert [] + Normalised(VadOf(s, f).samples) == Normalised(VadOf(s, f).samples);
      assert [] + VadOf(s, f).samples == VadOf(s, f).samples;
    }
  }

  lemma HasVadAfter(cfg: Config, s: State, f: Frame)
    requires ValidCod(s.cod)
    ensures ProcessFrame(cfg, s, f).hasVad == BeforeVadOff(cfg, s, f).hasVad
  {
    hide BeforeVadOff;
  }

  lemma NothingNormalised()
    ensures Normalised([]) == []
  {
  }

  lemma {:induction false} RunHears(cfg: Config, s: State, h: Hearing, inputs: seq<Input>)
    requires cfg.vadEnable && Inv(cfg, false, s) && Hears(s, h)
    ensures Hears(Run(cfg, s, inputs), HeardFrom(h, inputs))
    decreases |inputs|
  {
    hide Step, Hears, Hear;
    if inputs != [] {
      StepKeepsInv(cfg, s, inputs[0]);
      StepHears(cfg, s, h, inputs[0]);
      RunHears(cfg, Step(cfg, s, inputs[0]), Hear(h, inputs[0]), inputs[1..]);
    }
  }

  // ----- when the gain is fixed

  /**
    * With how many samples of the current voice the gain has been fixed, `m` so far: the start of voice forgets it, and
    * the first frame after which a session is open and more than 320 samples have been heard fixes it. (A wake word's
    * own frame delivers nothing.)
    */
  function NextFixed(m: nat, h: Hearing, f: Frame, open: bool): nat {
    var before := if AwakePre(f) then Hearing(false, []) else h;
    var kept := if AwakePre(f) || CheckVad(before.voice, f.vad).on then 0 else m;
    if open && !AwakePre(f) then FixedAfter(kept, |Hear(h, Audio(f)).samples|) else kept
  }

  function FixedFrom(cfg: Config, s: State, h: Hearing, m: nat, inputs: seq<Input>): nat
    requires Safe(s)
    decreases |inputs|
  {
    if inputs == [] then m
    else
      StepKeepsSafe(cfg, s, inputs[0]);
      var s' := Step(cfg, s, inputs[0]);
      var m' := if inputs[0].Audio? then NextFixed(m, h, inputs[0].frame, SessionOf(s'.events).Open?) else m;
      FixedFrom(cfg, s', Hear(h, inputs[0]), m', inputs[1..])
  }

  /** How many of the samples heard were there when the gain was fixed; 0 before that. */
  function FixedWith(cfg: Config, inputs: seq<Input>): nat { FixedFrom(cfg, FRESH, Hearing(false, []), 0, inputs) }

  lemma DataFixes(cfg: Config, s: State, f: Frame)
    requires Safe(s)
    ensures var s' := DataStage(cfg, s, f, false);
            && s'.dataOutput == s.dataOutput && s'.canceled == s.canceled && s'.cod.raw == s.cod.raw
            && s'.cod.fixedAt
                 == if !s.canceled && !AwakePre(f) then FixedAfter(s.cod.fixedAt, |s.cod.raw|) else s.cod.fixedAt
  {
    hide Out, GainIsFixed, Gain, Advance;
    if !s.canceled && !AwakePre(f) {
      EncodingFixesGain(s.cod);
    }
  }

  lemma VoiceFixes(cfg: Config, s: State, f: Frame, vad: Vad)
    requires cfg.vadEnable && Safe(s) && s.vadFlag && !vad.off
    ensures var s' := VoiceStage(cfg, s, f, vad);
            s'.cod.fixedAt
              == if s'.dataOutput && !s'.canceled && !AwakePre(f) then FixedAfter(s.cod.fixedAt, |s'.cod.raw|)
                 else s.cod.fixedAt
  {
    hide GainIsFixed, Aligned, DataStage, AwakePre;
    var s0 := s.(cod := Process(s.cod, vad.samples));
    ProcessKeepsGain(s.cod, vad.samples);
    ProcessKeepsOut(cfg, s.cod, vad.samples);
    StartFollows(s0, f);
    var s1 := StartStage(s0, f);
    if s1.dataOutput {
      CancelFollows(cfg, s1);
      ResumeFollows(cfg, CancelStage(cfg, s1));
      DataFixes(cfg, ResumeStage(cfg, CancelStage(cfg, s1)), f);
    }
  }

  lemma FrameFixes(cfg: Config, s: State, h: Hearing, m: nat, f: Frame)
    requires cfg.vadEnable && Inv(cfg, false, s) && Hears(s, h) && (s.hasVad ==> s.cod.fixedAt == m)
    ensures var s' := ProcessFrame(cfg, s, f);
            s'.hasVad ==> s'.cod.fixedAt == NextFixed(m, h, f, SessionOf(s'.events).Open?)
  {
    hide VoiceStage, CheckVad, WordEvents, Gain, Awake, SessionOf, Protocol;
    HasVadAfter(cfg, s, f);
    FrameKeepsInv(cfg, false, s, f);
    BeforeVadOffKeeps(cfg, false, s, f);
    StepHears(cfg, s, h, Audio(f));
    var vad := VadOf(s, f);
    VadBits(s.hasVad && !AwakePre(f), f.vad);
    var s2 := VadOnStage(WakeStage(cfg, s, f).(hasVad := vad.hasVad), f, vad.on);
    var s3 := s2.(events := s2.events + WordEvents(f));
    if ProcessFrame(cfg, s, f).hasVad {
      VoiceFixes(cfg, s3, f, vad);
    }
  }

  lemma {:induction false} RunFixes(cfg: Config, s: State, h: Hearing, m: nat, inputs: seq<Input>)
    requires cfg.vadEnable && Inv(cfg, false, s) && Hears(s, h) && (s.hasVad ==> s.cod.fixedAt == m)
    ensures var s' := Run(cfg, s, inputs); s'.hasVad ==> s'.cod.fixedAt == FixedFrom(cfg, s, h, m, inputs)
    decreases |inputs|
  {
    if inputs != [] {
      hide Hears, Hear, NextFixed, Inv, SessionOf, ProcessFrame;
      StepKeepsInv(cfg, s, inputs[0]);
      StepHears(cfg, s, h, inputs[0]);
      StepFixes(cfg, s, h, m, inputs[0]);
      var s' := Step(cfg, s, inputs[0]);
      var m' := if inputs[0].Audio? then NextFixed(m, h, inputs[0].frame, SessionOf(s'.events).Open?) else m;
      RunFixes(cfg, s', Hear(h, inputs[0]), m', inputs[1..]);
    }
  }

  lemma StepFixes(cfg: Config, s: State, h: Hearing, m: nat, input: Input)
    requires cfg.vadEnable && Inv(cfg, false, s) && Hears(s, h) && (s.hasVad ==> s.cod.fixedAt == m)
    ensures var s' := Step(cfg, s, input);
            s'.hasVad ==>
              s'.cod.fixedAt == if input.Audio? then NextFixed(m, h, input.frame, SessionOf(s'.events).Open?) else m
  {
    hide ProcessFrame, NextFixed, Inv, SessionOf;
    if input.Audio? {
      FrameFixes(cfg, s, h, m, input.frame);
    }
  }

  /**
    * Sample by sample, from the inputs: what an open session has received is the voice from its start, each sample
    * scaled by the gain of the first `m` samples of it, where `m` is how many had been heard when the gain was fixed.
    */
  lemma DeliveredSamples(cfg: Config, inputs: seq<Input>)
    requires cfg.vadEnable
    ensures var session := SessionOf(Run(cfg, FRESH, inputs).events);
            session.Open? && session.sent != [] ==>
              var sent, heard, m := session.sent, Heard(inputs), FixedWith(cfg, inputs);
              && |sent| <= |heard| && FRAME < m <= |heard|
              && forall k | 0 <= k < |sent| ::
                   sent[k] == ToPcm(Scale(heard[k] / 32768.0, Gain(Normalised(heard[..m]))), cfg.scaling)
  {
    hide Run, Out, Pcm, ToPcm, Scale, SessionOf, Protocol, HeardFrom, FixedFrom, Gain;
    var s, heard := Run(cfg, FRESH, inputs), Heard(inputs);
    EveryRun(cfg, inputs);
    StartsWell(cfg);
    RunKeepsInv(cfg, FRESH, inputs);
    RunHears(cfg, FRESH, Hearing(false, []), inputs);
    RunFixes(cfg, FRESH, Hearing(false, []), 0, inputs);
    EncodedVoice(s.cod, cfg.scaling, heard);
    if SessionOf(s.events).Open? && s.cod.cur > 0 {
      assert s.cod.raw[..s.cod.fixedAt] == Normalised(heard[..s.cod.fixedAt]);
    }
  }

  /** A frame in the middle of an open session: its samples are buffered, and what is due is encoded. */
  lemma PlainFrame(cfg: Config, s: State, samples: seq<real>)
    requires cfg.vadEnable && Safe(s) && s.vadFlag && s.hasVad && s.dataOutput && !s.canceled && s.awaked
    requires |s.cod.raw| + |samples| <= TOO_LONG
    ensures var f := Frame(false, false, false, false, OtherWord, [Detection(false, false, samples)]);
            var s' := ProcessFrame(cfg, s, f);
            && s' == s.(cod := s'.cod, events := s'.events)
            && s'.cod == ProcessData(Process(s.cod, samples)).(cur := s'.cod.cur)
  {
    hide Pcm, Gain, Advance, GainIsFixed, Aligned;
    var f := Frame(false, false, false, false, OtherWord, [Detection(false, false, samples)]);
    assert f.vad[1..] == [] && CheckVad(true, []) == Vad(false, false, [], true);
    assert samples + [] == samples;
    assert CheckVad(true, f.vad) == Vad(false, false, samples, true);
    assert VadOf(s, f) == Vad(false, false, samples, true);
    assert s.events + WordEvents(f) == s.events;
  }

  /**
    * A session that starts with 1920 samples of silence: the gain is fixed at one, and 1920 loud samples that follow
    * are encoded without being turned down.
    */
  lemma QuietThenLoud(scaling: int)
    ensures var start := Frame(true, false, true, false, AwakeWord, [Detection(true, false, [])]);
            var quiet := Frame(false, false, false, false, OtherWord, [Detection(false, false, seq(1920, _ => 0.0))]);
            var loud := Frame(false, false, false, false, OtherWord,
                              [Detection(false, false, seq(1920, _ => 29491.2))]);
            var s := Run(Config(true, scaling), FRESH, [Audio(start), Audio(quiet), Audio(loud)]);
            && s.dataOutput && !s.canceled && s.cod.cod == 3520 && |s.cod.raw| == 3840
            && s.cod.gain == 1.0 && !Normal(Scaled(s.cod.raw[..3520], s.cod.gain))
  {
    hide Gain, Pcm, Normal, Scaled;
    var cfg := Config(true, scaling);
    var start := Frame(true, false, true, false, AwakeWord, [Detection(true, false, [])]);
    var quiet := Frame(false, false, false, false, OtherWord, [Detection(false, false, seq(1920, _ => 0.0))]);
    var loud := Frame(false, false, false, false, OtherWord, [Detection(false, false, seq(1920, _ => 29491.2))]);
    assert start.vad[1..] == [];
    assert VadOf(FRESH, start) == Vad(true, false, [], true);
    var s1 := Step(cfg, FRESH, Audio(start));
    assert s1.dataOutput && !s1.canceled && s1.vadFlag && s1.hasVad && s1.awaked && s1.cod == EMPTY.(raw := s1.cod.raw);
    assert s1.cod.raw == [];
    StepKeepsSafe(cfg, FRESH, Audio(start));
    var s2 := Step(cfg, s1, Audio(quiet));
    PlainFrame(cfg, s1, seq(1920, _ => 0.0));
    StepKeepsSafe(cfg, s1, Audio(quiet));
    AdvanceExactly(0, 1920);
    var s3 := Step(cfg, s2, Audio(loud));
    PlainFrame(cfg, s2, seq(1920, _ => 29491.2));
    StepKeepsSafe(cfg, s2, Audio(loud));
    AdvanceExactly(1600, 3840);
    var raw := s3.cod.raw;
    assert raw[..1920] == s2.cod.raw;
    LoudAfterSilence(raw, 1920, 3520);
    ThreeInputs(cfg, FRESH, Audio(start), Audio(quiet), Audio(loud));
  }

  lemma StartsWell(cfg: Config)
    requires cfg.vadEnable
    ensures Inv(cfg, false, FRESH) && Hears(FRESH, Hearing(false, []))
  {
    NothingNormalised();
  }

  lemma EncodedVoice(c: Cod, scaling: int, heard: seq<real>)
    requires ValidCod(c) && c.raw == Normalised(heard)
    ensures c.cod <= |heard|
    ensures forall k | 0 <= k < c.cod :: Out(c, scaling)[k] == ToPcm(Scale(heard[k] / 32768.0, c.gain), scaling)
  {
    hide Pcm, ToPcm, Scale;
    forall k | 0 <= k < c.cod ensures Out(c, scaling)[k] == ToPcm(Scale(heard[k] / 32768.0, c.gain), scaling) {
      PcmAt(c.raw[..c.cod], c.gain, scaling, k);
    }
  }

  // ----- where CANCEL goes wrong

  lemma {:induction false} ProtocolOfPrefix(strict: bool, events: seq<Event>, more: seq<Event>)
    requires Protocol(strict, events + more)
    ensures Protocol(strict, events)
    decreases |more|
  {
    if more == [] {
      assert events + more == events;
    } else {
      assert (events + more)[..|events + more| - 1] == events + more[..|more| - 1];
      ProtocolOfPrefix(strict, events, more[..|more| - 1]);
    }
  }

  /**
    * `reset_asr` clears the canceled flag before it looks at it, so a wake word that finds a suspended session
    * sends CANCEL although none is open. That is the only way: with local voice detection, a frame keeps CANCEL
    * inside sessions if and only if it is not a wake word in a suspended session.
    */
  lemma CancelOnlyWhenOpen(cfg: Config, s: State, f: Frame)
    requires cfg.vadEnable && Inv(cfg, true, s)
    ensures Protocol(true, ProcessFrame(cfg, s, f).events) <==> !(AwakePre(f) && s.dataOutput && s.canceled)
  {
    hide ProcessFrame, GainIsFixed, Gain, Aligned, Out;
    if AwakePre(f) && s.dataOutput && s.canceled {
      AfterSend(true, s, VadCancel);
      var events := s.events + [VadCancel];
      FrameKeepsSamples(cfg, s, f);
      var all := ProcessFrame(cfg, s, f).events;
      if Protocol(true, all) {
        assert all == events + all[|events|..];
        ProtocolOfPrefix(true, events, all[|events|..]);
      }
    } else {
      FrameKeepsInv(cfg, true, s, f);
    }
  }

  /** A run that shows it: woken without a command, then woken again; CANCEL comes although START never did. */
  lemma CancelWithoutStart(scaling: int)
    ensures var wake := Frame(true, false, false, true, AwakeWord, [Detection(true, false, [])]);
            Run(Config(true, scaling), FRESH, [Audio(wake), Audio(wake)]).events
              == [VadComing, VtInfo, WakeNoCmd, VadCancel, VadComing, VtInfo, WakeNoCmd]
  {
    var cfg := Config(true, scaling);
    var wake := Frame(true, false, false, true, AwakeWord, [Detection(true, false, [])]);
    assert wake.vad[1..] == [];
    assert forall s: State :: VadOf(s, wake) == Vad(true, false, [], true);
    var s1 := Step(cfg, FRESH, Audio(wake));
    assert s1.events == [VadComing, VtInfo, WakeNoCmd] && s1.dataOutput && s1.canceled;
    StepKeepsSafe(cfg, FRESH, Audio(wake));
    var s2 := Step(cfg, s1, Audio(wake));
    assert s2.events == [VadComing, VtInfo, WakeNoCmd, VadCancel, VadComing, VtInfo, WakeNoCmd];
    TwoInputs(cfg, FRESH, Audio(wake), Audio(wake));
  }
}
