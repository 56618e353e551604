/** The voice activation object: its methods do, field by field, what the stages of `VoiceSession` say. */
module VoiceActivation {
  import opened AudioBuffer
  import opened VoiceSession

  lemma {:induction false} AdvanceTwice(cod: nat, n: nat)
    requires cod <= n
    ensures Advance(Advance(cod, n), n) == Advance(cod, n)
    decreases n - cod
  {
    if cod + FRAME < n {
      AdvanceTwice(cod + FRAME, n);
    }
  }

  /** Asking for the length encodes what is waiting; fetching the data afterwards encodes nothing more. */
  lemma EncodedOnce(c: Cod)
    requires ValidCod(c)
    ensures ProcessData(ProcessData(c)) == ProcessData(c)
  {
    AdvanceTwice(c.cod, |c.raw|);
  }

  /** One more detection frame after `v`. */
  function Detect(v: Vad, d: Detection): Vad {
    if v.off then v
    else if v.hasVad && d.stopped then Vad(v.on, true, v.samples + d.samples, false)
    else
      var on := !v.hasVad && d.started;
      Vad(v.on || on, false, v.samples + (if v.hasVad || on then d.samples else []), v.hasVad || on)
  }

  lemma DetectAfter(on: bool, samples: seq<real>, v: Vad, d: Detection)
    requires on ==> v.hasVad || v.off
    ensures var w := Detect(v, d);
            Detect(Vad(on || v.on, v.off, samples + v.samples, v.hasVad), d)
                == Vad(on || w.on, w.off, samples + w.samples, w.hasVad)
  {
    assert samples + (v.samples + d.samples) == samples + v.samples + d.samples;
  }

  lemma {:induction false} CheckVadPrefix(hasVad: bool, d: Detection, vad: seq<Detection>)
    ensures CheckVad(hasVad, vad + [d]) == Detect(CheckVad(hasVad, vad), d)
    decreases |vad|
  {
    if vad == [] {
      assert (vad + [d])[1..] == [];
    } else if !(hasVad && vad[0].stopped) {
      hide Detect;
      CheckVadPrefix(hasVad || vad[0].started, d, vad[1..]);
      assert (vad + [d])[1..] == vad[1..] + [d];
      var on := !hasVad && vad[0].started;
      VadBits(hasVad || on, vad[1..]);
      DetectAfter(on, if hasVad || on then vad[0].samples else [], CheckVad(hasVad || on, vad[1..]), d);
    }
  }

  /** Detections after the end of voice are not looked at. */
  lemma {:induction false} CheckVadStops(hasVad: bool, vad: seq<Detection>, i: nat)
    requires i <= |vad| && CheckVad(hasVad, vad[..i]).off
    ensures CheckVad(hasVad, vad) == CheckVad(hasVad, vad[..i])
    decreases |vad|
  {
    if i > 0 {
      assert vad[..i][1..] == vad[1..][..i - 1];
      if !(hasVad && vad[0].stopped) {
        CheckVadStops(hasVad || vad[0].started, vad[1..], i - 1);
      }
    }
  }

  lemma DeliverKeepsCanceled(cfg: Config, s: State, threshold: nat)
    requires Safe(s)
    ensures Deliver(cfg, s, threshold).canceled == s.canceled
  {
  }

  class VoiceActivation {
    const vadEnable: bool
    const cod: MemCod
    var vadFlag: bool
    var hasVad: bool
    var needAsr: bool
    var dataOutput: bool
    var awaked: bool
    var canceled: bool
    var events: seq<Event>        // what the event hub received, oldest first

    ghost function Cfg(): Config { Config(vadEnable, cod.scaling) }

    ghost function State(): State
      reads this, cod
    {
      VoiceSession.State(vadFlag, hasVad, needAsr, dataOutput, awaked, canceled, cod.State(), events)
    }

    ghost predicate Valid()
      reads this, cod
    {
      cod.Valid() && Safe(State())
    }

    constructor (vadEnable: bool, scaling: int)
      ensures Valid() && fresh(cod) && Cfg() == Config(vadEnable, scaling) && State() == FRESH
    {
      this.vadEnable := vadEnable;
      cod := new MemCod(scaling);
      vadFlag, hasVad, needAsr, dataOutput, awaked, canceled := false, false, false, false, false, false;
      events := [];
    }

    method SendEvent(e: Event)
      modifies this`events
      ensures events == old(events) + [e]
    {
      events := events + [e];
    }

    method ResetAsrState()
      requires Valid()
      modifies this, cod
      ensures Valid() && State() == ResetAsr(Cfg(), old(State()))
    {
      vadFlag, awaked, canceled, needAsr, hasVad := false, false, false, false, false;
      cod.ResetBuffer();
      if dataOutput && !canceled {
        SendEvent(VadCancel);
      }
      if vadEnable {
        dataOutput := false;
      }
    }

    /** The loop over detection frames. */
    method CheckVoiceActivity(vad: seq<Detection>) returns (on: bool, off: bool, data: seq<real>)
      modifies this`hasVad
      ensures CheckVad(old(hasVad), vad) == Vad(on, off, data, hasVad)
    {
      on, off, data := false, false, [];
      var i := 0;
      while i < |vad|
        invariant i <= |vad| && !off
        invariant CheckVad(old(hasVad), vad[..i]) == Vad(on, false, data, hasVad)
      {
        CheckVadPrefix(old(hasVad), vad[i], vad[..i]);
        assert vad[..i + 1] == vad[..i] + [vad[i]];
        if !hasVad {
          if vad[i].started {
            on := true;
            hasVad := true;
          }
        } else if vad[i].stopped {
          off := true;
        }
        if hasVad {
          data := data + vad[i].samples;
          if off {
            hasVad := false;
            i := i + 1;
            CheckVadStops(old(hasVad), vad, i);
            break;
          }
        }
        i := i + 1;
      }
      assert vad[..|vad|] == vad;
    }

    /** The detector reports the start of voice. */
    method VadStarted(f: Frame, on: bool)
      requires Valid()
      modifies this, cod
      ensures Valid() && State() == VadOnStage(old(State()), f, on)
    {
      hide Awake;
      if on {
        vadFlag, awaked, canceled, dataOutput := true, false, false, false;
        cod.ResetBuffer();
        if Awake(f) {
          awaked, needAsr := true, true;
          SendEvent(VadComing);
          SendEvent(VtInfo);
        }
      }
    }

    method ReportWords(f: Frame)
      modifies this`events
      ensures events == old(events) + WordEvents(f)
    {
      if NoCmd(f) {
        if f.word == SleepWord { SendEvent(LocalSleep); }
        if f.word == AwakeWord { SendEvent(WakeNoCmd); }
        if f.word == HotWord { SendEvent(HotWordFound); }
      }
      if Cmd(f) {
        if f.word == AwakeWord { SendEvent(LocalWake); }
      }
    }

    method MaybeStart(f: Frame)
      requires Valid()
      modifies this, cod
      ensures Valid() && State() == StartStage(old(State()), f)
    {
      if !dataOutput {
        if Cmd(f) || NoCmd(f) {
          dataOutput := true;
          if Cmd(f) {
            SendEvent(VadStart);
          } else {
            canceled := true;
            cod.PauseBuffer();
          }
        } else if needAsr && !awaked {
          dataOutput := true;
          SendEvent(VadStart);
        }
      }
    }

    method MaybeCancel()
      requires Valid()
      modifies this, cod
      ensures Valid() && State() == CancelStage(Cfg(), old(State()))
    {
      if !canceled {
        if vadEnable && cod.TooLong() {
          canceled := true;
        }
        if !awaked && !needAsr {
          canceled := true;
        }
        if canceled {
          if !vadEnable {
            vadFlag, dataOutput := false, false;
          }
          cod.PauseBuffer();
          SendEvent(VadCancel);
        }
      }
    }

    method MaybeResume()
      requires Valid()
      modifies this, cod
      ensures Valid() && State() == ResumeStage(Cfg(), old(State()))
    {
      if vadEnable && canceled && awaked {
        if cod.NeedResume() {
          canceled := false;
          cod.ResumeBuffer();
          SendEvent(VadStart);
        }
      }
    }

    /** `getdatalen() > threshold`, in bytes, and then the event with the data. */
    method DeliverData(threshold: nat)
      requires Valid() && !canceled
      modifies this, cod
      ensures Valid() && State() == Deliver(Cfg(), old(State()), threshold)
    {
      hide Aligned, ProcessData, Out;
      EncodedOnce(cod.State());
      DeliverFollows(Cfg(), State(), threshold);
      var n := cod.GetDataLen();
      if 2 * n > threshold {
        var data := cod.GetData2();
        SendEvent(VadData(data));
      }
    }

    method OutputData(f: Frame, off: bool)
      requires Valid()
      modifies this, cod
      ensures Valid() && State() == DataStage(Cfg(), old(State()), f, off)
    {
      hide Deliver, Out, AwakePre, Send;
      if !canceled {
        DeliverKeepsCanceled(Cfg(), State(), 100);
        if !AwakePre(f) {
          DeliverData(100);
        }
        if off {
          DeliverData(0);
        }
      }
    }

    /** While voice is on: buffer the samples, then start, cancel, resume and deliver. */
    method Voice(f: Frame, off: bool, data: seq<real>, ghost vad: Vad)
      requires Valid() && vad.off == off && vad.samples == data
      modifies this, cod
      ensures Valid() && State() == VoiceStage(Cfg(), old(State()), f, vad)
    {
      hide StartStage, CancelStage, ResumeStage, DataStage, GainIsFixed, Gain, Pcm;
      if vadFlag {
        ProcessKeepsGain(cod.State(), data);
        cod.ProcessSamples(data);
        MaybeStart(f);
        if dataOutput {
          MaybeCancel();
          MaybeResume();
          OutputData(f, off);
        }
      }
    }

    method VadStopped(off: bool)
      requires Valid()
      modifies this
      ensures Valid() && State() == VadOffStage(Cfg(), old(State()), off)
    {
      if off {
        vadFlag := false;
        if vadEnable {
          needAsr := false;
        }
        if vadEnable && dataOutput && !canceled {
          SendEvent(VadEnd);
        }
        dataOutput := false;
      }
    }

    /** The recognisers' part of `processfrm`: the wake word's reset and the voice detection. */
    method Listen(f: Frame) returns (on: bool, off: bool, data: seq<real>)
      requires Valid()
      modifies this, cod
      ensures Valid() && VadOf(old(State()), f) == Vad(on, off, data, hasVad)
      ensures State() == WakeStage(Cfg(), old(State()), f).(hasVad := hasVad)
    {
      hide CheckVad, AwakePre, MemCod.Valid;
      if AwakePre(f) {
        ResetAsrState();
      }
      on, off, data := CheckVoiceActivity(f.vad);
    }

    /** `processfrm`. */
    method ProcessFrm(f: Frame)
      requires Valid()
      modifies this, cod
      ensures Valid() && State() == ProcessFrame(Cfg(), old(State()), f)
    {
      hide CheckVad, WordEvents, WakeStage, VadOnStage, VoiceStage, VadOffStage, AwakePre, MemCod.Valid, VadOf;
      var on, off, data := Listen(f);
      VadStarted(f, on);
      ReportWords(f);
      Voice(f, off, data, VadOf(old(State()), f));
      VadStopped(off);
    }

    /** `control`. */
    method ControlAction(action: Action) returns (r: int)
      requires Valid()
      modifies this
      ensures Valid() && State() == ApplyControl(old(State()), action)
      ensures r == if action.OtherAction? then -1 else 0
    {
      match action {
        case SetAwake =>
          needAsr := true;
        case SetSleep =>
          awaked, needAsr := false, false;
        case OtherAction =>
          return -1;
      }
      r := 0;
    }
  }
}
