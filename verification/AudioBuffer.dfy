/**
  * `r2mem_cod`: the buffer between voice detection and the application. Samples go in as numbers, come out as
  * 16-bit PCM in frames of 320, with one gain for the whole utterance. Floating point is modelled by reals.
  */
module AudioBuffer {

  const FRAME := 320               // m_iLen_Frm_Cod: 16000 / 1000 * 10 * 2
  const WINDOW := 960              // m_iLen_Am
  const TOO_LONG := 96000          // m_iShield_TooLong
  const RESUME_AFTER := 8000       // m_iShield_Resume

  function Abs(x: real): real { if x < 0.0 then -x else x }

  /** The sum of |x| over s[lo..hi]. */
  function Loudness(s: seq<real>, lo: nat, hi: nat): (r: real)
    requires lo <= hi <= |s|
    ensures r >= 0.0
    decreases hi - lo
  {
    if lo == hi then 0.0 else Loudness(s, lo, hi - 1) + Abs(s[hi - 1])
  }

  lemma {:induction false} LoudnessWithoutFirst(s: seq<real>, lo: nat, hi: nat)
    requires lo < hi <= |s|
    ensures Loudness(s, lo, hi) == Abs(s[lo]) + Loudness(s, lo + 1, hi)
    decreases hi - lo
  {
    if lo + 1 < hi {
      LoudnessWithoutFirst(s, lo, hi - 1);
    }
  }

  /** The loudest full window that ends at sample WINDOW or later, up to sample `n`. */
  function LoudestWindow(s: seq<real>, n: nat): (r: real)
    requires n <= |s|
    ensures r >= 0.0
  {
    if n <= WINDOW then 0.0
    else
      var before := LoudestWindow(s, n - 1);
      var last := Loudness(s, n - WINDOW, n);
      if last > before then last else before
  }

  /** The mean level the gain is derived from. */
  function Level(s: seq<real>): real
    requires s != []
  {
    if WINDOW > |s| then Loudness(s, 0, |s|) / |s| as real
    else LoudestWindow(s, |s|) / WINDOW as real
  }

  function Gain(s: seq<real>): (g: real)
    requires s != []
    ensures 0.0 < g <= 1.0
  {
    if Level(s) > 0.3 then
      QuotientAtMostOne(Level(s));
      0.3 / Level(s)
    else 1.0
  }

  lemma QuotientAtMostOne(level: real)
    requires level > 0.3
    ensures 0.0 < 0.3 / level <= 1.0
  {
    var q := 0.3 / level;
    assert q * level == 0.3;
    assert (q - 1.0) * level < 0.0;
  }

  /** After scaling by the gain the level is at most 0.3: loud speech is turned down, the rest left alone. */
  lemma GainNormalises(s: seq<real>)
    requires s != []
    ensures Level(s) * Gain(s) <= 0.3
    ensures if Level(s) > 0.3 then Level(s) * Gain(s) == 0.3 else Gain(s) == 1.0
  {
    if Level(s) > 0.3 {
      assert 0.3 / Level(s) * Level(s) == 0.3;
    }
  }

  lemma {:induction false} WindowIsNoLouder(s: seq<real>, n: nat, i: nat)
    requires WINDOW < i <= n <= |s|
    ensures Loudness(s, i - WINDOW, i) <= LoudestWindow(s, n)
    decreases n
  {
    if i < n {
      WindowIsNoLouder(s, n - 1, i);
    }
  }

  /** The loudest window is one of them, unless all are silent. */
  lemma {:induction false} LoudestIsAWindow(s: seq<real>, n: nat) returns (i: nat)
    requires n <= |s| && LoudestWindow(s, n) > 0.0
    ensures WINDOW < i <= n && Loudness(s, i - WINDOW, i) == LoudestWindow(s, n)
  {
    if LoudestWindow(s, n) == LoudestWindow(s, n - 1) {
      i := LoudestIsAWindow(s, n - 1);
    } else {
      i := n;
    }
  }

  /** Less than 960 samples: their mean. From there on: the mean of the loudest window. */
  lemma LevelIsAMean(s: seq<real>)
    requires s != []
    ensures |s| < 960 ==> Level(s) * |s| as real == Loudness(s, 0, |s|)
    ensures |s| >= 960 ==> Level(s) * 960.0 == LoudestWindow(s, |s|)
  {
    hide Loudness, LoudestWindow;
  }

  function Scaled(s: seq<real>, gain: real): (r: seq<real>)
    ensures |r| == |s|
  {
    seq(|s|, i requires 0 <= i < |s| => Scale(s[i], gain))
  }

  lemma AbsOfScaled(x: real, gain: real)
    requires gain > 0.0
    ensures Abs(Scale(x, gain)) == Scale(Abs(x), gain)
  {
    if x < 0.0 {
      assert x * gain < 0.0;
    } else {
      assert x * gain >= 0.0;
    }
  }

  lemma {:induction false} LoudnessOfScaled(s: seq<real>, gain: real, lo: nat, hi: nat)
    requires gain > 0.0 && lo <= hi <= |s|
    ensures Loudness(Scaled(s, gain), lo, hi) == Scale(Loudness(s, lo, hi), gain)
    decreases hi - lo
  {
    hide Abs, Scale;
    if lo == hi {
      ScaleZero(gain);
    } else {
      LoudnessOfScaled(s, gain, lo, hi - 1);
      AbsOfScaled(s[hi - 1], gain);
      ScaleSum(Loudness(s, lo, hi - 1), Abs(s[hi - 1]), gain);
    }
  }

  lemma ScaleZero(gain: real)
    ensures Scale(0.0, gain) == 0.0
  {
  }

  lemma ScaleSum(x: real, y: real, gain: real)
    ensures Scale(x + y, gain) == Scale(x, gain) + Scale(y, gain)
  {
  }

  /** The full window that ends at sample `i` has a mean of at most 0.3. */
  predicate NormalWindow(s: seq<real>, i: nat)
    requires WINDOW <= i <= |s|
  {
    Loudness(s, i - WINDOW, i) <= 0.3 * WINDOW as real
  }

  predicate Normal(s: seq<real>) {
    forall i: nat | WINDOW <= i <= |s| :: NormalWindow(s, i)
  }

  /** The window is quiet, or no louder than the level that is turned down to 0.3. */
  predicate NoLouder(s: seq<real>, level: real, i: nat)
    requires WINDOW <= i <= |s|
  {
    Loudness(s, i - WINDOW, i) <= 0.3 * WINDOW as real || Loudness(s, i - WINDOW, i) <= level * WINDOW as real
  }

  lemma ScaledWindow(w: real, level: real)
    requires w >= 0.0
    ensures var gain := if level > 0.3 then 0.3 / level else 1.0;
            Scale(w, gain) <= 0.3 * WINDOW as real <==> w <= 0.3 * WINDOW as real || w <= level * WINDOW as real
  {
    if level > 0.3 {
      var gain := 0.3 / level;
      QuotientAtMostOne(level);
      assert gain * level == 0.3;
      var l := level * WINDOW as real;
      assert l * gain == 0.3 * WINDOW as real;
      if w <= l {
        assert (l - w) * gain >= 0.0;
      } else {
        assert (w - l) * gain > 0.0;
      }
    }
  }

  /** A window of `s` under the gain that was derived from other samples `p`. */
  lemma WindowUnderGain(s: seq<real>, p: seq<real>, i: nat)
    requires p != [] && WINDOW <= i <= |s|
    ensures NormalWindow(Scaled(s, Gain(p)), i) <==> NoLouder(s, Level(p), i)
  {
    hide Loudness, Level, Scaled, Scale;
    LoudnessOfScaled(s, Gain(p), i - WINDOW, i);
    ScaledWindow(Loudness(s, i - WINDOW, i), Level(p));
  }

  /**
    * The gain is fixed once, with the samples `p` that are there when encoding begins. Every full window of what is
    * scaled with it has a mean of at most 0.3 if and only if each is quiet by itself or no louder than the level
    * of `p`.
    */
  lemma AllWindowsNormal(s: seq<real>, p: seq<real>)
    requires p != []
    ensures Normal(Scaled(s, Gain(p))) <==> forall i: nat | WINDOW <= i <= |s| :: NoLouder(s, Level(p), i)
  {
    hide Loudness, Gain, Level, Scaled, NoLouder, NormalWindow;
    forall i: nat | WINDOW <= i <= |s| ensures NormalWindow(Scaled(s, Gain(p)), i) <==> NoLouder(s, Level(p), i) {
      WindowUnderGain(s, p, i);
    }
  }

  lemma LoudnessOfPrefix(s: seq<real>, p: seq<real>, lo: nat, hi: nat)
    requires p <= s && lo <= hi <= |p|
    ensures Loudness(p, lo, hi) == Loudness(s, lo, hi)
    decreases hi - lo
  {
    if lo < hi {
      LoudnessOfPrefix(s, p, lo, hi - 1);
    }
  }

  /** What the source looks at: the windows that end in `p` and behind its first one are always turned down to 0.3. */
  lemma LaterWindowIsNormal(s: seq<real>, p: seq<real>, i: nat)
    requires p <= s && WINDOW < i <= |p|
    ensures NormalWindow(Scaled(s, Gain(p)), i)
  {
    hide Loudness, LoudestWindow, Gain, Scaled, Scale;
    WindowIsNoLouder(p, |p|, i);
    LoudnessOfPrefix(s, p, i - WINDOW, i);
    assert LoudestWindow(p, |p|) / WINDOW as real * WINDOW as real == LoudestWindow(p, |p|);
    WindowUnderGain(s, p, i);
  }

  /**
    * The first full window does not take part in the gain. Of the samples that are there when the gain is fixed, all
    * windows are turned down to 0.3 if and only if that one happens to be quiet enough after scaling.
    */
  lemma FirstWindowDecides(p: seq<real>)
    requires |p| >= WINDOW
    ensures Normal(Scaled(p, Gain(p))) <==> Loudness(p, 0, WINDOW) * Gain(p) <= 0.3 * WINDOW as real
  {
    hide Loudness, Gain, Scaled;
    var r := Scaled(p, Gain(p));
    LoudnessOfScaled(p, Gain(p), 0, WINDOW);
    assert NormalWindow(r, WINDOW) <==> Loudness(p, 0, WINDOW) * Gain(p) <= 0.3 * WINDOW as real;
    forall i: nat | WINDOW < i <= |p| ensures NormalWindow(r, i) {
      LaterWindowIsNormal(p, p, i);
    }
  }

  lemma {:induction false} LoudnessOfConstant(s: seq<real>, x: real, lo: nat, hi: nat)
    requires lo <= hi <= |s| && forall k | lo <= k < hi :: s[k] == x
    ensures Loudness(s, lo, hi) == (if x < 0.0 then -x else x) * (hi - lo) as real
    decreases hi - lo
  {
    if lo < hi {
      LoudnessOfConstant(s, x, lo, hi - 1);
      var a := if x < 0.0 then -x else x;
      assert a * (hi - lo) as real == a * (hi - 1 - lo) as real + a;
    }
  }

  lemma {:induction false} SilentWindows(s: seq<real>, n: nat)
    requires n <= |s| && forall k | 0 <= k < n :: s[k] == 0.0
    ensures LoudestWindow(s, n) == 0.0
  {
    if n > WINDOW {
      LoudnessOfConstant(s, 0.0, n - WINDOW, n);
      SilentWindows(s, n - 1);
    }
  }

  /** Silence of a window or more fixes the gain at one, and then a window of 0.9 is delivered as it is. */
  lemma LoudAfterSilence(s: seq<real>, m: nat, n: nat)
    requires WINDOW <= m && m + WINDOW <= n <= |s|
    requires (forall k | 0 <= k < m :: s[k] == 0.0) && (forall k | m <= k < |s| :: s[k] == 0.9)
    ensures Gain(s[..m]) == 1.0 && !Normal(Scaled(s[..n], Gain(s[..m])))
  {
    hide Gain, Normal, Scaled, LoudestWindow;
    SilentWindows(s[..m], m);
    GainOfSilence(s[..m]);
    LoudnessOfConstant(s[..n], 0.9, m, m + WINDOW);
    AllWindowsNormal(s[..n], s[..m]);
    assert !NoLouder(s[..n], 0.0, m + WINDOW);
  }

  lemma GainOfSilence(p: seq<real>)
    requires |p| >= WINDOW && LoudestWindow(p, |p|) == 0.0
    ensures Gain(p) == 1.0 && Level(p) == 0.0
  {
  }

  /** A window of constant 0.9 is left as loud as it is. */
  lemma LoudFirstWindow()
    ensures var s := seq(WINDOW, _ => 0.9);
            Gain(s) == 1.0 && Loudness(s, 0, WINDOW) == 864.0 && !Normal(Scaled(s, Gain(s)))
  {
    var s := seq(WINDOW, _ => 0.9);
    LoudnessOfConstant(s, 0.9, 0, WINDOW);
    FirstWindowDecides(s);
  }

  /** The gain loop for less than a window of samples. */
  method TotalLoudness(s: seq<real>) returns (total: real)
    ensures total == Loudness(s, 0, |s|)
  {
    total := 0.0;
    for i := 0 to |s|
      invariant total == Loudness(s, 0, i)
    {
      total := total + Abs(s[i]);
    }
  }

  /** The gain loop with a sliding window. */
  method PeakLoudness(s: seq<real>) returns (totalMax: real)
    ensures totalMax == LoudestWindow(s, |s|)
  {
    hide Abs;
    var total := 0.0;
    totalMax := 0.0;
    for i := 0 to |s|
      invariant total == Loudness(s, if i < WINDOW then 0 else i - WINDOW, i)
      invariant totalMax == LoudestWindow(s, i)
    {
      if i < WINDOW {
        total := total + Abs(s[i]);
      } else {
        LoudnessWithoutFirst(s, i - WINDOW, i + 1);
        total := total + Abs(s[i]) - Abs(s[i - WINDOW]);
        if total > totalMax {
          totalMax := total;
        }
      }
    }
  }

  /** The amplitude normalisation of `processdata`. */
  method ComputeGain(s: seq<real>) returns (gain: real)
    requires s != []
    ensures gain == Gain(s)
  {
    hide Loudness, LoudestWindow;
    var level;
    if WINDOW > |s| {
      var total := TotalLoudness(s);
      level := total / |s| as real;
    } else {
      var totalMax := PeakLoudness(s);
      level := totalMax / WINDOW as real;
    }
    if level > 0.3 {
      gain := 0.3 / level;
    } else {
      gain := 1.0;
    }
  }

  // ----- the buffer as a value

  /**
    * `raw`: the samples since the last reset; `cod`: how many of them are encoded; `gain`: the factor they were
    * encoded with; `fixedAt`: how many samples there were when it was computed; `cur`: how many encoded samples were
    * handed out.
    */
  datatype Cod = Cod(raw: seq<real>, cod: nat, gain: real, fixedAt: nat, cur: nat, paused: bool, pauseAt: nat)

  const EMPTY := Cod([], 0, 1.0, 0, 0, false, 0)

  predicate ValidCod(c: Cod) { c.cur <= c.cod <= |c.raw| }

  /** C truncation of a scaled sample to an integer. */
  function ToPcm(x: real, scaling: int): int {
    var y := x * scaling as real;
    if y >= 0.0 then y.Floor else -(-y).Floor
  }

  function Scale(x: real, gain: real): real { x * gain }

  /** The encoded form of samples: each one scaled by the same gain. */
  function Pcm(s: seq<real>, gain: real, scaling: int): (r: seq<int>)
    ensures |r| == |s|
  {
    if s == [] then [] else Pcm(s[..|s| - 1], gain, scaling) + [ToPcm(Scale(s[|s| - 1], gain), scaling)]
  }

  lemma PcmOneMore(s: seq<real>, x: real, gain: real, scaling: int)
    ensures Pcm(s + [x], gain, scaling) == Pcm(s, gain, scaling) + [ToPcm(Scale(x, gain), scaling)]
  {
    hide ToPcm, Scale;
    assert (s + [x])[..|s|] == s;
  }

  lemma {:induction false} PcmOfPrefix(s: seq<real>, n: nat, gain: real, scaling: int)
    requires n <= |s|
    ensures Pcm(s[..n], gain, scaling) == Pcm(s, gain, scaling)[..n]
    decreases |s|
  {
    hide ToPcm;
    if n < |s| {
      PcmOfPrefix(s[..|s| - 1], n, gain, scaling);
      assert s[..|s| - 1][..n] == s[..n];
    } else {
      assert s[..n] == s;
    }
  }

  /** Each encoded sample is the raw one, scaled. */
  lemma {:induction false} PcmAt(s: seq<real>, gain: real, scaling: int, k: nat)
    requires k < |s|
    ensures Pcm(s, gain, scaling)[k] == ToPcm(Scale(s[k], gain), scaling)
    decreases |s|
  {
    hide ToPcm, Scale;
    if k < |s| - 1 {
      PcmAt(s[..|s| - 1], gain, scaling, k);
    }
  }

  /** The conversion truncates towards zero. */
  lemma PcmTruncates(s: seq<real>, gain: real, scaling: int, k: nat)
    requires k < |s|
    ensures var exact, r := s[k] * gain * scaling as real, Pcm(s, gain, scaling)[k];
            if exact >= 0.0 then r >= 0 && r as real <= exact < r as real + 1.0
            else r <= 0 && r as real - 1.0 < exact <= r as real
  {
    hide Pcm;
    PcmAt(s, gain, scaling, k);
  }

  function Out(c: Cod, scaling: int): (r: seq<int>)
    requires ValidCod(c)
    ensures |r| == c.cod
  {
    Pcm(c.raw[..c.cod], c.gain, scaling)
  }

  function Reset(c: Cod): Cod { c.(raw := [], cod := 0, fixedAt := 0, cur := 0, paused := false) }
  function Pause(c: Cod): Cod { c.(cur := 0, paused := true, pauseAt := |c.raw|) }
  function Resume(c: Cod): Cod { c.(paused := false) }
  function Process(c: Cod, samples: seq<real>): Cod {
    c.(raw := c.raw + seq(|samples|, i requires 0 <= i < |samples| => samples[i] / 32768.0))
  }

  /** Whole frames are encoded as long as more than a frame is waiting. */
  function Advance(cod: nat, n: nat): (r: nat)
    requires cod <= n
    ensures cod <= r <= n && n <= r + FRAME
    ensures r > cod ==> r < n
    decreases n - cod
  {
    if cod + FRAME < n then Advance(cod + FRAME, n) else cod
  }

  /** Encoding stops at a frame boundary, always short of the end. */
  predicate Aligned(c: Cod) {
    c.cod % FRAME == 0 && (c.raw != [] ==> c.cod < |c.raw|)
  }

  /** What stays unencoded of `n` samples: never nothing, at most a frame. */
  function Tail(n: nat): nat { if n == 0 then 0 else (n - 1) % FRAME + 1 }

  lemma {:induction false} AdvanceExactly(cod: nat, n: nat)
    requires cod % FRAME == 0 && (n > 0 ==> cod < n) && cod <= n
    ensures Advance(cod, n) % FRAME == 0 && n - Advance(cod, n) == Tail(n)
    decreases n - cod
  {
    if cod + FRAME < n {
      AdvanceExactly(cod + FRAME, n);
    } else if n > 0 {
      assert (n - 1) % FRAME == n - 1 - cod;
    }
  }

  function ProcessData(c: Cod): Cod
    requires ValidCod(c)
  {
    var first := c.cod == 0 && FRAME < |c.raw|;
    c.(gain := if first then Gain(c.raw) else c.gain, fixedAt := if first then |c.raw| else c.fixedAt,
       cod := Advance(c.cod, |c.raw|))
  }

  /** As soon as anything is encoded, the gain is that of the samples which were there when encoding began. */
  predicate GainIsFixed(c: Cod) {
    if c.cod == 0 then c.fixedAt == 0
    else FRAME < c.fixedAt <= |c.raw| && c.gain == Gain(c.raw[..c.fixedAt])
  }

  function FixedAfter(fixedAt: nat, n: nat): nat { if fixedAt == 0 && FRAME < n then n else fixedAt }

  /** Encoding fixes the gain with the first frame, and never again. */
  lemma EncodingFixesGain(c: Cod)
    requires ValidCod(c) && GainIsFixed(c)
    ensures var d := ProcessData(c);
            && GainIsFixed(d) && d.fixedAt == FixedAfter(c.fixedAt, |c.raw|)
            && (c.fixedAt > 0 ==> d.gain == c.gain)
  {
    hide Gain;
    assert c.raw[..|c.raw|] == c.raw;
  }

  lemma ProcessKeepsGain(c: Cod, samples: seq<real>)
    requires GainIsFixed(c)
    ensures GainIsFixed(Process(c, samples)) && Process(c, samples).fixedAt == c.fixedAt
  {
    hide Gain;
    if c.cod > 0 {
      assert Process(c, samples).raw[..c.fixedAt] == c.raw[..c.fixedAt];
    }
  }

  /** What has been encoded is normal if and only if none of its windows is louder than what fixed the gain. */
  lemma EncodedIsNormal(c: Cod)
    requires ValidCod(c) && GainIsFixed(c) && c.cod > 0
    ensures var r, level := c.raw[..c.cod], Level(c.raw[..c.fixedAt]);
            Normal(Scaled(r, c.gain)) <==> forall i: nat | WINDOW <= i <= |r| :: NoLouder(r, level, i)
  {
    hide Normal, NoLouder, Gain, Level, Scaled;
    AllWindowsNormal(c.raw[..c.cod], c.raw[..c.fixedAt]);
  }

  lemma EncodingAligns(c: Cod)
    requires ValidCod(c) && Aligned(c)
    ensures var d := ProcessData(c); Aligned(d) && |d.raw| - d.cod == Tail(|d.raw|)
  {
    AdvanceExactly(c.cod, |c.raw|);
  }

  function Left(c: Cod): nat
    requires ValidCod(c)
  {
    c.cod - c.cur
  }

  function IsTooLong(c: Cod): bool { |c.raw| > TOO_LONG }
  function IsNeedResume(c: Cod): bool { c.paused && |c.raw| < TOO_LONG && |c.raw| - c.pauseAt > RESUME_AFTER }

  /** Encoding more never changes what was encoded before. */
  lemma OutOnlyGrows(c: Cod, scaling: int)
    requires ValidCod(c)
    ensures ValidCod(ProcessData(c)) && Out(c, scaling) <= Out(ProcessData(c), scaling)
  {
    hide Pcm;
    var d := ProcessData(c);
    if c.cod > 0 {
      PcmOfPrefix(d.raw[..d.cod], c.cod, d.gain, scaling);
      assert d.raw[..d.cod][..c.cod] == c.raw[..c.cod];
    } else {
      assert Out(c, scaling) == [];
    }
  }

  // ----- the buffer as the object it is

  class MemCod {
    const scaling: int
    var dataIn: seq<real>        // m_pData_In: encoded samples are scaled in place
    var iLenCod: nat
    var dataOut: seq<int>        // m_pData_Out, in samples of two bytes
    var iLenOutCur: nat
    var bPaused: bool
    var iLenPause: nat
    var shieldAm: real
    ghost var raw: seq<real>     // the samples before scaling
    ghost var fixedAt: nat       // how many of them there were when the gain was computed

    ghost function State(): Cod
      reads this
    {
      Cod(raw, iLenCod, shieldAm, fixedAt, iLenOutCur, bPaused, iLenPause)
    }

    ghost predicate Valid()
      reads this
    {
      && ValidCod(State())
      && 0.0 < shieldAm <= 1.0
      && |dataIn| == |raw|
      && (forall k | 0 <= k < iLenCod :: dataIn[k] == Scale(raw[k], shieldAm))
      && (forall k | iLenCod <= k < |raw| :: dataIn[k] == raw[k])
      && dataOut == Out(State(), scaling)
    }

    constructor (scaling: int)
      ensures Valid() && this.scaling == scaling && State() == EMPTY
    {
      this.scaling := scaling;
      dataIn, iLenCod, dataOut, iLenOutCur, bPaused, iLenPause, shieldAm := [], 0, [], 0, false, 0, 1.0;
      raw, fixedAt := [], 0;
    }

    method ResetBuffer()
      requires Valid()
      modifies this
      ensures Valid() && State() == Reset(old(State()))
    {
      dataIn, iLenCod, dataOut, iLenOutCur, bPaused := [], 0, [], 0, false;
      raw, fixedAt := [], 0;
    }

    method PauseBuffer()
      requires Valid()
      modifies this
      ensures Valid() && State() == Pause(old(State()))
    {
      iLenOutCur, bPaused, iLenPause := 0, true, |dataIn|;
    }

    /** The source asserts that the buffer is paused. */
    method ResumeBuffer()
      requires Valid() && bPaused
      modifies this
      ensures Valid() && State() == Resume(old(State()))
    {
      bPaused := false;
    }

    method ProcessSamples(samples: seq<real>)
      requires Valid()
      modifies this
      ensures Valid() && State() == Process(old(State()), samples)
    {
      hide Pcm;
      ghost var all := Process(State(), samples).raw;
      ghost var before := |raw|;
      for i := 0 to |samples|
        invariant raw == all[..before + i]
        invariant State() == old(State()).(raw := raw) && Valid()
      {
        ghost var encoded := raw[..iLenCod];
        dataIn := dataIn + [samples[i] / 32768.0];
        raw := raw + [samples[i] / 32768.0];
        assert raw[..iLenCod] == encoded;
      }
      assert all[..before + |samples|] == all;
    }

    /** The scaling loop: one frame is multiplied by the gain where it lies. */
    method ScaleFrame()
      requires iLenCod + FRAME < |dataIn|
      modifies this`dataIn
      ensures |dataIn| == |old(dataIn)|
      ensures forall k | 0 <= k < |dataIn| ::
                dataIn[k] == if iLenCod <= k < iLenCod + FRAME then Scale(old(dataIn[k]), shieldAm) else old(dataIn[k])
    {
      for i := 0 to FRAME
        invariant |dataIn| == |old(dataIn)|
        invariant forall k | 0 <= k < |dataIn| ::
                    dataIn[k] == if iLenCod <= k < iLenCod + i then Scale(old(dataIn[k]), shieldAm) else old(dataIn[k])
      {
        dataIn := dataIn[iLenCod + i := Scale(dataIn[iLenCod + i], shieldAm)];
      }
    }

    /** The conversion loop: one frame of scaled samples becomes PCM. */
    method ConvertFrame()
      requires iLenCod + FRAME < |dataIn| == |raw| && dataOut == Pcm(raw[..iLenCod], shieldAm, scaling)
      requires forall k | iLenCod <= k < iLenCod + FRAME :: dataIn[k] == Scale(raw[k], shieldAm)
      modifies this`dataOut
      ensures dataOut == Pcm(raw[..iLenCod + FRAME], shieldAm, scaling)
    {
      hide ToPcm, Scale;
      for i := 0 to FRAME
        invariant dataOut == Pcm(raw[..iLenCod + i], shieldAm, scaling)
      {
        var k := iLenCod + i;
        dataOut := dataOut + [ToPcm(dataIn[k], scaling)];
        PcmOneMore(raw[..k], raw[k], shieldAm, scaling);
        assert raw[..k + 1] == raw[..k] + [raw[k]];
      }
    }

    /** One frame of the encoding loop. */
    method EncodeFrame()
      requires Valid() && iLenCod + FRAME < |dataIn|
      modifies this
      ensures Valid() && State() == old(State()).(cod := old(iLenCod) + FRAME)
    {
      hide Pcm;
      if shieldAm < 1.0 {
        ScaleFrame();
      }
      ConvertFrame();
      iLenCod := iLenCod + FRAME;
    }

    /** `processdata`; the source asserts that the buffer is not paused. */
    method Encode()
      requires Valid() && !bPaused
      modifies this
      ensures Valid() && State() == ProcessData(old(State()))
    {
      if iLenCod == 0 && FRAME < |dataIn| {
        assert dataIn == raw;
        shieldAm := ComputeGain(dataIn);
        fixedAt := |raw|;
      }
      ghost var goal := Advance(iLenCod, |raw|);
      while iLenCod + FRAME < |dataIn|
        invariant Valid() && State() == old(State()).(cod := iLenCod, gain := shieldAm, fixedAt := fixedAt)
        invariant shieldAm == ProcessData(old(State())).gain && fixedAt == ProcessData(old(State())).fixedAt
        invariant iLenCod <= |raw| && Advance(iLenCod, |raw|) == goal
        decreases |dataIn| - iLenCod
      {
        EncodeFrame();
      }
    }

    predicate TooLong()
      requires Valid()
      reads this
      ensures TooLong() == IsTooLong(State())
    {
      |dataIn| > TOO_LONG
    }

    predicate NeedResume()
      requires Valid()
      reads this
      ensures NeedResume() == IsNeedResume(State())
    {
      bPaused && |dataIn| < TOO_LONG && |dataIn| - iLenPause > RESUME_AFTER
    }

    /** `getdatalen`, in samples. */
    method GetDataLen() returns (n: nat)
      requires Valid() && !bPaused
      modifies this
      ensures Valid() && State() == ProcessData(old(State())) && n == Left(State())
    {
      Encode();
      n := |dataOut| - iLenOutCur;
    }

    /** `getdata2`: everything encoded and not handed out yet. */
    method GetData2() returns (data: seq<int>)
      requires Valid() && !bPaused
      modifies this
      ensures Valid()
      ensures var c := ProcessData(old(State()));
              State() == c.(cur := c.cod) && data == Out(c, scaling)[c.cur..]
    {
      hide Pcm;
      Encode();
      data := dataOut[iLenOutCur..];
      iLenOutCur := |dataOut|;
    }
  }
}
