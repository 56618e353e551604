/** `AES_wrap_key` and `AES_unwrap_key` (section 2.2 of RFC 3394), over any block cipher and its inverse. */
module KeyWrap {
  import opened Bytes

  type Half = s: seq<byte> | |s| == 8 witness [0, 0, 0, 0, 0, 0, 0, 0]
  type Block = s: seq<byte> | |s| == 16 witness [0, 0, 0, 0, 0, 0, 0, 0, 0, 0, 0, 0, 0, 0, 0, 0]
  type Cipher = Block -> Block

  ghost predicate Inverse(e: Cipher, d: Cipher) {
    forall b: Block :: d(e(b)) == b && e(d(b)) == b
  }

  const DEFAULT_IV: Half := [0xA6, 0xA6, 0xA6, 0xA6, 0xA6, 0xA6, 0xA6, 0xA6]

  /** The `iv` argument, which may be a null pointer. */
  datatype IvArgument = Null | Given(value: Half)

  function IvOf(iv: IvArgument): Half { if iv.Given? then iv.value else DEFAULT_IV }

  function XorAll(a: seq<byte>, b: seq<byte>): (r: seq<byte>)
    requires |a| == |b|
    ensures |r| == |a|
  {
    if a == [] then [] else XorAll(a[..|a| - 1], b[..|b| - 1]) + [Xor(a[|a| - 1], b[|b| - 1])]
  }

  /** A with the step counter, as a 64-bit number, added in. */
  function WithCounter(a: Half, t: nat): Half { XorAll(a, ToBigEndian(t, 8)) }

  lemma {:induction false} XorAllCancels(a: seq<byte>, b: seq<byte>)
    requires |a| == |b|
    ensures XorAll(XorAll(a, b), b) == a
  {
    hide Xor;
    if a != [] {
      XorAllCancels(a[..|a| - 1], b[..|b| - 1]);
      XorCancels(a[|a| - 1], b[|b| - 1]);
    }
  }

  // ----- the indexed form

  /** The integrity register and the data blocks, back to back. */
  datatype State = State(a: Half, r: seq<byte>)

  predicate Blocks(r: seq<byte>, n: nat) { |r| == 8 * n }

  function StepAt(e: Cipher, s: State, i: nat, t: nat): (s': State)
    requires 8 * i + 8 <= |s.r|
    ensures |s'.r| == |s.r|
  {
    var b := e(s.a + s.r[8 * i..8 * i + 8]);
    State(WithCounter(b[..8], t), s.r[..8 * i] + b[8..] + s.r[8 * i + 8..])
  }

  function UndoAt(d: Cipher, s: State, i: nat, t: nat): (s': State)
    requires 8 * i + 8 <= |s.r|
    ensures |s'.r| == |s.r|
  {
    var b := d(WithCounter(s.a, t) + s.r[8 * i..8 * i + 8]);
    State(b[..8], s.r[..8 * i] + b[8..] + s.r[8 * i + 8..])
  }

  /** The state after `j` rounds over all blocks and `i` more steps. */
  function After(e: Cipher, s: State, n: nat, j: nat, i: nat): (s': State)
    requires Blocks(s.r, n) && i <= n
    ensures Blocks(s'.r, n)
    decreases j, i
  {
    if i > 0 then StepAt(e, After(e, s, n, j, i - 1), i - 1, n * j + i)
    else if j > 0 then After(e, s, n, j - 1, n)
    else s
  }

  /** Undoing, from the end of the sixth round, everything later than step `i` of round `j`. */
  function Before(d: Cipher, s: State, n: nat, j: nat, i: nat): (s': State)
    requires Blocks(s.r, n) && j <= 5 && i <= n
    ensures Blocks(s'.r, n)
    decreases 5 - j, n - i
  {
    if i < n then UndoAt(d, Before(d, s, n, j, i + 1), i, n * j + i + 1)
    else if j < 5 then Before(d, s, n, j + 1, 0)
    else s
  }

  /** The result of wrapping `n` blocks. */
  function Wrapped(e: Cipher, iv: Half, data: seq<byte>, n: nat): (c: seq<byte>)
    requires Blocks(data, n)
    ensures Blocks(c, n + 1)
  {
    var s := After(e, State(iv, data), n, 5, n);
    s.a + s.r
  }

  datatype Unwrap = BadIv | Data(data: seq<byte>)

  function Unwrapped(d: Cipher, iv: Half, c: seq<byte>, n: nat): (u: Unwrap)
    requires Blocks(c, n + 1)
    ensures u.Data? ==> Blocks(u.data, n)
  {
    var s := Before(d, State(c[..8], c[8..]), n, 0, 0);
    if s.a == iv then Data(s.r) else BadIv
  }

  // ----- the two directions undo each other

  lemma StepThenUndo(e: Cipher, d: Cipher, s: State, i: nat, t: nat)
    requires Inverse(e, d) && 8 * i + 8 <= |s.r|
    ensures UndoAt(d, StepAt(e, s, i, t), i, t) == s
  {
    hide WithCounter;
    var input: Block := s.a + s.r[8 * i..8 * i + 8];
    var b := e(input);
    CounterCancels(b[..8], t);
    var s1 := StepAt(e, s, i, t);
    assert s1.r[8 * i..8 * i + 8] == b[8..];
    assert b[..8] + b[8..] == b;
    assert d(b) == input;
    assert input[..8] == s.a && input[8..] == s.r[8 * i..8 * i + 8];
    assert s1.r[..8 * i] == s.r[..8 * i] && s1.r[8 * i + 8..] == s.r[8 * i + 8..];
    assert s.r == s.r[..8 * i] + s.r[8 * i..8 * i + 8] + s.r[8 * i + 8..];
  }

  lemma UndoThenStep(e: Cipher, d: Cipher, s: State, i: nat, t: nat)
    requires Inverse(e, d) && 8 * i + 8 <= |s.r|
    ensures StepAt(e, UndoAt(d, s, i, t), i, t) == s
  {
    hide WithCounter;
    var input: Block := WithCounter(s.a, t) + s.r[8 * i..8 * i + 8];
    var b := d(input);
    CounterCancels(s.a, t);
    var s1 := UndoAt(d, s, i, t);
    assert s1.r[8 * i..8 * i + 8] == b[8..];
    assert b[..8] + b[8..] == b;
    assert e(b) == input;
    assert input[..8] == WithCounter(s.a, t) && input[8..] == s.r[8 * i..8 * i + 8];
    assert s1.r[..8 * i] == s.r[..8 * i] && s1.r[8 * i + 8..] == s.r[8 * i + 8..];
    assert s.r == s.r[..8 * i] + s.r[8 * i..8 * i + 8] + s.r[8 * i + 8..];
  }

  lemma CounterCancels(a: Half, t: nat)
    ensures WithCounter(WithCounter(a, t), t) == a
  {
    XorAllCancels(a, ToBigEndian(t, 8));
  }

  lemma {:induction false} BeforeUndoesAfter(e: Cipher, d: Cipher, s: State, n: nat, j: nat, i: nat)
    requires Inverse(e, d) && Blocks(s.r, n) && j <= 5 && i <= n
    ensures Before(d, After(e, s, n, 5, n), n, j, i) == After(e, s, n, j, i)
    decreases 5 - j, n - i
  {
    hide StepAt, UndoAt;
    if i < n {
      BeforeUndoesAfter(e, d, s, n, j, i + 1);
      StepThenUndo(e, d, After(e, s, n, j, i), i, n * j + i + 1);
    } else if j < 5 {
      BeforeUndoesAfter(e, d, s, n, j + 1, 0);
    }
  }

  lemma {:induction false} AfterRedoesBefore(e: Cipher, d: Cipher, s: State, n: nat, j: nat, i: nat)
    requires Inverse(e, d) && Blocks(s.r, n) && j <= 5 && i <= n
    ensures After(e, Before(d, s, n, 0, 0), n, j, i) == Before(d, s, n, j, i)
    decreases j, i
  {
    hide StepAt, UndoAt;
    if i > 0 {
      AfterRedoesBefore(e, d, s, n, j, i - 1);
      UndoThenStep(e, d, Before(d, s, n, j, i), i - 1, n * j + i);
    } else if j > 0 {
      AfterRedoesBefore(e, d, s, n, j - 1, n);
    }
  }

  /** Unwrapping what was wrapped, under the same IV, gives it back. */
  lemma UnwrapOfWrap(e: Cipher, d: Cipher, iv: Half, data: seq<byte>, n: nat)
    requires Inverse(e, d) && Blocks(data, n)
    ensures Unwrapped(d, iv, Wrapped(e, iv, data, n), n) == Data(data)
  {
    hide After, Before;
    var s := After(e, State(iv, data), n, 5, n);
    assert (s.a + s.r)[..8] == s.a && (s.a + s.r)[8..] == s.r;
    BeforeUndoesAfter(e, d, State(iv, data), n, 0, 0);
    AfterNothing(e, State(iv, data), n);
  }

  lemma AfterNothing(e: Cipher, s: State, n: nat)
    requires Blocks(s.r, n)
    ensures After(e, s, n, 0, 0) == s
  {
  }

  lemma BeforeNothing(d: Cipher, s: State, n: nat)
    requires Blocks(s.r, n)
    ensures Before(d, s, n, 5, n) == s
  {
  }

  /** Whatever unwraps successfully is exactly what wrapping the result produces. */
  lemma WrapOfUnwrap(e: Cipher, d: Cipher, iv: Half, c: seq<byte>, n: nat)
    requires Inverse(e, d) && Blocks(c, n + 1)
    ensures var u := Unwrapped(d, iv, c, n); u.Data? ==> Wrapped(e, iv, u.data, n) == c
  {
    hide After, Before;
    var s := State(c[..8], c[8..]);
    var s0 := Before(d, s, n, 0, 0);
    if s0.a == iv {
      assert State(iv, s0.r) == s0;
      AfterRedoesBefore(e, d, s, n, 5, n);
      BeforeNothing(d, s, n);
      assert c == c[..8] + c[8..];
    }
  }

  // ----- the shift-register form of the standard

  /** One step on the register: the first block goes through the cipher and comes back in at the end. */
  function ShiftStep(e: Cipher, s: State, t: nat): (s': State)
    requires |s.r| >= 8
    ensures |s'.r| == |s.r|
  {
    var b := e(s.a + s.r[..8]);
    State(WithCounter(b[..8], t), s.r[8..] + b[8..])
  }

  function Shifted(e: Cipher, s: State, k: nat): (s': State)
    requires |s.r| >= 8
    ensures |s'.r| == |s.r|
  {
    if k == 0 then s else ShiftStep(e, Shifted(e, s, k - 1), k)
  }

  function Turned(s: State, i: nat): State
    requires 8 * i <= |s.r|
  {
    State(s.a, s.r[8 * i..] + s.r[..8 * i])
  }

  lemma TurnedStep(e: Cipher, s: State, i: nat, t: nat)
    requires 8 * i + 8 <= |s.r|
    ensures ShiftStep(e, Turned(s, i), t) == Turned(StepAt(e, s, i, t), i + 1)
  {
    hide WithCounter;
    var r := Turned(s, i).r;
    assert r[..8] == s.r[8 * i..8 * i + 8];
    assert r[8..] == s.r[8 * i + 8..] + s.r[..8 * i];
    var b := e(s.a + s.r[8 * i..8 * i + 8]);
    var s1 := StepAt(e, s, i, t);
    assert s1.r[8 * i + 8..] == s.r[8 * i + 8..];
    assert s1.r[..8 * i + 8] == s.r[..8 * i] + b[8..];
  }

  /** At every step the register is the indexed state turned to the block that comes next. */
  lemma {:induction false} RegisterIsTurnedIndex(e: Cipher, s: State, n: nat, j: nat, i: nat)
    requires n > 0 && Blocks(s.r, n) && i <= n
    ensures Shifted(e, s, n * j + i) == Turned(After(e, s, n, j, i), i)
    decreases j, i
  {
    hide StepAt, ShiftStep;
    if i > 0 {
      RegisterIsTurnedIndex(e, s, n, j, i - 1);
      TurnedStep(e, After(e, s, n, j, i - 1), i - 1, n * j + i);
    } else if j > 0 {
      RegisterIsTurnedIndex(e, s, n, j - 1, n);
      assert n * (j - 1) + n == n * j;
      FullTurn(After(e, s, n, j - 1, n), n);
    } else {
      FullTurn(s, n);
    }
  }

  lemma FullTurn(s: State, n: nat)
    requires Blocks(s.r, n)
    ensures Turned(s, n) == s == Turned(s, 0)
  {
    assert s.r[8 * n..] + s.r[..8 * n] == s.r;
    assert s.r[0..] + s.r[..0] == s.r;
  }

  /** The indexed loop computes what section 2.2.1 of RFC 3394 defines. */
  lemma WrapIsShiftRegister(e: Cipher, iv: Half, data: seq<byte>, n: nat)
    requires n > 0 && Blocks(data, n)
    ensures var s := Shifted(e, State(iv, data), 6 * n); Wrapped(e, iv, data, n) == s.a + s.r
  {
    hide After, Shifted;
    RegisterIsTurnedIndex(e, State(iv, data), n, 5, n);
    FullTurn(After(e, State(iv, data), n, 5, n), n);
    assert n * 5 + n == 6 * n;
  }

  // ----- what a step does, octet by octet

  /** The initial value of section 2.2.3.1. */
  lemma DefaultIvValue()
    ensures FromBigEndian(DEFAULT_IV) == 0xA6A6_A6A6_A6A6_A6A6 && IvOf(Null) == DEFAULT_IV
    ensures forall iv :: IvOf(Given(iv)) == iv
  {
    var d := DEFAULT_IV;
    assert d[..7][..6] == d[..6] && d[..6][..5] == d[..5] && d[..5][..4] == d[..4];
    assert d[..4][..3] == d[..3] && d[..3][..2] == d[..2] && d[..2][..1] == d[..1] && d[..1][..0] == [];
    assert FromBigEndian(d[..1]) == 0xA6;
    assert FromBigEndian(d[..2]) == 256 * FromBigEndian(d[..1]) + 0xA6;
    assert FromBigEndian(d[..4]) == 0xA6A6_A6A6;
    assert FromBigEndian(d[..6]) == 0xA6A6_A6A6_A6A6;
  }

  /**
    * B is A and block `i` under the cipher: A becomes its first half with the counter added by exclusive or, the block
    * its second half, and no other octet changes.
    */
  lemma StepOctets(e: Cipher, s: State, i: nat, t: nat, k: nat)
    requires 8 * i + 8 <= |s.r| && k < |s.r|
    ensures var b, s' := e(s.a + s.r[8 * i..8 * i + 8]), StepAt(e, s, i, t);
            && s'.r[k] == (if 8 * i <= k < 8 * i + 8 then b[8 + k - 8 * i] else s.r[k])
            && (k < 8 ==> ExclusiveOr(s'.a[k], b[k], t / Pow256(7 - k) % 256))
  {
    hide ExclusiveOr, Pow256, WithCounter;
    if k < 8 {
      CounterIsAdded(e(s.a + s.r[8 * i..8 * i + 8])[..8], t, k);
    }
  }

  /** The same for the register, which moves on by a block. */
  lemma ShiftOctets(e: Cipher, s: State, t: nat, k: nat)
    requires |s.r| >= 8 && k < |s.r|
    ensures var b, s' := e(s.a + s.r[..8]), ShiftStep(e, s, t);
            && s'.r[k] == (if k < |s.r| - 8 then s.r[k + 8] else b[8 + k - (|s.r| - 8)])
            && (k < 8 ==> ExclusiveOr(s'.a[k], b[k], t / Pow256(7 - k) % 256))
  {
    hide ExclusiveOr, Pow256, WithCounter;
    if k < 8 {
      CounterIsAdded(e(s.a + s.r[..8])[..8], t, k);
    }
  }

  const SAME: Cipher := b => b

  function Ends(x: byte): Half { [0, 0, 0, 0, 0, 0, 0, x] }

  lemma SameStep(r: seq<byte>, k: nat, x: byte)
    requires |r| >= 8 && k + 1 < 256 && Shifted(SAME, State(Ends(0), r), k).a == Ends(x)
    ensures Shifted(SAME, State(Ends(0), r), k + 1).a == Ends(Xor(x, k + 1))
  {
    hide Xor, WithCounter;
    var s := Shifted(SAME, State(Ends(0), r), k);
    assert (s.a + s.r[..8])[..8] == s.a;
    CounterOctets(Ends(x), k + 1);
    XorZero(0);
  }

  /** With a cipher that changes nothing, A collects the counters: 1 to 6 for one block, 1 to 12 for two. */
  lemma CountersOnly(data: seq<byte>)
    ensures Blocks(data, 1) ==> Wrapped(SAME, Ends(0), data, 1)[..8] == Ends(7)
    ensures Blocks(data, 2) ==> Wrapped(SAME, Ends(0), data, 2)[..8] == Ends(12)
  {
    hide Xor, ShiftStep, Wrapped;
    XorUpToSix();
    XorUpToTwelve();
    if |data| >= 8 {
      var s := State(Ends(0), data);
      assert Shifted(SAME, s, 0) == s;
      SameStep(data, 0, 0); SameStep(data, 1, 1); SameStep(data, 2, 3); SameStep(data, 3, 0);
      SameStep(data, 4, 4); SameStep(data, 5, 1);
      if Blocks(data, 1) {
        WrapIsShiftRegister(SAME, Ends(0), data, 1);
      } else if Blocks(data, 2) {
        SameStep(data, 6, 7); SameStep(data, 7, 0); SameStep(data, 8, 8); SameStep(data, 9, 1);
        SameStep(data, 10, 11); SameStep(data, 11, 0);
        WrapIsShiftRegister(SAME, Ends(0), data, 2);
      }
    }
  }

  lemma XorUpToSix()
    ensures Xor(0, 1) == 1 && Xor(1, 2) == 3 && Xor(3, 3) == 0 && Xor(0, 4) == 4 && Xor(4, 5) == 1 && Xor(1, 6) == 7
  {
  }

  lemma XorUpToTwelve()
    ensures Xor(7, 7) == 0 && Xor(0, 8) == 8 && Xor(8, 9) == 1 && Xor(1, 10) == 11 && Xor(11, 11) == 0
    ensures Xor(0, 12) == 12
  {
  }

  // ----- the code

  /** The conditional octet-wise update of A: for a 32-bit counter it is the 64-bit exclusive or. */
  method AddCounter(b: array<byte>, t: nat)
    requires b.Length == 16 && t < 0x1_0000_0000
    modifies b
    ensures b[..8] == WithCounter(old(b[..8]), t) && b[8..] == old(b[8..])
    ensures forall k | 0 <= k < 8 :: ExclusiveOr(b[k], old(b[k]), t / Pow256(7 - k) % 256)
  {
    hide Xor, ExclusiveOr, Pow256;
    ghost var a := b[..8];
    forall k | 0 <= k < 8 ensures ExclusiveOr(WithCounter(a, t)[k], a[k], t / Pow256(7 - k) % 256) {
      CounterIsAdded(a, t, k);
    }
    CounterOctets(a, t);
    XorZero(a[0]); XorZero(a[1]); XorZero(a[2]); XorZero(a[3]); XorZero(a[4]); XorZero(a[5]); XorZero(a[6]);
    b[7] := Xor(b[7], t % 256);
    if t > 0xff {
      b[6] := Xor(b[6], t / 0x100 % 256);
      b[5] := Xor(b[5], t / 0x1_0000 % 256);
      b[4] := Xor(b[4], t / 0x100_0000 % 256);
    }
  }

  /** Octet `k` of A is combined by exclusive or with octet `k` of the 64-bit counter, most significant first. */
  lemma CounterIsAdded(a: Half, t: nat, k: nat)
    requires k < 8
    ensures ExclusiveOr(WithCounter(a, t)[k], a[k], t / Pow256(7 - k) % 256)
  {
    hide Xor, ExclusiveOr, Pow256;
    BigEndianAt(t, 8, k);
    XorAllAt(a, ToBigEndian(t, 8), k);
    XorIsExclusiveOr(a[k], ToBigEndian(t, 8)[k]);
  }

  lemma {:induction false} XorAllAt(a: seq<byte>, b: seq<byte>, k: nat)
    requires |a| == |b| && k < |a|
    ensures XorAll(a, b)[k] == Xor(a[k], b[k])
    decreases |a|
  {
    hide Xor;
    if k < |a| - 1 {
      XorAllAt(a[..|a| - 1], b[..|b| - 1], k);
    }
  }

  lemma CounterOctets(a: Half, t: nat)
    requires t < 0x1_0000_0000
    ensures WithCounter(a, t)
         == [Xor(a[0], 0), Xor(a[1], 0), Xor(a[2], 0), Xor(a[3], 0), Xor(a[4], t / 0x100_0000 % 256),
             Xor(a[5], t / 0x1_0000 % 256), Xor(a[6], t / 0x100 % 256), Xor(a[7], t % 256)]
  {
    hide Xor;
    var k := ToBigEndian(t, 8);
    var t1 := t / 256;
    var t2 := t1 / 256;
    var t3 := t2 / 256;
    assert t2 == t / 0x1_0000 && t3 == t / 0x100_0000 && t3 / 256 == 0;
    assert ToBigEndian(0, 2) == [0, 0];
    assert ToBigEndian(0, 4) == [0, 0, 0, 0];
    assert ToBigEndian(t2, 6) == ToBigEndian(0, 4) + [t3 % 256, t2 % 256];
    assert ToBigEndian(t1, 7) == ToBigEndian(t2, 6) + [t1 % 256];
    assert k == ToBigEndian(t1, 7) + [t % 256];
    assert k == [0, 0, 0, 0, t3 % 256, t2 % 256, t1 % 256, t % 256];
    XorAllOctets(a, k);
  }

  lemma XorAllOctets(a: Half, b: Half)
    ensures XorAll(a, b) == [Xor(a[0], b[0]), Xor(a[1], b[1]), Xor(a[2], b[2]), Xor(a[3], b[3]),
                             Xor(a[4], b[4]), Xor(a[5], b[5]), Xor(a[6], b[6]), Xor(a[7], b[7])]
  {
    hide Xor, XorAll;
    XorAllAt(a, b, 0); XorAllAt(a, b, 1); XorAllAt(a, b, 2); XorAllAt(a, b, 3);
    XorAllAt(a, b, 4); XorAllAt(a, b, 5); XorAllAt(a, b, 6); XorAllAt(a, b, 7);
  }

  /** Copies eight octets. */
  method Copy8(dst: array<byte>, to: nat, src: array<byte>, from: nat)
    requires dst != src && to + 8 <= dst.Length && from + 8 <= src.Length
    modifies dst
    ensures dst[..] == Put(old(dst[..]), to, src[from..from + 8])
  {
    forall k | 0 <= k < 8 { dst[to + k] := src[from + k]; }
  }

  /** `c` in place of as many octets of `s`. */
  function Put(s: seq<byte>, at: nat, c: seq<byte>): (r: seq<byte>)
    requires at + |c| <= |s|
    ensures |r| == |s|
  {
    s[..at] + c + s[at + |c|..]
  }

  /** Writing one data block changes nothing around the blocks, and of the blocks only this one. */
  lemma PutBlock(o: seq<byte>, at: nat, n: nat, i: nat, c: Half)
    requires at + 8 * n <= |o| && i < n
    ensures var p := Put(o, at + 8 * i, c);
            && p[at..at + 8 * n] == o[at..at + 8 * n][..8 * i] + c + o[at..at + 8 * n][8 * i + 8..]
            && p[at + 8 * n..] == o[at + 8 * n..]
  {
    PutWithin(o, at, at + 8 * n, 8 * i, c);
  }

  lemma PutWithin(o: seq<byte>, low: nat, high: nat, k: nat, c: Half)
    requires low <= high <= |o| && low + k + 8 <= high
    ensures var p := Put(o, low + k, c);
            && p[low..high] == o[low..high][..k] + c + o[low..high][k + 8..]
            && p[high..] == o[high..]
  {
    var p, r := Put(o, low + k, c), o[low..high];
    assert p[low..low + k] == r[..k];
    assert p[low + k..low + k + 8] == c;
    assert p[low + k + 8..high] == r[k + 8..];
    assert p[low..high] == p[low..low + k] + p[low + k..low + k + 8] + p[low + k + 8..high];
  }

  lemma PutFront(o: seq<byte>, c: Half)
    requires 8 <= |o|
    ensures Put(o, 0, c)[..8] == c && Put(o, 0, c)[8..] == o[8..]
  {
  }

  lemma PutSecondHalf(b: Block, c: Half)
    ensures Put(b, 8, c) == b[..8] + c
  {
  }

  lemma SliceOfSlice(o: seq<byte>, low: nat, high: nat, from: nat, to: nat)
    requires low <= high <= |o| && from <= to <= high - low
    ensures o[low..high][from..to] == o[low + from..low + to]
  {
    var x, y := o[low..high][from..to], o[low + from..low + to];
    forall k | 0 <= k < to - from ensures x[k] == y[k] {
      assert x[k] == o[low..high][from + k];
    }
    assert x == y;
  }

  /** `AES_encrypt(B, B, key)` and `AES_decrypt(B, B, key)`. */
  method Apply(f: Cipher, b: array<byte>)
    requires b.Length == 16
    modifies b
    ensures b[..] == f(old(b[..]))
  {
    var result := f(b[..]);
    forall k | 0 <= k < 16 { b[k] := result[k]; }
    assert b[..] == result;
  }

  /** The registers of the loops: A is the front of B, the data blocks are `out` from `at` on. */
  ghost function Registers(b: array<byte>, out: array<byte>, at: nat, n: nat): (s: State)
    requires b.Length == 16 && at + 8 * n <= out.Length
    reads b, out
    ensures Blocks(s.r, n)
  {
    State(b[..8], out[at..at + 8 * n])
  }

  /** The body of the wrapping loop. */
  method WrapStep(e: Cipher, b: array<byte>, out: array<byte>, ghost n: nat, R: nat, t: nat, ghost i: nat)
    requires b != out && b.Length == 16 && out.Length >= 8 + 8 * n && i < n && R == 8 + 8 * i && t < 0x1_0000_0000
    modifies b, out
    ensures Registers(b, out, 8, n) == StepAt(e, old(Registers(b, out, 8, n)), i, t)
    ensures out[8 + 8 * n..] == old(out[8 + 8 * n..])
  {
    hide WithCounter, Put, Inverse;
    ghost var s, o := Registers(b, out, 8, n), out[..];
    SliceOfSlice(o, 8, 8 + 8 * n, 8 * i, 8 * i + 8);
    PutSecondHalf(b[..], s.r[8 * i..8 * i + 8]);
    Copy8(b, 8, out, R);
    Apply(e, b);
    ghost var c := b[..];
    AddCounter(b, t);
    assert b[8..16] == c[8..];
    PutBlock(o, 8, n, i, c[8..]);
    Copy8(out, R, b, 8);
  }

  /** The body of the unwrapping loop. */
  method UnwrapStep(d: Cipher, b: array<byte>, out: array<byte>, ghost n: nat, R: nat, t: nat, ghost i: nat)
    requires b != out && b.Length == 16 && out.Length >= 8 * n && i < n && R == 8 * i && t < 0x1_0000_0000
    modifies b, out
    ensures Registers(b, out, 0, n) == UndoAt(d, old(Registers(b, out, 0, n)), i, t)
    ensures out[8 * n..] == old(out[8 * n..])
  {
    hide WithCounter, Put, Inverse;
    ghost var s, o := Registers(b, out, 0, n), out[..];
    assert 8 * i + 8 <= 8 * n;
    SliceOfSlice(o, 0, 8 * n, 8 * i, 8 * i + 8);
    AddCounter(b, t);
    PutSecondHalf(b[..], s.r[8 * i..8 * i + 8]);
    Copy8(b, 8, out, R);
    Apply(d, b);
    ghost var c := b[..];
    PutBlock(o, 0, n, i, c[8..]);
    assert b[8..16] == c[8..] && b[..8] == c[..8];
    Copy8(out, R, b, 8);
  }

  /** One round of wrapping over all blocks. */
  method WrapRound(e: Cipher, b: array<byte>, out: array<byte>, inlen: nat, t0: nat, ghost s: State, ghost n: nat,
                   ghost j: nat)
    returns (t: nat)
    requires b != out && b.Length == 16 && inlen == 8 * n < 0x1_0000_0000 && out.Length >= 8 + inlen
    requires Blocks(s.r, n) && j <= 5 && t0 == n * j + 1
    requires Registers(b, out, 8, n) == After(e, s, n, j, 0)
    modifies b, out
    ensures t == t0 + n
    ensures Registers(b, out, 8, n) == After(e, s, n, j + 1, 0)
    ensures out[8 + inlen..] == old(out[8 + inlen..])
  {
    hide After;
    t := t0;
    var i, R := 0, 8;
    ghost var q: nat := 0;
    while i < inlen
      invariant q <= n && i == 8 * q && R == 8 + i && t == t0 + q
      invariant Registers(b, out, 8, n) == After(e, s, n, j, q)
      invariant out[8 + inlen..] == old(out[8 + inlen..])
    {
      CounterFits(n, j, q);
      AfterOneMore(e, s, n, j, q, Registers(b, out, 8, n), t);
      WrapStep(e, b, out, n, R, t, q);
      i, t, R, q := i + 8, t + 1, R + 8, q + 1;
    }
    AfterNextRound(e, s, n, j);
  }

  /** The six rounds of wrapping. */
  method WrapRounds(e: Cipher, b: array<byte>, out: array<byte>, inlen: nat, t0: nat, ghost s: State, ghost n: nat)
    requires b != out && b.Length == 16 && inlen == 8 * n < 0x1_0000_0000 && out.Length >= 8 + inlen
    requires Blocks(s.r, n) && t0 == 1 && Registers(b, out, 8, n) == s
    modifies b, out
    ensures Registers(b, out, 8, n) == After(e, s, n, 5, n)
    ensures out[8 + inlen..] == old(out[8 + inlen..])
  {
    hide After;
    AfterNothing(e, s, n);
    var t := t0;
    for j := 0 to 6
      invariant t == n * j + 1
      invariant Registers(b, out, 8, n) == After(e, s, n, j, 0)
      invariant out[8 + inlen..] == old(out[8 + inlen..])
    {
      assert n * (j + 1) == n * j + n;
      t := WrapRound(e, b, out, inlen, t, s, n, j);
    }
    AfterNextRound(e, s, n, 5);
  }

  /** The initial values: A is the IV, the registers are the key data. */
  method LoadForWrap(b: array<byte>, out: array<byte>, input: array<byte>, inlen: nat, given: seq<byte>, ghost n: nat)
    requires b != out && b != input && out != input && b.Length == 16 && |given| == 8 && inlen == 8 * n
    requires inlen <= input.Length && inlen + 8 <= out.Length
    modifies b, out
    ensures Registers(b, out, 8, n) == State(given, input[..inlen])
    ensures out[inlen + 8..] == old(out[inlen + 8..])
  {
    forall k | 0 <= k < inlen { out[8 + k] := input[k]; }
    forall k | 0 <= k < 8 { b[k] := given[k]; }
    assert b[..8] == given && out[8..8 + inlen] == input[..inlen];
  }

  /** An unsigned 32-bit number returned as an `int`. */
  function ToInt(u: nat): int {
    var m := u % TWO_32;
    if m >= 0x8000_0000 then m - TWO_32 else m
  }

  /** The result is the length as long as it fits an `int`, and not from 0x7ffffff8 bytes on; it is never -1. */
  lemma WrapResult(inlen: nat)
    requires inlen % 8 == 0 && 8 <= inlen < TWO_32
    ensures ToInt(inlen + 8) == inlen + 8 <==> inlen < 0x7FFF_FFF8
    ensures ToInt(inlen + 8) != -1
  {
  }

  /** A successful unwrap never returns the values for a wrong length or a wrong IV. */
  lemma UnwrapResult(inlen: nat)
    requires inlen % 8 == 0 && 8 <= inlen < TWO_32
    ensures ToInt(inlen) == inlen <==> inlen < 0x8000_0000
    ensures ToInt(inlen) != -1 && ToInt(inlen) != 0
  {
  }

  /** `AES_wrap_key`: -1 for a length that is not a positive multiple of eight, else the wrapped key in `out`. */
  method AesWrapKey(e: Cipher, iv: IvArgument, out: array<byte>, input: array<byte>, inlen: nat) returns (r: int)
    requires out != input && inlen <= input.Length && inlen < 0x1_0000_0000 && inlen + 8 <= out.Length
    modifies out
    ensures r == if inlen % 8 != 0 || inlen < 8 then -1 else ToInt(inlen + 8)
    ensures r != -1 ==> out[..inlen + 8] == Wrapped(e, IvOf(iv), input[..inlen], inlen / 8)
    ensures r == -1 ==> out[..] == old(out[..])
    ensures out[inlen + 8..] == old(out[inlen + 8..])
  {
    hide After;
    if inlen % 8 != 0 || inlen < 8 {
      return -1;
    }
    ghost var n := inlen / 8;
    assert inlen == 8 * n;
    var b := new byte[16];
    ghost var s := State(IvOf(iv), input[..inlen]);
    LoadForWrap(b, out, input, inlen, IvOf(iv), n);
    WrapRounds(e, b, out, inlen, 1, s, n);
    ghost var final := Registers(b, out, 8, n);
    PutFront(out[..], b[0..8]);
    Copy8(out, 0, b, 0);
    assert out[..8] == final.a && out[8..8 + inlen] == final.r;
    assert out[..inlen + 8] == final.a + final.r;
    assert input[..inlen] == s.r;
    return ToInt(inlen + 8);
  }

  lemma CounterFits(n: nat, j: nat, q: nat)
    requires 8 * n < 0x1_0000_0000 && j <= 5 && q < n
    ensures n * j + q + 1 < 0x1_0000_0000
  {
    assert n * j <= n * 5;
  }

  lemma AfterOneMore(e: Cipher, s: State, n: nat, j: nat, q: nat, s1: State, t: nat)
    requires Blocks(s.r, n) && q < n && Blocks(s1.r, n) && s1 == After(e, s, n, j, q) && t == n * j + q + 1
    ensures After(e, s, n, j, q + 1) == StepAt(e, s1, q, t)
  {
    hide StepAt;
  }

  lemma AfterNextRound(e: Cipher, s: State, n: nat, j: nat)
    requires Blocks(s.r, n)
    ensures After(e, s, n, j + 1, 0) == After(e, s, n, j, n)
  {
  }

  lemma BeforeOneLess(d: Cipher, s: State, n: nat, j: nat, q: nat, s1: State, t: nat)
    requires Blocks(s.r, n) && j <= 5 && q < n
    requires Blocks(s1.r, n) && s1 == Before(d, s, n, j, q + 1) && t == n * j + q + 1
    ensures Before(d, s, n, j, q) == UndoAt(d, s1, q, t)
  {
    hide UndoAt;
  }

  lemma BeforePreviousRound(d: Cipher, s: State, n: nat, j: nat)
    requires Blocks(s.r, n) && j < 5
    ensures Before(d, s, n, j, n) == Before(d, s, n, j + 1, 0)
  {
  }

  /** One round of unwrapping, from the last block to the first. */
  method UnwrapRound(d: Cipher, b: array<byte>, out: array<byte>, inlen: nat, t0: nat, ghost s: State, ghost n: nat,
                     ghost j: nat)
    returns (t: nat)
    requires b != out && b.Length == 16 && n > 0 && inlen == 8 * n < 0x1_0000_0000 && out.Length >= inlen
    requires Blocks(s.r, n) && j <= 5 && t0 == n * j + n
    requires Registers(b, out, 0, n) == Before(d, s, n, j, n)
    modifies b, out
    ensures t == t0 - n
    ensures Registers(b, out, 0, n) == Before(d, s, n, j, 0)
    ensures out[inlen..] == old(out[inlen..])
  {
    hide Before;
    t := t0;
    var i, R: int := 0, inlen - 8;
    ghost var q: nat := n;
    while i < inlen
      invariant q <= n && i == 8 * (n - q) && R == 8 * q - 8 && t == t0 - (n - q)
      invariant Registers(b, out, 0, n) == Before(d, s, n, j, q)
      invariant out[inlen..] == old(out[inlen..])
    {
      CounterFits(n, j, q - 1);
      BeforeOneLess(d, s, n, j, q - 1, Registers(b, out, 0, n), t);
      UnwrapStep(d, b, out, n, R, t, q - 1);
      i, t, R, q := i + 8, t - 1, R - 8, q - 1;
    }
  }

  /** The six rounds of unwrapping. */
  method UnwrapRounds(d: Cipher, b: array<byte>, out: array<byte>, inlen: nat, t0: nat, ghost s: State, ghost n: nat)
    requires b != out && b.Length == 16 && n > 0 && inlen == 8 * n < 0x1_0000_0000 && out.Length >= inlen
    requires Blocks(s.r, n) && t0 == 6 * n && Registers(b, out, 0, n) == s
    modifies b, out
    ensures Registers(b, out, 0, n) == Before(d, s, n, 0, 0)
    ensures out[inlen..] == old(out[inlen..])
  {
    hide Before;
    BeforeNothing(d, s, n);
    var t := t0;
    for j := 0 to 6
      invariant t == n * (6 - j)
      invariant Registers(b, out, 0, n) == if j == 6 then Before(d, s, n, 0, 0) else Before(d, s, n, 5 - j, n)
      invariant out[inlen..] == old(out[inlen..])
    {
      assert n * (6 - j) == n * (5 - j) + n;
      t := UnwrapRound(d, b, out, inlen, t, s, n, 5 - j);
      if j < 5 {
        BeforePreviousRound(d, s, n, 4 - j);
      }
    }
  }

  /** The initial values: A and the registers are the wrapped key. */
  method LoadForUnwrap(b: array<byte>, out: array<byte>, input: array<byte>, inlen: nat, ghost n: nat)
    requires b != out && b != input && out != input && b.Length == 16 && inlen == 8 * n
    requires inlen + 8 <= input.Length && inlen <= out.Length
    modifies b, out
    ensures Registers(b, out, 0, n) == State(input[..8], input[8..inlen + 8])
    ensures out[inlen..] == old(out[inlen..])
  {
    forall k | 0 <= k < 8 { b[k] := input[k]; }
    forall k | 0 <= k < inlen { out[k] := input[8 + k]; }
    assert out[..inlen] == input[8..inlen + 8];
  }

  /** `OPENSSL_cleanse`. */
  method Clear(out: array<byte>, inlen: nat)
    requires inlen <= out.Length
    modifies out
    ensures out[..inlen] == seq(inlen, _ => 0) && out[inlen..] == old(out[inlen..])
  {
    forall k | 0 <= k < inlen { out[k] := 0; }
  }

  /** `inlen -= 8` on an unsigned number. */
  function LengthOfData(inlen0: nat): nat
    requires inlen0 < TWO_32
  {
    if inlen0 >= 8 then inlen0 - 8 else inlen0 + TWO_32 - 8
  }

  predicate Acceptable(inlen: nat) { inlen % 8 == 0 && inlen >= 8 }

  /** Length 0, and no other, is taken for 4 GB of wrapped key. */
  lemma OnlyZeroWraps(inlen0: nat)
    requires inlen0 < TWO_32
    ensures Acceptable(LengthOfData(inlen0)) && LengthOfData(inlen0) + 8 != inlen0 <==> inlen0 == 0
    ensures LengthOfData(0) + 8 == TWO_32
    ensures Acceptable(LengthOfData(inlen0)) && inlen0 != 0 <==> inlen0 % 8 == 0 && inlen0 >= 16
  {
  }

  /**
    * `AES_unwrap_key`: the data in `out` when the IV comes back, and zeros when it does not. What it demands of the
    * buffers is what it touches, which for length 0 is far more than the caller announced (`OnlyZeroWraps`).
    */
  method AesUnwrapKey(d: Cipher, iv: IvArgument, out: array<byte>, input: array<byte>, inlen0: nat) returns (r: int)
    requires out != input && inlen0 < TWO_32
    requires var inlen := LengthOfData(inlen0); Acceptable(inlen) ==> inlen + 8 <= input.Length && inlen <= out.Length
    modifies out
    ensures !Acceptable(LengthOfData(inlen0)) ==> r == -1 && out[..] == old(out[..])
    ensures Acceptable(LengthOfData(inlen0)) ==>
              var inlen := LengthOfData(inlen0);
              var n := inlen / 8;
              match Unwrapped(d, IvOf(iv), input[..inlen + 8], n)
              case Data(data) => r == ToInt(inlen) && out[..inlen] == data
              case BadIv => r == 0 && out[..inlen] == seq(inlen, _ => 0)
    ensures Acceptable(LengthOfData(inlen0)) ==> out[LengthOfData(inlen0)..] == old(out[LengthOfData(inlen0)..])
  {
    hide Before;
    var inlen := LengthOfData(inlen0);
    if inlen % 8 != 0 || inlen < 8 {
      return -1;
    }
    var n := inlen / 8;
    assert inlen == 8 * n;
    var b := new byte[16];
    var t := 6 * n;
    LoadForUnwrap(b, out, input, inlen, n);
    ghost var s := State(input[..8], input[8..inlen + 8]);
    assert input[..inlen + 8][..8] == s.a && input[..inlen + 8][8..] == s.r;
    UnwrapRounds(d, b, out, inlen, t, s, n);
    assert out[..inlen] == Registers(b, out, 0, n).r;
    if b[..8] != IvOf(iv) {
      ghost var c := input[..inlen + 8];
      assert Unwrapped(d, IvOf(iv), c, n) == BadIv;
      Clear(out, inlen);
      assert input[..inlen + 8] == c;
      return 0;
    }
    return ToInt(inlen);
  }
}
