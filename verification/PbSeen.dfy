/** The bit set in which the decoder notes the required fields it has seen: two words of 32 bits. */
module PbSeen {
  import opened Bytes
  import opened PbTable
  import opened PbDecode

  function ShiftRight(w: nat, n: nat): nat
    decreases n
  {
    if n == 0 then w else ShiftRight(w / 2, n - 1)
  }

  predicate Bit(w: nat, j: nat) { ShiftRight(w, j) % 2 == 1 }

  /** `w | (1 << j)`. */
  function SetBit(w: nat, j: nat): nat
    decreases j
  {
    if j == 0 then w / 2 * 2 + 1 else w % 2 + 2 * SetBit(w / 2, j - 1)
  }

  /** The number with the `n` lowest bits set. */
  function Ones(n: nat): nat { if n == 0 then 0 else 1 + 2 * Ones(n - 1) }

  lemma {:induction false} BitOfSetBit(w: nat, j: nat, k: nat)
    ensures Bit(SetBit(w, j), k) <==> k == j || Bit(w, k)
    decreases j
  {
    if j == 0 {
      if k > 0 {
        assert (w / 2 * 2 + 1) / 2 == w / 2;
      }
    } else if k > 0 {
      BitOfSetBit(w / 2, j - 1, k - 1);
      assert SetBit(w, j) / 2 == SetBit(w / 2, j - 1);
    }
  }

  lemma {:induction false} SetBitFits(w: nat, j: nat, width: nat)
    requires w < Pow2(width) && j < width
    ensures SetBit(w, j) < Pow2(width)
    decreases j
  {
    hide Pow2;
    DoublePow2(width);
    HalfFits(w, Pow2(width - 1));
    if j > 0 {
      SetBitFits(w / 2, j - 1, width - 1);
    }
  }

  lemma DoublePow2(width: nat)
    ensures width > 0 ==> Pow2(width) == 2 * Pow2(width - 1)
  {
  }

  lemma HalfFits(w: nat, p: nat)
    requires w < 2 * p
    ensures w / 2 < p && w / 2 * 2 + 1 < 2 * p
  {
  }

  lemma {:induction false} BitOfOnes(n: nat, k: nat)
    ensures Bit(Ones(n), k) <==> k < n
    decreases k
  {
    if n == 0 {
      BitOfZero(k);
    } else if k > 0 {
      BitOfOnes(n - 1, k - 1);
      assert Ones(n) / 2 == Ones(n - 1);
    }
  }

  lemma {:induction false} BitOfZero(k: nat)
    ensures !Bit(0, k)
    decreases k
  {
    if k > 0 {
      BitOfZero(k - 1);
    }
  }

  lemma {:induction false} OnesFit(n: nat, width: nat)
    requires n <= width
    ensures Ones(n) < Pow2(width)
  {
    if n > 0 {
      OnesFit(n - 1, width - 1);
    }
  }

  lemma {:induction false} ShiftedOnes(n: nat, k: nat)
    requires k <= n
    ensures ShiftRight(Ones(n), k) == Ones(n - k)
    decreases k
  {
    if k > 0 {
      ShiftedOnes(n - 1, k - 1);
      assert Ones(n) / 2 == Ones(n - 1);
    }
  }

  /** A number is its bits. */
  lemma {:induction false} SameBits(a: nat, b: nat, width: nat)
    requires a < Pow2(width) && b < Pow2(width)
    requires forall j: nat | j < width :: Bit(a, j) <==> Bit(b, j)
    ensures a == b
    decreases width
  {
    if width > 0 {
      assert Bit(a, 0) <==> Bit(b, 0);
      forall j: nat | j < width - 1 ensures Bit(a / 2, j) <==> Bit(b / 2, j) {
        assert Bit(a, j + 1) <==> Bit(b, j + 1);
      }
      SameBits(a / 2, b / 2, width - 1);
    }
  }

  const ALL_BITS := 0xFFFF_FFFF

  lemma AllBitsAreOnes()
    ensures ALL_BITS == Ones(32) && Pow2(32) == 0x1_0000_0000
  {
    assert Ones(8) == 0xFF;
    assert Ones(16) == 0xFFFF;
    assert Ones(24) == 0xFF_FFFF;
    assert Pow2(8) == 0x100;
    assert Pow2(16) == 0x1_0000;
    assert Pow2(24) == 0x100_0000;
  }

  /** The test of a word whose bits from `n` on are clear: equal to `allbits >> (32 - n)` if the others are all set. */
  lemma FullWord(w: nat, n: nat)
    requires w < Pow2(32) && n <= 32 && forall j: nat | n <= j < 32 :: !Bit(w, j)
    ensures w == ShiftRight(ALL_BITS, 32 - n) <==> forall j: nat | j < n :: Bit(w, j)
  {
    hide Bit, ShiftRight, Ones, Pow2;
    AllBitsAreOnes();
    ShiftedOnes(32, 32 - n);
    OnesFit(n, 32);
    forall j: nat | j < 32 ensures Bit(Ones(n), j) <==> j < n {
      BitOfOnes(n, j);
    }
    if forall j: nat | j < n :: Bit(w, j) {
      SameBits(w, Ones(n), 32);
    }
  }

  // ----- required fields and their numbers

  lemma {:induction false} RequiredGrows(fields: seq<Field>, i: nat, j: nat)
    requires i <= j <= |fields|
    ensures RequiredBefore(fields, i) <= RequiredBefore(fields, j)
    ensures i < j && fields[i].htype == Required ==> RequiredBefore(fields, i) < RequiredBefore(fields, j)
    decreases j
  {
    if i < j {
      RequiredGrows(fields, i, j - 1);
    }
  }

  lemma {:induction false} RequiredIsNumbered(fields: seq<Field>, n: nat, k: nat) returns (i: nat)
    requires n <= |fields| && k < RequiredBefore(fields, n)
    ensures i < n && fields[i].htype == Required && RequiredBefore(fields, i) == k
  {
    if k < RequiredBefore(fields, n - 1) {
      i := RequiredIsNumbered(fields, n - 1, k);
    } else {
      i := n - 1;
    }
  }

  predicate Marked(low: nat, high: nat, k: nat)
    requires k < MAX_REQUIRED
  {
    if k < 32 then Bit(low, k) else Bit(high, k - 32)
  }

  /** The bits are exactly the tracked required fields that have been seen. */
  predicate Marks(fields: seq<Field>, seen: seq<bool>, low: nat, high: nat)
    requires |seen| == |fields|
  {
    && low < Pow2(32) && high < Pow2(32)
    && (forall i | 0 <= i < |fields| ::
          Tracked(fields, i) ==> (Marked(low, high, RequiredBefore(fields, i)) <==> seen[i]))
    && (forall k: nat | RequiredBefore(fields, |fields|) <= k < MAX_REQUIRED :: !Marked(low, high, k))
  }

  lemma NothingMarked(fields: seq<Field>)
    ensures Marks(fields, seq(|fields|, _ => false), 0, 0)
  {
    hide Bit;
    forall k: nat ensures !Bit(0, k) {
      BitOfZero(k);
    }
    assert Pow2(32) > 0;
  }

  lemma MarkField(fields: seq<Field>, seen: seq<bool>, low: nat, high: nat, i: nat)
    requires |seen| == |fields| && i < |fields| && Marks(fields, seen, low, high)
    ensures !Tracked(fields, i) ==> Marks(fields, seen[i := true], low, high)
    ensures var k := RequiredBefore(fields, i);
            Tracked(fields, i) ==> Marks(fields, seen[i := true], if k < 32 then SetBit(low, k) else low,
                                                                  if k < 32 then high else SetBit(high, k - 32))
  {
    hide Bit, SetBit, Pow2, RequiredBefore;
    if Tracked(fields, i) {
      var k := RequiredBefore(fields, i);
      var low', high' := if k < 32 then SetBit(low, k) else low, if k < 32 then high else SetBit(high, k - 32);
      if k < 32 { SetBitFits(low, k, 32); } else { SetBitFits(high, k - 32, 32); }
      RequiredGrows(fields, i, |fields|);
      forall m: nat | m < MAX_REQUIRED ensures Marked(low', high', m) <==> m == k || Marked(low, high, m) {
        if k < 32 { BitOfSetBit(low, k, m); } else if m >= 32 { BitOfSetBit(high, k - 32, m - 32); }
      }
      forall j | 0 <= j < |fields| && j != i && Tracked(fields, j) ensures RequiredBefore(fields, j) != k {
        if i < j { RequiredGrows(fields, i, j); } else { RequiredGrows(fields, j, i); }
      }
    }
  }

  /** All tracked fields have been seen when the first `count` bits are set, `count` being how many there are. */
  lemma AllMarked(fields: seq<Field>, seen: seq<bool>, low: nat, high: nat, count: nat)
    requires |seen| == |fields| && Marks(fields, seen, low, high)
    requires count == if RequiredBefore(fields, |fields|) > MAX_REQUIRED then MAX_REQUIRED
                      else RequiredBefore(fields, |fields|)
    ensures Complete(fields, seen) <==> forall k: nat | k < count :: Marked(low, high, k)
  {
    hide Bit, Pow2, RequiredBefore;
    if Complete(fields, seen) {
      forall k: nat | k < count ensures Marked(low, high, k) {
        var i := RequiredIsNumbered(fields, |fields|, k);
        assert Tracked(fields, i);
      }
    }
    forall i | 0 <= i < |fields| && Tracked(fields, i) ensures RequiredBefore(fields, i) < count {
      RequiredGrows(fields, i, |fields|);
    }
  }
}
