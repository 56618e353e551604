/**
  * `tf_encode` and `tf_decode`: sending the time-frequency choices as changes from band to band, as far as the
  * bit budget goes. The range coder is a channel of symbols whose position in bits, `ec_tell`, is some function
  * of the symbols coded so far, the same one on both sides.
  */
module TfCoding {
  import opened TfTables

  datatype Symbol = Symbol(value: bit, logp: nat)

  type Tell = seq<Symbol> -> nat

  function Flip(a: bit, b: bit): bit { if a == b then 0 else 1 }   // a ^ b
  function Either(a: bit, b: bit): bit { if a == 1 then 1 else b } // a | b

  class Encoder {
    const tell: Tell
    const storage: nat
    var coded: seq<Symbol>

    constructor (tell: Tell, storage: nat, coded: seq<Symbol>)
      ensures this.tell == tell && this.storage == storage && this.coded == coded
    {
      this.tell, this.storage, this.coded := tell, storage, coded;
    }

    method EncodeBit(value: bit, logp: nat)
      modifies this
      ensures coded == old(coded) + [Symbol(value, logp)]
    {
      coded := coded + [Symbol(value, logp)];
    }
  }

  /** The receiving end: `coming` is what the encoder sent and has not been read yet. */
  class Decoder {
    const tell: Tell
    const storage: nat
    var coded: seq<Symbol>
    var coming: seq<Symbol>

    constructor (tell: Tell, storage: nat, coded: seq<Symbol>, coming: seq<Symbol>)
      ensures this.tell == tell && this.storage == storage && this.coded == coded && this.coming == coming
    {
      this.tell, this.storage, this.coded, this.coming := tell, storage, coded, coming;
    }

    /** A read with other parameters than the symbol was written with means nothing; it yields 0 here. */
    method DecodeBit(logp: nat) returns (value: bit)
      modifies this
      ensures value == Next(old(coming), logp)
      ensures coded == old(coded) + [Symbol(value, logp)] && coming == Tail(old(coming))
    {
      value := Next(coming, logp);
      coded := coded + [Symbol(value, logp)];
      coming := Tail(coming);
    }
  }

  function Next(coming: seq<Symbol>, logp: nat): bit {
    if coming != [] && coming[0].logp == logp then coming[0].value else 0
  }

  function Tail(coming: seq<Symbol>): seq<Symbol> {
    if coming == [] then [] else coming[1..]
  }

  // ----- the two loops as functions

  /** What a loop over the bands leaves behind. */
  datatype Bands = Bands(bits: seq<bit>, changed: bit, coded: seq<Symbol>, coming: seq<Symbol>)

  /** The encoder's loop; `logp` is the cost of the next change flag, `later` that of all flags after it. */
  function EncodeBands(bits: seq<bit>, curr: bit, changed: bit, logp: nat, later: nat, budget: int, tell: Tell,
                       coded: seq<Symbol>): (r: Bands)
    ensures |r.bits| == |bits| && coded <= r.coded
    decreases |bits|
  {
    if bits == [] then Bands([], changed, coded, [])
    else if tell(coded) + logp <= budget then
      var rest := EncodeBands(bits[1..], bits[0], Either(changed, bits[0]), later, later, budget, tell,
                              coded + [Symbol(Flip(bits[0], curr), logp)]);
      rest.(bits := [bits[0]] + rest.bits)
    else
      var rest := EncodeBands(bits[1..], curr, changed, later, later, budget, tell, coded);
      rest.(bits := [curr] + rest.bits)
  }

  /** The decoder's loop over `n` bands. */
  function DecodeBands(n: nat, curr: bit, changed: bit, logp: nat, later: nat, budget: int, tell: Tell,
                       coded: seq<Symbol>, coming: seq<Symbol>): (r: Bands)
    ensures |r.bits| == n
    decreases n
  {
    if n == 0 then Bands([], changed, coded, coming)
    else if tell(coded) + logp <= budget then
      var value := Next(coming, logp);
      var now := Flip(curr, value);
      var rest := DecodeBands(n - 1, now, Either(changed, now), later, later, budget, tell,
                              coded + [Symbol(value, logp)], Tail(coming));
      rest.(bits := [now] + rest.bits)
    else
      var rest := DecodeBands(n - 1, curr, changed, later, later, budget, tell, coded, coming);
      rest.(bits := [curr] + rest.bits)
  }

  lemma FlipBack(b: bit, curr: bit)
    ensures Flip(curr, Flip(b, curr)) == b
  {
  }

  /** Reading back what the encoder's loop wrote yields the same bits and the same coder position. */
  lemma {:induction false} BandsAgree(bits: seq<bit>, curr: bit, changed: bit, logp: nat, later: nat, budget: int,
                                      tell: Tell, coded: seq<Symbol>, after: seq<Symbol>)
    ensures var e := EncodeBands(bits, curr, changed, logp, later, budget, tell, coded);
            DecodeBands(|bits|, curr, changed, logp, later, budget, tell, coded, e.coded[|coded|..] + after)
              == e.(coming := after)
    decreases |bits|
  {
    hide Flip, Either;
    var e := EncodeBands(bits, curr, changed, logp, later, budget, tell, coded);
    var coming := e.coded[|coded|..] + after;
    if bits == [] {
      assert coming == after;
    } else if tell(coded) + logp <= budget {
      var symbol := Symbol(Flip(bits[0], curr), logp);
      FlipBack(bits[0], curr);
      BandsAgree(bits[1..], bits[0], Either(changed, bits[0]), later, later, budget, tell, coded + [symbol], after);
      assert e.coded[|coded|] == symbol;
      assert coming[1..] == e.coded[|coded| + 1..] + after;
    } else {
      BandsAgree(bits[1..], curr, changed, later, later, budget, tell, coded, after);
    }
  }

  // ----- the whole coders as functions

  function FirstCost(isTransient: bool): nat { if isTransient then 2 else 4 }
  function LaterCost(isTransient: bool): nat { if isTransient then 4 else 5 }

  predicate Reserved(LM: shift, isTransient: bool, storage: nat, tell: Tell, coded: seq<Symbol>) {
    LM > 0 && tell(coded) + FirstCost(isTransient) + 1 <= storage * 8
  }

  predicate SelectMatters(LM: shift, isTransient: bool, changed: bit) {
    Resolution(LM, isTransient, 0, changed) != Resolution(LM, isTransient, 1, changed)
  }

  function Resolutions(LM: shift, isTransient: bool, sel: bit, bits: seq<bit>): (r: seq<int>)
    ensures |r| == |bits|
  {
    seq(|bits|, i requires 0 <= i < |bits| => Resolution(LM, isTransient, sel, bits[i]))
  }

  datatype Result = Result(resolutions: seq<int>, coded: seq<Symbol>, coming: seq<Symbol>)

  function EncodedBands(bits: seq<bit>, isTransient: bool, LM: shift, storage: nat, tell: Tell,
                        coded: seq<Symbol>): (r: Bands)
    ensures |r.bits| == |bits| && coded <= r.coded
  {
    var budget := storage * 8 - if Reserved(LM, isTransient, storage, tell, coded) then 1 else 0;
    EncodeBands(bits, 0, 0, FirstCost(isTransient), LaterCost(isTransient), budget, tell, coded)
  }

  function Encoded(bits: seq<bit>, isTransient: bool, LM: shift, tfSelect: bit, storage: nat, tell: Tell,
                   coded: seq<Symbol>): Result
  {
    var e := EncodedBands(bits, isTransient, LM, storage, tell, coded);
    if Reserved(LM, isTransient, storage, tell, coded) && SelectMatters(LM, isTransient, e.changed) then
      Result(Resolutions(LM, isTransient, tfSelect, e.bits), e.coded + [Symbol(tfSelect, 1)], [])
    else Result(Resolutions(LM, isTransient, 0, e.bits), e.coded, [])
  }

  function Decoded(n: nat, isTransient: bool, LM: shift, storage: nat, tell: Tell, coded: seq<Symbol>,
                   coming: seq<Symbol>): Result
  {
    var budget := storage * 8 - if Reserved(LM, isTransient, storage, tell, coded) then 1 else 0;
    var d := DecodeBands(n, 0, 0, FirstCost(isTransient), LaterCost(isTransient), budget, tell, coded, coming);
    if Reserved(LM, isTransient, storage, tell, coded) && SelectMatters(LM, isTransient, d.changed) then
      var sel := Next(d.coming, 1);
      Result(Resolutions(LM, isTransient, sel, d.bits), d.coded + [Symbol(sel, 1)], Tail(d.coming))
    else Result(Resolutions(LM, isTransient, 0, d.bits), d.coded, d.coming)
  }

  /** Agreement: whatever the budget cut off, both sides end with the same resolutions and the same history. */
  lemma CodersAgree(bits: seq<bit>, isTransient: bool, LM: shift, tfSelect: bit, storage: nat, tell: Tell,
                    coded: seq<Symbol>, after: seq<Symbol>)
    ensures var e := Encoded(bits, isTransient, LM, tfSelect, storage, tell, coded);
            && coded <= e.coded
            && Decoded(|bits|, isTransient, LM, storage, tell, coded, e.coded[|coded|..] + after)
                 == e.(coming := after)
  {
    hide Resolution, Resolutions;
    var e := EncodedBands(bits, isTransient, LM, storage, tell, coded);
    var budget := storage * 8 - if Reserved(LM, isTransient, storage, tell, coded) then 1 else 0;
    if Reserved(LM, isTransient, storage, tell, coded) && SelectMatters(LM, isTransient, e.changed) {
      var select := [Symbol(tfSelect, 1)];
      BandsAgree(bits, 0, 0, FirstCost(isTransient), LaterCost(isTransient), budget, tell, coded, select + after);
      assert (e.coded + select)[|coded|..] + after == e.coded[|coded|..] + (select + after);
      assert Tail(select + after) == after;
    } else {
      BandsAgree(bits, 0, 0, FirstCost(isTransient), LaterCost(isTransient), budget, tell, coded, after);
    }
  }

  // ----- tf_select is dropped only when it makes no difference

  predicate AllZero(bits: seq<bit>) { forall i | 0 <= i < |bits| :: bits[i] == 0 }

  lemma {:induction false} ChangedBits(bits: seq<bit>, curr: bit, changed: bit, logp: nat, later: nat, budget: int,
                                       tell: Tell, coded: seq<Symbol>)
    requires curr == 1 ==> changed == 1
    ensures var e := EncodeBands(bits, curr, changed, logp, later, budget, tell, coded);
            && (changed == 1 ==> e.changed == 1)
            && (e.changed == 0 ==> AllZero(e.bits))
    decreases |bits|
  {
    if bits != [] {
      var e := EncodeBands(bits, curr, changed, logp, later, budget, tell, coded);
      var flipped := tell(coded) + logp <= budget;
      var first, changed' := if flipped then bits[0] else curr, if flipped then Either(changed, bits[0]) else changed;
      var next := if flipped then coded + [Symbol(Flip(bits[0], curr), logp)] else coded;
      ChangedBits(bits[1..], first, changed', later, later, budget, tell, next);
      var rest := EncodeBands(bits[1..], first, changed', later, later, budget, tell, next);
      assert e.bits == [first] + rest.bits && e.changed == rest.changed;
    }
  }

  /** For the sizes that have a tf_select, a changed band always makes the two tables differ. */
  lemma ChangesMatter(LM: shift, isTransient: bool)
    requires LM > 0
    ensures SelectMatters(LM, isTransient, 1)
  {
  }

  /** With the bit reserved, the result is what the caller's tf_select asks for, coded or not. */
  lemma SelectIsNeverLost(bits: seq<bit>, isTransient: bool, LM: shift, tfSelect: bit, storage: nat, tell: Tell,
                          coded: seq<Symbol>)
    requires Reserved(LM, isTransient, storage, tell, coded)
    ensures var e := EncodedBands(bits, isTransient, LM, storage, tell, coded);
            Encoded(bits, isTransient, LM, tfSelect, storage, tell, coded).resolutions
              == Resolutions(LM, isTransient, tfSelect, e.bits)
  {
    hide Resolution;
    var e := EncodedBands(bits, isTransient, LM, storage, tell, coded);
    if !SelectMatters(LM, isTransient, e.changed) {
      ChangesMatter(LM, isTransient);
      ChangedBits(bits, 0, 0, FirstCost(isTransient), LaterCost(isTransient), storage * 8 - 1, tell, coded);
      assert e.changed == 0 && (tfSelect == 0 || tfSelect == 1);
    }
  }

  // ----- what is coded

  /** The flags when there is room for all: whether each choice differs from the one before. */
  function Flags(bits: seq<bit>, curr: bit, logp: nat, later: nat): (r: seq<Symbol>)
    ensures |r| == |bits|
    decreases |bits|
  {
    if bits == [] then []
    else [Symbol(if bits[0] == curr then 0 else 1, logp)] + Flags(bits[1..], bits[0], later, later)
  }

  lemma {:induction false} FlagAt(bits: seq<bit>, curr: bit, logp: nat, later: nat, i: nat)
    requires i < |bits|
    ensures Flags(bits, curr, logp, later)[i]
         == Symbol(if bits[i] == (if i == 0 then curr else bits[i - 1]) then 0 else 1, if i == 0 then logp else later)
    decreases i
  {
    if i > 0 {
      FlagAt(bits[1..], bits[0], later, later, i - 1);
    }
  }

  lemma {:induction false} AllFlagsCoded(bits: seq<bit>, curr: bit, changed: bit, logp: nat, later: nat, budget: int,
                                         tell: Tell, coded: seq<Symbol>)
    requires forall c :: tell(c) + logp <= budget && tell(c) + later <= budget
    ensures EncodeBands(bits, curr, changed, logp, later, budget, tell, coded)
         == Bands(bits, if changed == 1 || 1 in bits then 1 else 0, coded + Flags(bits, curr, logp, later), [])
    decreases |bits|
  {
    if bits == [] {
      assert coded + [] == coded;
    } else {
      var symbol := Symbol(Flip(bits[0], curr), logp);
      AllFlagsCoded(bits[1..], bits[0], Either(changed, bits[0]), later, later, budget, tell, coded + [symbol]);
      var rest := Flags(bits[1..], bits[0], later, later);
      assert coded + [symbol] + rest == coded + ([symbol] + rest);
      assert 1 in bits <==> bits[0] == 1 || 1 in bits[1..];
    }
  }

  /**
    * The loop codes the first `m` flags, as many as fit; from there on every band keeps the last choice that was coded.
    */
  ghost predicate CutsAt(e: Bands, bits: seq<bit>, curr: bit, changed: bit, logp: nat, later: nat, budget: int,
                         tell: Tell, coded: seq<Symbol>, m: nat)
  {
    && m <= |bits|
    && e.bits == bits[..m] + Repeat(if m == 0 then curr else bits[m - 1], |bits| - m)
    && e.changed == (if changed == 1 || 1 in bits[..m] then 1 else 0)
    && e.coded == coded + Flags(bits[..m], curr, logp, later)
    && (m < |bits| ==> tell(e.coded) + (if m == 0 then logp else later) > budget)
  }

  lemma {:induction false} CutOff(bits: seq<bit>, curr: bit, changed: bit, logp: nat, later: nat, budget: int,
                                  tell: Tell, coded: seq<Symbol>) returns (m: nat)
    requires logp <= later
    ensures var e := EncodeBands(bits, curr, changed, logp, later, budget, tell, coded);
            CutsAt(e, bits, curr, changed, logp, later, budget, tell, coded, m)
    ensures m > 0 ==> tell(coded) + logp <= budget
    decreases |bits|
  {
    hide CutsAt;
    if bits != [] && tell(coded) + logp <= budget {
      var next := coded + [Symbol(Flip(bits[0], curr), logp)];
      var k := CutOff(bits[1..], bits[0], Either(changed, bits[0]), later, later, budget, tell, next);
      m := k + 1;
      var rest := EncodeBands(bits[1..], bits[0], Either(changed, bits[0]), later, later, budget, tell, next);
      CutLater(rest, bits, curr, changed, logp, later, budget, tell, coded, k);
    } else {
      m := 0;
      NothingFits(bits, curr, changed, logp, later, budget, tell, coded);
      CutAtOnce(bits, curr, changed, logp, later, budget, tell, coded);
    }
  }

  lemma CutLater(rest: Bands, bits: seq<bit>, curr: bit, changed: bit, logp: nat, later: nat, budget: int, tell: Tell,
                 coded: seq<Symbol>, k: nat)
    requires bits != []
    requires CutsAt(rest, bits[1..], bits[0], Either(changed, bits[0]), later, later, budget, tell,
                    coded + [Symbol(Flip(bits[0], curr), logp)], k)
    ensures CutsAt(rest.(bits := [bits[0]] + rest.bits), bits, curr, changed, logp, later, budget, tell, coded, k + 1)
  {
    hide Repeat;
    var head, tail := bits[..k + 1], bits[1..][..k];
    assert head[1..] == tail && head == [bits[0]] + tail;
    assert 1 in head <==> bits[0] == 1 || 1 in tail;
    var symbol, flags := Symbol(Flip(bits[0], curr), logp), Flags(tail, bits[0], later, later);
    assert coded + [symbol] + flags == coded + ([symbol] + flags);
    var last := Repeat(if k == 0 then bits[0] else bits[k], |bits| - k - 1);
    assert [bits[0]] + (tail + last) == head + last;
  }

  lemma CutAtOnce(bits: seq<bit>, curr: bit, changed: bit, logp: nat, later: nat, budget: int, tell: Tell,
                  coded: seq<Symbol>)
    requires bits == [] || tell(coded) + logp > budget
    ensures CutsAt(Bands(Repeat(curr, |bits|), changed, coded, []), bits, curr, changed, logp, later, budget, tell,
                   coded, 0)
  {
    assert coded + [] == coded && [] + Repeat(curr, |bits|) == Repeat(curr, |bits|);
  }

  function Repeat(b: bit, n: nat): (r: seq<bit>)
    ensures |r| == n && forall i | 0 <= i < n :: r[i] == b
  {
    seq(n, _ => b)
  }

  lemma {:induction false} NothingFits(bits: seq<bit>, curr: bit, changed: bit, logp: nat, later: nat, budget: int,
                                       tell: Tell, coded: seq<Symbol>)
    requires logp <= later && (bits == [] || tell(coded) + logp > budget)
    ensures EncodeBands(bits, curr, changed, logp, later, budget, tell, coded)
         == Bands(Repeat(curr, |bits|), changed, coded, [])
    decreases |bits|
  {
    if bits == [] {
      assert Repeat(curr, 0) == [];
    } else {
      NothingFits(bits[1..], curr, changed, later, later, budget, tell, coded);
      assert [curr] + Repeat(curr, |bits| - 1) == Repeat(curr, |bits|);
    }
  }

  /** In a frame of `storage` octets, one bit being kept for tf_select if there is a choice and it fits with a flag. */
  lemma SentAsFarAsItFits(bits: seq<bit>, isTransient: bool, LM: shift, storage: nat, tell: Tell, coded: seq<Symbol>)
      returns (m: nat)
    ensures var kept := if LM > 0 && tell(coded) + (if isTransient then 3 else 5) <= 8 * storage then 1 else 0;
            CutsAt(EncodedBands(bits, isTransient, LM, storage, tell, coded), bits, 0, 0, if isTransient then 2 else 4,
                   if isTransient then 4 else 5, 8 * storage - kept, tell, coded, m)
  {
    hide CutsAt, EncodeBands;
    var budget := storage * 8 - if Reserved(LM, isTransient, storage, tell, coded) then 1 else 0;
    m := CutOff(bits, 0, 0, FirstCost(isTransient), LaterCost(isTransient), budget, tell, coded);
  }

  /** tf_select is worth a bit exactly when a band changes, or on a transient of four or eight short blocks. */
  lemma SelectMattersExactly(LM: shift, isTransient: bool, changed: bit)
    ensures SelectMatters(LM, isTransient, changed) <==> LM > 0 && (changed == 1 || (isTransient && LM >= 2))
  {
  }

  /**
    * With room for everything: one flag a band, the first of 2 bits or 4, the others of 4 or 5, then tf_select in a
    * bit if it matters; and the caller's choices stand.
    */
  lemma CodedInFull(bits: seq<bit>, isTransient: bool, LM: shift, tfSelect: bit, storage: nat, tell: Tell,
                    coded: seq<Symbol>)
    requires forall c :: tell(c) + 6 <= storage * 8
    ensures var e := Encoded(bits, isTransient, LM, tfSelect, storage, tell, coded);
            var flags := Flags(bits, 0, if isTransient then 2 else 4, if isTransient then 4 else 5);
            var matters := LM > 0 && (1 in bits || (isTransient && LM >= 2));
            && e.coded == coded + flags + (if matters then [Symbol(tfSelect, 1)] else [])
            && |e.resolutions| == |bits|
            && forall i | 0 <= i < |bits| ::
                 e.resolutions[i] == Resolution(LM, isTransient, if matters then tfSelect else 0, bits[i])
  {
    hide Resolution, SelectMatters;
    var budget := storage * 8 - if Reserved(LM, isTransient, storage, tell, coded) then 1 else 0;
    assert tell(coded) + 6 <= storage * 8;
    AllFlagsCoded(bits, 0, 0, FirstCost(isTransient), LaterCost(isTransient), budget, tell, coded);
    SelectMattersExactly(LM, isTransient, EncodedBands(bits, isTransient, LM, storage, tell, coded).changed);
    var e := EncodedBands(bits, isTransient, LM, storage, tell, coded);
    assert e.coded + [] == e.coded;
  }

  /** A symbol takes no more bits than it was given. */
  ghost predicate Honest(tell: Tell) {
    forall c, s :: tell(c + [s]) <= tell(c) + s.logp
  }

  lemma {:induction false} BandsFit(bits: seq<bit>, curr: bit, changed: bit, logp: nat, later: nat, budget: int,
                                    tell: Tell, coded: seq<Symbol>)
    requires Honest(tell) && tell(coded) <= budget
    ensures tell(EncodeBands(bits, curr, changed, logp, later, budget, tell, coded).coded) <= budget
    decreases |bits|
  {
    if bits != [] {
      if tell(coded) + logp <= budget {
        var symbol := Symbol(Flip(bits[0], curr), logp);
        assert tell(coded + [symbol]) <= tell(coded) + symbol.logp;
        BandsFit(bits[1..], bits[0], Either(changed, bits[0]), later, later, budget, tell, coded + [symbol]);
      } else {
        BandsFit(bits[1..], curr, changed, later, later, budget, tell, coded);
      }
    }
  }

  /** The frame is never overrun: what was within it before is within it after. */
  lemma NeverOverrun(bits: seq<bit>, isTransient: bool, LM: shift, tfSelect: bit, storage: nat, tell: Tell,
                     coded: seq<Symbol>)
    requires Honest(tell) && tell(coded) <= storage * 8
    ensures tell(Encoded(bits, isTransient, LM, tfSelect, storage, tell, coded).coded) <= storage * 8
  {
    hide SelectMatters, Resolutions, Honest;
    var reserved := Reserved(LM, isTransient, storage, tell, coded);
    var budget := storage * 8 - if reserved then 1 else 0;
    BandsFit(bits, 0, 0, FirstCost(isTransient), LaterCost(isTransient), budget, tell, coded);
    var e := EncodedBands(bits, isTransient, LM, storage, tell, coded);
    OneMoreSymbol(tell, e.coded, Symbol(tfSelect, 1));
  }

  lemma OneMoreSymbol(tell: Tell, coded: seq<Symbol>, s: Symbol)
    requires Honest(tell)
    ensures tell(coded + [s]) <= tell(coded) + s.logp
  {
  }

  // ----- the code

  /** The final loop of both coders: each choice is replaced by the resolution it stands for. */
  method MapResolutions(tfRes: array<int>, start: nat, end: nat, isTransient: bool, LM: shift, tfSelect: bit,
                        ghost bits: seq<bit>)
    requires start <= end <= tfRes.Length && |bits| == end - start
    requires forall k | 0 <= k < |bits| :: tfRes[start + k] == bits[k]
    modifies tfRes
    ensures tfRes[start..end] == Resolutions(LM, isTransient, tfSelect, bits)
    ensures tfRes[..start] == old(tfRes[..start]) && tfRes[end..] == old(tfRes[end..])
  {
    hide Resolution;
    for i := start to end
      invariant forall k | start <= k < i :: tfRes[k] == Resolution(LM, isTransient, tfSelect, bits[k - start])
      invariant forall k | i <= k < end :: tfRes[k] == bits[k - start]
      invariant tfRes[..start] == old(tfRes[..start]) && tfRes[end..] == old(tfRes[end..])
    {
      tfRes[i] := Resolution(LM, isTransient, tfSelect, tfRes[i]);
    }
  }

  /** One turn of the encoder's loop. */
  lemma EncodeStep(bits: seq<bit>, k: nat, curr: bit, changed: bit, logp: nat, later: nat, budget: int, tell: Tell,
                   coded: seq<Symbol>)
    requires k < |bits|
    ensures var fits := tell(coded) + logp <= budget;
            var now := if fits then bits[k] else curr;
            var rest := EncodeBands(bits[k + 1..], now, if fits then Either(changed, now) else changed, later, later,
                                    budget, tell, if fits then coded + [Symbol(Flip(now, curr), logp)] else coded);
            EncodeBands(bits[k..], curr, changed, logp, later, budget, tell, coded) == rest.(bits := [now] + rest.bits)
  {
    assert bits[k..][0] == bits[k] && bits[k..][1..] == bits[k + 1..];
  }

  /** `whole` is what is done followed by what the rest of a loop yields. */
  ghost predicate Resumes(whole: Bands, done: seq<bit>, rest: Bands) {
    whole == rest.(bits := done + rest.bits)
  }

  lemma ResumesOneLater(whole: Bands, done: seq<bit>, now: bit, rest: Bands)
    requires Resumes(whole, done, rest.(bits := [now] + rest.bits))
    ensures Resumes(whole, done + [now], rest)
  {
    assert done + ([now] + rest.bits) == done + [now] + rest.bits;
  }

  /** The loop of `tf_encode`. */
  method EncodeLoop(start: nat, end: nat, tfRes: array<int>, logp0: nat, later: nat, budget: int, enc: Encoder,
                    ghost bits: seq<bit>)
    returns (tfChanged: bit, ghost done: seq<bit>)
    requires start <= end <= tfRes.Length && |bits| == end - start
    requires forall k | 0 <= k < |bits| :: tfRes[start + k] == bits[k]
    modifies tfRes, enc
    ensures EncodeBands(bits, 0, 0, logp0, later, budget, enc.tell, old(enc.coded))
            == Bands(done, tfChanged, enc.coded, [])
    ensures |done| == |bits| && forall k | 0 <= k < |bits| :: tfRes[start + k] == done[k]
    ensures tfRes[..start] == old(tfRes[..start]) && tfRes[end..] == old(tfRes[end..])
  {
    hide EncodeBands, Resumes, Flip, Either;
    var curr: bit, logp: nat := 0, logp0;
    var tell := enc.tell(enc.coded);
    ghost var whole := EncodeBands(bits, 0, 0, logp0, later, budget, enc.tell, enc.coded);
    tfChanged, done := 0, [];
    assert bits[0..] == bits;
    StartsWhole(whole);
    for i := start to end
      invariant |done| == i - start && tell == enc.tell(enc.coded)
      invariant forall j | start <= j < i :: tfRes[j] == done[j - start]
      invariant forall j | i <= j < end :: tfRes[j] == bits[j - start]
      invariant tfRes[..start] == old(tfRes[..start]) && tfRes[end..] == old(tfRes[end..])
      invariant Resumes(whole, done, EncodeBands(bits[i - start..], curr, tfChanged, logp, later, budget, enc.tell,
                                                 enc.coded))
    {
      EncodeStep(bits, i - start, curr, tfChanged, logp, later, budget, enc.tell, enc.coded);
      if tell + logp <= budget {
        enc.EncodeBit(Flip(tfRes[i], curr), logp);
        tell := enc.tell(enc.coded);
        curr := tfRes[i];
        tfChanged := Either(tfChanged, curr);
      } else {
        tfRes[i] := curr;
      }
      logp := later;
      ResumesOneLater(whole, done, curr,
                      EncodeBands(bits[i - start + 1..], curr, tfChanged, logp, later, budget, enc.tell, enc.coded));
      done := done + [curr];
    }
    EndsWhole(whole, done, curr, tfChanged, logp, later, budget, enc.tell, enc.coded);
    assert bits[end - start..] == [];
  }

  lemma StartsWhole(whole: Bands)
    ensures Resumes(whole, [], whole)
  {
    assert [] + whole.bits == whole.bits;
  }

  lemma EndsWhole(whole: Bands, done: seq<bit>, curr: bit, changed: bit, logp: nat, later: nat, budget: int, tell: Tell,
                  coded: seq<Symbol>)
    ensures Resumes(whole, done, EncodeBands([], curr, changed, logp, later, budget, tell, coded))
        ==> whole == Bands(done, changed, coded, [])
  {
    assert done + [] == done;
  }

  method TfEncode(start: nat, end: nat, isTransient: bool, tfRes: array<int>, LM: shift, tfSelect0: bit, enc: Encoder,
                  ghost bits: seq<bit>)
    requires start <= end <= tfRes.Length && |bits| == end - start
    requires forall k | 0 <= k < |bits| :: tfRes[start + k] == bits[k]
    modifies tfRes, enc
    ensures var r := Encoded(bits, isTransient, LM, tfSelect0, enc.storage, enc.tell, old(enc.coded));
            tfRes[start..end] == r.resolutions && enc.coded == r.coded
    ensures tfRes[..start] == old(tfRes[..start]) && tfRes[end..] == old(tfRes[end..])
  {
    hide Resolution, Resolutions, EncodeBands;
    var tfSelect := tfSelect0;
    var budget := enc.storage * 8;
    var tell := enc.tell(enc.coded);
    var logp := if isTransient then 2 else 4;
    var tfSelectRsv := LM > 0 && tell + logp + 1 <= budget;
    budget := budget - if tfSelectRsv then 1 else 0;
    var tfChanged;
    ghost var done;
    tfChanged, done := EncodeLoop(start, end, tfRes, logp, if isTransient then 4 else 5, budget, enc, bits);
    if tfSelectRsv && Resolution(LM, isTransient, 0, tfChanged) != Resolution(LM, isTransient, 1, tfChanged) {
      enc.EncodeBit(tfSelect, 1);
    } else {
      tfSelect := 0;
    }
    MapResolutions(tfRes, start, end, isTransient, LM, tfSelect, done);
  }

  /** One turn of the decoder's loop. */
  lemma DecodeStep(n: nat, curr: bit, changed: bit, logp: nat, later: nat, budget: int, tell: Tell,
                   coded: seq<Symbol>, coming: seq<Symbol>)
    requires n > 0
    ensures var fits := tell(coded) + logp <= budget;
            var value := Next(coming, logp);
            var now := if fits then Flip(curr, value) else curr;
            var rest := DecodeBands(n - 1, now, if fits then Either(changed, now) else changed,
                                    later, later, budget, tell,
                                    if fits then coded + [Symbol(value, logp)] else coded,
                                    if fits then Tail(coming) else coming);
            DecodeBands(n, curr, changed, logp, later, budget, tell, coded, coming) == rest.(bits := [now] + rest.bits)
  {
  }

  lemma DecodeEnds(whole: Bands, done: seq<bit>, curr: bit, changed: bit, logp: nat, later: nat, budget: int,
                   tell: Tell,
                   coded: seq<Symbol>, coming: seq<Symbol>)
    ensures Resumes(whole, done, DecodeBands(0, curr, changed, logp, later, budget, tell, coded, coming))
        ==> whole == Bands(done, changed, coded, coming)
  {
    assert done + [] == done;
  }

  /** The loop of `tf_decode`. */
  method DecodeLoop(start: nat, end: nat, tfRes: array<int>, logp0: nat, later: nat, budget: int, dec: Decoder)
    returns (tfChanged: bit, ghost done: seq<bit>)
    requires start <= end <= tfRes.Length
    modifies tfRes, dec
    ensures DecodeBands(end - start, 0, 0, logp0, later, budget, dec.tell, old(dec.coded), old(dec.coming))
         == Bands(done, tfChanged, dec.coded, dec.coming)
    ensures |done| == end - start && forall k | 0 <= k < |done| :: tfRes[start + k] == done[k]
    ensures tfRes[..start] == old(tfRes[..start]) && tfRes[end..] == old(tfRes[end..])
  {
    hide DecodeBands, Resumes, Next, Tail;
    var curr: bit, logp: nat := 0, logp0;
    var tell := dec.tell(dec.coded);
    ghost var whole := DecodeBands(end - start, 0, 0, logp0, later, budget, dec.tell, dec.coded, dec.coming);
    tfChanged, done := 0, [];
    StartsWhole(whole);
    for i := start to end
      invariant |done| == i - start && tell == dec.tell(dec.coded)
      invariant forall k | 0 <= k < |done| :: tfRes[start + k] == done[k]
      invariant tfRes[..start] == old(tfRes[..start]) && tfRes[end..] == old(tfRes[end..])
      invariant Resumes(whole, done,
                        DecodeBands(end - i, curr, tfChanged, logp, later, budget, dec.tell, dec.coded, dec.coming))
    {
      DecodeStep(end - i, curr, tfChanged, logp, later, budget, dec.tell, dec.coded, dec.coming);
      if tell + logp <= budget {
        var value := dec.DecodeBit(logp);
        curr := Flip(curr, value);
        tell := dec.tell(dec.coded);
        tfChanged := Either(tfChanged, curr);
      }
      tfRes[i] := curr;
      logp := later;
      ResumesOneLater(whole, done, curr,
                      DecodeBands(end - i - 1, curr, tfChanged, logp, later, budget, dec.tell, dec.coded, dec.coming));
      done := done + [curr];
    }
    DecodeEnds(whole, done, curr, tfChanged, logp, later, budget, dec.tell, dec.coded, dec.coming);
  }

  method TfDecode(start: nat, end: nat, isTransient: bool, tfRes: array<int>, LM: shift, dec: Decoder)
    requires start <= end <= tfRes.Length
    modifies tfRes, dec
    ensures var r := Decoded(end - start, isTransient, LM, dec.storage, dec.tell, old(dec.coded), old(dec.coming));
            tfRes[start..end] == r.resolutions && dec.coded == r.coded && dec.coming == r.coming
    ensures tfRes[..start] == old(tfRes[..start]) && tfRes[end..] == old(tfRes[end..])
  {
    hide Resolution, Resolutions, DecodeBands, Next, Tail;
    var budget := dec.storage * 8;
    var tell := dec.tell(dec.coded);
    var logp := if isTransient then 2 else 4;
    var tfSelectRsv := LM > 0 && tell + logp + 1 <= budget;
    budget := budget - if tfSelectRsv then 1 else 0;
    var tfChanged;
    ghost var done;
    tfChanged, done := DecodeLoop(start, end, tfRes, logp, if isTransient then 4 else 5, budget, dec);
    var tfSelect: bit := 0;
    if tfSelectRsv && Resolution(LM, isTransient, 0, tfChanged) != Resolution(LM, isTransient, 1, tfChanged) {
      tfSelect := dec.DecodeBit(1);
    }
    MapResolutions(tfRes, start, end, isTransient, LM, tfSelect, done);
  }

  /** Both coders run one after the other: the decoder's array ends up equal to the encoder's. */
  method SendAndReceive(start: nat, end: nat, isTransient: bool, sent: array<int>, received: array<int>, LM: shift,
                        tfSelect: bit, enc: Encoder, ghost bits: seq<bit>) returns (dec: Decoder)
    requires start <= end <= sent.Length && end <= received.Length && sent != received && |bits| == end - start
    requires forall k | 0 <= k < |bits| :: sent[start + k] == bits[k]
    modifies sent, received, enc
    ensures received[start..end] == sent[start..end]
    ensures dec.coded == enc.coded && dec.coming == []
  {
    hide Encoded, Decoded;
    var before := enc.coded;
    TfEncode(start, end, isTransient, sent, LM, tfSelect, enc, bits);
    CodersAgree(bits, isTransient, LM, tfSelect, enc.storage, enc.tell, before, []);
    dec := new Decoder(enc.tell, enc.storage, before, enc.coded[|before|..]);
    assert enc.coded[|before|..] + [] == enc.coded[|before|..];
    TfDecode(start, end, isTransient, received, LM, dec);
  }
}
