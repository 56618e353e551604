/** Time-frequency resolution choices shared by the CELT encoder and decoder (section 4.3.1 of RFC 6716). */
module TfTables {

  type bit = b: int | 0 <= b <= 1

  const TF_SELECT_TABLE: seq<seq<int>> := [
    [0, -1, 0, -1, 0, -1, 0, -1],
    [0, -1, 0, -2, 1, 0, 1, -1],
    [0, -2, 0, -3, 2, 0, 1, -1],
    [0, -2, 0, -3, 3, 0, 1, -1]
  ]

  /** The frame size shift: 0 to 3. */
  type shift = n: int | 0 <= n <= 3

  function Resolution(LM: shift, isTransient: bool, sel: bit, res: bit): int {
    TF_SELECT_TABLE[LM][(if isTransient then 4 else 0) + 2 * sel + res]
  }

  /**
    * What a choice stands for: 0 for no change; a finer frequency resolution, -1 or -2, and one more if `sel` asks for
    * it; on a transient, a time resolution as fine as the frame allows, or 1 and -1 if `sel` asks for that.
    */
  lemma ResolutionsInClosedForm(LM: shift, sel: bit)
    ensures Resolution(LM, false, sel, 0) == 0
    ensures Resolution(LM, false, sel, 1) == -1 - LM / 2 - if LM > 0 && sel == 1 then 1 else 0
    ensures LM == 0 ==> Resolution(LM, true, sel, 0) == 0 && Resolution(LM, true, sel, 1) == -1
    ensures LM > 0 ==> Resolution(LM, true, 0, 0) == LM && Resolution(LM, true, 0, 1) == 0
    ensures LM > 0 ==> Resolution(LM, true, 1, 0) == 1 && Resolution(LM, true, 1, 1) == -1
  {
  }
}
