/** Unmasking a payload inside the receive buffer, in whole groups of four octets. */
module WebSocketMasking {
  import opened Bytes
  import opened WebSocketStream

  lemma {:induction false} FullTurns(mask: seq<byte>, n: nat)
    requires |mask| == 4
    ensures Rotate(mask, 4 * n) == mask
    decreases n
  {
    if n > 0 {
      var m1 := Turn(mask);
      var m2 := Turn(m1);
      var m3 := Turn(m2);
      assert Turn(m3) == mask;
      assert Rotate(mask, 4 * n) == Rotate(m1, 4 * n - 1) == Rotate(m2, 4 * n - 2) == Rotate(m3, 4 * n - 3);
      assert Rotate(m3, 4 * n - 3) == Rotate(mask, 4 * (n - 1));
      FullTurns(mask, n - 1);
    }
  }

  lemma UnmaskFour(four: seq<byte>, mask: seq<byte>)
    requires |mask| == 4 && |four| == 4
    ensures Unmask(four, mask)
         == [Xor(four[0], mask[0]), Xor(four[1], mask[1]), Xor(four[2], mask[2]), Xor(four[3], mask[3])]
  {
    hide Xor;
    var m1 := Turn(mask);
    var m2 := Turn(m1);
    var m3 := Turn(m2);
    assert Unmask(four[1..][1..][1..], m3) == [Xor(four[3], mask[3])];
    assert Unmask(four[1..][1..], m2) == [Xor(four[2], mask[2]), Xor(four[3], mask[3])];
    assert Unmask(four[1..], m1) == [Xor(four[1], mask[1]), Xor(four[2], mask[2]), Xor(four[3], mask[3])];
  }

  /** One group of four octets more. */
  lemma UnmaskGroup(data: seq<byte>, n: nat, mask: seq<byte>)
    requires |mask| == 4 && 4 * n + 4 <= |data|
    ensures Unmask(data[..4 * n + 4], mask) == Unmask(data[..4 * n], mask) + Unmask(data[4 * n..4 * n + 4], mask)
  {
    UnmaskPieces(data[..4 * n], data[4 * n..4 * n + 4], mask);
    FullTurns(mask, n);
    assert data[..4 * n] + data[4 * n..4 * n + 4] == data[..4 * n + 4];
  }

  /** Unmasking more than is needed does not disturb what is. */
  lemma UnmaskPrefix(data: seq<byte>, n: nat, mask: seq<byte>)
    requires IsMask(mask) && n <= |data|
    ensures Unmask(data, mask)[..n] == Unmask(data[..n], mask)
  {
    UnmaskPieces(data[..n], data[n..], mask);
    assert data[..n] + data[n..] == data;
  }

  /** The body of both unmasking loops: four octets from `s` to `d`, which may be the same place. */
  method MoveFour(buf: array<byte>, d: nat, s: nat, mask: seq<byte>)
    requires |mask| == 4 && s + 4 <= buf.Length && (d == s || d + 4 <= s)
    modifies buf
    ensures buf[d..d + 4] == Unmask(old(buf[s..s + 4]), mask)
    ensures forall k | 0 <= k < buf.Length && !(d <= k < d + 4) :: buf[k] == old(buf[k])
  {
    hide Xor;
    UnmaskFour(buf[s..s + 4], mask);
    buf[d] := Xor(buf[s], mask[0]);
    buf[d + 1] := Xor(buf[s + 1], mask[1]);
    buf[d + 2] := Xor(buf[s + 2], mask[2]);
    buf[d + 3] := Xor(buf[s + 3], mask[3]);
  }

  /** `was` with the first `g` groups from `src` on moved down to `dst`. */
  ghost predicate Moved(now: seq<byte>, was: seq<byte>, dst: nat, src: nat, g: nat, length: nat, mask: seq<byte>)
    requires |mask| == 4 && dst + 4 <= src && 4 * g <= length + 4 && src + length + 4 <= |was|
  {
    && |now| == |was|
    && now[..dst] == was[..dst]
    && now[dst..dst + 4 * g] == Unmask(was[src..src + 4 * g], mask)
    && now[src + 4 * g..] == was[src + 4 * g..]
    && now[src + length..] == was[src + length..]
  }

  lemma MovedOneMore(before: seq<byte>, after: seq<byte>, was: seq<byte>,
                     dst: nat, src: nat, g: nat, length: nat, mask: seq<byte>)
    requires |mask| == 4 && dst + 4 <= src && 4 * g <= length && src + length + 4 <= |was|
    requires Moved(before, was, dst, src, g, length, mask)
    requires |after| == |before|
    requires after[dst + 4 * g..dst + 4 * g + 4] == Unmask(before[src + 4 * g..src + 4 * g + 4], mask)
    requires forall k | 0 <= k < |after| && !(dst + 4 * g <= k < dst + 4 * g + 4) :: after[k] == before[k]
    ensures Moved(after, was, dst, src, g + 1, length, mask)
  {
    hide Unmask;
    var data := was[src..src + 4 * g + 4];
    UnmaskGroup(data, g, mask);
    assert data[..4 * g] == was[src..src + 4 * g];
    assert data[4 * g..4 * g + 4] == before[src + 4 * g..][..4] == before[src + 4 * g..src + 4 * g + 4];
    assert after[dst..dst + 4 * g + 4] == before[dst..dst + 4 * g] + after[dst + 4 * g..dst + 4 * g + 4];
    assert data[..4 * g + 4] == data == was[src..src + 4 * (g + 1)];
    assert after[src + 4 * g + 4..] == before[src + 4 * g..][4..] == was[src + 4 * (g + 1)..];
    assert after[src + length..] == before[src + length..];
  }

  /**
    * `unmaskImprecise`: moves `length` payload octets from `src` down to `dst` in whole groups of four. It may
    * write up to four octets more than `length`, always below `src + length`, and nothing outside that window.
    */
  method UnmaskImprecise(buf: array<byte>, dst: nat, src: nat, mask: seq<byte>, length: nat)
    requires |mask| == 4 && dst + 4 <= src && src + length + 4 <= buf.Length
    modifies buf
    ensures buf[dst..dst + length] == Unmask(old(buf[src..src + length]), mask)
    ensures buf[..dst] == old(buf[..dst]) && buf[src + length..] == old(buf[src + length..])
  {
    hide Unmask;
    ghost var was := buf[..];
    var n, d, s := length / 4 + 1, dst, src;
    ghost var g := 0;
    assert length < 4 * n <= length + 4;
    while n > 0
      invariant g >= 0 && n >= 0 && g + n == length / 4 + 1 && d == dst + 4 * g && s == src + 4 * g
      invariant Moved(buf[..], was, dst, src, g, length, mask)
    {
      ghost var before := buf[..];
      MoveFour(buf, d, s, mask);
      MovedOneMore(before, buf[..], was, dst, src, g, length, mask);
      d, s, n, g := d + 4, s + 4, n - 1, g + 1;
    }
    UnmaskPrefix(was[src..src + 4 * g], length, mask);
    assert buf[..][dst..dst + 4 * g][..length] == buf[dst..dst + length];
    assert was[src..src + 4 * g][..length] == was[src..src + length];
  }

  /** `unmaskInplace`: whole groups of four, in place. */
  method UnmaskInplace(buf: array<byte>, start: nat, groups: nat, mask: seq<byte>)
    requires |mask| == 4 && start + 4 * groups <= buf.Length
    modifies buf
    ensures buf[start..start + 4 * groups] == Unmask(old(buf[start..start + 4 * groups]), mask)
    ensures buf[..start] == old(buf[..start]) && buf[start + 4 * groups..] == old(buf[start + 4 * groups..])
  {
    hide Unmask;
    var data, stop := start, start + 4 * groups;
    ghost var input := buf[start..stop];
    ghost var n := 0;
    while data < stop
      invariant n <= groups && data == start + 4 * n
      invariant buf[start..data] == Unmask(input[..4 * n], mask)
      invariant buf[data..stop] == input[4 * n..]
      invariant buf[..start] == old(buf[..start]) && buf[stop..] == old(buf[stop..])
    {
      ghost var before := buf[..];
      UnmaskGroup(input, n, mask);
      assert before[data..data + 4] == input[4 * n..][..4] == input[4 * n..4 * n + 4];
      MoveFour(buf, data, data, mask);
      assert buf[start..data + 4] == before[start..data] + buf[data..data + 4];
      assert buf[data + 4..stop] == before[data..stop][4..];
      data, n := data + 4, n + 1;
    }
    assert input[..4 * groups] == input;
  }

  lemma UnmaskFew(few: seq<byte>, mask: seq<byte>)
    requires |mask| == 4 && |few| < 4
    ensures forall i | 0 <= i < |few| :: Unmask(few, mask)[i] == Xor(few[i], mask[i])
  {
    hide Xor;
    var pad := few + seq(4 - |few|, _ => 0);
    UnmaskFour(pad, mask);
    UnmaskPrefix(pad, |few|, mask);
    assert pad[..|few|] == few;
  }

  /** The last octets of a payload, one by one. */
  method UnmaskTail(buf: array<byte>, start: nat, few: nat, mask: seq<byte>)
    requires |mask| == 4 && few < 4 && start + few <= buf.Length
    modifies buf
    ensures buf[start..start + few] == Unmask(old(buf[start..start + few]), mask)
    ensures buf[..start] == old(buf[..start]) && buf[start + few..] == old(buf[start + few..])
  {
    hide Xor, Unmask;
    UnmaskFew(buf[start..start + few], mask);
    for i := 0 to few
      invariant forall k | 0 <= k < i :: buf[start + k] == Xor(old(buf[start + k]), mask[k])
      invariant forall k | start + i <= k < buf.Length :: buf[k] == old(buf[k])
      invariant buf[..start] == old(buf[..start])
    {
      buf[start + i] := Xor(buf[start + i], mask[i]);
    }
    ghost var input := old(buf[start..start + few]);
    assert forall k | 0 <= k < few :: buf[start + k] == Xor(input[k], mask[k]);
  }

  /** `now` is `was` with the octets from `start` to `stop` unmasked. */
  ghost predicate Unmasked(now: seq<byte>, was: seq<byte>, start: nat, stop: nat, mask: seq<byte>)
    requires |mask| == 4 && start <= stop <= |was|
  {
    && |now| == |was|
    && now[..start] == was[..start]
    && now[start..stop] == Unmask(was[start..stop], mask)
    && now[stop..] == was[stop..]
  }

  lemma UnmaskedInTwoSteps(b0: seq<byte>, b1: seq<byte>, b2: seq<byte>,
                           start: nat, n: nat, stop: nat, mask: seq<byte>)
    requires |mask| == 4 && start + 4 * n <= stop <= |b0| == |b1|
    requires Unmasked(b1, b0, start, start + 4 * n, mask) && Unmasked(b2, b1, start + 4 * n, stop, mask)
    ensures Unmasked(b2, b0, start, stop, mask)
  {
    hide Unmask, Rotate;
    var middle := start + 4 * n;
    UnmaskPieces(b0[start..middle], b0[middle..stop], mask);
    FullTurns(mask, n);
    assert b0[start..middle] + b0[middle..stop] == b0[start..stop];
    assert b1[middle..stop] == b1[middle..][..stop - middle] == b0[middle..stop];
    assert b2[start..middle] == b2[..middle][start..] == b1[start..middle];
    assert b2[start..stop] == b2[start..middle] + b2[middle..stop];
    assert b2[..start] == b2[..middle][..start] == b1[..start];
    assert b2[stop..] == b1[middle..][stop - middle..] == b0[stop..];
  }

  /** The end of a payload: whole groups in place, then the last octets, and nothing beyond them. */
  method UnmaskExactly(buf: array<byte>, start: nat, count: nat, mask: seq<byte>)
    requires |mask| == 4 && start + count <= buf.Length
    modifies buf
    ensures Unmasked(buf[..], old(buf[..]), start, start + count, mask)
  {
    hide Unmask, Rotate;
    var n := count / 4;
    ghost var b0 := buf[..];
    UnmaskInplace(buf, start, n, mask);
    ghost var b1 := buf[..];
    assert Unmasked(b1, b0, start, start + 4 * n, mask) by {
      assert b0[start..start + 4 * n] == old(buf[start..start + 4 * n]);
    }
    UnmaskTail(buf, start + 4 * n, count % 4, mask);
    UnmaskedInTwoSteps(b0, b1, buf[..], start, n, start + count, mask);
  }

  lemma UnmaskWithoutMask(data: seq<byte>)
    ensures Unmask(data, []) == data
  {
  }

  lemma RotateByNothing(mask: seq<byte>)
    requires IsMask(mask)
    ensures Rotate(mask, 0) == mask
  {
  }

  /** Only the phase of a rotation matters. */
  lemma RotatePhase(mask: seq<byte>, n: nat)
    requires |mask| == 4
    ensures Rotate(mask, n) == Rotate(mask, n % 4)
    ensures n % 4 == 0 ==> Rotate(mask, n) == mask
  {
    hide Rotate;
    RotateByNothing(mask);
    var whole := n / 4;
    RotateTwice(mask, 4 * whole, n % 4);
    FullTurns(mask, whole);
  }

  /** `rotateMask`: shifting up by `offset` is turning `4 - offset` times. */
  method RotateMask(offset: nat, mask: array<byte>)
    requires mask.Length == 4 && 1 <= offset <= 4
    modifies mask
    ensures mask[..] == Rotate(old(mask[..]), 4 - offset)
  {
    var original := mask[..];
    ghost var m1 := Turn(original);
    ghost var m2 := Turn(m1);
    ghost var m3 := Turn(m2);
    assert Rotate(original, 1) == Rotate(m1, 0) == m1;
    assert Rotate(original, 2) == Rotate(m1, 1) == Rotate(m2, 0) == m2;
    assert Rotate(original, 3) == Rotate(m1, 2) == Rotate(m2, 1) == Rotate(m3, 0) == m3;
    mask[(0 + offset) % 4] := original[0];
    mask[(1 + offset) % 4] := original[1];
    mask[(2 + offset) % 4] := original[2];
    mask[(3 + offset) % 4] := original[3];
  }
}
