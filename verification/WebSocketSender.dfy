/** `formatMessage` and `formatClosePayload`: writing a frame into the send buffer. */
module WebSocketSender {
  import opened Bytes
  import opened WebSocketStream
  import opened WebSocketFrames
  import opened WebSocketMasking

  /** Writes `src` at position `at`. */
  method CopyIn(dst: array<byte>, at: nat, src: seq<byte>)
    requires at + |src| <= dst.Length
    modifies dst
    ensures dst[..] == old(dst[..at]) + src + old(dst[at + |src|..])
  {
    forall k | 0 <= k < |src| { dst[at + k] := src[k]; }
  }

  /** The masking loop of the client: octet by octet, so that nothing outside the payload is written. */
  method MaskPayload(dst: array<byte>, start: nat, length: nat, mask: seq<byte>)
    requires |mask| == 4 && start + length <= dst.Length
    modifies dst
    ensures Unmasked(dst[..], old(dst[..]), start, start + length, mask)
    ensures forall i | 0 <= i < length :: ExclusiveOr(dst[start + i], old(dst[start + i]), mask[i % 4])
  {
    hide Xor, Unmask, ExclusiveOr;
    ghost var was := dst[..];
    ghost var payload := was[start..start + length];
    ghost var goal := Unmask(payload, mask);
    var i := 0;
    while i != length
      invariant i <= length
      invariant forall k | 0 <= k < i :: dst[start + k] == goal[k]
      invariant forall k | 0 <= k < dst.Length && !(start <= k < start + i) :: dst[k] == was[k]
      invariant forall k | 0 <= k < i :: ExclusiveOr(dst[start + k], was[start + k], mask[k % 4])
    {
      UnmaskAt(payload, mask, i);
      XorIsExclusiveOr(was[start + i], mask[i % 4]);
      dst[start + i] := Xor(dst[start + i], mask[i % 4]);
      i := i + 1;
    }
    assert dst[..][start..start + length] == goal;
  }

  /** The header and, for a client, the mask: everything in front of the payload. */
  method WriteHeader(isServer: bool, dst: array<byte>, at: nat, length: nat, opCode: byte, random: seq<byte>,
                     ghost receiver: Config)
    returns (headerLength: nat)
    requires opCode < 16 && |random| == 4 && length < 0x1_0000_0000_0000_0000 && receiver.isServer == !isServer
    requires at + |FrameStart(receiver, true, opCode, length) + KeyFor(receiver, random)| <= dst.Length
    modifies dst
    ensures var start := FrameStart(receiver, true, opCode, length) + KeyFor(receiver, random);
            && headerLength == |start|
            && dst[..] == old(dst[..at]) + start + old(dst[at + |start|..])
  {
    var lengthCode: byte;
    var extended: seq<byte>;
    if length < 126 {
      headerLength, lengthCode, extended := 2, length, [];
    } else if length <= 0xFFFF {
      headerLength, lengthCode, extended := 4, 126, ToBigEndian(length, 2);
    } else {
      headerLength, lengthCode, extended := 10, 127, ToBigEndian(length, 8);
    }
    var start := [128 + opCode, lengthCode] + extended;
    if !isServer {
      start := [128 + opCode, 128 + lengthCode] + extended + random;
      headerLength := headerLength + 4;
    }
    CopyIn(dst, at, start);
  }

  /** `formatMessage` writes exactly one unfragmented frame, and nothing after it. */
  method FormatMessage(isServer: bool, dst: array<byte>, at: nat, src: seq<byte>, opCode: byte, random: seq<byte>,
                       ghost receiver: Config)
    returns (messageLength: nat)
    requires opCode < 16 && |random| == 4 && |src| < 0x1_0000_0000_0000_0000 && receiver.isServer == !isServer
    requires at + |Frame(receiver, true, opCode, src, random)| <= dst.Length
    modifies dst
    ensures var frame := Frame(receiver, true, opCode, src, random);
            && messageLength == |frame|
            && dst[..] == old(dst[..at]) + frame + old(dst[at + |frame|..])
  {
    hide Unmask, FrameStart;
    ghost var d0 := dst[..];
    var headerLength := WriteHeader(isServer, dst, at, |src|, opCode, random, receiver);
    ghost var start := FrameStart(receiver, true, opCode, |src|) + KeyFor(receiver, random);
    ghost var front := d0[..at] + start;
    var body := at + headerLength;
    messageLength := headerLength + |src|;
    assert dst[..body] == front && dst[body + |src|..] == d0[body + |src|..];
    CopyIn(dst, body, src);
    ghost var d1 := dst[..];
    assert d1[..body] == front && d1[body..body + |src|] == src && d1[body + |src|..] == d0[body + |src|..];
    if !isServer {
      MaskPayload(dst, body, |src|, random);
    } else {
      UnmaskWithoutMask(src);
    }
    FrameInPlace(d0, at, start, Unmask(src, KeyFor(receiver, random)), dst[..]);
  }

  lemma FrameInPlace(d0: seq<byte>, at: nat, start: seq<byte>, masked: seq<byte>, d: seq<byte>)
    requires at + |start| + |masked| <= |d0| == |d|
    requires var body := at + |start|;
             && d[..body] == d0[..at] + start && d[body..body + |masked|] == masked
             && d[body + |masked|..] == d0[body + |masked|..]
    ensures d == d0[..at] + (start + masked) + d0[at + |start + masked|..]
  {
    var body := at + |start|;
    assert d == d[..body] + d[body..body + |masked|] + d[body + |masked|..];
  }

  /** `formatClosePayload`. */
  method FormatClosePayload(dst: array<byte>, code: nat, message: seq<byte>) returns (n: nat)
    requires code < 0x1_0000 && |message| + 2 <= dst.Length
    modifies dst
    ensures n == |ClosePayload(code, message)| && dst[..n] == ClosePayload(code, message)
    ensures dst[n..] == old(dst[n..])
  {
    if code != 0 {
      CopyIn(dst, 0, ToBigEndian(code, 2));
      CopyIn(dst, 2, message);
      return |message| + 2;
    }
    return 0;
  }
}
