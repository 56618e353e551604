/** What section 5 of RFC 6455 says about single frames, and its examples, octet by octet. */
module WebSocketExamples {
  import opened Bytes
  import opened Utf8
  import opened WebSocketStream
  import opened WebSocketFrames

  // ----- which frames are refused

  /** Section 5.2 and 5.5: reserved bits, unknown opcodes, and control frames that are long or in fragments. */
  predicate Forbidden(b0: byte, b1: byte) {
    var op := b0 % 16;
    || BitOf(b0, 6) || BitOf(b0, 5) || BitOf(b0, 4)
    || 3 <= op <= 7 || 11 <= op <= 15
    || (op >= 8 && (!BitOf(b0, 7) || b1 % 128 > 125))
  }

  lemma TopBits(b: byte)
    ensures BitOf(b, 7) <==> b / 128 == 1
    ensures BitOf(b, 6) || BitOf(b, 5) || BitOf(b, 4) <==> b / 16 % 8 != 0
  {
    Pow2Values();
  }

  /** As soon as a short header is there, the connection is dropped if and only if the frame is forbidden. */
  lemma RefusedExactly(cfg: Config, data: seq<byte>)
    requires |data| >= if cfg.isServer then 6 else 2
    ensures ParseHeader(cfg, data) == Malformed <==> Forbidden(data[0], data[1])
    ensures Forbidden(data[0], data[1]) ==> forall core ::
              ParseHeads(cfg, core, data) == Outcome(Closed, [Dropped])
  {
    TopBits(data[0]);
    assert IsFin(data[0]) <==> data[0] / 128 == 1;
  }

  /** The shortest form of the length is used: seven bits below 126, 16 below 65536, 64 from there on. */
  lemma ShortestLength(cfg: Config, fin: bool, op: byte, n: nat)
    requires op < 16
    ensures |FrameStart(cfg, fin, op, n)| == if n < 126 then 2 else if n < 65536 then 4 else 10
    ensures FrameStart(cfg, fin, op, n)[1] % 128 == if n < 126 then n else if n < 65536 then 126 else 127
    ensures BitOf(FrameStart(cfg, fin, op, n)[1], 7) <==> cfg.isServer
    ensures BitOf(FrameStart(cfg, fin, op, n)[0], 7) <==> fin
    ensures FrameStart(cfg, fin, op, n)[0] % 128 == op
  {
    TopBits(FrameStart(cfg, fin, op, n)[0]);
    TopBits(FrameStart(cfg, fin, op, n)[1]);
  }

  // ----- the examples of section 5.7

  const HELLO: seq<byte> := [0x48, 0x65, 0x6c, 0x6c, 0x6f]
  const HELLO_KEY: seq<byte> := [0x37, 0xfa, 0x21, 0x3d]
  const HELLO_MASKED: seq<byte> := [0x7f, 0x9f, 0x4d, 0x51, 0x58]

  lemma MaskedHello()
    ensures Unmask(HELLO, HELLO_KEY) == HELLO_MASKED
  {
    hide Xor;
    assert Xor(0x48, 0x37) == 0x7f && Xor(0x65, 0xfa) == 0x9f && Xor(0x6c, 0x21) == 0x4d by { XorOfHello(); }
    assert Xor(0x6c, 0x3d) == 0x51 && Xor(0x6f, 0x37) == 0x58 by { XorOfHello(); }
    forall k | 0 <= k < 5 ensures Unmask(HELLO, HELLO_KEY)[k] == HELLO_MASKED[k] {
      UnmaskAt(HELLO, HELLO_KEY, k);
    }
  }

  lemma XorOfHello()
    ensures Xor(0x48, 0x37) == 0x7f && Xor(0x65, 0xfa) == 0x9f && Xor(0x6c, 0x21) == 0x4d
    ensures Xor(0x6c, 0x3d) == 0x51 && Xor(0x6f, 0x37) == 0x58
  {
  }

  lemma UnmaskedMessages(limit: nat, key: seq<byte>)
    requires |key| == 4
    ensures var toClient := Config(false, limit);
            && Frame(toClient, true, TEXT, HELLO, key) == [0x81, 0x05] + HELLO
            && Frame(toClient, false, TEXT, HELLO[..3], key) == [0x01, 0x03, 0x48, 0x65, 0x6c]
            && Frame(toClient, true, 0, HELLO[3..], key) == [0x80, 0x02, 0x6c, 0x6f]
            && Frame(toClient, true, PING, HELLO, key) == [0x89, 0x05] + HELLO
            && FrameStart(toClient, true, BINARY, 256) == [0x82, 0x7E, 0x01, 0x00]
            && FrameStart(toClient, true, BINARY, 65536) == [0x82, 0x7F, 0, 0, 0, 0, 0, 1, 0, 0]
  {
    assert ToBigEndian(1, 6) == [0, 0, 0, 0, 0, 1] by { assert ToBigEndian(0, 3) == [0, 0, 0]; }
  }

  lemma MaskedMessages(limit: nat)
    ensures var toServer := Config(true, limit);
            && Frame(toServer, true, TEXT, HELLO, HELLO_KEY) == [0x81, 0x85] + HELLO_KEY + HELLO_MASKED
            && Frame(toServer, true, PONG, HELLO, HELLO_KEY) == [0x8a, 0x85] + HELLO_KEY + HELLO_MASKED
  {
    hide Unmask;
    MaskedHello();
  }

  // ----- control frames

  /** A ping is answered with its own payload and reported; a pong is reported; neither touches a message. */
  lemma PingIsAnswered(cfg: Config, core: Core, payload: seq<byte>, key: seq<byte>)
    requires |payload| <= 125 && |payload| <= cfg.maxPayload && |key| == 4
    requires |core.stack| <= 1 && core.control == [] && (core.stack == [] || core.stack[0] in {TEXT, BINARY})
    ensures var ping, pong := [FrameData(true, 9, payload, key)], [FrameData(true, 10, payload, key)];
            var after := Head(core.(lastFin := true), []);
            && Receive(cfg, core, ping) == Outcome(after, [SendPong(payload), Ping(payload)])
            && Receive(cfg, core, pong) == Outcome(after, [Pong(payload)])
  {
    hide Receive;
    ControlArrives(cfg, core, FrameData(true, 9, payload, key));
    ControlArrives(cfg, core, FrameData(true, 10, payload, key));
  }

  lemma ControlArrives(cfg: Config, core: Core, f: FrameData)
    requires |f.payload| <= 125 && |f.payload| <= cfg.maxPayload && f.fin && (f.op == 9 || f.op == 10)
    requires |core.stack| <= 1 && core.control == []
    ensures Receive(cfg, core, [f])
            == Outcome(Head(core.(lastFin := true), []),
                       if f.op == 9 then [SendPong(f.payload), Ping(f.payload)] else [Pong(f.payload)])
  {
    var pushed := core.(stack := core.stack + [f.op], lastFin := true);
    assert Accept(core, f.op, true) == [pushed];
    assert [] + f.payload == f.payload && pushed.stack[..|core.stack|] == core.stack;
    var s := Fragment(pushed, f.payload, 0);
    assert Finish(s.core) == core.(lastFin := true);
    assert [f][1..] == [] && s.events + [] == s.events;
    assert Receive(cfg, Finish(s.core), []) == Outcome(Head(core.(lastFin := true), []), []);
  }

  // ----- closing

  /** The close codes of section 7.4 that an endpoint may send, and those for applications. */
  predicate MaySend(code: nat) { 1000 <= code <= 1003 || 1007 <= code <= 1011 || 4000 <= code <= 4999 }

  lemma CloseCodes(code: nat)
    ensures ValidCloseCode(code) <==> MaySend(code)
  {
  }

  /** The code comes first, most significant octet first. */
  lemma CloseOctets(high: byte, low: byte, reason: seq<byte>)
    ensures var code: nat := 256 * high as int + low as int;
            CloseEvent([high, low] + reason)
              == if MaySend(code) && IsUtf8(reason) then Closing(code, reason) else Closing(0, [])
  {
    hide IsUtf8;
    var payload := [high, low] + reason;
    assert payload[..2] == [high, low] && payload[2..] == reason;
    assert [high, low][..1] == [high] && [high][..0] == [];
    assert FromBigEndian([high]) == high as int;
    assert FromBigEndian([high, low]) == 256 * high as int + low as int;
    CloseCodes(256 * high as int + low as int);
  }

  /** 1000, "normal closure", as it is sent. */
  lemma NormalClosure(reason: seq<byte>)
    ensures ClosePayload(1000, reason) == [0x03, 0xE8] + reason
  {
  }
}
