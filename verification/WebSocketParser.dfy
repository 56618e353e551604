/**
  * The parser itself: the connection state of `WebSocketState` and `WebSocket`, updated in place, and the
  * receive buffer in which headers are respilled and payloads are unmasked where they lie.
  */
module WebSocketParser {
  import opened Bytes
  import opened Utf8
  import opened WebSocketStream
  import opened WebSocketInvariants
  import opened WebSocketMasking

  const POST_PADDING := 4
  const MAX_CLOSE_PAYLOAD := 123

  method ParseClosePayload(src: seq<byte>) returns (code: nat, message: seq<byte>)
    ensures Closing(code, message) == CloseEvent(src)
  {
    if |src| >= 2 {
      code, message := FromBigEndian(src[..2]), src[2..];
      var text := IsValidUtf8(message);
      if code < 1000 || code > 4999 || (code > 1011 && code < 4000) || (code >= 1004 && code <= 1006) || !text {
        return 0, [];
      }
      return code, message;
    }
    return 0, [];
  }

  lemma Subslice(buf: array<byte>, src: nat, length: nat, i: nat, j: nat)
    requires src + length <= buf.Length && i <= j <= length
    ensures buf[src..src + length][i..j] == buf[src + i..src + j]
  {
    var s, t := buf[src..src + length][i..j], buf[src + i..src + j];
    assert forall k | 0 <= k < j - i :: s[k] == buf[src + i + k] == t[k];
  }

  class Connection {
    const isServer: bool
    const maxPayload: nat

    var wantsHead: bool
    var spillLength: nat
    var opStack: int
    var lastFin: bool
    const spill: array<byte>
    const opCode: array<byte>
    var remainingBytes: nat
    const mask: array<byte>

    var fragmentBuffer: seq<byte>
    var controlTipLength: nat

    var closed: bool             // isClosed() || isShuttingDown()
    var events: seq<Event>       // what the handlers have been told

    ghost function Cfg(): Config {
      Config(isServer, maxPayload)
    }

    ghost predicate Shape()
      reads this
    {
      && spill.Length == LongHeader(Cfg()) - 1 && opCode.Length == 2 && mask.Length == 4
      && spill != opCode && spill != mask && opCode != mask
      && -1 <= opStack <= 1
      && spillLength <= spill.Length
      && controlTipLength <= |fragmentBuffer|
    }

    ghost function CoreOf(): Core
      requires Shape()
      reads this, opCode
    {
      var cut := |fragmentBuffer| - controlTipLength;
      Core(opCode[..opStack + 1], lastFin, fragmentBuffer[..cut], fragmentBuffer[cut..])
    }

    ghost function ViewOf(): View
      requires Shape()
      reads this, opCode, spill, mask
    {
      if closed then Closed
      else if wantsHead then Head(CoreOf(), spill[..spillLength])
      else Body(CoreOf(), remainingBytes, if isServer then mask[..] else [])
    }

    ghost predicate Valid()
      reads this, opCode, spill, mask
    {
      && Shape() && WellFormed(Cfg(), ViewOf())
      && (!closed && !wantsHead ==> spillLength == 0)
    }

    constructor (isServer: bool, maxPayload: nat)
      ensures Valid() && Cfg() == Config(isServer, maxPayload)
      ensures ViewOf() == Head(IDLE, []) && events == []
      ensures fresh(spill) && fresh(opCode) && fresh(mask)
    {
      this.isServer, this.maxPayload := isServer, maxPayload;
      wantsHead, spillLength, opStack, lastFin, remainingBytes := true, 0, -1, true, 0;
      spill := new byte[if isServer then 13 else 9];
      opCode := new byte[2];
      mask := new byte[4];
      fragmentBuffer, controlTipLength, closed, events := [], 0, false, [];
    }

    /** The buffer is not one of the connection's own arrays. */
    ghost predicate Apart(buf: array<byte>)
      reads this
    {
      buf != spill && buf != opCode && buf != mask
    }

    method ForceClose()
      modifies this`closed, this`events
      ensures closed && events == old(events) + [Dropped]
    {
      closed, events := true, events + [Dropped];
    }

    method Close(code: nat, message: seq<byte>)
      modifies this`closed, this`events
      ensures closed
      ensures |message| <= MAX_CLOSE_PAYLOAD ==> events == old(events) + [Closing(code, message)]
    {
      var length := if MAX_CLOSE_PAYLOAD < |message| then MAX_CLOSE_PAYLOAD else |message|;
      assert length == |message| ==> message[..length] == message;
      closed, events := true, events + [Closing(code, message[..length])];
    }

    /** A complete message: check that text is text, and deliver it. */
    method HandleWholeData(data: seq<byte>, op: byte) returns (stop: bool)
      modifies this`closed, this`events
      ensures stop == (op == TEXT && !IsUtf8(data)) && closed == (old(closed) || stop)
      ensures events == old(events) + [if stop then Dropped else Message(op, data)]
    {
      hide IsUtf8;
      if op == TEXT {
        var text := IsValidUtf8(data);
        if !text {
          ForceClose();
          return true;
        }
      }
      events := events + [Message(op, data)];
      return false;
    }

    /** `handleFragment` on a data frame. */
    method HandleData(data: seq<byte>, remaining: nat, op: byte, fin: bool) returns (stop: bool)
      requires Shape() && !closed && opStack >= 0 && op == opCode[opStack] < 3 && fin == lastFin
      requires CoreInBody(CoreOf(), |data| + remaining)
      modifies this`fragmentBuffer, this`closed, this`events
      ensures Shape()
      ensures var s := Fragment(old(CoreOf()), data, remaining);
              && stop == closed == s.closed && events == old(events) + s.events
              && (!closed ==> CoreOf() == s.core)
    {
      hide IsUtf8, GoodStack;
      ghost var core := CoreOf();
      assert core.control == [];
      hide CoreInBody;
      assert controlTipLength == 0 && fragmentBuffer == core.message;
      if remaining == 0 && fin && |fragmentBuffer| == 0 {
        assert core.message + data == data;
        stop := HandleWholeData(data, op);
      } else {
        fragmentBuffer := fragmentBuffer + data;
        assert CoreOf() == core.(message := core.message + data);
        if remaining == 0 && fin {
          stop := HandleWholeData(fragmentBuffer, op);
          if !stop {
            fragmentBuffer := [];
            assert CoreOf() == core.(message := []);
          }
        } else {
          stop := false;
        }
      }
    }

    /** A complete control frame: answer and report it, or start closing. */
    method HandleWholeControl(control: seq<byte>, op: byte) returns (stop: bool)
      requires 8 <= op <= 10 && |control| <= 125
      modifies this`closed, this`events
      ensures stop == (op == CLOSE) && closed == (old(closed) || stop)
      ensures events == old(events) + if op == CLOSE then [CloseEvent(control)]
                                      else if op == PING then [SendPong(control), Ping(control)]
                                      else [Pong(control)]
    {
      hide IsUtf8;
      if op == CLOSE {
        var code, message := ParseClosePayload(control);
        Close(code, message);
        return true;
      } else if op == PING {
        events := events + [SendPong(control)];
        events := events + [Ping(control)];
      } else if op == PONG {
        events := events + [Pong(control)];
      }
      return false;
    }

    /** `handleFragment` on a control frame, whose octets share the tail of the buffer. */
    method HandleControl(data: seq<byte>, remaining: nat, op: byte, fin: bool) returns (stop: bool)
      requires Shape() && !closed && opStack >= 0 && op == opCode[opStack] >= 3 && fin == lastFin
      requires CoreInBody(CoreOf(), |data| + remaining)
      modifies this`fragmentBuffer, this`controlTipLength, this`closed, this`events
      ensures Shape()
      ensures var s := Fragment(old(CoreOf()), data, remaining);
              && stop == closed == s.closed && events == old(events) + s.events
              && (!closed ==> CoreOf() == s.core)
    {
      hide IsUtf8, CloseEvent;
      ghost var core := CoreOf();
      if remaining == 0 && fin && controlTipLength == 0 {
        assert core.control + data == data;
        stop := HandleWholeControl(data, op);
      } else {
        fragmentBuffer := fragmentBuffer + data;
        controlTipLength := controlTipLength + |data|;
        assert fragmentBuffer[..|fragmentBuffer| - controlTipLength] == core.message;
        assert fragmentBuffer[|fragmentBuffer| - controlTipLength..] == core.control + data;
        if remaining == 0 && fin {
          stop := HandleWholeControl(fragmentBuffer[|fragmentBuffer| - controlTipLength..], op);
          if !stop {
            fragmentBuffer := fragmentBuffer[..|fragmentBuffer| - controlTipLength];
            controlTipLength := 0;
          }
        } else {
          stop := false;
        }
      }
    }

    method HandleFragment(data: seq<byte>, remaining: nat, op: byte, fin: bool) returns (stop: bool)
      requires Shape() && !closed && opStack >= 0 && op == opCode[opStack] && fin == lastFin
      requires CoreInBody(CoreOf(), |data| + remaining)
      modifies this`fragmentBuffer, this`controlTipLength, this`closed, this`events
      ensures Shape()
      ensures var s := Fragment(old(CoreOf()), data, remaining);
              && stop == closed == s.closed && events == old(events) + s.events
              && (!closed ==> CoreOf() == s.core)
    {
      if op < 3 {
        stop := HandleData(data, remaining, op, fin);
      } else {
        stop := HandleControl(data, remaining, op, fin);
      }
    }

    /** What a step has done so far, followed by what the parser does from here on with the octets left. */
    ghost function FromHere(from: nat, buf: array<byte>, src: nat, length: nat): Outcome
      requires Shape() && from <= |events| && src + length <= buf.Length
      reads this, opCode, buf
    {
      Prepend(events[from..], ParseHeads(Cfg(), CoreOf(), buf[src..src + length]))
    }

    /** The acceptance rule: a frame with an opcode opens a message, one without continues the newest. */
    method AcceptOpcode(op: byte, fin: bool) returns (ok: bool)
      requires Shape() && CoreAtRest(CoreOf())
      modifies this`opStack, this`lastFin, opCode
      ensures Shape()
      ensures Accept(old(CoreOf()), op, fin) == if ok then [CoreOf()] else []
      ensures ok ==> opStack >= 0 && lastFin == fin
    {
      if op != 0 {
        if opStack == 1 || (!lastFin && op < 2) {
          return false;
        }
        ghost var stack := opCode[..opStack + 1];
        opStack := opStack + 1;
        opCode[opStack] := op;
        assert opCode[..opStack + 1] == stack + [op];
      } else if opStack == -1 {
        return false;
      }
      lastFin := fin;
      return true;
    }

    /** A whole payload, moved down over its mask and unmasked on the way; the next frame is not touched. */
    method UnmaskWhole(buf: array<byte>, src: nat, H: nat, n: nat) returns (data: seq<byte>)
      requires Shape() && Apart(buf) && H >= (if isServer then 6 else 2) && src + H + n + POST_PADDING <= buf.Length
      modifies buf
      ensures var key := if isServer then old(buf[src + H - 4..src + H]) else [];
              data == Unmask(old(buf[src + H..src + H + n]), key)
      ensures buf[src + H + n..] == old(buf[src + H + n..])
    {
      hide Unmask;
      if isServer {
        var key := buf[src + H - 4..src + H];
        UnmaskImprecise(buf, src + H - 4, src + H, key, n);
        data := buf[src + H - 4..src + H - 4 + n];
      } else {
        data := buf[src + H..src + H + n];
        UnmaskWithoutMask(data);
      }
    }

    /** The branch of `consumeMessage` for a frame that is here as a whole. */
    method ConsumeWhole(buf: array<byte>, src: nat, length: nat, payLength: nat, H: nat) returns (stop: bool)
      requires Shape() && !closed && wantsHead && Apart(buf) && opStack >= 0
      requires CoreInBody(CoreOf(), payLength)
      requires H >= (if isServer then 6 else 2) && H + payLength <= length && src + length + POST_PADDING <= buf.Length
      modifies this`fragmentBuffer, this`controlTipLength, this`closed, this`events, this`opStack, this`spillLength, buf
      ensures Shape() && old(events) <= events && stop == closed
      ensures buf[src + H + payLength..] == old(buf[src + H + payLength..])
      ensures var key := if isServer then old(buf[src + H - 4..src + H]) else [];
              var s := RestOfPayload(old(CoreOf()), payLength, key, old(buf[src + H..src + length]));
              events == old(events) + s.events && stop == s.closed
              && (!stop ==> CoreOf() == Finish(s.core) && CoreAtRest(CoreOf()) && spillLength == 0)
    {
      hide Fragment, Unmask, CoreInBody, CoreAtRest;
      ghost var core := CoreOf();
      Subslice(buf, src + H, length - H, 0, payLength);
      assert buf[src + H..src + length][..payLength] == buf[src + H..src + H + payLength];
      var data := UnmaskWhole(buf, src, H, payLength);
      FragmentKeepsBody(core, data, 0);
      FragmentKeepsStack(core, data, 0);
      assert CoreOf() == core;
      stop := HandleFragment(data, 0, opCode[opStack], lastFin);
      if stop {
        return;
      }
      if lastFin {
        assert opCode[..opStack] == opCode[..opStack + 1][..opStack];
        opStack := opStack - 1;
      }
      spillLength := 0;
    }

    /** The start of a payload, unmasked over its own header, with the mask kept for the octets still due. */
    method UnmaskStart(buf: array<byte>, src: nat, H: nat, n: nat) returns (data: seq<byte>)
      requires Shape() && Apart(buf) && H >= (if isServer then 6 else 2) && src + H + n + POST_PADDING <= buf.Length
      modifies mask, buf
      ensures var key := if isServer then old(buf[src + H - 4..src + H]) else [];
              && data == Unmask(old(buf[src + H..src + H + n]), key)
              && (if isServer then mask[..] else []) == Rotate(key, n)
    {
      hide Unmask, Rotate;
      if isServer {
        ghost var key, input := buf[src + H - 4..src + H], buf[src + H..src + H + n];
        forall k | 0 <= k < 4 { mask[k] := buf[src + H - 4 + k]; }
        assert mask[..] == key && buf[src + H..src + H + n] == input;
        UnmaskImprecise(buf, src, src + H, mask[..], n);
        data := buf[src..src + n];
        RotatePhase(key, n);
        RotateMask(4 - n % 4, mask);
      } else {
        data := buf[src + H..src + H + n];
        UnmaskWithoutMask(data);
        ClientHasNoMask(n);
      }
    }

    /** The branch of `consumeMessage` for a frame whose payload goes on in the next read. */
    method ConsumePart(buf: array<byte>, src: nat, length: nat, payLength: nat, H: nat)
      requires Shape() && !closed && Apart(buf) && opStack >= 0
      requires CoreInBody(CoreOf(), payLength) && payLength <= maxPayload
      requires H >= (if isServer then 6 else 2) && H <= length < H + payLength
               && src + length + POST_PADDING <= buf.Length
      modifies this, mask, buf
      ensures Valid() && !closed && !wantsHead && events == old(events)
      ensures var key := if isServer then old(buf[src + H - 4..src + H]) else [];
              ViewOf() == PartOfPayload(old(CoreOf()), payLength, key, old(buf[src + H..src + length]))
    {
      hide Fragment, Unmask, Rotate, CoreInBody, CoreAtRest;
      ghost var core := CoreOf();
      spillLength := 0;
      wantsHead := false;
      remainingBytes := payLength - length + H;
      var data := UnmaskStart(buf, src, H, length - H);
      assert CoreOf() == core;
      FragmentKeepsBody(core, data, remainingBytes);
      FragmentKeepsStack(core, data, remainingBytes);
      var stop := HandleFragment(data, remainingBytes, opCode[opStack], lastFin);
    }

    /** The first half of `consumeMessage`: refuse the frame and drop the connection, or make room for it. */
    method OpenFrame(op: byte, fin: bool, payLength: nat, ghost input: seq<byte>) returns (ok: bool)
      requires Shape() && !closed && CoreAtRest(CoreOf())
      requires var h := ParseHeader(Cfg(), input); h.Header? && h.op == op && h.fin == fin && h.payload == payLength
      modifies this`opStack, this`lastFin, this`closed, this`events, opCode
      ensures Shape() && ok == !closed
      ensures var accepted := Accept(old(CoreOf()), op, fin);
              && ok == (accepted != [] && payLength <= maxPayload)
              && (ok ==> accepted[0] == CoreOf() && CoreInBody(CoreOf(), payLength) && events == old(events))
              && (!ok ==> events == old(events) + [Dropped])
    {
      hide ParseHeader, Accept, CoreInBody, CoreAtRest;
      AcceptedIsInBody(Cfg(), CoreOf(), input);
      ok := AcceptOpcode(op, fin);
      if !ok {
        ForceClose();
        return;
      }
      if payLength > maxPayload {
        ForceClose();
        ok := false;
      }
    }

    /** `consumeMessage`: one frame whose header is complete. `stop` means that nothing is left to parse. */
    method ConsumeMessage(buf: array<byte>, src0: nat, length0: nat, payLength: nat, H: nat)
      returns (stop: bool, src: nat, length: nat)
      requires Shape() && !closed && wantsHead && Apart(buf) && CoreAtRest(CoreOf())
      requires src0 + length0 + POST_PADDING <= buf.Length
      requires var h := ParseHeader(Cfg(), buf[src0..src0 + length0]);
               h.Header? && h.payload == payLength && h.size == H
      modifies this, opCode, mask, buf
      ensures Shape() && old(events) <= events
      ensures stop ==> Valid()
      ensures !stop ==> !closed && wantsHead && spillLength == 0 && CoreAtRest(CoreOf())
      ensures !stop ==> src + length == src0 + length0 && length < length0
      ensures ParseHeads(Cfg(), old(CoreOf()), old(buf[src0..src0 + length0]))
           == if stop then Outcome(ViewOf(), events[|old(events)|..]) else FromHere(|old(events)|, buf, src, length)
    {
      hide Fragment, Unmask, Rotate, ParseHeads, WellFormed, IsUtf8, ParseHeader, CoreInBody, CoreAtRest;
      hide RestOfPayload, PartOfPayload, Accept, Prepend, Finish;
      src, length := src0, length0;
      ghost var input := buf[src..src + length];
      HeaderFacts(Cfg(), input);
      ParseHeadsOnFrame(Cfg(), CoreOf(), input);
      ClosedIsWellFormed(Cfg());
      assert buf[src] == input[0];
      var ok := OpenFrame(OpCodeOf(buf[src]), IsFin(buf[src]), payLength, input);
      if !ok {
        return true, src, length;
      }
      ghost var key := if isServer then buf[src + H - 4..src + H] else [];
      if isServer {
        Subslice(buf, src, length, H - 4, H);
      }
      Subslice(buf, src, length, H, length);
      assert key == (if isServer then input[H - 4..H] else []) && input[H..] == buf[src + H..src + length];
      if payLength + H <= length {
        assert input[H + payLength..] == buf[src + H + payLength..][..length - (payLength + H)];
        stop := ConsumeWhole(buf, src, length, payLength, H);
        src, length := src + payLength + H, length - (payLength + H);
        assert buf[src..src + length] == buf[src..][..length];
      } else {
        ConsumePart(buf, src, length, payLength, H);
        stop := true;
      }
    }

    ghost function Key(): seq<byte>
      reads this, mask
    {
      if isServer then mask[..] else []
    }

    /** The last octets of a payload, unmasked without touching the next frame. */
    method UnmaskRest(buf: array<byte>, src: nat, count: nat)
      requires Shape() && Apart(buf) && src + count <= buf.Length
      modifies buf
      ensures buf[src..src + count] == Unmask(old(buf[src..src + count]), Key())
      ensures buf[src + count..] == old(buf[src + count..])
    {
      hide Unmask, Rotate;
      if isServer {
        UnmaskExactly(buf, src, count, mask[..]);
        assert buf[src..src + count] == buf[..][src..src + count];
      } else {
        UnmaskWithoutMask(buf[src..src + count]);
      }
    }

    /** Octets in the middle of a payload, unmasked past the end of the read into its padding. */
    method UnmaskMiddle(buf: array<byte>, src: nat, length: nat)
      requires Shape() && Apart(buf) && src + length + POST_PADDING <= buf.Length
      modifies buf
      ensures buf[src..src + length] == Unmask(old(buf[src..src + length]), Key())
    {
      hide Unmask, Rotate;
      if isServer {
        var groups := length / 4 + 1;
        ghost var wider := buf[src..src + 4 * groups];
        UnmaskPrefix(wider, length, mask[..]);
        assert wider[..length] == buf[src..src + length];
        UnmaskInplace(buf, src, groups, mask[..]);
        assert buf[src..src + length] == buf[src..src + 4 * groups][..length];
      } else {
        UnmaskWithoutMask(buf[src..src + length]);
      }
    }

    /** `consumeContinuation` when the rest of the payload is here: deliver it and go back to headers. */
    method FinishPayload(buf: array<byte>, src: nat, length: nat) returns (stop: bool)
      requires Valid() && !closed && !wantsHead && Apart(buf)
      requires remainingBytes <= length && src + length <= buf.Length
      modifies this, buf
      ensures Shape() && old(events) <= events && stop == closed && remainingBytes == old(remainingBytes)
      ensures buf[src + remainingBytes..src + length] == old(buf[src..src + length])[remainingBytes..]
      ensures var s := RestOfPayload(old(CoreOf()), old(remainingBytes), old(Key()), old(buf[src..src + length]));
              events == old(events) + s.events && stop == s.closed
              && (!stop ==> CoreOf() == Finish(s.core) && CoreAtRest(CoreOf()) && wantsHead && spillLength == 0)
    {
      hide Fragment, Unmask, Rotate, CoreInBody, CoreAtRest;
      ghost var core, input := CoreOf(), buf[src..src + length];
      assert input[..remainingBytes] == buf[src..src + remainingBytes];
      assert input[remainingBytes..] == buf[src + remainingBytes..][..length - remainingBytes];
      UnmaskRest(buf, src, remainingBytes);
      assert buf[src + remainingBytes..src + length] == buf[src + remainingBytes..][..length - remainingBytes];
      var data := buf[src..src + remainingBytes];
      FragmentKeepsBody(core, data, 0);
      FragmentKeepsStack(core, data, 0);
      assert CoreOf() == core;
      stop := HandleFragment(data, 0, opCode[opStack], lastFin);
      if stop {
        return;
      }
      if lastFin {
        assert opCode[..opStack] == opCode[..opStack + 1][..opStack];
        opStack := opStack - 1;
      }
      wantsHead := true;
    }

    /** `consumeContinuation` when only a part of the rest is here. */
    method ExtendPayload(buf: array<byte>, src: nat, length: nat)
      requires Valid() && !closed && !wantsHead && Apart(buf)
      requires length < remainingBytes && src + length + POST_PADDING <= buf.Length
      modifies this, mask, buf
      ensures Valid() && !closed && !wantsHead && events == old(events)
      ensures ViewOf() == PartOfPayload(old(CoreOf()), old(remainingBytes), old(Key()), old(buf[src..src + length]))
    {
      hide Fragment, Unmask, Rotate, CoreInBody, CoreAtRest;
      ghost var core, key := CoreOf(), Key();
      if isServer {
        RotatePhase(key, length);
      } else {
        ClientHasNoMask(length);
      }
      UnmaskMiddle(buf, src, length);
      remainingBytes := remainingBytes - length;
      var data := buf[src..src + length];
      FragmentKeepsBody(core, data, remainingBytes);
      FragmentKeepsStack(core, data, remainingBytes);
      assert CoreOf() == core;
      var stop := HandleFragment(data, remainingBytes, opCode[opStack], lastFin);
      if isServer && length % 4 != 0 {
        ghost var next := CoreOf();
        RotateMask(4 - length % 4, mask);
        assert CoreOf() == next;
      }
    }

    /** `consumeContinuation`. `more` means that headers may follow in what is left of the read. */
    method ConsumeContinuation(buf: array<byte>, src0: nat, length0: nat) returns (more: bool, src: nat, length: nat)
      requires Valid() && !closed && !wantsHead && Apart(buf) && src0 + length0 + POST_PADDING <= buf.Length
      modifies this, mask, buf
      ensures Shape() && old(events) <= events
      ensures !more ==> Valid()
      ensures more ==> !closed && wantsHead && spillLength == 0 && CoreAtRest(CoreOf())
      ensures more ==> src + length == src0 + length0
      ensures FeedBody(Cfg(), old(CoreOf()), old(remainingBytes), old(Key()), old(buf[src0..src0 + length0]))
           == if more then FromHere(|old(events)|, buf, src, length) else Outcome(ViewOf(), events[|old(events)|..])
    {
      hide ParseHeads, CoreInBody, CoreAtRest, WellFormed, RestOfPayload, PartOfPayload;
      src, length := src0, length0;
      ClosedIsWellFormed(Cfg());
      if remainingBytes <= length {
        var stop := FinishPayload(buf, src, length);
        if stop {
          return false, src, length;
        }
        src, length := src + remainingBytes, length - remainingBytes;
        more := true;
      } else {
        ExtendPayload(buf, src, length);
        more := false;
      }
    }

    /** The payload length and header size of a frame, once the header is here as a whole. */
    method ReadLength(buf: array<byte>, src: nat, length: nat) returns (enough: bool, payLength: nat, H: nat)
      requires length >= ShortHeader(Cfg()) && src + length <= buf.Length && !BadStart(buf[src], buf[src + 1])
      ensures var h := ParseHeader(Cfg(), buf[src..src + length]);
              if enough then h.Header? && h.payload == payLength && h.size == H else h == Incomplete
    {
      payLength, H := Length7(buf[src + 1]), if isServer then 6 else 2;
      enough := true;
      if payLength == 126 {
        H := if isServer then 8 else 4;
        if length < H {
          return false, payLength, H;
        }
        Subslice(buf, src, length, 2, 4);
        payLength := FromBigEndian(buf[src + 2..src + 4]);
      } else if payLength == 127 {
        H := if isServer then 14 else 10;
        if length < H {
          return false, payLength, H;
        }
        Subslice(buf, src, length, 2, 10);
        payLength := FromBigEndian(buf[src + 2..src + 10]);
      }
    }

    /** The header loop of `consume`, and the spilling of what it leaves. */
    method ParseNext(buf: array<byte>, src0: nat, length0: nat)
      requires Shape() && !closed && wantsHead && Apart(buf) && CoreAtRest(CoreOf())
      requires spillLength > 0 ==> length0 > 0
      requires src0 + length0 + POST_PADDING <= buf.Length
      modifies this, spill, opCode, mask, buf
      ensures Valid() && old(events) <= events
      ensures Outcome(ViewOf(), events[|old(events)|..]) == old(FromHere(|events|, buf, src0, length0))
    {
      hide ParseHeads, CoreInBody, CoreAtRest, WellFormed, ParseHeader;
      var src, length := src0, length0;
      ghost var from := |events|;
      ghost var goal := FromHere(from, buf, src, length);
      var enough := true;
      while enough && length >= (if isServer then 6 else 2)
        invariant Shape() && !closed && wantsHead && Apart(buf) && CoreAtRest(CoreOf())
        invariant spillLength > 0 ==> length > 0
        invariant src + length == src0 + length0
        invariant old(events) <= events
        invariant FromHere(from, buf, src, length) == goal
        invariant !enough ==> ParseHeader(Cfg(), buf[src..src + length]) == Incomplete
        decreases enough, length
      {
        if BadStart(buf[src], buf[src + 1]) {
          MalformedDrops(Cfg(), CoreOf(), buf[src..src + length]);
          ForceClose();
          ClosedIsWellFormed(Cfg());
          return;
        }
        var payLength, H;
        enough, payLength, H := ReadLength(buf, src, length);
        if enough {
          ghost var before, done := events[from..], |events|;
          var stop;
          stop, src, length := ConsumeMessage(buf, src, length, payLength, H);
          assert events[from..] == before + events[done..];
          if stop {
            return;
          }
        }
      }
      if enough {
        TooShortForHeader(Cfg(), buf[src..src + length]);
      }
      Spill(buf, src, length);
    }

    /** What is left of a read is kept for the next one. */
    method Spill(buf: array<byte>, src: nat, length: nat)
      requires Shape() && !closed && wantsHead && Apart(buf) && CoreAtRest(CoreOf())
      requires spillLength > 0 ==> length > 0
      requires src + length <= buf.Length
      requires ParseHeader(Cfg(), buf[src..src + length]) == Incomplete
      modifies this`spillLength, spill
      ensures Valid() && !closed
      ensures ParseHeads(Cfg(), old(CoreOf()), old(buf[src..src + length])) == Outcome(ViewOf(), [])
    {
      hide ParseHeader, CoreAtRest, WellFormed, ParseHeads;
      ghost var core, input := CoreOf(), buf[src..src + length];
      IncompleteSpills(Cfg(), core, input);
      if length > 0 {
        forall k | 0 <= k < length { spill[k] := buf[src + k]; }
        spillLength := length;
      }
      assert spill[..spillLength] == input && CoreOf() == core;
    }

    /** `consume`: one read, which lies in the buffer with room for a spilled header in front of it. */
    method Consume(buf: array<byte>, src0: nat, length0: nat)
      requires Valid() && !closed && Apart(buf)
      requires LongHeader(Cfg()) - 1 <= src0 && src0 + length0 + POST_PADDING <= buf.Length
      modifies this, spill, opCode, mask, buf
      ensures Valid() && old(events) <= events
      ensures Feed(Cfg(), old(ViewOf()), old(buf[src0..src0 + length0])) == Outcome(ViewOf(), events[|old(events)|..])
    {
      hide ParseHeads, FeedBody, CoreInBody, CoreAtRest;
      var src, length := src0, length0;
      ghost var input := buf[src..src + length];
      if spillLength > 0 {
        src, length := src - spillLength, length + spillLength;
        forall k | 0 <= k < spillLength { buf[src + k] := spill[k]; }
      }
      assert buf[src..src + length] == spill[..spillLength] + input;
      if wantsHead {
        ParseNext(buf, src, length);
        assert [] + events[|old(events)|..] == events[|old(events)|..];
      } else {
        assert spill[..spillLength] + input == input;
        var more;
        more, src, length := ConsumeContinuation(buf, src, length);
        if more {
          ghost var mid := events;
          ParseNext(buf, src, length);
          assert events[|old(events)|..] == mid[|old(events)|..] + events[|mid|..];
        }
      }
    }

    /** `onData`: nothing is read any more once the connection is closed or closing. */
    method OnData(buf: array<byte>, src: nat, length: nat)
      requires Valid() && Apart(buf)
      requires LongHeader(Cfg()) - 1 <= src && src + length + POST_PADDING <= buf.Length
      modifies this, spill, opCode, mask, buf
      ensures Valid() && old(events) <= events
      ensures Feed(Cfg(), old(ViewOf()), old(buf[src..src + length])) == Outcome(ViewOf(), events[|old(events)|..])
    {
      if !closed {
        Consume(buf, src, length);
      }
    }
  }

  /** The life of a connection: reads of any sizes, each into the same padded buffer. */
  method ReadAll(c: Connection, buf: array<byte>, chunks: seq<seq<byte>>)
    requires c.Valid() && c.Apart(buf)
    requires forall i | 0 <= i < |chunks| :: LongHeader(c.Cfg()) - 1 + |chunks[i]| + POST_PADDING <= buf.Length
    modifies c, c.spill, c.opCode, c.mask, buf
    ensures c.Valid() && old(c.events) <= c.events
    ensures Feed(c.Cfg(), old(c.ViewOf()), Flatten(chunks)) == Outcome(c.ViewOf(), c.events[|old(c.events)|..])
  {
    hide Feed, Stable, WellFormed;
    ghost var cfg, v := c.Cfg(), c.ViewOf();
    WellFormedIsStable(cfg, v);
    FeedNothing(cfg, v);
    ghost var done: seq<byte> := [];
    var start := if c.isServer then 13 else 9;
    for i := 0 to |chunks|
      invariant c.Valid() && old(c.events) <= c.events
      invariant done + Flatten(chunks[i..]) == Flatten(chunks)
      invariant Feed(cfg, v, done) == Outcome(c.ViewOf(), c.events[|old(c.events)|..])
    {
      var chunk := chunks[i];
      ghost var events := c.events;
      forall k | 0 <= k < |chunk| { buf[start + k] := chunk[k]; }
      assert buf[start..start + |chunk|] == chunk;
      c.OnData(buf, start, |chunk|);
      assert c.events[|old(c.events)|..] == events[|old(c.events)|..] + c.events[|events|..];
      FeedPieces(cfg, v, done, chunk);
      assert chunks[i..][0] == chunk && chunks[i..][1..] == chunks[i + 1..];
      done := done + chunk;
      assert done + Flatten(chunks[i + 1..]) == Flatten(chunks);
    }
    assert done + [] == done;
  }
}
