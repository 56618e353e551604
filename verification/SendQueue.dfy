/** The message queue as the linked list it is, and the socket that sends through it. */
module SendQueue {
  import opened Bytes
  import opened SendProtocol

  /** `data` points `start` bytes into the message; a partial send moves it on. */
  class Message {
    const bytes: seq<byte>
    var start: nat
    var length: nat
    var next: Message?
    var callback: Callback

    constructor (bytes: seq<byte>)
      ensures this.bytes == bytes && start == 0 && length == |bytes| && next == null && callback == []
    {
      this.bytes := bytes;
      start, length, next, callback := 0, |bytes|, null, [];
    }

    ghost predicate Valid()
      reads this
    {
      start + length <= |bytes|
    }

    function Data(): seq<byte>
      requires Valid()
      reads this
    {
      bytes[start..start + length]
    }

    /** A partial send: the data pointer moves on. */
    method Skip(sent: nat)
      requires Valid() && sent <= length
      modifies `start, `length
      ensures Valid() && Data() == old(Data())[sent..]
    {
      start, length := start + sent, length - sent;
    }
  }

  class Queue {
    var head: Message?
    var tail: Message?
    ghost var spine: seq<Message>

    ghost predicate Valid()
      reads this, spine
    {
      && (forall i, j | 0 <= i < j < |spine| :: spine[i] != spine[j])
      && (forall i | 0 <= i < |spine| :: spine[i].Valid())
      && (forall i | 0 <= i < |spine| - 1 :: spine[i].next == spine[i + 1])
      && (if spine == [] then head == null && tail == null
          else head == spine[0] && tail == spine[|spine| - 1] && tail.next == null)
    }

    ghost function Contents(): (r: seq<Pending>)
      requires Valid()
      reads this, spine
      ensures |r| == |spine|
    {
      seq(|spine|, i requires 0 <= i < |spine| reads this, spine requires Valid() =>
            Pending(spine[i].Data(), spine[i].callback))
    }

    constructor ()
      ensures Valid() && spine == [] && Contents() == []
    {
      head, tail, spine := null, null, [];
    }

    predicate Empty()
      requires Valid()
      reads this, spine
      ensures Empty() <==> Contents() == []
    {
      head == null
    }

    function Front(): (m: Message)
      requires Valid() && !Empty()
      reads this, spine
      ensures m == head == spine[0] && m.Valid() && Contents() != [] && Contents()[0] == Pending(m.Data(), m.callback)
    {
      head
    }

    method Push(message: Message)
      requires Valid() && message.Valid() && message !in spine
      modifies this, message`next, spine
      ensures Valid() && spine == old(spine) + [message]
      ensures Contents() == old(Contents()) + [Pending(old(message.Data()), old(message.callback))]
      ensures message.callback == old(message.callback)
    {
      message.next := null;
      if tail != null {
        tail.next := message;
        tail := message;
      } else {
        head := message;
        tail := message;
      }
      spine := spine + [message];
    }

    method Pop()
      requires Valid() && head != null
      modifies this
      ensures Valid() && spine == old(spine)[1..] && Contents() == old(Contents())[1..]
    {
      assert |spine| > 1 ==> spine[0].next == spine[1];
      var nextMessage := head.next;
      if nextMessage != null {
        head := nextMessage;
      } else {
        head, tail := null, null;
      }
      spine := spine[1..];
    }

    /** The callback of a message is filled in after it has been pushed. */
    method SetCallback(message: Message, callback: Callback)
      requires Valid() && spine != [] && message == spine[|spine| - 1]
      modifies message`callback
      ensures Valid() && spine == old(spine)
      ensures var n := |spine| - 1; Contents() == old(Contents())[n := old(Contents())[n].(callback := callback)]
    {
      assert forall i | 0 <= i < |spine| - 1 :: spine[i] != spine[|spine| - 1];
      message.callback := callback;
    }

    /** A partial send of the first message: its data pointer moves on. */
    method Advance(sent: nat)
      requires Valid() && head != null && sent <= head.length
      modifies head`start, head`length
      ensures Valid() && head == old(head) && spine == old(spine)
      ensures var m := old(Contents())[0]; Contents() == old(Contents())[0 := m.(data := m.data[sent..])]
    {
      assert forall i | 0 < i < |spine| :: spine[0] != spine[i];
      head.Skip(sent);
    }
  }

  class Socket {
    const messageQueue: Queue
    var pollWritable: bool                 // the UV_WRITABLE bit of `state.poll`
    var closed: bool
    ghost var kernel: seq<byte>            // what `send` took so far
    ghost var fired: seq<Fired>            // the callbacks called so far
    ghost var accepted: seq<Pending>
    ghost var asked: seq<nat>

    ghost predicate Valid()
      reads this, messageQueue, messageQueue.spine
    {
      messageQueue.Valid()
    }

    ghost function State(): SendProtocol.State
      requires Valid()
      reads this, messageQueue, messageQueue.spine
    {
      SendProtocol.State(messageQueue.Contents(), pollWritable, closed, kernel, fired, accepted, asked)
    }

    constructor ()
      ensures Valid() && fresh(messageQueue) && messageQueue.spine == [] && State() == IDLE
    {
      messageQueue := new Queue();
      pollWritable, closed := false, false;
      kernel, fired, accepted, asked := [], [], [], [];
    }

    /** `send`: the kernel takes some first part of the data, all of it, or none. */
    method KernelSend(data: seq<byte>, a: Answer) returns (sent: nat)
      modifies `kernel
      ensures sent == Taken(a, data) && kernel == old(kernel) + data[..sent]
    {
      sent := Taken(a, data);
      kernel := kernel + data[..sent];
    }

    method Call(callback: Callback, cancelled: bool)
      modifies `fired
      ensures fired == old(fired) + Calls(callback, cancelled)
    {
      fired := fired + Calls(callback, cancelled);
    }

    /** `write`: true unless the kernel failed; the message is queued unless the kernel took all of it. */
    method Write(message: Message, a: Answer) returns (ok: bool, wasTransferred: bool)
      requires Valid() && message.Valid() && message !in messageQueue.spine && message.callback == []
      modifies this`kernel, this`pollWritable, messageQueue, messageQueue.spine, message
      ensures Valid() && message.callback == []
      ensures var s, data := old(State()), old(message.Data());
              var n := Taken(a, data);
              if s.queue != [] then ok && wasTransferred && State() == s.(queue := s.queue + [Pending(data, [])])
              else if a == Fatal then !ok && State() == s
              else if a.Sent? && n == |data| then ok && !wasTransferred && State() == s.(kernel := s.kernel + data)
              else
                && ok && wasTransferred
                && State() == s.(kernel := s.kernel + data[..n], queue := [Pending(data[n..], [])],
                                 pollWritable := true)
      ensures messageQueue.spine == old(messageQueue.spine) + if ok && wasTransferred then [message] else []
    {
      wasTransferred := false;
      if messageQueue.Empty() {
        var data := message.Data();
        var sent := KernelSend(data, a);
        if a.Sent? && sent == message.length {
          assert data[..sent] == data;
          return true, false;
        } else if !a.Sent? {
          assert data[..0] == [];
          if a == Fatal {
            return false, false;
          }
          assert data[0..] == data;
        } else {
          message.Skip(sent);
        }
        if !pollWritable {
          pollWritable := true;
        }
      }
      messageQueue.Push(message);
      return true, true;
    }

    /** `sendTransformed` on an empty queue. */
    method SendAtOnce(messagePtr: Message, callback: Callback, a: Answer)
      requires Valid() && messageQueue.Empty() && messagePtr.Valid() && messagePtr.callback == []
      modifies this, messageQueue, messagePtr
      ensures Valid() && State() == Send(old(State()), Pending(old(messagePtr.Data()), callback), a)
      ensures messageQueue.spine == [] || messageQueue.spine == [messagePtr]
    {
      hide Queue.Contents, Queue.Valid, Calls, Taken;
      EmptyQueue();
      var data := messagePtr.Data();
      var ok, wasTransferred := Write(messagePtr, a);
      if ok {
        if !wasTransferred {
          Call(callback, false);
        } else {
          messageQueue.SetCallback(messagePtr, callback);
        }
        accepted := accepted + [Pending(data, callback)];
      } else {
        Call(callback, true);
      }
      asked := asked + callback;
    }

    lemma EmptyQueue()
      requires Valid() && messageQueue.Empty()
      ensures messageQueue.spine == [] && State().queue == []
    {
    }

    /** `sendTransformed` behind other messages. */
    method Enqueue(messagePtr: Message, callback: Callback, ghost a: Answer)
      requires Valid() && !messageQueue.Empty() && messagePtr.Valid() && messagePtr !in messageQueue.spine
      modifies this, messageQueue, messageQueue.spine, messagePtr
      ensures Valid() && State() == Send(old(State()), Pending(old(messagePtr.Data()), callback), a)
      ensures messageQueue.spine == old(messageQueue.spine) + [messagePtr]
    {
      hide Queue.Contents, Calls, Taken;
      var data := messagePtr.Data();
      messagePtr.callback := callback;
      messageQueue.Push(messagePtr);
      accepted := accepted + [Pending(data, callback)];
      asked := asked + callback;
    }

    /** `sendTransformed`, for the formatted bytes `data`. */
    method SendTransformed(data: seq<byte>, callback: Callback, a: Answer)
      requires Valid()
      modifies this, messageQueue, messageQueue.spine
      ensures Valid() && State() == Send(old(State()), Pending(data, callback), a)
      ensures fresh(messageQueue.spine[old(|messageQueue.spine|)..]) || messageQueue.spine == old(messageQueue.spine)
    {
      hide Queue.Contents, Queue.Valid, Send;
      var messagePtr := new Message(data);
      assert messagePtr.Data() == data;
      if messageQueue.Empty() {
        EmptyQueue();
        SendAtOnce(messagePtr, callback, a);
      } else {
        Enqueue(messagePtr, callback, a);
      }
    }

    /** `onEnd`: the socket is closed, and the callbacks of all queued messages are called as cancelled. */
    method OnEnd()
      requires Valid()
      modifies this, messageQueue
      ensures Valid() && State() == End(old(State()))
    {
      hide Queue.Contents, Calls;
      closed := true;
      while !messageQueue.Empty()
        invariant Valid() && Cancel(State()) == End(old(State()))
        decreases |messageQueue.spine|
      {
        Call(messageQueue.Front().callback, true);
        messageQueue.Pop();
      }
    }

    /** One turn of the loop: false when it is to stop. */
    method SendFrontMessage(a: Answer) returns (more: bool)
      requires Valid() && !messageQueue.Empty()
      modifies this, messageQueue, messageQueue.spine
      ensures Valid() && State() == SendFront(old(State()), a) && more == GoesOn(old(State()), a)
      ensures more ==> messageQueue.spine == old(messageQueue.spine)[1..]
    {
      hide Calls, End, Queue.Contents;
      var messagePtr := messageQueue.Front();
      var data := messagePtr.Data();
      var sent := KernelSend(data, a);
      if a.Sent? && sent == messagePtr.length {
        assert data[..sent] == data;
        Call(messagePtr.callback, false);
        messageQueue.Pop();
        more := !messageQueue.Empty();
        if !more {
          pollWritable := false;
        }
      } else if !a.Sent? {
        assert kernel == old(kernel) + [];
        assert State() == old(State());
        more := false;
        if a == Fatal {
          OnEnd();
        }
      } else {
        messageQueue.Advance(sent);
        more := false;
      }
    }

    /** The writable part of `ioHandler`. */
    method OnWritable(answers: nat -> Answer)
      requires Valid()
      modifies this, messageQueue, messageQueue.spine
      ensures Valid() && State() == Writable(old(State()), answers)
    {
      hide SendFront, GoesOn, Queue.Contents;
      if messageQueue.Empty() {
        return;
      }
      var k: nat, more := 0, true;
      while more
        invariant Valid()
        invariant more ==> k <= |old(messageQueue.spine)| && messageQueue.spine == old(messageQueue.spine)[k..]
        invariant more ==> !messageQueue.Empty() && Drain(State(), answers, k) == Drain(old(State()), answers, 0)
        invariant !more ==> State() == Drain(old(State()), answers, 0)
        decreases more, |old(messageQueue.spine)| - k
      {
        ghost var s := State();
        more := SendFrontMessage(answers(k));
        if more {
          FewerQueued(s, answers(k));
        }
        k := k + 1;
      }
    }
  }
}
