/**
  * Sending on a plain socket: what the kernel takes at once is gone, the rest waits in a queue until the socket is
  * writable. How much the kernel takes each time is up to it.
  */
module SendProtocol {
  import opened Bytes

  /** What `send` answers; it never takes more than it was given. */
  datatype Answer = Sent(n: nat) | WouldBlock | Fatal

  /** No completion callback, or one, known by a number. */
  type Callback = c: seq<nat> | |c| <= 1 witness []

  /** A message as it was sent, or what is left of it. */
  datatype Pending = Pending(data: seq<byte>, callback: Callback)

  datatype Fired = Fired(id: nat, cancelled: bool)

  /**
    * `kernel` is all that was handed over, `accepted` the messages that `write` took, `asked` the callbacks of all
    * messages, and `fired` the callbacks that were called.
    */
  datatype State = State(queue: seq<Pending>, pollWritable: bool, closed: bool, kernel: seq<byte>, fired: seq<Fired>,
                         accepted: seq<Pending>, asked: seq<nat>)

  const IDLE := State([], false, false, [], [], [], [])

  function Taken(a: Answer, data: seq<byte>): (n: nat)
    ensures n <= |data|
  {
    if a.Sent? then (if a.n < |data| then a.n else |data|) else 0
  }

  function Fire(s: State, callback: Callback, cancelled: bool): State {
    s.(fired := s.fired + Calls(callback, cancelled))
  }

  function Calls(callback: seq<nat>, cancelled: bool): (r: seq<Fired>)
    ensures |r| == |callback|
  {
    seq(|callback|, i requires 0 <= i < |callback| => Fired(callback[i], cancelled))
  }

  /** `sendTransformed` and `write`. */
  function Send(s: State, m: Pending, a: Answer): State {
    var s1 := s.(asked := s.asked + m.callback);
    if s.queue != [] then s1.(queue := s.queue + [m], accepted := s.accepted + [m])
    else if a == Fatal then Fire(s1, m.callback, true)
    else
      var n := Taken(a, m.data);
      var s2 := s1.(kernel := s.kernel + m.data[..n], accepted := s.accepted + [m]);
      if a.Sent? && n == |m.data| then Fire(s2, m.callback, false)
      else s2.(queue := [m.(data := m.data[n..])], pollWritable := true)
  }

  /** The callbacks of everything still queued are called as cancelled. */
  function Cancel(s: State): State
    decreases |s.queue|
  {
    if s.queue == [] then s else Cancel(Fire(s.(queue := s.queue[1..]), s.queue[0].callback, true))
  }

  /** `onEnd`. */
  function End(s: State): State { Cancel(s.(closed := true)) }

  /** One turn of the loop of `ioHandler` on a writable socket. */
  function SendFront(s: State, a: Answer): State
    requires s.queue != []
  {
    var m := s.queue[0];
    var n := Taken(a, m.data);
    if a.Sent? && n == |m.data| then
      var s1 := Fire(s.(kernel := s.kernel + m.data, queue := s.queue[1..]), m.callback, false);
      if s1.queue == [] then s1.(pollWritable := false) else s1
    else if a == Fatal then End(s)
    else if a == WouldBlock then s
    else s.(kernel := s.kernel + m.data[..n], queue := s.queue[0 := m.(data := m.data[n..])])
  }

  predicate GoesOn(s: State, a: Answer)
    requires s.queue != []
  {
    a.Sent? && Taken(a, s.queue[0].data) == |s.queue[0].data| && |s.queue| > 1
  }

  /** The loop; `answers` tells what the kernel does the k-th time. */
  function Drain(s: State, answers: nat -> Answer, k: nat): State
    requires s.queue != []
    decreases |s.queue|
  {
    if GoesOn(s, answers(k)) then Drain(SendFront(s, answers(k)), answers, k + 1) else SendFront(s, answers(k))
  }

  function Writable(s: State, answers: nat -> Answer): State {
    if s.queue == [] then s else Drain(s, answers, 0)
  }

  datatype Op = SendOp(m: Pending, a: Answer) | WritableOp(answers: nat -> Answer) | EndOp

  function Step(s: State, op: Op): State {
    match op
    case SendOp(m, a) => Send(s, m, a)
    case WritableOp(answers) => Writable(s, answers)
    case EndOp => End(s)
  }

  /** Whatever the application sends and the kernel does, until the socket is closed. */
  function Run(s: State, ops: seq<Op>): State
    decreases |ops|
  {
    if ops == [] || s.closed then s else Run(Step(s, ops[0]), ops[1..])
  }

  // ----- what every run keeps

  function Payload(ms: seq<Pending>): seq<byte> {
    if ms == [] then [] else ms[0].data + Payload(ms[1..])
  }

  function Callbacks(ms: seq<Pending>): seq<nat> {
    if ms == [] then [] else ms[0].callback + Callbacks(ms[1..])
  }

  function Ids(fired: seq<Fired>): seq<nat> {
    seq(|fired|, i requires 0 <= i < |fired| => fired[i].id)
  }

  /** The callbacks that reported success, in order. */
  function Completed(fired: seq<Fired>): seq<nat> {
    if fired == [] then []
    else Completed(fired[..|fired| - 1]) + if fired[|fired| - 1].cancelled then [] else [fired[|fired| - 1].id]
  }

  lemma {:induction false} PayloadOfConcat(a: seq<Pending>, b: seq<Pending>)
    ensures Payload(a + b) == Payload(a) + Payload(b) && Callbacks(a + b) == Callbacks(a) + Callbacks(b)
    decreases |a|
  {
    if a == [] {
      assert a + b == b;
    } else {
      assert (a + b)[1..] == a[1..] + b;
      PayloadOfConcat(a[1..], b);
    }
  }

  lemma PayloadOfOne(m: Pending)
    ensures Payload([m]) == m.data && Callbacks([m]) == m.callback
  {
    assert [m][1..] == [];
  }

  lemma {:induction false} CompletedOfConcat(fired: seq<Fired>, callback: seq<nat>, cancelled: bool)
    ensures Completed(fired + Calls(callback, cancelled)) == Completed(fired) + if cancelled then [] else callback
    ensures Ids(fired + Calls(callback, cancelled)) == Ids(fired) + callback
    decreases |callback|
  {
    var all := fired + Calls(callback, cancelled);
    if callback == [] {
      assert all == fired;
    } else {
      var n := |callback| - 1;
      assert all[..|all| - 1] == fired + Calls(callback[..n], cancelled);
      CompletedOfConcat(fired, callback[..n], cancelled);
      assert callback == callback[..n] + [callback[n]];
    }
  }

  /** The first `n` accepted messages are those that were reported as sent, and the kernel has every byte of them. */
  predicate Reported(s: State, n: nat) {
    && n <= |s.accepted|
    && Completed(s.fired) == Callbacks(s.accepted[..n])
    && Payload(s.accepted[..n]) <= s.kernel
  }

  predicate IsSuffix(a: seq<byte>, b: seq<byte>) { |a| <= |b| && b[|b| - |a|..] == a }

  /** The accepted messages are those that went out whole and those in the queue, the first of them perhaps in part. */
  predicate Split(s: State) {
    && |s.queue| <= |s.accepted|
    && var whole := |s.accepted| - |s.queue|;
       && (forall k | 0 < k < |s.queue| :: s.queue[k] == s.accepted[whole + k])
       && (s.queue != [] ==> s.queue[0].callback == s.accepted[whole].callback)
       && (s.queue != [] ==> IsSuffix(s.queue[0].data, s.accepted[whole].data))
       && Reported(s, whole)
  }

  /**
    * Conservation: what the kernel got followed by what is queued is everything accepted, in order; the callbacks
    * that were called followed by those still queued are all that were asked for, in order; success is reported for
    * the messages that went out whole and no others; and a queue is polled for.
    */
  predicate Open(s: State) {
    && s.kernel + Payload(s.queue) == Payload(s.accepted)
    && Split(s)
    && (s.queue != [] ==> s.pollWritable)
    && Ids(s.fired) + Callbacks(s.queue) == s.asked
  }

  /**
    * Once closed, the kernel got a first part of it, every callback has been called, and success only for messages that
    * the kernel got to their last byte.
    */
  ghost predicate Closed(s: State) {
    && s.closed && s.queue == [] && Ids(s.fired) == s.asked
    && s.kernel <= Payload(s.accepted)
    && exists n: nat :: Reported(s, n)
  }

  ghost predicate Inv(s: State) { if s.closed then Closed(s) else Open(s) }

  lemma EndKeeps(s: State)
    requires Open(s) && !s.closed
    ensures End(s).closed && Closed(End(s))
    ensures Ids(End(s).fired) == Ids(s.fired) + Callbacks(s.queue) && Completed(End(s).fired) == Completed(s.fired)
  {
    hide Ids, Completed, Calls, Payload, Callbacks;
    CancelFires(s.(closed := true));
    assert Reported(End(s), |s.accepted| - |s.queue|);
  }

  lemma {:induction false} CancelFires(s: State)
    ensures var e := Cancel(s);
            && e == s.(queue := [], fired := e.fired)
            && Ids(e.fired) == Ids(s.fired) + Callbacks(s.queue) && Completed(e.fired) == Completed(s.fired)
    decreases |s.queue|
  {
    hide Ids, Completed, Calls;
    if s.queue == [] {
      assert Ids(s.fired) + [] == Ids(s.fired);
    } else {
      CompletedOfConcat(s.fired, s.queue[0].callback, true);
      CancelFires(Fire(s.(queue := s.queue[1..]), s.queue[0].callback, true));
      assert Completed(s.fired) + [] == Completed(s.fired);
      var c, rest := s.queue[0].callback, Callbacks(s.queue[1..]);
      assert Ids(s.fired) + c + rest == Ids(s.fired) + (c + rest);
    }
  }

  /** What is queued behind the first `n` accepted messages leaves them whole to the kernel. */
  lemma WholeIsThere(s: State, kernel: seq<byte>, n: nat, rest: seq<Pending>)
    requires n <= |s.accepted| && rest == s.accepted[n..] && kernel + Payload(rest) == Payload(s.accepted)
    ensures Payload(s.accepted[..n]) == kernel
  {
    hide Payload;
    assert s.accepted == s.accepted[..n] + s.accepted[n..];
    PayloadOfConcat(s.accepted[..n], s.accepted[n..]);
    SamePrefix(kernel, Payload(s.accepted[..n]), Payload(rest));
  }

  lemma SamePrefix(a: seq<byte>, b: seq<byte>, t: seq<byte>)
    requires a + t == b + t
    ensures a == b
  {
    assert |a| == |b| && (a + t)[..|a|] == a && (b + t)[..|b|] == b;
  }

  /** The first message has gone out whole. */
  lemma FrontIsSent(s: State)
    requires Open(s) && s.queue != []
    ensures var m := s.queue[0];
            var s1 := Fire(s.(kernel := s.kernel + m.data, queue := s.queue[1..]), m.callback, false);
            Open(if s1.queue == [] then s1.(pollWritable := false) else s1)
  {
    hide Ids, Completed, Calls, Payload, Callbacks;
    var m, rest, whole := s.queue[0], s.queue[1..], |s.accepted| - |s.queue|;
    CompletedOfConcat(s.fired, m.callback, false);
    assert s.accepted[..whole + 1] == s.accepted[..whole] + [s.accepted[whole]];
    PayloadOfConcat(s.accepted[..whole], [s.accepted[whole]]);
    PayloadOfOne(s.accepted[whole]);
    assert s.queue == [m] + rest;
    PayloadOfConcat([m], rest);
    PayloadOfOne(m);
    assert s.kernel + m.data + Payload(rest) == s.kernel + (m.data + Payload(rest));
    WholeIsThere(s, s.kernel + m.data, whole + 1, rest);
    assert Ids(s.fired) + m.callback + Callbacks(rest) == Ids(s.fired) + (m.callback + Callbacks(rest));
  }

  /** The first message has gone out in part. */
  lemma FrontIsCut(s: State, n: nat)
    requires Open(s) && s.queue != [] && n <= |s.queue[0].data|
    ensures var m := s.queue[0];
            Open(s.(kernel := s.kernel + m.data[..n], queue := s.queue[0 := m.(data := m.data[n..])]))
  {
    hide Ids, Completed, Calls, Payload, Callbacks;
    var m := s.queue[0];
    CutFront(s.queue, n);
    assert m.data[..n] + Payload(s.queue[0 := m.(data := m.data[n..])]) == Payload(s.queue);
    assert s.kernel + m.data[..n] + Payload(s.queue[0 := m.(data := m.data[n..])]) == s.kernel + Payload(s.queue);
  }

  lemma CutFront(queue: seq<Pending>, n: nat)
    requires queue != [] && n <= |queue[0].data|
    ensures var cut := queue[0 := queue[0].(data := queue[0].data[n..])];
            Payload(queue) == queue[0].data[..n] + Payload(cut) && Callbacks(cut) == Callbacks(queue)
  {
    var data, rest := queue[0].data, queue[1..];
    var cut := queue[0 := queue[0].(data := data[n..])];
    assert cut[1..] == rest;
    assert Payload(cut) == data[n..] + Payload(rest);
    assert data == data[..n] + data[n..];
  }

  function Pushed(s: State, m: Pending): State {
    s.(asked := s.asked + m.callback, queue := s.queue + [m], accepted := s.accepted + [m], pollWritable := true)
  }

  /** A message joins the queue. */
  lemma PushKeeps(s: State, m: Pending)
    requires Open(s)
    ensures Open(Pushed(s, m))
  {
    hide Ids, Completed, Payload, Callbacks, Split;
    PayloadOfConcat(s.accepted, [m]);
    PayloadOfConcat(s.queue, [m]);
    PayloadOfOne(m);
    assert s.kernel + (Payload(s.queue) + m.data) == Payload(s.accepted) + m.data;
    assert Ids(s.fired) + (Callbacks(s.queue) + m.callback) == s.asked + m.callback;
    PushSplits(s, m);
  }

  lemma PushSplits(s: State, m: Pending)
    requires Split(s)
    ensures Split(Pushed(s, m))
  {
    hide Completed, Payload, Callbacks, IsSuffix;
    var s', whole := Pushed(s, m), |s.accepted| - |s.queue|;
    assert s'.accepted[..whole] == s.accepted[..whole];
    assert |s'.accepted| - |s'.queue| == whole;
    if s.queue == [] {
      assert s'.queue[0] == s'.accepted[whole] == m;
      WholeIsSuffix(m.data);
    } else {
      assert s'.queue[0] == s.queue[0] && s'.accepted[whole] == s.accepted[whole];
    }
  }

  lemma WholeIsSuffix(data: seq<byte>)
    ensures IsSuffix(data, data)
  {
  }

  /** A message that the kernel refuses is not accepted; its callback reports that at once. */
  lemma RefusalKeeps(s: State, m: Pending)
    requires Open(s) && s.queue == []
    ensures Open(Fire(s.(asked := s.asked + m.callback), m.callback, true))
  {
    hide Ids, Completed, Calls, Payload;
    CompletedOfConcat(s.fired, m.callback, true);
    assert Ids(s.fired) + [] == Ids(s.fired);
    assert Ids(s.fired) + m.callback + [] == Ids(s.fired) + m.callback;
    assert Completed(s.fired) + [] == Completed(s.fired);
  }

  lemma SendKeeps(s: State, m: Pending, a: Answer)
    requires Open(s) && !s.closed
    ensures Open(Send(s, m, a)) && !Send(s, m, a).closed
  {
    hide Open, Calls;
    PushKeeps(s, m);
    var pushed := Pushed(s, m);
    if s.queue != [] {
      QueueIsPolled(s);
    } else if a == Fatal {
      RefusalKeeps(s, m);
    } else {
      assert pushed.queue == [m] && [m][1..] == [];
      var n := Taken(a, m.data);
      if a.Sent? && n == |m.data| {
        assert m.data[..n] == m.data;
        FrontIsSent(pushed);
        PollDoesNotMatter(Fire(pushed.(kernel := s.kernel + m.data, queue := [], pollWritable := false), m.callback,
                               false),
                          s.pollWritable);
      } else {
        assert [m][0 := m.(data := m.data[n..])] == [m.(data := m.data[n..])];
        FrontIsCut(pushed, n);
      }
    }
  }

  lemma QueueIsPolled(s: State)
    requires Open(s) && s.queue != []
    ensures s.pollWritable
  {
  }

  lemma PollDoesNotMatter(s: State, poll: bool)
    requires Open(s) && (s.queue == [] || poll)
    ensures Open(s.(pollWritable := poll))
  {
    hide Ids, Completed, Payload, Callbacks;
  }

  lemma SendFrontKeeps(s: State, a: Answer)
    requires Open(s) && !s.closed && s.queue != []
    ensures Inv(SendFront(s, a))
    ensures GoesOn(s, a) ==> Open(SendFront(s, a)) && !SendFront(s, a).closed && SendFront(s, a).queue != []
  {
    hide Open, Closed, Calls, End;
    var m := s.queue[0];
    if a.Sent? && Taken(a, m.data) == |m.data| {
      FrontIsSent(s);
    } else if a == Fatal {
      EndKeeps(s);
    } else {
      FrontIsCut(s, Taken(a, m.data));
    }
  }

  lemma {:induction false} DrainKeeps(s: State, answers: nat -> Answer, k: nat)
    requires Open(s) && !s.closed && s.queue != []
    ensures Inv(Drain(s, answers, k))
    decreases |s.queue|
  {
    hide Open, Inv, GoesOn;
    SendFrontKeeps(s, answers(k));
    if GoesOn(s, answers(k)) {
      FewerQueued(s, answers(k));
      DrainKeeps(SendFront(s, answers(k)), answers, k + 1);
    }
  }

  lemma FewerQueued(s: State, a: Answer)
    requires s.queue != [] && GoesOn(s, a)
    ensures 0 < |SendFront(s, a).queue| < |s.queue|
  {
  }

  lemma StepKeeps(s: State, op: Op)
    requires Open(s) && !s.closed
    ensures Inv(Step(s, op))
  {
    hide Open, Closed, Drain, End, Send;
    match op
    case SendOp(m, a) =>
      SendKeeps(s, m, a);
    case WritableOp(answers) =>
      if s.queue != [] { DrainKeeps(s, answers, 0); }
    case EndOp =>
      EndKeeps(s);
  }

  lemma {:induction false} RunKeeps(s: State, ops: seq<Op>)
    requires Inv(s)
    ensures Inv(Run(s, ops))
    decreases |ops|
  {
    hide Open, Closed, Step;
    if ops != [] && !s.closed {
      StepKeeps(s, ops[0]);
      RunKeeps(Step(s, ops[0]), ops[1..]);
    }
  }

  /**
    * In every run, under every pattern of full, partial, blocked and failing sends: bytes are neither lost nor
    * repeated nor reordered, each completion callback is called at most once and in order, success is reported only
    * for messages of which the kernel has every byte, and on an open socket for all that are not queued any more, and
    * as long as something is queued the socket is polled for writing.
    */
  lemma EveryRun(ops: seq<Op>)
    ensures var s := Run(IDLE, ops);
            && (if s.closed then exists n: nat :: Reported(s, n)
                else |s.queue| <= |s.accepted| && Reported(s, |s.accepted| - |s.queue|))
            && Completed(s.fired) <= Callbacks(s.accepted)
            && (if s.closed then s.kernel <= Payload(s.accepted)
                else s.kernel + Payload(s.queue) == Payload(s.accepted))
            && Ids(s.fired) + Callbacks(s.queue) == s.asked
            && (s.queue != [] ==> s.pollWritable)
  {
    hide Run, Inv, Reported, Payload, Callbacks, Completed, Ids;
    StartsWell();
    RunKeeps(IDLE, ops);
    Conserved(Run(IDLE, ops));
  }

  lemma StartsWell()
    ensures Inv(IDLE)
  {
    assert [] + Payload([]) == Payload([]);
  }

  lemma Conserved(s: State)
    requires Inv(s)
    ensures if s.closed then exists n: nat :: Reported(s, n)
            else |s.queue| <= |s.accepted| && Reported(s, |s.accepted| - |s.queue|)
    ensures Completed(s.fired) <= Callbacks(s.accepted) && Ids(s.fired) + Callbacks(s.queue) == s.asked
    ensures if s.closed then s.kernel <= Payload(s.accepted) else s.kernel + Payload(s.queue) == Payload(s.accepted)
    ensures s.queue != [] ==> s.pollWritable
  {
    hide Reported, Payload, Completed, Ids;
    var n: nat :| Reported(s, n);
    ReportedInOrder(s, n);
    if s.closed {
      assert Ids(s.fired) + [] == Ids(s.fired);
    }
  }

  lemma ReportedInOrder(s: State, n: nat)
    requires Reported(s, n)
    ensures Completed(s.fired) <= Callbacks(s.accepted)
  {
    hide Completed, Payload;
    assert s.accepted == s.accepted[..n] + s.accepted[n..];
    PayloadOfConcat(s.accepted[..n], s.accepted[n..]);
  }

  // ----- progress

  /**
    * A message on an idle socket goes to the kernel at once, as far as the kernel takes it; only the rest waits. Behind
    * other messages it waits as a whole, and a failing kernel refuses it.
    */
  lemma SendTakes(s: State, m: Pending, a: Answer)
    ensures var s' := Send(s, m, a);
            && s'.asked == s.asked + m.callback && s'.closed == s.closed
            && (s.queue != [] ==> s' == s.(asked := s'.asked, queue := s.queue + [m], accepted := s.accepted + [m]))
            && (s.queue == [] && a == Fatal ==>
                  && s' == s.(asked := s'.asked, fired := s'.fired)
                  && Ids(s'.fired) == Ids(s.fired) + m.callback && Completed(s'.fired) == Completed(s.fired))
            && (s.queue == [] && a != Fatal ==>
                  var n := if a.WouldBlock? then 0 else if a.n < |m.data| then a.n else |m.data|;
                  && s'.kernel == s.kernel + m.data[..n] && s'.accepted == s.accepted + [m]
                  && if a.Sent? && n == |m.data| then
                       s'.queue == [] && Completed(s'.fired) == Completed(s.fired) + m.callback
                     else s'.queue == [Pending(m.data[n..], m.callback)] && s'.fired == s.fired && s'.pollWritable)
  {
    hide Completed, Calls;
    CompletedOfConcat(s.fired, m.callback, a == Fatal);
    assert Completed(s.fired) + [] == Completed(s.fired);
  }

  /** On a writable socket the same happens to the message in front; a failing kernel ends the connection. */
  lemma FrontTakes(s: State, a: Answer)
    requires s.queue != []
    ensures var s', m := SendFront(s, a), s.queue[0];
            && (a == WouldBlock ==> s' == s)
            && (a == Fatal ==> s'.closed && s'.queue == [] && s'.kernel == s.kernel)
            && (a.Sent? ==>
                  var n := if a.n < |m.data| then a.n else |m.data|;
                  && s'.kernel == s.kernel + m.data[..n] && s'.closed == s.closed
                  && if n == |m.data| then
                       && s'.queue == s.queue[1..] && Completed(s'.fired) == Completed(s.fired) + m.callback
                       && s'.pollWritable == (s.pollWritable && s'.queue != [])
                     else s' == s.(kernel := s'.kernel, queue := s.queue[0 := Pending(m.data[n..], m.callback)]))
  {
    hide Completed, Calls, Cancel;
    CompletedOfConcat(s.fired, s.queue[0].callback, false);
    CancelFires(s.(closed := true));
    assert s.queue[0].data[..|s.queue[0].data|] == s.queue[0].data;
  }

  /** One turn hands over exactly what the kernel takes of what is next, and nothing else leaves the queue. */
  lemma FrontProgress(s: State, a: Answer)
    requires s.queue != [] && a != Fatal
    ensures var s', n := SendFront(s, a), Taken(a, s.queue[0].data);
            && s'.kernel == s.kernel + Payload(s.queue)[..n] && Payload(s'.queue) == Payload(s.queue)[n..]
            && s'.accepted == s.accepted && s'.asked == s.asked && s'.closed == s.closed
  {
    hide Calls, Fire;
    var m, rest := s.queue[0], s.queue[1..];
    var n := Taken(a, m.data);
    FireKeeps(s.(kernel := s.kernel + m.data, queue := rest), m.callback, false);
    assert Payload(s.queue)[..n] == m.data[..n] && Payload(s.queue)[n..] == m.data[n..] + Payload(rest);
    if a.Sent? && n == |m.data| {
      assert m.data[..n] == m.data && m.data[n..] + Payload(rest) == Payload(rest);
    } else if a == WouldBlock {
      assert s.kernel + m.data[..0] == s.kernel;
    } else {
      assert s.queue[0 := m.(data := m.data[n..])][1..] == rest;
    }
  }

  lemma FireKeeps(s: State, callback: Callback, cancelled: bool)
    ensures Fire(s, callback, cancelled) == s.(fired := Fire(s, callback, cancelled).fired)
  {
  }

  /** The kernel takes whatever it is offered. */
  ghost predicate TakesAll(answers: nat -> Answer, n: nat) {
    forall k: nat :: answers(k).Sent? && answers(k).n >= n
  }

  /** When the kernel takes everything, a writable socket sends all it has, reports it all, and stops polling. */
  lemma {:induction false} DrainsCompletely(s: State, answers: nat -> Answer, k: nat)
    requires Open(s) && !s.closed && s.queue != [] && TakesAll(answers, |Payload(s.queue)|)
    ensures var s' := Drain(s, answers, k);
            && s'.queue == [] && !s'.pollWritable && !s'.closed
            && s'.kernel == Payload(s'.accepted) && Completed(s'.fired) == Callbacks(s'.accepted)
            && s'.accepted == s.accepted && s'.asked == s.asked
    decreases |s.queue|
  {
    hide Open, Calls, Completed, Payload;
    var a := answers(k);
    FrontProgress(s, a);
    SendFrontKeeps(s, a);
    PayloadIsLonger(s.queue);
    if GoesOn(s, a) {
      FewerQueued(s, a);
      DrainsCompletely(SendFront(s, a), answers, k + 1);
    } else {
      NothingQueued(SendFront(s, a));
    }
  }

  lemma NothingQueued(s: State)
    requires Open(s) && s.queue == []
    ensures s.kernel == Payload(s.accepted) && Completed(s.fired) == Callbacks(s.accepted)
  {
    assert s.kernel + [] == s.kernel;
    assert s.accepted[..|s.accepted|] == s.accepted;
  }

  lemma PayloadIsLonger(ms: seq<Pending>)
    requires ms != []
    ensures |ms[0].data| <= |Payload(ms)|
  {
  }
}
