/**
  * A group's intrusive list of web sockets, and the iteration over it that survives the removal of the socket it is
  * visiting.
  */
module GroupList {

  class WebSocket {
    var next: WebSocket?
    var prev: WebSocket?
    var hasOutstandingPong: bool

    constructor ()
      ensures next == null && prev == null && !hasOutstandingPong
    {
      next, prev, hasOutstandingPong := null, null, false;
    }
  }

  /** What a callback of `forEach` does with the socket it is given. */
  datatype Visitor =
    | Terminator                              // `terminate` and `close`: every socket is removed
    | AutoPing                                // `timerCallback`: removes who has not answered the last ping
    | Chooser(removes: nat -> bool)           // removes the k-th visited socket or not

  /** The elements whose fate is not to be removed. */
  function Kept<T>(s: seq<T>, doomed: seq<bool>): (r: seq<T>)
    requires |doomed| == |s|
    ensures |r| <= |s|
  {
    if s == [] then [] else Kept(s[..|s| - 1], doomed[..|s| - 1]) + if doomed[|s| - 1] then [] else [s[|s| - 1]]
  }

  /** Whether the visitor removes the k-th socket it visits. */
  predicate Doomed(visitor: Visitor, hasOutstandingPong: bool, k: nat) {
    match visitor
    case Terminator => true
    case AutoPing => hasOutstandingPong
    case Chooser(removes) => removes(k)
  }

  function Fate(visitor: Visitor, pongs: seq<bool>): (r: seq<bool>)
    ensures |r| == |pongs|
  {
    seq(|pongs|, k requires 0 <= k < |pongs| => Doomed(visitor, pongs[k], k))
  }

  lemma KeptOneMore<T>(s: seq<T>, doomed: seq<bool>, k: nat)
    requires |doomed| == |s| && k < |s|
    ensures Kept(s[..k + 1], doomed[..k + 1]) == Kept(s[..k], doomed[..k]) + if doomed[k] then [] else [s[k]]
  {
    assert s[..k + 1][..k] == s[..k] && doomed[..k + 1][..k] == doomed[..k];
  }

  /** The iteration's list, one socket further: removed or passed. */
  lemma OneMoreVisited<T>(s: seq<T>, doomed: seq<bool>, k: nat)
    requires |doomed| == |s| && k < |s|
    ensures var kept := Kept(s[..k], doomed[..k]);
            var list := kept + s[k..];
            && |kept| < |list| && list[|kept|] == s[k]
            && (|kept| + 1 < |list| <==> k + 1 < |s|) && (k + 1 < |s| ==> list[|kept| + 1] == s[k + 1])
            && (if doomed[k] then list[..|kept|] + list[|kept| + 1..] else list) ==
               Kept(s[..k + 1], doomed[..k + 1]) + s[k + 1..]
  {
    KeptOneMore(s, doomed, k);
  }

  lemma {:induction false} KeptMembers<T>(s: seq<T>, doomed: seq<bool>, x: T)
    requires |doomed| == |s|
    ensures x in Kept(s, doomed) <==> exists k | 0 <= k < |s| :: s[k] == x && !doomed[k]
  {
    if s != [] {
      var n := |s| - 1;
      KeptMembers(s[..n], doomed[..n], x);
      if x in Kept(s, doomed) {
        if x in Kept(s[..n], doomed[..n]) {
          var k :| 0 <= k < n && s[..n][k] == x && !doomed[..n][k];
          assert s[k] == x && !doomed[k];
        }
      }
      if k :| 0 <= k < |s| && s[k] == x && !doomed[k] {
        if k < n {
          assert s[..n][k] == x && !doomed[..n][k];
        }
      }
    }
  }

  lemma {:induction false} AllDoomed<T>(s: seq<T>, doomed: seq<bool>)
    requires |doomed| == |s| && forall k | 0 <= k < |s| :: doomed[k]
    ensures Kept(s, doomed) == []
  {
    if s != [] {
      AllDoomed(s[..|s| - 1], doomed[..|s| - 1]);
    }
  }

  predicate Distinct<T(==)>(s: seq<T>) {
    forall i, j | 0 <= i < j < |s| :: s[i] != s[j]
  }

  /** A visitor that chooses leaves those in the list that it does not choose, and a terminator nobody. */
  lemma ChosenLeave<T>(s: seq<T>, pongs: seq<bool>, removes: nat -> bool, k: nat)
    requires Distinct(s) && |pongs| == |s| && k < |s|
    ensures s[k] in Kept(s, Fate(Chooser(removes), pongs)) <==> !removes(k)
    ensures s[k] in Kept(s, Fate(AutoPing, pongs)) <==> !pongs[k]
    ensures s[k] !in Kept(s, Fate(Terminator, pongs))
  {
    hide Kept;
    KeptMembers(s, Fate(Chooser(removes), pongs), s[k]);
    KeptMembers(s, Fate(AutoPing, pongs), s[k]);
    KeptMembers(s, Fate(Terminator, pongs), s[k]);
  }

  /** Those that stay keep their order. */
  lemma {:induction false} KeptInOrder<T>(s: seq<T>, doomed: seq<bool>) returns (from: seq<nat>)
    requires |doomed| == |s|
    ensures |from| == |Kept(s, doomed)|
    ensures forall i | 0 <= i < |from| :: from[i] < |s| && Kept(s, doomed)[i] == s[from[i]]
    ensures forall i, j | 0 <= i < j < |from| :: from[i] < from[j]
  {
    if s == [] {
      from := [];
    } else {
      var n := |s| - 1;
      from := KeptInOrder(s[..n], doomed[..n]);
      if !doomed[n] {
        from := from + [n];
      }
    }
  }

  /** Where the k-th element was before element `i` was removed. */
  function Before(k: nat, i: nat): nat { if k < i then k else k + 1 }

  lemma RemovedList<T>(s: seq<T>, i: nat, r: seq<T>)
    requires i < |s| && r == s[..i] + s[i + 1..]
    ensures |r| == |s| - 1 && forall k | 0 <= k < |r| :: r[k] == s[Before(k, i)]
    ensures Distinct(s) ==> Distinct(r)
  {
  }

  /** The k-th socket, or null at the end of the list. */
  ghost function At(s: seq<WebSocket>, k: nat): WebSocket? { if k < |s| then s[k] else null }

  class Group {
    var webSocketHead: WebSocket?
    var iterators: seq<WebSocket?>           // the stack, its top last
    ghost var list: seq<WebSocket>

    /** The links spell out `list`, in both directions. */
    ghost predicate Valid()
      reads this, list
    {
      && Distinct(list)
      && (forall i | 0 <= i < |list| - 1 :: list[i].next == list[i + 1])
      && (forall i | 0 < i < |list| :: list[i].prev == list[i - 1])
      && (if list == [] then webSocketHead == null
          else webSocketHead == list[0] && list[0].prev == null && list[|list| - 1].next == null)
    }

    constructor ()
      ensures Valid() && list == [] && iterators == []
    {
      webSocketHead, iterators, list := null, [], [];
    }

    method AddWebSocket(webSocket: WebSocket)
      requires Valid() && webSocket !in list
      modifies this`webSocketHead, this`list, webSocket, list
      ensures Valid() && list == [webSocket] + old(list)
    {
      if webSocketHead != null {
        webSocketHead.prev := webSocket;
        webSocket.next := webSocketHead;
      } else {
        webSocket.next := null;
      }
      webSocketHead := webSocket;
      webSocket.prev := null;
      list := [webSocket] + list;
    }

    lemma Neighbours(i: nat)
      requires Valid() && i < |list|
      ensures list[i].prev == if i > 0 then list[i - 1] else null
      ensures list[i].next == if i + 1 < |list| then list[i + 1] else null
      ensures list[i].prev == list[i].next <==> |list| == 1
    {
      if 0 < i < |list| - 1 {
        assert list[i - 1] != list[i + 1];
      }
    }

    /** The pointer part of the removal, link by link. */
    method Unlink(webSocket: WebSocket, ghost i: nat)
      requires Valid() && i < |list| && webSocket == list[i]
      modifies `webSocketHead, list`next, list`prev
      ensures webSocketHead == if i > 0 then list[0] else if |list| > 1 then list[1] else null
      ensures forall k | 0 <= k < |list| ::
                list[k].next == if k + 1 == i && i + 1 < |list| then list[i + 1]
                                else if k + 1 == i then null
                                else old(list[k].next)
      ensures forall k | 0 <= k < |list| ::
                list[k].prev == if k == i + 1 && i > 0 then list[i - 1]
                                else if k == i + 1 then null
                                else old(list[k].prev)
    {
      Neighbours(i);
      if webSocket.prev == webSocket.next {
        webSocketHead := null;
      } else {
        if webSocket.prev != null {
          webSocket.prev.next := webSocket.next;
        } else {
          webSocketHead := webSocket.next;
        }
        if webSocket.next != null {
          webSocket.next.prev := webSocket.prev;
        }
      }
    }

    /** After the bridging, the remaining sockets are linked to each other. */
    method Detach(webSocket: WebSocket, ghost i: nat)
      requires Valid() && i < |list| && webSocket == list[i]
      modifies `webSocketHead, `list, list`next, list`prev
      ensures Valid() && list == old(list[..i] + list[i + 1..])
    {
      hide Distinct;
      Unlink(webSocket, i);
      ghost var before := list;
      list := list[..i] + list[i + 1..];
      RemovedList(before, i, list);
      forall k | 0 <= k < |list| - 1 ensures list[k].next == list[k + 1] {
        assert list[k] == before[Before(k, i)] && list[k + 1] == before[Before(k + 1, i)];
      }
      forall k | 0 < k < |list| ensures list[k].prev == list[k - 1] {
        assert list[k] == before[Before(k, i)] && list[k - 1] == before[Before(k - 1, i)];
      }
    }

    /** Unlinks a socket; the iteration in progress, if any, is told to go on with its successor. */
    method RemoveWebSocket(webSocket: WebSocket, ghost i: nat)
      requires Valid() && i < |list| && webSocket == list[i]
      modifies this, list`next, list`prev
      ensures Valid() && list == old(list[..i] + list[i + 1..])
      ensures iterators == if old(iterators) == [] then []
                           else
                             old(iterators)[|old(iterators)| - 1 :=
                                              if i + 1 < |old(list)| then old(list)[i + 1] else null]
    {
      Neighbours(i);
      if |iterators| > 0 {
        iterators := iterators[|iterators| - 1 := webSocket.next];
      }
      Detach(webSocket, i);
    }

    ghost function Pongs(): (r: seq<bool>)
      reads this, list
      ensures |r| == |list|
    {
      seq(|list|, k requires 0 <= k < |list| reads this, list => list[k].hasOutstandingPong)
    }

    /** The callback. */
    method Visit(webSocket: WebSocket, visitor: Visitor, k: nat, ghost i: nat)
      requires Valid() && i < |list| && webSocket == list[i]
      modifies this, list`next, list`prev, webSocket`hasOutstandingPong
      ensures Valid()
      ensures if Doomed(visitor, old(webSocket.hasOutstandingPong), k) then
                && list == old(list[..i] + list[i + 1..])
                && iterators == if old(iterators) == [] then []
                                else
                                  old(iterators)[|old(iterators)| - 1 :=
                                                   if i + 1 < |old(list)| then old(list)[i + 1] else null]
              else list == old(list) && iterators == old(iterators)
      ensures visitor.AutoPing? ==> webSocket.hasOutstandingPong
    {
      match visitor
      case Terminator => RemoveWebSocket(webSocket, i);
      case AutoPing =>
        if webSocket.hasOutstandingPong {
          RemoveWebSocket(webSocket, i);
        } else {
          webSocket.hasOutstandingPong := true;
        }
      case Chooser(removes) =>
        if removes(k) {
          RemoveWebSocket(webSocket, i);
        }
    }

    /** One turn of the loop of `forEach`: the iteration goes on with what followed the visited socket. */
    method VisitAndMoveOn(webSocket: WebSocket, visitor: Visitor, k: nat, ghost i: nat) returns (cursor: WebSocket?)
      requires Valid() && i < |list| && webSocket == list[i]
      requires iterators != [] && iterators[|iterators| - 1] == webSocket
      modifies this, list`next, list`prev, webSocket`hasOutstandingPong
      ensures Valid()
      ensures cursor == if i + 1 < |old(list)| then old(list)[i + 1] else null
      ensures iterators == old(iterators)[|old(iterators)| - 1 := cursor]
      ensures list == if Doomed(visitor, old(webSocket.hasOutstandingPong), k) then old(list[..i] + list[i + 1..])
                      else old(list)
      ensures visitor.AutoPing? ==> webSocket.hasOutstandingPong
    {
      hide Doomed;
      Visit(webSocket, visitor, k, i);
      cursor := iterators[|iterators| - 1];
      if webSocket == cursor {
        Neighbours(i);
        cursor := cursor.next;
        iterators := iterators[|iterators| - 1 := cursor];
      }
    }

    /** The sockets from the k-th on have not been touched. */
    ghost predicate Untouched(all: seq<WebSocket>, pongs: seq<bool>, k: nat)
      reads all
    {
      |pongs| == |all| && forall j | k <= j < |all| :: all[j].hasOutstandingPong == pongs[j]
    }

    /** The sockets before the k-th are waiting for a pong. */
    ghost predicate Pinged(all: seq<WebSocket>, k: nat)
      reads all
    {
      forall j | 0 <= j < k && j < |all| :: all[j].hasOutstandingPong
    }

    /** The same turn, seen from the list `all` that the iteration started with. */
    method VisitNext(webSocket: WebSocket, visitor: Visitor, k: nat, ghost all: seq<WebSocket>, ghost fate: seq<bool>,
                     ghost base: seq<WebSocket?>)
        returns (cursor: WebSocket?)
      requires Valid() && k < |all| == |fate| && webSocket == all[k] && iterators == base + [webSocket]
      requires list == Kept(all[..k], fate[..k]) + all[k..]
      requires fate[k] == Doomed(visitor, webSocket.hasOutstandingPong, k)
      modifies this, all`next, all`prev, webSocket`hasOutstandingPong
      ensures Valid() && list == Kept(all[..k + 1], fate[..k + 1]) + all[k + 1..]
      ensures cursor == At(all, k + 1)
      ensures iterators == base + [cursor]
      ensures visitor.AutoPing? ==> webSocket.hasOutstandingPong
    {
      hide Doomed, Kept, Valid, Distinct;
      NoStrangers(all, fate, k, list);
      OneMoreVisited(all, fate, k);
      cursor := VisitAndMoveOn(webSocket, visitor, k, |Kept(all[..k], fate[..k])|);
      SameBase(base, webSocket, cursor);
    }

    /** The same turn with the pong flags: only that of the visited socket changes. */
    method Turn(webSocket: WebSocket, visitor: Visitor, k: nat, ghost all: seq<WebSocket>, ghost pongs: seq<bool>,
                ghost base: seq<WebSocket?>)
        returns (cursor: WebSocket?)
      requires Valid() && k < |all| && Distinct(all) && webSocket == all[k] && iterators == base + [webSocket]
      requires Untouched(all, pongs, k) && (visitor.AutoPing? ==> Pinged(all, k))
      requires var fate := Fate(visitor, pongs); list == Kept(all[..k], fate[..k]) + all[k..]
      modifies this, all
      ensures Valid() && Untouched(all, pongs, k + 1) && (visitor.AutoPing? ==> Pinged(all, k + 1))
      ensures var fate := Fate(visitor, pongs); list == Kept(all[..k + 1], fate[..k + 1]) + all[k + 1..]
      ensures cursor == At(all, k + 1)
      ensures iterators == base + [cursor]
    {
      hide Doomed, Kept, Fate, Valid, Distinct, At;
      FateAt(visitor, pongs, k);
      OthersThan(all, k);
      cursor := VisitNext(webSocket, visitor, k, all, Fate(visitor, pongs), base);
    }

    lemma HeadOfList()
      requires Valid()
      ensures webSocketHead == At(list, 0) && Distinct(list) && Pinged(list, 0)
    {
    }

    /** The loop of `forEach`. */
    method Iterate(visitor: Visitor, ghost all: seq<WebSocket>, ghost pongs: seq<bool>, ghost base: seq<WebSocket?>)
        returns (visited: seq<WebSocket>)
      requires Valid() && all == list && |pongs| == |all| && Untouched(all, pongs, 0)
      requires iterators == base + [webSocketHead]
      modifies this, list
      ensures visitor.AutoPing? ==> Pinged(all, |all|)
      ensures Valid() && visited == all && list == Kept(all, Fate(visitor, pongs)) && iterators == base + [null]
    {
      hide Kept, Doomed, Fate, At, Valid, Distinct, Untouched, Pinged;
      ghost var fate := Fate(visitor, pongs);
      var cursor := webSocketHead;
      visited := [];
      var k := 0;
      NothingVisited(all, fate);
      HeadOfList();
      while cursor != null
        invariant Valid() && k <= |all| && cursor == At(all, k)
        invariant iterators == base + [cursor]
        invariant visited == all[..k]
        invariant list == Kept(all[..k], fate[..k]) + all[k..]
        invariant Untouched(all, pongs, k) && Distinct(all) && (visitor.AutoPing? ==> Pinged(all, k))
        decreases |all| - k
      {
        var webSocket: WebSocket := cursor;
        visited := visited + [webSocket];
        EndOfList(all, k);
        OnePrefix(all, k);
        cursor := Turn(webSocket, visitor, k, all, pongs, base);
        k := k + 1;
      }
      EndOfList(all, k);
      AllVisited(all, fate);
    }

    /**
      * `forEach`: every socket that was in the list is visited exactly once, in order, whatever the callback removes;
      * what it keeps stays in the list, in order, and the stack of iterators is as before.
      */
    method ForEach(visitor: Visitor) returns (visited: seq<WebSocket>)
      requires Valid()
      modifies this, list
      ensures Valid() && visited == old(list) && iterators == old(iterators)
      ensures list == Kept(old(list), Fate(visitor, old(Pongs())))
      ensures visitor.AutoPing? ==> Pinged(visited, |visited|)
    {
      hide Kept, Doomed, Distinct;
      ghost var pongs := Pongs();
      iterators := iterators + [webSocketHead];
      assert Pongs() == pongs;
      visited := Iterate(visitor, list, pongs, old(iterators));
      iterators := iterators[..|iterators| - 1];
    }

    /** `terminate`: nobody is left. */
    method Terminate() returns (visited: seq<WebSocket>)
      requires Valid()
      modifies this, list
      ensures Valid() && list == [] && webSocketHead == null && visited == old(list) && iterators == old(iterators)
    {
      hide Kept, Distinct;
      AllDoomed(list, Fate(Terminator, Pongs()));
      visited := ForEach(Terminator);
    }

    /**
      * The first part of `timerCallback`: exactly the sockets that have not answered since the last time are gone, and
      * all others now owe an answer.
      */
    method DropSilent() returns (visited: seq<WebSocket>)
      requires Valid()
      modifies this, list
      ensures Valid() && iterators == old(iterators)
      ensures forall w | w in old(list) :: w in list <==> !old(w.hasOutstandingPong)
      ensures forall w | w in list :: w.hasOutstandingPong
    {
      hide Kept;
      ghost var all, fate := list, Fate(AutoPing, Pongs());
      forall w | w in all ensures w in Kept(all, fate) <==> !w.hasOutstandingPong {
        KeptMembers(all, fate, w);
        var k :| 0 <= k < |all| && all[k] == w;
      }
      visited := ForEach(AutoPing);
      forall w | w in list ensures w.hasOutstandingPong {
        KeptMembers(all, fate, w);
      }
    }

  }

  lemma SameBase<T>(base: seq<T>, x: T, y: T)
    ensures |base + [x]| == |base| + 1 && (base + [x])[|base| := y] == base + [y]
  {
  }

  lemma AllVisited<T>(s: seq<T>, doomed: seq<bool>)
    requires |doomed| == |s|
    ensures s[..|s|] == s && Kept(s[..|s|], doomed[..|s|]) + s[|s|..] == Kept(s, doomed)
  {
    hide Kept;
    assert s[..|s|] == s && doomed[..|s|] == doomed;
  }

  lemma FateAt(visitor: Visitor, pongs: seq<bool>, k: nat)
    requires k < |pongs|
    ensures Fate(visitor, pongs)[k] == Doomed(visitor, pongs[k], k)
  {
  }

  lemma EndOfList(s: seq<WebSocket>, k: nat)
    requires k <= |s|
    ensures At(s, k) == null <==> k == |s|
    ensures k < |s| ==> At(s, k) == s[k]
  {
  }

  lemma OthersThan<T>(s: seq<T>, k: nat)
    requires Distinct(s) && k < |s|
    ensures forall j | 0 <= j < |s| && j != k :: s[j] != s[k]
  {
  }

  lemma OnePrefix<T>(s: seq<T>, k: nat)
    requires k < |s|
    ensures s[..k] + [s[k]] == s[..k + 1]
  {
  }

  lemma NoStrangers<T>(s: seq<T>, doomed: seq<bool>, k: nat, r: seq<T>)
    requires k <= |s| == |doomed| && r == Kept(s[..k], doomed[..k]) + s[k..]
    ensures forall j | 0 <= j < |r| :: r[j] in s
  {
    hide Kept;
    forall x | x in Kept(s[..k], doomed[..k]) ensures x in s {
      KeptMembers(s[..k], doomed[..k], x);
    }
  }

  lemma NothingVisited<T>(s: seq<T>, doomed: seq<bool>)
    requires |doomed| == |s|
    ensures Kept(s[..0], doomed[..0]) + s[0..] == s
  {
  }
}
