/** The send side of a TCP connection, as values: what one event does to the queue and the byte stream. */
module TcpStream {
  import opened Bytes

  /** A connection since it was established: the accepted messages, those that still wait, how much of the
      first of them is out, the bytes handed to the socket and how often CLIENT_EVENT_TX was raised. */
  datatype Conn = Conn(accepted: seq<bytes>, queue: seq<bytes>, sending: bool, offset: nat, written: bytes, txEvents: nat)

  const FRESH := Conn([], [], false, 0, [], 0)

  /** The messages with a byte in them. */
  function NonEmpty(msgs: seq<bytes>): seq<bytes> {
    if |msgs| == 0 then [] else (if |msgs[0]| == 0 then [] else [msgs[0]]) + NonEmpty(msgs[1..])
  }

  /** A call of tcp_client_send, or a turn of tx_task with the capacity the socket reports and the messages
      the application sends from inside the TX callback. */
  datatype Event = Send(data: bytes) | Tick(capacity: nat, inCallback: seq<bytes>)

  function Enqueue(c: Conn, data: bytes): Conn {
    if |data| == 0 then c else c.(accepted := c.accepted + [data], queue := c.queue + [data])
  }

  function EnqueueAll(c: Conn, msgs: seq<bytes>): Conn
    decreases |msgs|
  {
    if |msgs| == 0 then c else EnqueueAll(Enqueue(c, msgs[0]), msgs[1..])
  }

  function Turn(c: Conn, capacity: nat, inCallback: seq<bytes>): Conn {
    if |c.queue| == 0 then c
    else if !c.sending then c.(sending := true, offset := 0)
    else
      var head := c.queue[0];
      var left := |head| - c.offset;
      if capacity == 0 || left <= 0 then c
      else if capacity < left then
        c.(written := c.written + head[c.offset..c.offset + capacity], offset := c.offset + capacity)
      else
        var sent := c.(written := c.written + head[c.offset..], queue := c.queue[1..], txEvents := c.txEvents + 1);
        EnqueueAll(sent, inCallback).(sending := false)
  }

  function Next(c: Conn, e: Event): Conn {
    match e
    case Send(data) => Enqueue(c, data)
    case Tick(capacity, inCallback) => Turn(c, capacity, inCallback)
  }

  function Run(c: Conn, events: seq<Event>): Conn
    decreases |events|
  {
    if |events| == 0 then c else Run(Next(c, events[0]), events[1..])
  }

  /** What the application hands over in one event: by a call of tcp_client_send, or from inside the callback when the
      turn completes a message. */
  function HandedIn(c: Conn, e: Event): seq<bytes> {
    match e
    case Send(data) => [data]
    case Tick(_, inCallback) => if Next(c, e).txEvents > c.txEvents then inCallback else []
  }

  /** What it hands over in a run, in order. */
  function Handed(c: Conn, events: seq<Event>): seq<bytes>
    decreases |events|
  {
    if |events| == 0 then [] else HandedIn(c, events[0]) + Handed(Next(c, events[0]), events[1..])
  }

  /** What has not been handed to the socket yet. */
  function Pending(c: Conn): bytes {
    if c.sending && |c.queue| > 0 && c.offset <= |c.queue[0]| then c.queue[0][c.offset..] + Flatten(c.queue[1..])
    else Flatten(c.queue)
  }

  /** Exactly the messages that raised their event have left the queue, and the stream holds them in full,
      followed by the part of the next one that is out. */
  predicate Inv(c: Conn) {
    && c.txEvents <= |c.accepted|
    && c.queue == c.accepted[c.txEvents..]
    && (forall k | 0 <= k < |c.accepted| :: |c.accepted[k]| > 0)
    && (c.sending ==> c.txEvents < |c.accepted| && c.offset < |c.accepted[c.txEvents]|)
    && c.written == Flatten(c.accepted[..c.txEvents]) + if c.sending then c.accepted[c.txEvents][..c.offset] else []
  }

  lemma {:induction false} FlattenConcat(a: seq<bytes>, b: seq<bytes>)
    ensures Flatten(a + b) == Flatten(a) + Flatten(b)
    decreases |a|
  {
    if |a| == 0 {
      assert a + b == b;
    } else {
      assert (a + b)[1..] == a[1..] + b;
      FlattenConcat(a[1..], b);
      assert a[0] + (Flatten(a[1..]) + Flatten(b)) == Flatten(a) + Flatten(b);
    }
  }

  lemma FlattenSnoc(a: seq<bytes>, m: bytes)
    ensures Flatten(a + [m]) == Flatten(a) + m
  {
    FlattenConcat(a, [m]);
    assert Flatten([m]) == m + [];
  }

  lemma EnqueueKeepsInv(c: Conn, data: bytes)
    requires Inv(c)
    ensures Inv(Enqueue(c, data))
  {
    if |data| > 0 {
      var all := c.accepted + [data];
      assert all[c.txEvents..] == c.accepted[c.txEvents..] + [data];
      assert all[..c.txEvents] == c.accepted[..c.txEvents];
    }
  }

  lemma {:induction false} EnqueueAllKeepsInv(c: Conn, msgs: seq<bytes>)
    requires Inv(c)
    ensures Inv(EnqueueAll(c, msgs))
    ensures EnqueueAll(c, msgs).written == c.written && EnqueueAll(c, msgs).txEvents == c.txEvents
    decreases |msgs|
  {
    hide Inv;
    if |msgs| > 0 {
      EnqueueKeepsInv(c, msgs[0]);
      EnqueueAllKeepsInv(Enqueue(c, msgs[0]), msgs[1..]);
    }
  }

  lemma {:induction false} EnqueueAllSending(c: Conn, msgs: seq<bytes>, sending: bool)
    ensures EnqueueAll(c, msgs).(sending := sending) == EnqueueAll(c.(sending := sending), msgs)
    decreases |msgs|
  {
    if |msgs| > 0 {
      EnqueueAllSending(Enqueue(c, msgs[0]), msgs[1..], sending);
    }
  }

  lemma {:induction false} EnqueueAllEvents(c: Conn, msgs: seq<bytes>)
    ensures EnqueueAll(c, msgs).txEvents == c.txEvents
    decreases |msgs|
  {
    if |msgs| > 0 {
      EnqueueAllEvents(Enqueue(c, msgs[0]), msgs[1..]);
    }
  }

  /** A turn raises the event when it completes the first message. */
  lemma TurnEvents(c: Conn, capacity: nat, inCallback: seq<bytes>)
    requires |c.queue| > 0
    ensures var left := |c.queue[0]| - c.offset;
            Turn(c, capacity, inCallback).txEvents == c.txEvents + if c.sending && 0 < left <= capacity then 1 else 0
  {
    if c.sending && 0 < |c.queue[0]| - c.offset <= capacity {
      EnqueueAllEvents(c.(written := c.written + c.queue[0][c.offset..], queue := c.queue[1..], txEvents := c.txEvents + 1), inCallback);
    }
  }

  lemma MessageDone(c: Conn)
    requires Inv(c) && c.sending
    ensures Inv(c.(written := c.written + c.queue[0][c.offset..], queue := c.queue[1..], txEvents := c.txEvents + 1, sending := false))
  {
    var m := c.accepted[c.txEvents];
    assert c.queue[0] == m;
    assert m[..c.offset] + m[c.offset..] == m;
    assert c.accepted[..c.txEvents + 1] == c.accepted[..c.txEvents] + [m];
    FlattenSnoc(c.accepted[..c.txEvents], m);
    assert c.queue[1..] == c.accepted[c.txEvents + 1..];
  }

  lemma TurnKeepsInv(c: Conn, capacity: nat, inCallback: seq<bytes>)
    requires Inv(c)
    ensures Inv(Turn(c, capacity, inCallback))
  {
    if c.sending && capacity > 0 {
      var head := c.queue[0];
      var left := |head| - c.offset;
      if capacity < left {
        assert head[..c.offset] + head[c.offset..c.offset + capacity] == head[..c.offset + capacity];
      } else {
        var sent := c.(written := c.written + head[c.offset..], queue := c.queue[1..], txEvents := c.txEvents + 1);
        MessageDone(c);
        EnqueueAllSending(sent, inCallback, false);
        EnqueueAllKeepsInv(sent.(sending := false), inCallback);
      }
    }
  }

  lemma {:induction false} RunKeepsInv(c: Conn, events: seq<Event>)
    requires Inv(c)
    ensures Inv(Run(c, events))
    decreases |events|
  {
    hide Inv;
    if |events| > 0 {
      match events[0] {
        case Send(data) => EnqueueKeepsInv(c, data);
        case Tick(capacity, inCallback) => TurnKeepsInv(c, capacity, inCallback);
      }
      RunKeepsInv(Next(c, events[0]), events[1..]);
    }
  }

  /** The stream and what still waits are together what was accepted. */
  lemma Conservation(c: Conn)
    requires Inv(c)
    ensures c.txEvents <= |c.accepted|
    ensures c.written + Pending(c) == Flatten(c.accepted)
    ensures |c.queue| + c.txEvents == |c.accepted|
  {
    assert c.accepted == c.accepted[..c.txEvents] + c.queue;
    FlattenConcat(c.accepted[..c.txEvents], c.queue);
    if c.sending {
      var m := c.queue[0];
      assert m[..c.offset] + m[c.offset..] == m;
      assert Flatten(c.queue) == m + Flatten(c.queue[1..]);
      hide Flatten;
      var w := Flatten(c.accepted[..c.txEvents]);
      assert w + m[..c.offset] + (m[c.offset..] + Flatten(c.queue[1..])) == w + (m + Flatten(c.queue[1..]));
    }
  }

  lemma {:induction false} EnqueuedAll(c: Conn, msgs: seq<bytes>)
    ensures EnqueueAll(c, msgs) == c.(accepted := c.accepted + NonEmpty(msgs), queue := c.queue + NonEmpty(msgs))
    decreases |msgs|
  {
    if |msgs| > 0 {
      EnqueuedAll(Enqueue(c, msgs[0]), msgs[1..]);
    }
  }

  /** Only whole messages raise the event, and only then does the callback hand over anything. */
  lemma TurnAccepts(c: Conn, capacity: nat, inCallback: seq<bytes>)
    ensures var d := Turn(c, capacity, inCallback);
            d.accepted == c.accepted + if d.txEvents > c.txEvents then NonEmpty(inCallback) else []
  {
    hide EnqueueAll, NonEmpty;
    if |c.queue| > 0 && c.sending && 0 < |c.queue[0]| - c.offset <= capacity {
      EnqueuedAll(c.(written := c.written + c.queue[0][c.offset..], queue := c.queue[1..], txEvents := c.txEvents + 1), inCallback);
    }
  }

  lemma {:induction false} NonEmptyConcat(a: seq<bytes>, b: seq<bytes>)
    ensures NonEmpty(a + b) == NonEmpty(a) + NonEmpty(b)
    decreases |a|
  {
    if |a| == 0 {
      assert a + b == b;
    } else {
      assert (a + b)[1..] == a[1..] + b;
      NonEmptyConcat(a[1..], b);
    }
  }

  lemma {:induction false} FlattenNonEmpty(msgs: seq<bytes>)
    ensures Flatten(NonEmpty(msgs)) == Flatten(msgs)
    decreases |msgs|
  {
    if |msgs| > 0 {
      FlattenNonEmpty(msgs[1..]);
      assert [] + Flatten(msgs[1..]) == Flatten(msgs[1..]);
      if |msgs[0]| > 0 {
        assert NonEmpty(msgs)[1..] == NonEmpty(msgs[1..]);
      } else {
        assert NonEmpty(msgs) == NonEmpty(msgs[1..]);
      }
    }
  }

  lemma EventAccepts(c: Conn, e: Event)
    ensures Next(c, e).accepted == c.accepted + NonEmpty(HandedIn(c, e))
  {
    hide Turn, Enqueue;
    match e {
      case Send(data) =>
        EnqueuedAll(c, [data]);
        OneMessage(c, data);
      case Tick(capacity, inCallback) =>
        TurnAccepts(c, capacity, inCallback);
    }
  }

  /** What was accepted is what was handed over, but for empty messages. */
  lemma {:induction false} RunAccepts(c: Conn, events: seq<Event>)
    ensures Run(c, events).accepted == c.accepted + NonEmpty(Handed(c, events))
    decreases |events|
  {
    hide Next, HandedIn, NonEmpty;
    if |events| == 0 {
      NothingHanded();
    } else {
      var d := Next(c, events[0]);
      RunAccepts(d, events[1..]);
      EventAccepts(c, events[0]);
      NonEmptyConcat(HandedIn(c, events[0]), Handed(d, events[1..]));
    }
  }

  lemma NothingHanded()
    ensures NonEmpty([]) == []
  {}

  lemma OneMessage(c: Conn, data: bytes)
    ensures EnqueueAll(c, [data]) == Enqueue(c, data)
  {
    assert EnqueueAll(Enqueue(c, data), []) == Enqueue(c, data);
  }

  /** In every run of a connection, whatever capacities the socket reports and whatever is sent from inside
      the callback: what is out and what still waits are together what was handed over, so nothing is lost, repeated
      or reordered; and the TX event has been raised once for each message that is out in full, and for no other. */
  lemma EveryRunConserves(offset: nat, events: seq<Event>)
    ensures var c := Run(FRESH.(offset := offset), events);
            var handed := Handed(FRESH.(offset := offset), events);
            var taken := NonEmpty(handed);
            && c.written + Pending(c) == Flatten(handed)
            && c.txEvents <= |taken| && |c.queue| + c.txEvents == |taken|
            && Flatten(taken[..c.txEvents]) <= c.written
            && (c.sending ==> c.txEvents < |taken| && |c.written| < |Flatten(taken[..c.txEvents + 1])|)
            && (!c.sending ==> c.written == Flatten(taken[..c.txEvents]))
  {
    hide Run, Inv, Pending, Flatten, Handed, NonEmpty;
    var start := FRESH.(offset := offset);
    InvOfFresh(offset);
    RunKeepsInv(start, events);
    Conservation(Run(start, events));
    WholeMessagesOut(Run(start, events));
    RunAccepts(start, events);
    FlattenNonEmpty(Handed(start, events));
    assert [] + NonEmpty(Handed(start, events)) == NonEmpty(Handed(start, events));
  }

  /** A turn writes as much of the message under way as there is room for, and nothing else. */
  lemma TurnWrites(c: Conn, capacity: nat, inCallback: seq<bytes>)
    requires Inv(c)
    ensures var d := Turn(c, capacity, inCallback);
            if !c.sending then d.written == c.written
            else
              var rest := c.queue[0][c.offset..];
              d.written == c.written + if capacity < |rest| then rest[..capacity] else rest
  {
    if c.sending && 0 < |c.queue[0]| - c.offset <= capacity {
      EnqueuedAll(c.(written := c.written + c.queue[0][c.offset..], queue := c.queue[1..], txEvents := c.txEvents + 1), inCallback);
    } else if c.sending {
      assert c.queue[0][c.offset..][..capacity] == c.queue[0][c.offset..c.offset + capacity];
    }
  }

  lemma InvOfFresh(offset: nat)
    ensures Inv(FRESH.(offset := offset))
  {}

  lemma WholeMessagesOut(c: Conn)
    requires Inv(c)
    ensures Flatten(c.accepted[..c.txEvents]) <= c.written
    ensures c.sending ==> c.txEvents < |c.accepted| && |c.written| < |Flatten(c.accepted[..c.txEvents + 1])|
    ensures !c.sending ==> c.written == Flatten(c.accepted[..c.txEvents])
  {
    hide Flatten;
    if c.sending {
      assert c.accepted[..c.txEvents + 1] == c.accepted[..c.txEvents] + [c.accepted[c.txEvents]];
      FlattenSnoc(c.accepted[..c.txEvents], c.accepted[c.txEvents]);
    }
  }

  // ---------------------------------------------------------------------------------------------
  // Everything gets out
  // ---------------------------------------------------------------------------------------------

  /** An upper bound on the turns a queue needs when every one of them finds some room. */
  function TurnsNeeded(c: Conn): nat {
    |Pending(c)| + |c.queue| + if c.sending then 0 else 1
  }

  function Ticks(capacities: seq<nat>): seq<Event> {
    seq(|capacities|, k requires 0 <= k < |capacities| => Tick(capacities[k], []))
  }

  lemma TurnProgress(c: Conn, capacity: nat)
    requires Inv(c) && capacity > 0 && |c.queue| > 0
    ensures TurnsNeeded(Turn(c, capacity, [])) < TurnsNeeded(c)
    ensures Turn(c, capacity, []).accepted == c.accepted
  {
    TurnKeepsInv(c, capacity, []);
    Conservation(c);
    Conservation(Turn(c, capacity, []));
  }

  /** As many turns as TurnsNeeded says, each with room for at least one byte, empty the queue. */
  lemma {:induction false} QueueDrains(c: Conn, capacities: seq<nat>)
    requires Inv(c) && (forall k | 0 <= k < |capacities| :: capacities[k] > 0) && |capacities| >= TurnsNeeded(c)
    ensures var d := Run(c, Ticks(capacities));
            d.queue == [] && d.accepted == c.accepted && d.written == Flatten(c.accepted) && d.txEvents == |c.accepted|
    decreases |capacities|
  {
    if |c.queue| == 0 {
      IdleTurns(c, capacities);
      Conservation(c);
    } else {
      TurnKeepsInv(c, capacities[0], []);
      TurnProgress(c, capacities[0]);
      assert Ticks(capacities)[1..] == Ticks(capacities[1..]);
      QueueDrains(Turn(c, capacities[0], []), capacities[1..]);
    }
  }

  lemma {:induction false} IdleTurns(c: Conn, capacities: seq<nat>)
    requires |c.queue| == 0
    ensures Run(c, Ticks(capacities)) == c
    decreases |capacities|
  {
    if |capacities| > 0 {
      assert Ticks(capacities)[1..] == Ticks(capacities[1..]);
      IdleTurns(c, capacities[1..]);
    }
  }
}

/** One entry of clientData and the steps of tcp_client.c that touch its queue. */
module TcpClient {
  import opened Bytes
  import opened Lists
  import opened TcpStream

  const OP_SUCCESS := 0
  const OP_WRONG_ID_CLIENT := -4

  /** The states of a client. Resolving stands for the DNS states, Opening for CONNECTION_INIT, Failed for the
      connection error and timeout states. */
  datatype ClientState = Idle | Resolving | Opening | Connecting | SslNegotiation | Established | Failed | Close | WaitForRetry

  /** The last thing that the application does in a callback: nothing more, tcp_client_close or tcp_client_reset. */
  datatype Ending = Stays | Closes | Resets

  /** What the network stack answers during one turn of tcp_client_task, and what the application sends and at last
      does inside the callback that the turn may make. */
  datatype Answers = Answers(ready: bool, failed: bool, gone: bool, capacity: nat, inCallback: seq<bytes>, ending: Ending)

  ghost predicate AllFit(msgs: seq<bytes>) {
    forall k | 0 <= k < |msgs| :: |msgs[k]| < 0x1_0000
  }

  class Client {
    var state: ClientState
    var hasSocket: bool
    var tls: bool
    var sending: bool
    const queue: List
    var curDataOffset: nat

    /** What the socket was given and how often CLIENT_EVENT_TX was raised, since the connection was made. */
    var written: bytes
    var txEvents: nat

    /** The messages taken since the connection was made. */
    ghost var accepted: seq<bytes>

    ghost function Abs(): Conn
      reads this, queue
    {
      Conn(accepted, DataOf(queue.spine), sending, curDataOffset, written, txEvents)
    }

    /** The list is in order, and its nodes fit the 16 bits of their length. */
    ghost predicate GoodQueue()
      reads queue, queue.repr
    {
      queue.Valid() && forall k | 0 <= k < |queue.spine| :: queue.spine[k].dataLength == |queue.spine[k].data| < LENGTH_RANGE
    }

    /** Outside of a connection the queue is empty; within one the stream is as it must be. */
    ghost predicate Valid()
      reads this, queue, queue.repr
    {
      && GoodQueue()
      && (state != Established && state != Close ==> queue.spine == [])
      && (state in {Connecting, SslNegotiation, Established, Failed, Close} ==> hasSocket)
      && (state == SslNegotiation ==> !sending)
      && (state == Established ==> Inv(Abs()))
    }

    constructor ()
      ensures Valid() && state == Idle && fresh(queue)
    {
      state, hasSocket, tls, sending, curDataOffset := Idle, true, false, false, 0;
      queue := new List();
      written, txEvents, accepted := [], 0, [];
    }

    /** A new node at the end of the queue: list_new_node, then list_push_node. */
    method Queue(data: bytes)
      requires GoodQueue() && |data| < 0x1_0000
      modifies this`accepted, queue, queue.repr
      ensures GoodQueue() && Abs() == Enqueue(old(Abs()), data)
      ensures DataOf(queue.spine) == old(DataOf(queue.spine)) + if |data| == 0 then [] else [data]
      ensures fresh(queue.repr - old(queue.repr))
    {
      hide Chained;
      var node := NewNode(data);
      if node != null {
        ghost var before := queue.spine;
        queue.Push(node, [node]);
        assert DataOf(queue.spine) == DataOf(before) + [data];
        accepted := accepted + [data];
      }
    }

    /** The application sends from inside a callback. */
    method SendAll(msgs: seq<bytes>)
      requires GoodQueue() && AllFit(msgs)
      modifies this`accepted, queue, queue.repr
      ensures GoodQueue() && Abs() == EnqueueAll(old(Abs()), msgs)
      ensures DataOf(queue.spine) == old(DataOf(queue.spine)) + NonEmpty(msgs)
      ensures fresh(queue.repr - old(queue.repr))
    {
      hide GoodQueue, Enqueue;
      EnqueuedAll(Abs(), msgs);
      ghost var goal := EnqueueAll(Abs(), msgs);
      assert msgs[0..] == msgs;
      for i := 0 to |msgs|
        invariant GoodQueue() && goal == EnqueueAll(Abs(), msgs[i..])
        invariant fresh(queue.repr - old(queue.repr))
      {
        assert msgs[i..][1..] == msgs[i + 1..];
        Queue(msgs[i]);
      }
    }

    /** tcp_client_send for a client that exists; the length is a uint16_t. */
    method Send(data: bytes) returns (result: int)
      requires Valid() && |data| < 0x1_0000
      modifies this`accepted, queue, queue.repr
      ensures Valid() && fresh(queue.repr - old(queue.repr))
      ensures state == Established ==> result == 0 && Abs() == Next(old(Abs()), TcpStream.Send(data))
      ensures state == Established ==> DataOf(queue.spine) == old(DataOf(queue.spine)) + if |data| == 0 then [] else [data]
      ensures state != Established ==> result == -4 && Abs() == old(Abs())
    {
      hide GoodQueue, Inv, Enqueue;
      if state == Established {
        EnqueueKeepsInv(Abs(), data);
        if |data| > 0 {
          Queue(data);
        } else {
          NothingQueued(Abs(), data);
        }
        result := OP_SUCCESS;
      } else {
        result := OP_WRONG_ID_CLIENT;
      }
    }

    lemma NothingQueued(c: Conn, data: bytes)
      requires |data| == 0
      ensures Enqueue(c, data) == c
    {}

    /** The first node is the message being sent, and part of it is left. */
    lemma HeadOfQueue()
      requires GoodQueue() && Inv(Abs()) && sending
      ensures queue.head != null && |queue.spine| > 0 && Abs().queue[0] == queue.head.data
      ensures curDataOffset < queue.head.dataLength == |queue.head.data|
    {
      assert Abs().queue == accepted[txEvents..];
    }

    /** Where the end of a callback leaves the client. */
    ghost predicate Left(ending: Ending, c: Conn)
      reads this, queue
    {
      match ending
      case Stays => state == Established && hasSocket && Abs() == c
      case Closes => state == Close && hasSocket && Abs() == c
      case Resets => state == Idle && !hasSocket && queue.spine == []
    }

    /** The application's last step in a callback of an established connection. */
    method End(ending: Ending)
      requires GoodQueue() && state == Established && hasSocket
      modifies this`state, this`hasSocket, this`sending, queue
      ensures GoodQueue() && queue.repr == old(queue.repr) && Left(ending, old(Abs()))
    {
      match ending
      case Stays =>
      case Closes =>
        state := Close;
      case Resets =>
        if queue.head != null {
          queue.Delete();
          sending := false;
        }
        hasSocket := false;
        state := Idle;
    }

    /** The rest of the first message goes out; its node leaves the queue before the callback runs, and the sender
        is idle after it. */
    method FinishHead(inCallback: seq<bytes>, ending: Ending)
      requires GoodQueue() && queue.head != null && curDataOffset <= |queue.head.data| && AllFit(inCallback)
      requires state == Established && hasSocket
      modifies this`sending, this`written, this`txEvents, this`accepted, this`state, this`hasSocket, queue, queue.repr
      ensures GoodQueue() && fresh(queue.repr - old(queue.repr)) && !sending
      ensures var c := old(Abs());
              var sent := c.(written := c.written + c.queue[0][c.offset..], queue := c.queue[1..], txEvents := c.txEvents + 1);
              |c.queue| > 0 && Left(ending, EnqueueAll(sent, inCallback).(sending := false))
    {
      hide EnqueueAll, GoodQueue;
      TakeHead();
      SendAll(inCallback);
      End(ending);
      sending := false;
    }

    /** What is left of the first message is written, and its node is pulled. */
    method TakeHead()
      requires GoodQueue() && queue.head != null && curDataOffset <= |queue.head.data|
      modifies this`written, this`txEvents, queue
      ensures GoodQueue() && queue.repr == old(queue.repr)
      ensures var c := old(Abs());
              |c.queue| > 0 && Abs() == c.(written := c.written + c.queue[0][c.offset..], queue := c.queue[1..], txEvents := c.txEvents + 1)
    {
      ghost var before := queue.spine;
      written := written + queue.head.data[curDataOffset..];
      var nodeAux := queue.Pull();
      assert DataOf(queue.spine) == DataOf(before)[1..];
      txEvents := txEvents + 1;
    }

    /** tx_task: one turn of the sender. The callback runs, and can end the connection, when the turn completes a
        message. */
    method TxTask(capacity: nat, inCallback: seq<bytes>, ending: Ending)
      requires Valid() && state == Established && AllFit(inCallback)
      modifies this`sending, this`curDataOffset, this`written, this`txEvents, this`accepted, this`state, this`hasSocket, queue, queue.repr
      ensures Valid() && fresh(queue.repr - old(queue.repr))
      ensures var d := Next(old(Abs()), Tick(capacity, inCallback));
              Left(if d.txEvents > old(txEvents) then ending else Stays, d)
    {
      hide Inv, EnqueueAll, Chained;
      TurnKeepsInv(Abs(), capacity, inCallback);
      if |queue.spine| > 0 {
        TurnEvents(Abs(), capacity, inCallback);
      }
      if !sending {
        if queue.head != null {
          curDataOffset := 0;
          sending := true;
        }
      } else if capacity > 0 {
        HeadOfQueue();
        var node := queue.head;
        if capacity < node.dataLength - curDataOffset {
          written := written + node.data[curDataOffset..curDataOffset + capacity];
          curDataOffset := curDataOffset + capacity;
        } else {
          FinishHead(inCallback, ending);
        }
      }
    }

    /** The connection is up: its stream is empty and the queue holds nothing from before. */
    method Connected(inCallback: seq<bytes>, ending: Ending)
      requires GoodQueue() && queue.spine == [] && hasSocket && !sending && AllFit(inCallback)
      modifies this`written, this`txEvents, this`accepted, this`state, this`hasSocket, this`sending, queue, queue.repr
      ensures Valid() && Left(ending, EnqueueAll(FRESH.(offset := curDataOffset), inCallback))
      ensures fresh(queue.repr - old(queue.repr))
    {
      hide GoodQueue, EnqueueAll;
      written, txEvents, accepted := [], 0, [];
      state := Established;
      assert Abs() == FRESH.(offset := curDataOffset);
      EnqueueAllKeepsInv(Abs(), inCallback);
      SendAll(inCallback);
      End(ending);
    }

    /** The steps of tcp_client_task for one client, as far as they concern the queue. What the application
        does in the RX callback comes after the turn, as calls of Send, CloseClient and Reset. */
    method Task(a: Answers)
      requires Valid() && AllFit(a.inCallback)
      modifies this, queue, queue.repr
      ensures Valid() && fresh(queue.repr - old(queue.repr))
      ensures old(state) == Established && !a.gone ==>
                var d := Next(old(Abs()), Tick(a.capacity, a.inCallback));
                Left(if d.txEvents > old(txEvents) then a.ending else Stays, d)
      ensures old(state) == Established && a.gone ==> state == Close && Abs() == EnqueueAll(old(Abs()), a.inCallback)
      ensures old(state) == Close ==> state == WaitForRetry && queue.spine == [] && !hasSocket
      ensures match old(state)
              case Idle => state == Idle
              case Resolving => state == if a.failed then WaitForRetry else if a.ready then Opening else Resolving
              case Opening => state == (if a.ready then Connecting else WaitForRetry) && hasSocket == a.ready
              case Connecting =>
                if !a.ready then state == if a.failed then Failed else Connecting
                else if tls then state == (if a.failed then Failed else SslNegotiation) && !sending
                else Left(a.ending, EnqueueAll(FRESH.(offset := curDataOffset), a.inCallback))
              case SslNegotiation =>
                if a.failed then state == Failed
                else if a.ready then Left(a.ending, EnqueueAll(FRESH.(offset := curDataOffset), a.inCallback))
                else state == SslNegotiation
              case Failed => state == Close
              case WaitForRetry => state == if a.ready then Idle else WaitForRetry
              case _ => true
      ensures tls == old(tls)
      ensures state == Established && old(state) != Established ==> Abs() == EnqueueAll(FRESH.(offset := curDataOffset), a.inCallback)
    {
      hide Inv, EnqueueAll, Turn, Chained;
      match state
      case Idle =>
      case Resolving =>
        if a.failed {
          state := WaitForRetry;
        } else if a.ready {
          state := Opening;
        }
      case Opening =>
        hasSocket := a.ready;
        state := if a.ready then Connecting else WaitForRetry;
      case Connecting =>
        if a.ready {
          sending := false;
          if tls {
            state := if a.failed then Failed else SslNegotiation;
          } else {
            Connected(a.inCallback, a.ending);
          }
        } else if a.failed {
          state := Failed;
        }
      case SslNegotiation =>
        if a.failed {
          state := Failed;
        } else if a.ready {
          Connected(a.inCallback, a.ending);
        }
      case Established =>
        if a.gone {
          // the callback comes first, so what it sends is still taken
          SendAll(a.inCallback);
          state := Close;
        } else {
          TxTask(a.capacity, a.inCallback, a.ending);
        }
      case Failed =>
        state := Close;
      case Close =>
        hasSocket := false;
        queue.Delete();
        state := WaitForRetry;
      case WaitForRetry =>
        if a.ready {
          state := Idle;
        }
    }

    /** tcp_client_open_host, or tcp_client_open_ip when the address is known. */
    method Open(tls: bool, addressKnown: bool)
      requires Valid() && state == Idle
      modifies this`tls, this`state
      ensures Valid() && state == if addressKnown then Opening else Resolving
    {
      this.tls := tls;
      state := if addressKnown then Opening else Resolving;
    }

    /** tcp_client_close: the queue is dropped by the next turn of tcp_client_task. */
    method CloseClient() returns (result: int)
      requires Valid()
      modifies this`state
      ensures Valid() && Abs() == old(Abs())
      ensures result == if hasSocket then 0 else -4
      ensures state == if hasSocket then Close else old(state)
    {
      if hasSocket {
        state := Close;
        result := OP_SUCCESS;
      } else {
        result := OP_WRONG_ID_CLIENT;
      }
    }

    /** tcp_client_reset for one client. */
    method Reset()
      requires Valid()
      modifies this, queue
      ensures Valid() && state == Idle && !hasSocket && queue.spine == []
    {
      if hasSocket {
        if queue.head != null {
          queue.Delete();
          sending := false;
        }
        hasSocket := false;
      }
      state := Idle;
    }
  }
}
