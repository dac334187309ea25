/**
 The TCP fan-out: lines offered to each client through a bounded queue its writer drains, what each client loses, and
 the total over all clients, those gone included.
 */
module Fanout {
  import opened Common

  /** A client's own loss notice, a notice that the fan-out itself fell behind, a numbered batch, or another message. */
  datatype Line = Notice(batches: nat, messages: nat) | TapNotice(lost: nat) | Batch(seqNo: nat) | Message(what: nat)

  /** What lines are counted in. */
  datatype Gauge = Batches | Messages | NoticedBatches | NoticedMessages

  function Amount(l: Line, g: Gauge): nat {
    match g
    case Batches => if l.Batch? then 1 else 0
    case Messages => if l.Message? || l.TapNotice? then 1 else 0
    case NoticedBatches => if l.Notice? then l.batches else 0
    case NoticedMessages => if l.Notice? then l.messages else 0
  }

  function Sum(lines: seq<Line>, g: Gauge): nat {
    if lines == [] then 0 else Sum(lines[..|lines| - 1], g) + Amount(lines[|lines| - 1], g)
  }

  lemma SumNext(lines: seq<Line>, l: Line, g: Gauge)
    ensures Sum(lines + [l], g) == Sum(lines, g) + Amount(l, g)
  {
    assert (lines + [l])[..|lines|] == lines;
  }

  // ----- one client -----

  /** `writerGone` once the thread that drains the queue has stopped. */
  datatype Client = Client(queue: seq<Line>, capacity: nat, alive: bool, writerGone: bool,
                           pendingBatches: nat, pendingMessages: nat, dropped: nat)

  /** Batches and messages offered to a client that could still take or count them, and the lines its writer took. */
  datatype History = History(batches: nat, messages: nat, written: seq<Line>)

  /** Everything that ever entered the queue. */
  function Enqueued(c: Client, h: History): seq<Line> {
    h.written + c.queue
  }

  ghost predicate Accounted(c: Client, h: History) {
    var sent := Enqueued(c, h);
    && h.batches == Sum(sent, Batches) + c.dropped
    && c.dropped == Sum(sent, NoticedBatches) + c.pendingBatches
    && h.messages == Sum(sent, Messages) + Sum(sent, NoticedMessages) + c.pendingMessages
    && |c.queue| <= c.capacity && c.capacity >= 2
  }

  function Push(c: Client, l: Line): Client {
    c.(queue := c.queue + [l])
  }

  lemma PushSums(c: Client, h: History, l: Line, g: Gauge)
    ensures Sum(Enqueued(Push(c, l), h), g) == Sum(Enqueued(c, h), g) + Amount(l, g)
  {
    SumNext(Enqueued(c, h), l, g);
    assert Enqueued(Push(c, l), h) == Enqueued(c, h) + [l];
  }

  predicate Owes(c: Client) {
    c.pendingBatches + c.pendingMessages > 0
  }

  /** The client once it has been told, if there is room, what it lost. */
  function Told(c: Client): Client {
    if Owes(c) && |c.queue| < c.capacity
    then Push(c, Notice(c.pendingBatches, c.pendingMessages)).(pendingBatches := 0, pendingMessages := 0)
    else c
  }

  function Missed(c: Client, batch: bool): Client {
    if batch then c.(pendingBatches := c.pendingBatches + 1, dropped := c.dropped + 1)
    else c.(pendingMessages := c.pendingMessages + 1)
  }

  function Seen(h: History, batch: bool): History {
    if batch then h.(batches := h.batches + 1) else h.(messages := h.messages + 1)
  }

  /**
   What the client's own threads do between the two sends of one offer: the writer takes lines off the queue and may
   stop, and either thread may mark the client as gone.
   */
  datatype Meanwhile = Meanwhile(taken: nat, stops: bool, noticed: bool)

  /** The lines the writer takes; one that has stopped takes none. */
  function Taken(c: Client, m: Meanwhile): (lines: seq<Line>)
    ensures |lines| <= |c.queue| && lines == c.queue[..|lines|]
  {
    if c.writerGone then [] else c.queue[..Min(m.taken, |c.queue|)]
  }

  function Passed(c: Client, m: Meanwhile): Client {
    c.(queue := c.queue[|Taken(c, m)|..], writerGone := c.writerGone || m.stops, alive := c.alive && !m.noticed)
  }

  /**
   What offering a line leaves: the client, the lines its writer took on the way, whether the line reached the queue or
   was counted, and whether to keep the client.
   */
  datatype Offer = Offer(client: Client, taken: seq<Line>, counted: bool, keep: bool)

  /** A line is a batch exactly when it is offered as one. */
  predicate Fits(l: Line, batch: bool) {
    !l.Notice? && (l.Batch? <==> batch)
  }

  /** First the notice of what is owed, then the line: two sends, with the client's threads running in between. */
  function Offered(c: Client, l: Line, batch: bool, dropLimit: nat, m: Meanwhile): Offer {
    if !c.alive || (Owes(c) && c.writerGone) then Offer(c, [], false, false) else
    var told := Told(c);
    var now, taken := Passed(told, m), Taken(told, m);
    if now.writerGone then Offer(now, taken, false, false)
    else if |now.queue| < now.capacity then Offer(Push(now, l), taken, true, true)
    else
      var missed := Missed(now, batch);
      Offer(missed, taken, true, missed.pendingBatches <= dropLimit)
  }

  function After(h: History, o: Offer, batch: bool): History {
    var h1 := h.(written := h.written + o.taken);
    if o.counted then Seen(h1, batch) else h1
  }

  lemma ToldIsAccounted(c: Client, h: History)
    requires Accounted(c, h)
    ensures Accounted(Told(c), h)
  {
    if Owes(c) && |c.queue| < c.capacity {
      var notice := Notice(c.pendingBatches, c.pendingMessages);
      forall g: Gauge ensures Sum(Enqueued(Told(c), h), g) == Sum(Enqueued(c, h), g) + Amount(notice, g) {
        PushSums(c, h, notice, g);
        assert Enqueued(Told(c), h) == Enqueued(Push(c, notice), h);
      }
    }
  }

  lemma PassedIsAccounted(c: Client, h: History, m: Meanwhile)
    requires Accounted(c, h)
    ensures Accounted(Passed(c, m), h.(written := h.written + Taken(c, m)))
  {
    var n := |Taken(c, m)|;
    assert (h.written + c.queue[..n]) + c.queue[n..] == h.written + c.queue;
  }

  lemma PushedIsAccounted(c: Client, h: History, l: Line, batch: bool)
    requires Accounted(c, h) && |c.queue| < c.capacity && Fits(l, batch)
    ensures Accounted(Push(c, l), Seen(h, batch))
  {
    forall g: Gauge ensures Sum(Enqueued(Push(c, l), Seen(h, batch)), g) == Sum(Enqueued(c, h), g) + Amount(l, g) {
      PushSums(c, h, l, g);
      assert Enqueued(Push(c, l), Seen(h, batch)) == Enqueued(Push(c, l), h);
    }
  }

  lemma MissedIsAccounted(c: Client, h: History, batch: bool)
    requires Accounted(c, h)
    ensures Accounted(Missed(c, batch), Seen(h, batch))
  {
    assert Enqueued(Missed(c, batch), Seen(h, batch)) == Enqueued(c, h);
  }

  /** Whatever becomes of a line, and whatever the client's threads do meanwhile, its accounts stay in balance. */
  lemma OfferedIsAccounted(c: Client, h: History, l: Line, batch: bool, dropLimit: nat, m: Meanwhile)
    requires Accounted(c, h) && Fits(l, batch)
    ensures var o := Offered(c, l, batch, dropLimit, m);
            Accounted(o.client, After(h, o, batch)) && o.client.dropped >= c.dropped
  {
    if !c.alive || (Owes(c) && c.writerGone) {
      assert h.written + [] == h.written;
    } else {
      var told := Told(c);
      var now, h1 := Passed(told, m), h.(written := h.written + Taken(told, m));
      ToldIsAccounted(c, h);
      PassedIsAccounted(told, h, m);
      if !now.writerGone && |now.queue| < now.capacity {
        PushedIsAccounted(now, h1, l, batch);
      } else if !now.writerGone {
        MissedIsAccounted(now, h1, batch);
      }
    }
  }

  /** What room was left, the line took a place behind the notice of what was owed; without room it was missed. */
  lemma QuietOffer(c: Client, l: Line, batch: bool, dropLimit: nat)
    requires c.alive && !c.writerGone && |c.queue| <= c.capacity
    ensures var o := Offered(c, l, batch, dropLimit, IDLE);
            var notice := if c.pendingBatches + c.pendingMessages > 0
                          then [Notice(c.pendingBatches, c.pendingMessages)] else [];
            if |c.queue + notice| < c.capacity then
              o == Offer(c.(queue := c.queue + notice + [l], pendingBatches := 0, pendingMessages := 0), [], true, true)
            else
              var fits := |c.queue + notice| == c.capacity;
              && o.counted && o.taken == [] && o.client.queue == (if fits then c.queue + notice else c.queue)
              && o.client.pendingBatches == (if fits && notice != [] then 0 else c.pendingBatches) +
                                            (if batch then 1 else 0)
              && o.client.pendingMessages == (if fits && notice != [] then 0 else c.pendingMessages) +
                                             (if batch then 0 else 1)
              && o.client.dropped == c.dropped + (if batch then 1 else 0)
  {
  }

  /**
   When a full queue has no room for the notice and the writer makes some, the line goes in and the notice stays owed.
   */
  lemma NoticeCanLag(c: Client, l: Line, batch: bool, dropLimit: nat, m: Meanwhile)
    requires c.alive && !c.writerGone && Owes(c) && |c.queue| == c.capacity >= 2
    requires m.taken >= 1 && !m.stops
    ensures var o := Offered(c, l, batch, dropLimit, m);
            && o.keep && o.client.queue == c.queue[Min(m.taken, |c.queue|)..] + [l]
            && o.client.pendingBatches == c.pendingBatches && o.client.pendingMessages == c.pendingMessages
  {
  }

  /** When the writer stops after a notice went in, the client is told of its losses but the line is not counted. */
  lemma StopsAfterNotice(c: Client, h: History, l: Line, batch: bool, dropLimit: nat, m: Meanwhile)
    requires c.alive && !c.writerGone && Owes(c) && |c.queue| < c.capacity && m.stops
    ensures var o := Offered(c, l, batch, dropLimit, m);
            && !o.keep && !Owes(o.client)
            && o.taken + o.client.queue == c.queue + [Notice(c.pendingBatches, c.pendingMessages)]
            && After(h, o, batch).batches == h.batches && After(h, o, batch).messages == h.messages
  {
  }

  /** The writer takes a line off the queue and onto the socket. */
  lemma WrittenIsAccounted(c: Client, h: History)
    requires Accounted(c, h) && c.queue != []
    ensures Accounted(c.(queue := c.queue[1..]), h.(written := h.written + [c.queue[0]]))
  {
    assert h.written + c.queue == (h.written + [c.queue[0]]) + c.queue[1..];
  }

  /**
   Every batch offered has been taken by the writer, is in the queue, is told of in a notice that was taken or is
   queued, or is about to be told of. Told of and about to be told of are together what `dropped` counts.
   */
  lemma EveryBatchIsKnown(c: Client, h: History)
    requires Accounted(c, h)
    ensures h.batches == Sum(h.written, Batches) + Sum(h.written, NoticedBatches) +
                         Sum(c.queue, Batches) + Sum(c.queue, NoticedBatches) + c.pendingBatches
  {
    SumConcat(h.written, c.queue, Batches);
    SumConcat(h.written, c.queue, NoticedBatches);
  }

  lemma {:induction false} SumConcat(a: seq<Line>, b: seq<Line>, g: Gauge)
    ensures Sum(a + b, g) == Sum(a, g) + Sum(b, g)
  {
    if b == [] {
      assert a + b == a;
    } else {
      var front, l := b[..|b| - 1], b[|b| - 1];
      SumConcat(a, front, g);
      SumNext(a + front, l, g);
      assert a + b == (a + front) + [l];
    }
  }

  /**
   A client is kept after an offer exactly while its writer runs and it owes no more batches than the limit; one let go
   with its writer running owes exactly one more, and its queue is full.
   */
  lemma KeptWithinLimit(c: Client, l: Line, batch: bool, dropLimit: nat, m: Meanwhile)
    requires c.alive && c.pendingBatches <= dropLimit && c.capacity >= 2 && |c.queue| <= c.capacity
    ensures var o := Offered(c, l, batch, dropLimit, m);
            && o.keep == (!o.client.writerGone && o.client.pendingBatches <= dropLimit)
            && (!o.keep && !o.client.writerGone ==>
                  batch && o.client.pendingBatches == dropLimit + 1 && |o.client.queue| == c.capacity)
  {
  }

  // ----- all clients -----

  function TotalDropped(clients: seq<Client>): nat {
    if clients == [] then 0 else TotalDropped(clients[..|clients| - 1]) + clients[|clients| - 1].dropped
  }

  lemma {:induction false} TotalWithout(clients: seq<Client>, i: nat)
    requires i < |clients|
    ensures TotalDropped(SwapRemoved(clients, i)) + clients[i].dropped == TotalDropped(clients)
  {
    var n := |clients| - 1;
    if i < n {
      TotalWith(clients[..n], i, clients[n]);
    }
  }

  lemma {:induction false} TotalWith(clients: seq<Client>, i: nat, c: Client)
    requires i < |clients|
    ensures TotalDropped(clients[i := c]) + clients[i].dropped == TotalDropped(clients) + c.dropped
    decreases |clients|
  {
    var n := |clients| - 1;
    if i < n {
      assert clients[i := c][..n] == clients[..n][i := c];
      TotalWith(clients[..n], i, c);
    } else {
      assert clients[i := c][..n] == clients[..n];
    }
  }

  /** Remove element `i`, the last taking its place. */
  function SwapRemoved<T>(s: seq<T>, i: nat): (r: seq<T>)
    requires i < |s|
    ensures |r| == |s| - 1
  {
    if i == |s| - 1 then s[..i] else s[..|s| - 1][i := s[|s| - 1]]
  }

  ghost predicate AllAccounted(clients: seq<Client>, histories: seq<History>) {
    |histories| == |clients| && forall i :: 0 <= i < |clients| ==> Accounted(clients[i], histories[i])
  }

  lemma UpdatedAccounts(clients: seq<Client>, histories: seq<History>, i: nat, c: Client, h: History)
    requires AllAccounted(clients, histories) && i < |clients| && Accounted(c, h)
    ensures AllAccounted(clients[i := c], histories[i := h])
  {
  }

  lemma RemovedAccounts(clients: seq<Client>, histories: seq<History>, i: nat)
    requires AllAccounted(clients, histories) && i < |clients|
    ensures AllAccounted(SwapRemoved(clients, i), SwapRemoved(histories, i))
  {
  }

  /** One client's turn in a broadcast. */
  lemma ReachedAccounts(clients: seq<Client>, histories: seq<History>, i: nat, l: Line, batch: bool, dropLimit: nat,
                        m: Meanwhile)
    requires AllAccounted(clients, histories) && i < |clients| && Fits(l, batch)
    ensures var c := Reached(clients[i], l, batch, dropLimit, m);
            var h := After(histories[i], Offered(clients[i], l, batch, dropLimit, m), batch);
            && AllAccounted(clients[i := c], histories[i := h])
            && TotalDropped(clients[i := c]) >= TotalDropped(clients)
  {
    var o := Offered(clients[i], l, batch, dropLimit, m);
    var c, h := Reached(clients[i], l, batch, dropLimit, m), After(histories[i], o, batch);
    OfferedIsAccounted(clients[i], histories[i], l, batch, dropLimit, m);
    assert Enqueued(c, h) == Enqueued(o.client, h);
    UpdatedAccounts(clients, histories, i, c, h);
    TotalWith(clients, i, c);
  }

  class FanOut {
    var clients: seq<Client>
    /** Dropped to clients that have left, and dropped on the way to the fan-out. */
    var droppedGone: nat
    var tapDropped: nat
    var seqNo: nat
    const dropLimit: nat
    ghost var histories: seq<History>

    ghost predicate Valid()
      reads this`clients, this`histories
    {
      AllAccounted(clients, histories)
    }

    /** The total the state reports. */
    function Dropped(): nat
      reads this`clients, this`droppedGone, this`tapDropped
    {
      droppedGone + tapDropped + TotalDropped(clients)
    }

    constructor (dropLimit: nat)
      ensures Valid() && Dropped() == 0 && clients == [] && this.dropLimit == dropLimit
    {
      clients, droppedGone, tapDropped, seqNo, this.dropLimit := [], 0, 0, 0, dropLimit;
      histories := [];
    }

    /** Greet a new client, whose queue holds at least a notice and a line; it may have left before it was greeted. */
    method Add(queueLength: nat, hello: nat, left: bool)
      requires Valid()
      modifies this`clients, this`histories
      ensures Valid() && Dropped() == old(Dropped())
      ensures |clients| == |old(clients)| + 1 && clients[..|old(clients)|] == old(clients)
      ensures clients[|old(clients)|] ==
              Client(if left then [] else [Message(hello)], if queueLength < 2 then 2 else queueLength, !left, false,
                     0, 0, 0)
    {
      var client := Client([], if queueLength < 2 then 2 else queueLength, !left, false, 0, 0, 0);
      var o := Offered(client, Message(hello), false, 0xffff_ffff_ffff_ffff, IDLE);
      NewClient(client, hello);
      clients, histories := clients + [o.client], histories + [History(0, if left then 0 else 1, [])];
    }

    /** Offer a line to client `i` while its threads run. */
    method OfferTo(i: nat, l: Line, batch: bool, m: Meanwhile)
      requires Valid() && i < |clients| && Fits(l, batch)
      modifies this`clients, this`histories
      ensures Valid() && TotalDropped(clients) >= TotalDropped(old(clients))
      ensures clients == old(clients)[i := Reached(old(clients)[i], l, batch, dropLimit, m)]
    {
      ReachedAccounts(clients, histories, i, l, batch, dropLimit, m);
      var o := Offered(clients[i], l, batch, dropLimit, m);
      histories := histories[i := After(histories[i], o, batch)];
      clients := clients[i := if o.keep then o.client else o.client.(alive := false)];
    }

    /**
     Offer a line to every client, each one's threads running meanwhile; one too far behind, or whose writer has
     stopped, is marked for removal.
     */
    method Broadcast(l: Line, batch: bool, meanwhile: nat -> Meanwhile)
      requires Valid() && Fits(l, batch)
      modifies this`clients, this`histories
      ensures Valid() && TotalDropped(clients) >= TotalDropped(old(clients))
      ensures AllReached(old(clients), clients, l, batch, dropLimit, meanwhile)
    {
      ghost var before := clients;
      for i := 0 to |clients|
        invariant Valid() && |clients| == |before| && TotalDropped(clients) >= TotalDropped(before)
        invariant forall j :: 0 <= j < i ==> clients[j] == Reached(before[j], l, batch, dropLimit, meanwhile(j))
        invariant forall j :: i <= j < |clients| ==> clients[j] == before[j]
      {
        OfferTo(i, l, batch, meanwhile(i));
      }
    }

    /** Let client `i` go, the last taking its place; what it lost stays in the total. */
    method Remove(i: nat)
      requires Valid() && i < |clients|
      modifies this`clients, this`histories, this`droppedGone
      ensures Valid() && Dropped() == old(Dropped()) && clients == SwapRemoved(old(clients), i)
    {
      TotalWithout(clients, i);
      RemovedAccounts(clients, histories, i);
      droppedGone := droppedGone + clients[i].dropped;
      clients, histories := SwapRemoved(clients, i), SwapRemoved(histories, i);
    }

    /** Forget the clients that hung up or fell too far behind. */
    method Reap()
      requires Valid()
      modifies this`clients, this`histories, this`droppedGone
      ensures Valid() && Dropped() == old(Dropped())
      ensures forall i :: 0 <= i < |clients| ==> clients[i].alive
      ensures SameClients(clients, Alive(old(clients)))
    {
      ghost var before := clients;
      var i := 0;
      while i < |clients|
        invariant i <= |clients| && Valid() && Dropped() == old(Dropped())
        invariant forall j :: 0 <= j < i ==> clients[j].alive
        invariant SameClients(Alive(clients), Alive(before))
        decreases |clients| - i
      {
        if clients[i].alive {
          i := i + 1;
        } else {
          AliveWithout(clients, i, before);
          Remove(i);
        }
      }
      AllAlive(clients);
    }

    /** A client's writer takes the oldest line to the socket. */
    method Write(i: nat)
      requires Valid() && i < |clients|
      modifies this`clients, this`histories
      ensures Valid() && Dropped() == old(Dropped())
      ensures clients == if old(clients)[i].queue == [] || old(clients)[i].writerGone then old(clients)
                         else old(clients)[i := old(clients)[i].(queue := old(clients)[i].queue[1..])]
    {
      var c := clients[i];
      if c.queue != [] && !c.writerGone {
        WrittenIsAccounted(c, histories[i]);
        UpdatedAccounts(clients, histories, i, c.(queue := c.queue[1..]),
                        histories[i].(written := histories[i].written + [c.queue[0]]));
        TotalWith(clients, i, c.(queue := c.queue[1..]));
        clients := clients[i := c.(queue := c.queue[1..])];
        histories := histories[i := histories[i].(written := histories[i].written + [c.queue[0]])];
      }
    }

    /** A client's socket closes: its writer stops, and that or its reader marks it as gone. */
    method HangUp(i: nat, writer: bool, noticed: bool)
      requires Valid() && i < |clients|
      modifies this`clients
      ensures Valid() && Dropped() == old(Dropped())
      ensures clients == old(clients)[
                i := old(clients)[i].(alive := old(clients)[i].alive && !noticed,
                                      writerGone := old(clients)[i].writerGone || writer)]
    {
      var c := clients[i].(alive := clients[i].alive && !noticed, writerGone := clients[i].writerGone || writer);
      UpdatedAccounts(clients, histories, i, c, histories[i]);
      TotalWith(clients, i, c);
      clients := clients[i := c];
    }

    /** What the tap lost on the way here is lost to every client: they are told, and the total counts it. */
    method NoteTapLoss(lost: nat, meanwhile: nat -> Meanwhile)
      requires Valid()
      modifies this`clients, this`histories, this`tapDropped
      ensures Valid() && Dropped() >= old(Dropped())
      ensures tapDropped == if lost > old(tapDropped) then lost else old(tapDropped)
      ensures lost <= old(tapDropped) ==> clients == old(clients)
      ensures lost > old(tapDropped) ==>
                AllReached(old(clients), clients, TapNotice(lost - old(tapDropped)), false, dropLimit, meanwhile)
    {
      if lost > tapDropped {
        var notice := TapNotice(lost - tapDropped);
        tapDropped := lost;
        Broadcast(notice, false, meanwhile);
      }
    }

    /** A batch gets the next number. */
    method OnBatch(meanwhile: nat -> Meanwhile)
      requires Valid()
      modifies this`clients, this`histories, this`seqNo
      ensures Valid() && Dropped() >= old(Dropped()) && seqNo == old(seqNo) + 1
      ensures AllReached(old(clients), clients, Batch(seqNo), true, dropLimit, meanwhile)
    {
      seqNo := seqNo + 1;
      Broadcast(Batch(seqNo), true, meanwhile);
    }
  }

  /** A client after a line was broadcast: one the line could not be offered to, or that owes too much, is done with. */
  function Reached(c: Client, l: Line, batch: bool, dropLimit: nat, m: Meanwhile): Client {
    var o := Offered(c, l, batch, dropLimit, m);
    if o.keep then o.client else o.client.(alive := false)
  }

  ghost predicate AllReached(before: seq<Client>, clients: seq<Client>, l: Line, batch: bool, dropLimit: nat,
                             meanwhile: nat -> Meanwhile)
  {
    && |clients| == |before|
    && forall i :: 0 <= i < |clients| ==> clients[i] == Reached(before[i], l, batch, dropLimit, meanwhile(i))
  }

  const IDLE := Meanwhile(0, false, false)

  lemma NewClient(c: Client, hello: nat)
    requires c == Client([], c.capacity, c.alive, false, 0, 0, 0) && c.capacity >= 2
    ensures var o := Offered(c, Message(hello), false, 0xffff_ffff_ffff_ffff, IDLE);
            && o.client == c.(queue := if c.alive then [Message(hello)] else [])
            && Accounted(o.client, History(0, if c.alive then 1 else 0, []))
  {
    assert [] + [Message(hello)] == [Message(hello)];
    forall g: Gauge ensures Sum([Message(hello)], g) == Amount(Message(hello), g) {
      SumNext([], Message(hello), g);
    }
  }

  function Alive(clients: seq<Client>): seq<Client> {
    if clients == [] then [] else
    var n := |clients| - 1;
    Alive(clients[..n]) + if clients[n].alive then [clients[n]] else []
  }

  lemma {:induction false} AllAlive(clients: seq<Client>)
    requires forall i :: 0 <= i < |clients| ==> clients[i].alive
    ensures Alive(clients) == clients
  {
    if clients != [] {
      AllAlive(clients[..|clients| - 1]);
    }
  }

  lemma {:induction false} AliveWith(clients: seq<Client>, i: nat, c: Client)
    requires i < |clients| && !clients[i].alive
    ensures multiset(Alive(clients[i := c])) == multiset(Alive(clients)) + if c.alive then multiset{c} else multiset{}
    decreases |clients|
  {
    var n := |clients| - 1;
    if i < n {
      assert clients[i := c][..n] == clients[..n][i := c];
      AliveWith(clients[..n], i, c);
    } else {
      assert clients[i := c][..n] == clients[..n];
    }
  }

  /** The same clients, in whatever order. */
  ghost predicate SameClients(a: seq<Client>, b: seq<Client>) {
    multiset(a) == multiset(b)
  }

  lemma AliveWithout(clients: seq<Client>, i: nat, before: seq<Client>)
    requires i < |clients| && !clients[i].alive && SameClients(Alive(clients), Alive(before))
    ensures SameClients(Alive(SwapRemoved(clients, i)), Alive(before))
  {
    var n := |clients| - 1;
    if i < n {
      AliveWith(clients[..n], i, clients[n]);
    }
  }

  // ----- whole runs -----

  /** Broadcasts say what each client's threads do during its own offer; between actions they act on their own. */
  datatype Action = Arrived(queueLength: nat, hello: nat, left: bool)
                  | BatchCame(meanwhile: nat -> Meanwhile)
                  | MessageCame(what: nat, meanwhile: nat -> Meanwhile)
                  | TapLost(lost: nat, meanwhile: nat -> Meanwhile)
                  | Wrote(at: nat) | HungUp(at: nat, writer: bool, noticed: bool) | Reaped

  method Step(f: FanOut, action: Action)
    requires f.Valid()
    modifies f
    ensures f.Valid() && f.Dropped() >= old(f.Dropped())
  {
    match action {
      case Arrived(queueLength, hello, left) => f.Add(queueLength, hello, left);
      case BatchCame(meanwhile) => f.OnBatch(meanwhile);
      case MessageCame(what, meanwhile) => f.Broadcast(Message(what), false, meanwhile);
      case TapLost(lost, meanwhile) => f.NoteTapLoss(lost, meanwhile);
      case Wrote(at) =>
        if at < |f.clients| {
          f.Write(at);
        }
      case HungUp(at, writer, noticed) =>
        if at < |f.clients| {
          f.HangUp(at, writer, noticed);
        }
      case Reaped => f.Reap();
    }
  }

  /**
   Under any interleaving with the draining writers, inside an offer too, the reported total never falls and every
   client's books balance.
   */
  method Run(dropLimit: nat, actions: seq<Action>) returns (f: FanOut, totals: seq<nat>)
    ensures fresh(f) && f.Valid() && |totals| == |actions|
    ensures forall i, j :: 0 <= i <= j < |totals| ==> totals[i] <= totals[j] <= f.Dropped()
    ensures forall i :: 0 <= i < |f.clients| ==>
              var c, h := f.clients[i], f.histories[i];
              h.batches == Sum(h.written, Batches) + Sum(h.written, NoticedBatches) +
                           Sum(c.queue, Batches) + Sum(c.queue, NoticedBatches) + c.pendingBatches
  {
    f := new FanOut(dropLimit);
    totals := [];
    for k := 0 to |actions|
      invariant fresh(f) && f.Valid() && |totals| == k
      invariant forall i, j :: 0 <= i <= j < k ==> totals[i] <= totals[j] <= f.Dropped()
    {
      Step(f, actions[k]);
      totals := totals + [f.Dropped()];
    }
    forall i | 0 <= i < |f.clients|
      ensures var c, h := f.clients[i], f.histories[i];
              h.batches == Sum(h.written, Batches) + Sum(h.written, NoticedBatches) +
                           Sum(c.queue, Batches) + Sum(c.queue, NoticedBatches) + c.pendingBatches
    {
      EveryBatchIsKnown(f.clients[i], f.histories[i]);
    }
  }
}
