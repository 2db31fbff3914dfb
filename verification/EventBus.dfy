/** Per-product fan-out to bounded, drop-oldest subscriber queues. */
module EventBus {
  import opened Common

  const QUEUE_MAXSIZE: nat := 256

  datatype Event = Event(kind: string, product: Id, data: string)

  // ----- One queue's life, as the operations it has seen -----

  /** The publisher offers; the consumer takes, which an empty queue makes it wait for. */
  datatype QueueOp = Offered(event: Event) | Taken

  /** Append, dropping the oldest event when the queue is full. */
  function Offer(items: seq<Event>, e: Event): seq<Event> {
    if |items| < QUEUE_MAXSIZE then items + [e] else items[1..] + [e]
  }

  /** What is queued after a history of operations. */
  function Contents(ops: seq<QueueOp>): seq<Event> {
    if ops == [] then []
    else
      var items := Contents(ops[..|ops| - 1]);
      match ops[|ops| - 1]
      case Offered(e) => Offer(items, e)
      case Taken => if items == [] then [] else items[1..]
  }

  function OfferedEvents(ops: seq<QueueOp>): seq<Event> {
    if ops == [] then []
    else
      var earlier := OfferedEvents(ops[..|ops| - 1]);
      match ops[|ops| - 1]
      case Offered(e) => earlier + [e]
      case Taken => earlier
  }

  /** What the consumer received, in order. */
  function Delivered(ops: seq<QueueOp>): seq<Event> {
    if ops == [] then []
    else
      var earlier, items := Delivered(ops[..|ops| - 1]), Contents(ops[..|ops| - 1]);
      if ops[|ops| - 1].Taken? && items != [] then earlier + [items[0]] else earlier
  }

  /** How many events overflow has discarded. */
  function Dropped(ops: seq<QueueOp>): nat {
    if ops == [] then 0
    else
      var earlier, items := Dropped(ops[..|ops| - 1]), Contents(ops[..|ops| - 1]);
      if ops[|ops| - 1].Offered? && |items| >= QUEUE_MAXSIZE then earlier + 1 else earlier
  }

  /** The queue always holds the newest events offered, at most `QUEUE_MAXSIZE` of them. */
  lemma {:induction false} QueueIsSuffix(ops: seq<QueueOp>)
    ensures var (items, offered) := (Contents(ops), OfferedEvents(ops));
      && |items| <= QUEUE_MAXSIZE && |items| <= |offered|
      && items == offered[|offered| - |items|..]
    decreases |ops|
  {
    if ops != [] {
      QueueIsSuffix(ops[..|ops| - 1]);
    }
  }

  /** A queue never holds more than 256 events, and drops one exactly when offered one while it holds 256. */
  lemma {:induction false} DropsOnlyPast256(ops: seq<QueueOp>, op: QueueOp)
    ensures |Contents(ops)| <= 256
    ensures Dropped(ops + [op]) == Dropped(ops) + if op.Offered? && |Contents(ops)| == 256 then 1 else 0
  {
    QueueIsSuffix(ops);
    OneMoreOp(ops, op);
  }

  /** So a stream of at most 256 events is received whole, in whatever way it is consumed. */
  lemma {:induction false} ShortStreamsLoseNothing(ops: seq<QueueOp>)
    requires |OfferedEvents(ops)| <= 256
    ensures Dropped(ops) == 0 && Delivered(ops) + Contents(ops) == OfferedEvents(ops)
    decreases |ops|
  {
    if ops != [] {
      ShortStreamsLoseNothing(ops[..|ops| - 1]);
      EventsAreConserved(ops[..|ops| - 1]);
      EventsAreConserved(ops);
    }
    LosslessIffNothingDropped(ops);
  }

  /** Every event offered is delivered, dropped, or still queued. */
  lemma {:induction false} EventsAreConserved(ops: seq<QueueOp>)
    ensures |OfferedEvents(ops)| == |Delivered(ops)| + Dropped(ops) + |Contents(ops)|
    decreases |ops|
  {
    if ops != [] {
      EventsAreConserved(ops[..|ops| - 1]);
      QueueIsSuffix(ops[..|ops| - 1]);
    }
  }

  /** Nothing was dropped iff the consumer's events and the queue make up the whole stream. */
  lemma {:induction false} LosslessIffNothingDropped(ops: seq<QueueOp>)
    ensures Dropped(ops) == 0 <==> Delivered(ops) + Contents(ops) == OfferedEvents(ops)
    decreases |ops|
  {
    EventsAreConserved(ops);
    if ops != [] && Dropped(ops) == 0 {
      var before := ops[..|ops| - 1];
      LosslessIffNothingDropped(before);
      var items := Contents(before);
      if ops[|ops| - 1].Taken? && items != [] {
        assert items == [items[0]] + items[1..];
        assert Delivered(before) + [items[0]] + items[1..] == Delivered(before) + items;
      } else if ops[|ops| - 1].Offered? {
        var e := ops[|ops| - 1].event;
        assert Delivered(before) + (items + [e]) == Delivered(before) + items + [e];
      }
    }
  }

  /** `sub` picks the events of `all` at strictly increasing positions below `bound`. */
  ghost predicate PicksInOrder(sub: seq<Event>, all: seq<Event>, at: seq<nat>, bound: nat) {
    && |at| == |sub| && bound <= |all|
    && (forall i :: 0 <= i < |at| ==> at[i] < bound && sub[i] == all[at[i]])
    && (forall i, j :: 0 <= i < j < |at| ==> at[i] < at[j])
  }

  lemma NothingPicked()
    ensures PicksInOrder([], [], [], 0)
  {
  }

  lemma PickNext(sub: seq<Event>, all: seq<Event>, at: seq<nat>, bound: nat)
    requires PicksInOrder(sub, all, at, bound) && bound < |all|
    ensures PicksInOrder(sub + [all[bound]], all, at + [bound], bound + 1)
  {
  }

  lemma PickLater(sub: seq<Event>, all: seq<Event>, at: seq<nat>, bound: nat, more: seq<Event>, further: nat)
    requires PicksInOrder(sub, all, at, bound) && bound <= further <= |all + more|
    ensures PicksInOrder(sub, all + more, at, further)
  {
  }

  /** Offering an event picks nothing new; what is queued may only move further up the stream. */
  lemma OfferPicks(before: seq<QueueOp>, e: Event, at: seq<nat>)
    requires |Contents(before)| <= |OfferedEvents(before)|
    requires PicksInOrder(Delivered(before), OfferedEvents(before), at,
                          |OfferedEvents(before)| - |Contents(before)|)
    ensures var ops := before + [Offered(e)];
      && |Contents(ops)| <= |OfferedEvents(ops)|
      && PicksInOrder(Delivered(ops), OfferedEvents(ops), at, |OfferedEvents(ops)| - |Contents(ops)|)
  {
    hide PicksInOrder;
    var ops := before + [Offered(e)];
    OneMoreOp(before, Offered(e));
    var all, items := OfferedEvents(before), Contents(before);
    PickLater(Delivered(before), all, at, |all| - |items|, [e], |all| + 1 - |Contents(ops)|);
  }

  /** Taking the head of the queue picks the event it stands for in the stream. */
  lemma TakePicks(before: seq<QueueOp>, at: seq<nat>) returns (at': seq<nat>)
    requires |Contents(before)| <= |OfferedEvents(before)|
    requires PicksInOrder(Delivered(before), OfferedEvents(before), at,
                          |OfferedEvents(before)| - |Contents(before)|)
    ensures var ops := before + [Taken];
      && |Contents(ops)| <= |OfferedEvents(ops)|
      && PicksInOrder(Delivered(ops), OfferedEvents(ops), at', |OfferedEvents(ops)| - |Contents(ops)|)
  {
    hide PicksInOrder;
    at' := at;
    OneMoreOp(before, Taken);
    QueueIsSuffix(before);
    var all, items := OfferedEvents(before), Contents(before);
    if items != [] {
      var bound := |all| - |items|;
      PickNext(Delivered(before), all, at, bound);
      at' := at + [bound];
    }
  }

  /** The consumer sees a subsequence of the stream: never reordered, repeated, or from the queued tail. */
  lemma {:induction false} DeliveredInOrder(ops: seq<QueueOp>) returns (at: seq<nat>)
    ensures |Contents(ops)| <= |OfferedEvents(ops)|
    ensures PicksInOrder(Delivered(ops), OfferedEvents(ops), at, |OfferedEvents(ops)| - |Contents(ops)|)
    decreases |ops|
  {
    hide PicksInOrder;
    if ops == [] {
      at := [];
      NothingPicked();
    } else {
      hide Contents, Delivered, OfferedEvents;
      var before, op := ops[..|ops| - 1], ops[|ops| - 1];
      assert ops == before + [op];
      at := DeliveredInOrder(before);
      match op
      case Offered(e) => OfferPicks(before, e, at);
      case Taken => at := TakePicks(before, at);
    }
  }

  /** The events of one product, in publication order. */
  function ForProduct(events: seq<Event>, product: Id): seq<Event> {
    if events == [] then []
    else
      var earlier := ForProduct(events[..|events| - 1], product);
      if events[|events| - 1].product == product then earlier + [events[|events| - 1]] else earlier
  }

  lemma OneMoreEvent(published: seq<Event>, start: nat, e: Event, product: Id)
    requires start <= |published|
    ensures ForProduct((published + [e])[start..], product) ==
      if e.product == product then ForProduct(published[start..], product) + [e]
      else ForProduct(published[start..], product)
  {
    var events := (published + [e])[start..];
    assert events[..|events| - 1] == published[start..];
  }

  /** Offering a product's queue each of its events keeps it in step with the stream. */
  lemma StreamGrows(published: seq<Event>, start: nat, product: Id, ops: seq<QueueOp>, e: Event)
    requires start <= |published| && OfferedEvents(ops) == ForProduct(published[start..], product)
    ensures OfferedEvents(if e.product == product then ops + [Offered(e)] else ops)
         == ForProduct((published + [e])[start..], product)
  {
    OneMoreEvent(published, start, e, product);
    OneMoreOp(ops, Offered(e));
  }

  lemma OneMoreOp(ops: seq<QueueOp>, op: QueueOp)
    ensures (ops + [op])[..|ops|] == ops
  {
  }

  // ----- The queue and the bus -----

  class EventQueue {
    var items: seq<Event>
    ghost var ops: seq<QueueOp>
    ghost const product: Id
    ghost const start: nat

    ghost predicate Valid()
      reads this
    {
      items == Contents(ops)
    }

    constructor (ghost product: Id, ghost start: nat)
      ensures Valid() && items == [] && ops == [] && this.product == product && this.start == start
    {
      items, ops := [], [];
      this.product, this.start := product, start;
    }

    /** Enqueue, or report a full queue and leave it alone. */
    method PutNowait(e: Event) returns (full: bool)
      requires Valid()
      modifies this
      ensures full == (|old(items)| >= QUEUE_MAXSIZE)
      ensures full ==> items == old(items) && ops == old(ops)
      ensures !full ==> items == old(items) + [e] && ops == old(ops) + [Offered(e)] && Valid()
    {
      full := |items| >= QUEUE_MAXSIZE;
      if !full {
        items, ops := items + [e], ops + [Offered(e)];
        OneMoreOp(old(ops), Offered(e));
      }
    }

    /** Make room by discarding the oldest event, then enqueue. */
    method EvictOldestAndPut(e: Event)
      requires Valid() && |items| >= QUEUE_MAXSIZE
      modifies this
      ensures Valid() && items == Offer(old(items), e) && ops == old(ops) + [Offered(e)]
    {
      if items != [] {
        items := items[1..];
      }
      QueueIsSuffix(ops);
      if |items| < QUEUE_MAXSIZE {
        items := items + [e];
      }
      ops := ops + [Offered(e)];
      OneMoreOp(old(ops), Offered(e));
    }

    /** The consumer receives the oldest queued event. */
    method Get() returns (e: Event)
      requires Valid() && items != []
      modifies this
      ensures Valid() && e == old(items)[0] && items == old(items)[1..]
      ensures ops == old(ops) + [Taken] && OfferedEvents(ops) == OfferedEvents(old(ops))
    {
      e := items[0];
      items, ops := items[1..], ops + [Taken];
      OneMoreOp(old(ops), Taken);
    }
  }

  class EventBus {
    var subscribers: map<Id, set<EventQueue>>
    ghost var published: seq<Event>

    ghost function Queues(): set<EventQueue>
      reads this
    {
      set p, q | p in subscribers && q in subscribers[p] :: q
    }

    /** A live queue has been offered exactly its product's events since it subscribed. */
    ghost predicate UpToDate(q: EventQueue)
      reads this, q
    {
      && q.Valid() && q.start <= |published|
      && OfferedEvents(q.ops) == ForProduct(published[q.start..], q.product)
    }

    ghost predicate Valid()
      reads this, Queues()
    {
      && (forall p :: p in subscribers ==> subscribers[p] != {})
      && (forall p, q :: p in subscribers && q in subscribers[p] ==> q.product == p && UpToDate(q))
    }

    constructor ()
      ensures Valid() && subscribers == map[] && published == []
    {
      subscribers, published := map[], [];
    }

    function SubscribersOf(product: Id): set<EventQueue>
      reads this
    {
      if product in subscribers then subscribers[product] else {}
    }

    method Publish(e: Event)
      requires Valid()
      modifies this, SubscribersOf(e.product)
      ensures Valid() && subscribers == old(subscribers) && published == old(published) + [e]
      ensures forall q :: q in SubscribersOf(e.product) ==> Received(q, e)
    {
      hide Contents, OfferedEvents, ForProduct, Offer;
      var queues := RowsOf(SubscribersOf(e.product));
      forall q | q in queues
        ensures q.Valid() && q.product == e.product
      {
        assert UpToDate(q);
      }
      FanOut(queues, e);
      published := published + [e];
      forall p, q | p in subscribers && q in subscribers[p]
        ensures UpToDate(q)
      {
        assert p == e.product <==> q in queues;
        StreamGrows(old(published), q.start, q.product, old(q.ops), e);
      }
    }

    static method FanOut(queues: seq<EventQueue>, e: Event)
      requires forall q :: q in queues ==> q.Valid()
      requires forall i, j :: 0 <= i < j < |queues| ==> queues[i] != queues[j]
      modifies set q | q in queues
      ensures forall q :: q in queues ==> Received(q, e)
    {
      hide Contents, Offer;
      for i := 0 to |queues|
        invariant forall q :: q in queues ==> q.Valid()
        invariant forall j :: 0 <= j < i ==> Received(queues[j], e)
        invariant forall j :: i <= j < |queues| ==> unchanged(queues[j])
      {
        Deliver(queues[i], e);
      }
    }

    static method Deliver(q: EventQueue, e: Event)
      requires q.Valid()
      modifies q
      ensures Received(q, e)
    {
      hide Contents;
      var full := q.PutNowait(e);
      if full {
        q.EvictOldestAndPut(e);
      }
    }

    /** `e` has been offered to `q`, and is the newest event it holds. */
    static twostate predicate Received(q: EventQueue, e: Event)
      reads q
    {
      && q.Valid()
      && q.ops == old(q.ops) + [Offered(e)]
      && q.items == Offer(old(q.items), e)
      && q.items[|q.items| - 1] == e
    }

    method Subscribe(product: Id) returns (queue: EventQueue)
      requires Valid()
      modifies this
      ensures Valid() && fresh(queue) && published == old(published)
      ensures queue.items == [] && queue.product == product && queue.start == |published|
      ensures subscribers == old(subscribers)[product := old(SubscribersOf(product)) + {queue}]
    {
      queue := new EventQueue(product, |published|);
      subscribers := subscribers[product := SubscribersOf(product) + {queue}];
    }

    /** Idempotent: an unknown product or an already removed queue changes nothing. */
    method Unsubscribe(product: Id, queue: EventQueue)
      requires Valid()
      modifies this
      ensures Valid() && published == old(published)
      ensures var left := old(SubscribersOf(product)) - {queue};
        subscribers == if left == {} then old(subscribers) - {product} else old(subscribers)[product := left]
    {
      if product !in subscribers {
        return;
      }
      subscribers := subscribers[product := subscribers[product] - {queue}];
      if subscribers[product] == {} {
        subscribers := subscribers - {product};
      }
    }

    /** A consumer taking an event disturbs neither its queue's record nor any other queue. */
    method Consume(queue: EventQueue) returns (e: Event)
      requires Valid() && queue in Queues() && queue.items != []
      modifies queue
      ensures Valid() && e == old(queue.items)[0] && queue.items == old(queue.items)[1..]
    {
      ghost var p :| p in subscribers && queue in subscribers[p];
      assert UpToDate(queue);
      e := queue.Get();
    }

    method SubscriberCount(product: Id) returns (n: nat)
      requires Valid()
      ensures n == |SubscribersOf(product)| && (n == 0 <==> product !in subscribers)
    {
      n := |SubscribersOf(product)|;
    }
  }

  /** In every state of the bus, a live queue is the tail of its product's stream since it subscribed. */
  lemma LiveQueueIsStreamSuffix(bus: EventBus, q: EventQueue)
    requires bus.Valid() && q in bus.Queues()
    ensures q.start <= |bus.published|
    ensures var stream := ForProduct(bus.published[q.start..], q.product);
      && |q.items| <= QUEUE_MAXSIZE && |q.items| <= |stream|
      && q.items == stream[|stream| - |q.items|..]
      && |stream| == |Delivered(q.ops)| + Dropped(q.ops) + |q.items|
  {
    var p :| p in bus.subscribers && q in bus.subscribers[p];
    assert bus.UpToDate(q);
    QueueIsSuffix(q.ops);
    EventsAreConserved(q.ops);
  }
}
