/**
  The flight of messages that is kept for retransmission (section 4.2.4 of RFC 6347): a queue in
  which the order of sending is the order of priorities (3rdparty/boringssl/ssl/d1_both.c, pqueue.c).
 */
module DtlsFlight {
  import opened DtlsWire

  /** What dtls1_buffer_message and dtls1_buffer_change_cipher_spec keep. */
  datatype Content = Handshake(m: Message, seqNo: nat) | ChangeCipherSpec

  datatype Item = Item(priority: nat, content: Content, epoch: nat)

  /** A message number has sixteen bits. */
  function Wrap16(n: nat): (r: nat)
    ensures r < LIMIT16
  {
    n % LIMIT16
  }

  lemma WrapAgain(n: nat)
    ensures Wrap16(Wrap16(n)) == Wrap16(n) && Wrap16(Wrap16(n) + 1) == Wrap16(n + 1)
  {
  }

  /** dtls1_get_queue_priority, in sixteen bits. */
  function Priority(seqNo: nat, isCcs: bool): nat { (seqNo * 2 - (if isCcs then 1 else 0)) % LIMIT16 }

  ghost predicate Ascending(q: seq<Item>) {
    forall i, j | 0 <= i < j < |q| :: q[i].priority < q[j].priority
  }

  /** pqueue_insert: by priority, and a priority that is taken is refused. */
  function Insert(q: seq<Item>, item: Item): (r: seq<Item>) {
    if q == [] then [item]
    else if q[0].priority > item.priority then [item] + q
    else if q[0].priority == item.priority then q
    else [q[0]] + Insert(q[1..], item)
  }

  lemma {:induction false} InsertHolds(q: seq<Item>, item: Item)
    ensures forall x | x in Insert(q, item) :: x in q || x == item
  {
    if q != [] {
      InsertHolds(q[1..], item);
    }
  }

  lemma {:induction false} InsertSorts(q: seq<Item>, item: Item)
    requires Ascending(q)
    ensures Ascending(Insert(q, item))
  {
    if q != [] && q[0].priority < item.priority {
      InsertSorts(q[1..], item);
      InsertHolds(q[1..], item);
      var rest := Insert(q[1..], item);
      forall j | 0 <= j < |rest| ensures q[0].priority < rest[j].priority {
        assert rest[j] in rest;
      }
    }
  }

  lemma {:induction false} InsertLast(q: seq<Item>, item: Item)
    requires forall i | 0 <= i < |q| :: q[i].priority < item.priority
    ensures Insert(q, item) == q + [item]
  {
    if q != [] {
      InsertLast(q[1..], item);
    }
  }

  /** The queue after the items of a flight have been buffered one after the other. */
  function Queued(items: seq<Item>): seq<Item> {
    if items == [] then [] else Insert(Queued(items[..|items| - 1]), items[|items| - 1])
  }

  lemma {:induction false} QueuedIsSorted(items: seq<Item>)
    ensures Ascending(Queued(items))
  {
    if items != [] {
      QueuedIsSorted(items[..|items| - 1]);
      InsertSorts(Queued(items[..|items| - 1]), items[|items| - 1]);
    }
  }

  /** The queue holds a flight in its own order, nothing lost, exactly when the priorities rise. */
  lemma {:induction false} OrderIsKeptIffAscending(items: seq<Item>)
    ensures Queued(items) == items <==> Ascending(items)
  {
    QueuedIsSorted(items);
    if Ascending(items) && items != [] {
      var n := |items| - 1;
      OrderIsKeptIffAscending(items[..n]);
      InsertLast(items[..n], items[n]);
    }
  }

  // ---------------------------------------------------------------- a flight

  /** What a handshake sends in one flight, in the epoch it is sent in. */
  datatype Send = SendMessage(m: Message, epoch: nat) | SendCcs(epoch: nat)

  /** What is queued for x when the next message number is n. */
  function ItemOf(x: Send, n: nat): Item {
    match x
    case SendMessage(m, e) => Item(Priority(n, false), Handshake(m, Wrap16(n)), e)
    case SendCcs(e) => Item(Priority(n, true), ChangeCipherSpec, e)
  }

  /** The items of a flight that starts with message number `first`. */
  function Items(flight: seq<Send>, first: nat): (r: seq<Item>)
    ensures |r| == |flight|
  {
    if flight == [] then []
    else
      var n := |flight| - 1;
      var before := flight[..n];
      Items(before, first) + [ItemOf(flight[n], NextSeq(before, first))]
  }

  /** next_handshake_write_seq after the flight, before it is cut to 16 bits */
  function NextSeq(flight: seq<Send>, first: nat): (n: nat)
    ensures first <= n <= first + |flight|
  {
    if flight == [] then first
    else NextSeq(flight[..|flight| - 1], first) + (if flight[|flight| - 1].SendMessage? then 1 else 0)
  }

  /** No two ChangeCipherSpecs in a row, and none before message 0 unless it is all there is. */
  predicate Orderly(flight: seq<Send>, first: nat) {
    && (forall i | 0 < i < |flight| :: !(flight[i - 1].SendCcs? && flight[i].SendCcs?))
    && (first == 0 && |flight| > 1 ==> !flight[0].SendCcs?)
  }

  lemma {:induction false} ItemsAt(flight: seq<Send>, first: nat, i: nat)
    requires i < |flight|
    ensures Items(flight, first)[i].priority == Priority(NextSeq(flight[..i], first), flight[i].SendCcs?)
    ensures Items(flight, first)[i].epoch == flight[i].epoch
  {
    var n := |flight| - 1;
    if i < n {
      ItemsAt(flight[..n], first, i);
      assert flight[..n][..i] == flight[..i];
    }
  }

  lemma NextSeqStep(flight: seq<Send>, first: nat, i: nat)
    requires i < |flight|
    ensures NextSeq(flight[..i + 1], first) == NextSeq(flight[..i], first) + (if flight[i].SendMessage? then 1 else 0)
  {
    assert flight[..i + 1][..i] == flight[..i];
  }

  /** Neighbouring items rise, except after a ChangeCipherSpec by another, or by wrapping at 0. */
  lemma NeighboursRise(flight: seq<Send>, first: nat, i: nat)
    requires i + 1 < |flight| && first + |flight| <= 0x8000
    ensures var items := Items(flight, first);
            items[i].priority < items[i + 1].priority <==>
            !(flight[i].SendCcs? && (flight[i + 1].SendCcs? || NextSeq(flight[..i], first) == 0))
  {
    ItemsAt(flight, first, i);
    ItemsAt(flight, first, i + 1);
    NextSeqStep(flight, first, i);
    hide Items, NextSeq, Priority;
    PriorityOf(NextSeq(flight[..i], first), flight[i].SendCcs?);
    PriorityOf(NextSeq(flight[..i + 1], first), flight[i + 1].SendCcs?);
  }

  lemma PriorityOf(seqNo: nat, isCcs: bool)
    requires seqNo < 0x8000
    ensures Priority(seqNo, isCcs) == if isCcs && seqNo == 0 then LIMIT16 - 1 else seqNo * 2 - (if isCcs then 1 else 0)
  {
  }

  lemma {:induction false} RisingIsAscending(q: seq<Item>)
    requires forall i {:trigger q[i]} | 0 <= i < |q| - 1 :: q[i].priority < q[i + 1].priority
    ensures Ascending(q)
  {
    if q != [] {
      var n := |q| - 1;
      RisingIsAscending(q[..n]);
      forall i | 0 <= i < n ensures q[i].priority < q[n].priority {
        assert q[n - 1].priority < q[n].priority;
        assert i < n - 1 ==> q[..n][i].priority < q[..n][n - 1].priority;
      }
    }
  }

  /**
    With message numbers below 2^15, a flight is replayed in the order it was sent, and whole,
    exactly when no ChangeCipherSpec directly follows another or comes before message 0.
   */
  lemma FlightKeepsOrderIffOrderly(flight: seq<Send>, first: nat)
    requires first + |flight| <= 0x8000
    ensures Queued(Items(flight, first)) == Items(flight, first) <==> Orderly(flight, first)
  {
    OrderIsKeptIffAscending(Items(flight, first));
    hide Queued, Items, NextSeq, Priority, Orderly;
    if Orderly(flight, first) {
      OrderlyRises(flight, first);
    } else {
      DisorderlyFalls(flight, first);
    }
  }

  lemma OrderlyRises(flight: seq<Send>, first: nat)
    requires first + |flight| <= 0x8000 && Orderly(flight, first)
    ensures Ascending(Items(flight, first))
  {
    var items := Items(flight, first);
    hide Items, NextSeq, Priority;
    forall i: nat | i + 1 < |flight| ensures items[i].priority < items[i + 1].priority {
      NeighboursRise(flight, first, i);
      if flight[i].SendCcs? && NextSeq(flight[..i], first) == 0 {
        NoMessageBefore(flight, first, i);
      }
    }
    RisingIsAscending(items);
  }

  lemma DisorderlyFalls(flight: seq<Send>, first: nat)
    requires first + |flight| <= 0x8000 && !Orderly(flight, first)
    ensures !Ascending(Items(flight, first))
  {
    var items := Items(flight, first);
    var i: nat;
    if first == 0 && |flight| > 1 && flight[0].SendCcs? {
      i := 0;
      assert flight[..0] == [];
    } else {
      var j :| 0 < j < |flight| && flight[j - 1].SendCcs? && flight[j].SendCcs?;
      i := j - 1;
    }
    NeighboursRise(flight, first, i);
    hide Items, NextSeq, Priority;
    assert items[i].priority >= items[i + 1].priority;
  }

  lemma NoMessageBefore(flight: seq<Send>, first: nat, i: nat)
    requires Orderly(flight, first) && i + 1 < |flight| && NextSeq(flight[..i], first) == 0
    ensures !flight[i].SendCcs?
  {
    if i > 0 {
      NextSeqStep(flight, first, i - 1);
    } else {
      assert flight[..0] == [];
    }
  }

  /** One thing more is sent, and its item joins the queue. */
  lemma FlightGrows(flight: seq<Send>, first: nat, x: Send)
    ensures var n := Wrap16(NextSeq(flight, first));
            Wrap16(NextSeq(flight + [x], first)) == if x.SendMessage? then Wrap16(n + 1) else n
    ensures Queued(Items(flight + [x], first))
            == Insert(Queued(Items(flight, first)), ItemOf(x, Wrap16(NextSeq(flight, first))))
  {
    NextSeqGrows(flight, first, x);
    ItemsGrow(flight, first, x);
    QueueGrows(Items(flight, first), ItemOf(x, NextSeq(flight, first)));
    WrapAgain(NextSeq(flight, first));
    ItemWraps(x, NextSeq(flight, first));
    hide *;
  }

  lemma NextSeqGrows(flight: seq<Send>, first: nat, x: Send)
    ensures NextSeq(flight + [x], first) == NextSeq(flight, first) + (if x.SendMessage? then 1 else 0)
  {
    assert (flight + [x])[..|flight|] == flight;
  }

  lemma ItemsGrow(flight: seq<Send>, first: nat, x: Send)
    ensures Items(flight + [x], first) == Items(flight, first) + [ItemOf(x, NextSeq(flight, first))]
  {
    hide ItemOf, NextSeq;
    assert (flight + [x])[..|flight|] == flight;
  }

  lemma QueueGrows(items: seq<Item>, item: Item)
    ensures Queued(items + [item]) == Insert(Queued(items), item)
  {
    hide Insert;
    assert (items + [item])[..|items|] == items;
  }

  lemma ItemWraps(x: Send, n: nat)
    ensures ItemOf(x, Wrap16(n)) == ItemOf(x, n)
  {
    PriorityWraps(n, x.SendCcs?);
    WrapAgain(n);
    hide Priority, Wrap16;
  }

  lemma PriorityWraps(n: nat, isCcs: bool)
    ensures Priority(Wrap16(n), isCcs) == Priority(n, isCcs)
  {
    var k: int, r: int, ccs: int := n / LIMIT16, Wrap16(n), if isCcs then 1 else 0;
    assert n * 2 - ccs == LIMIT16 * (2 * k) + (r * 2 - ccs);
  }
}
