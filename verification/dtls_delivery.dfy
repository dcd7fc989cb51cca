/**
  Whole runs of the receiver (dtls1_get_message in 3rdparty/boringssl/ssl/d1_both.c): whatever the
  network does to the records of an honest sender, the messages come out whole, once, in order.
 */
module DtlsDelivery {
  import opened Optional
  import opened DtlsWire
  import opened DtlsReceiver
  import opened DtlsSender

  /**
    The state of the receiver, and the records that have arrived; the first may be half read, and it
    is not empty.
   */
  datatype Reader = Reader(s: State, records: seq<seq<Byte>>)

  /** A message with what init_buf then holds, or why there is none.  Lost: the model cannot tell. */
  datatype Answer = Got(m: Message, initBuf: seq<Byte>) | NoData | Failed(e: Error) | Lost

  /** dtls1_read_bytes passes over empty records. */
  function SkipEmpty(records: seq<seq<Byte>>): (r: seq<seq<Byte>>)
    ensures Weight(r) <= Weight(records) && (r != [] ==> r[0] != [])
  {
    if records != [] && records[0] == [] then SkipEmpty(records[1..]) else records
  }

  function Weight(records: seq<seq<Byte>>): nat {
    if records == [] then 0 else |records[0]| + 1 + Weight(records[1..])
  }

  /** What the next read finds is the same whether or not empty records have been passed over before. */
  lemma {:induction false} SkipThenJoin(records: seq<seq<Byte>>, record: seq<Byte>)
    ensures SkipEmpty(SkipEmpty(records) + [record]) == SkipEmpty(records + [record])
  {
    if records != [] && records[0] == [] {
      SkipThenJoin(records[1..], record);
      assert (records + [record])[1..] == records[1..] + [record];
    }
  }

  lemma SkipTwice(records: seq<seq<Byte>>)
    ensures SkipEmpty(SkipEmpty(records)) == SkipEmpty(records)
  {
  }

  /** The records behind the first one, which has `more` left. */
  function Behind(more: seq<Byte>, records: seq<seq<Byte>>): (r: seq<seq<Byte>>)
    requires records != []
    ensures |more| < |records[0]| ==> Weight(r) < Weight(records)
  {
    assert ([more] + records[1..])[1..] == records[1..];
    SkipEmpty([more] + records[1..])
  }

  /** A record that is not empty has come behind the first one. */
  predicate AnotherRecord(records: seq<seq<Byte>>)
    requires records != []
  {
    SkipEmpty(records[1..]) != []
  }

  datatype Fetched = Whole(r: Reader) | Starved(r: Reader) | Refused(e: Error) | Astray

  /** Fragments are processed until the next message is complete. */
  ghost function Fetch(r: Reader, maxLen: nat): (f: Fetched)
    requires Sound(r.s)
    ensures f.Whole? ==> NextComplete(f.r.s)
    ensures f.Whole? || f.Starved? ==> Sound(f.r.s) && f.r.s.readSeq == r.s.readSeq
    decreases Weight(r.records)
  {
    if NextComplete(r.s) then Whole(r)
    else
      var records := SkipEmpty(r.records);
      if records == [] then Starved(Reader(r.s, []))
      else
        ProcessIsSound(r.s, maxLen, records[0], AnotherRecord(records));
        match Process(r.s, maxLen, records[0], AnotherRecord(records))
        case Ok(s, more) => Fetch(Reader(s, Behind(more, records)), maxLen)
        case Fail(e) => Refused(e)
        case Wild => Astray
  }

  /** dtls1_get_message for a message of kind `want` (any if negative) of at most `max` bytes. */
  ghost function GetNext(r: Reader, maxLen: nat, max: nat, want: int): (next: (Reader, Answer))
    requires Sound(r.s)
    ensures Sound(next.0.s)
  {
    match Fetch(r, maxLen)
    case Starved(r1) => (r1, NoData)
    case Refused(e) => (r, Failed(e))
    case Astray => (r, Lost)
    case Whole(r1) => TakeOut(r1, max, want)
  }

  /** The complete message leaves the queue. */
  ghost function TakeOut(r: Reader, max: nat, want: int): (next: (Reader, Answer))
    requires Sound(r.s) && NextComplete(r.s)
    ensures Sound(next.0.s)
  {
    var n, b := r.s.readSeq, r.s.queue[r.s.readSeq];
    var queue := r.s.queue - {n};
    if b.msgLen > max then (Reader(State(queue, n), r.records), Failed(ExcessiveMessageSize))
    else
      var m := Message(b.kind, BytesOf(b.body));
      var r1 := Reader(State(queue, (n + 1) % LIMIT16), r.records);
      if want >= 0 && b.kind != want then (r1, Failed(UnexpectedMessage))
      else (r1, Got(m, HashedBySender(m, n)))
  }

  // ---------------------------------------------------------------- runs

  /** What happens to a receiver: a record arrives, or the handshake asks for the next message. */
  datatype Event = Arrive(record: seq<Byte>) | Get(max: nat, want: int)

  /** `got` are the messages the handshake has received; a failure ends it. */
  datatype Run = Run(reader: Reader, got: seq<Answer>, over: bool)

  ghost function After(maxLen: nat, events: seq<Event>): (c: Run)
    ensures Sound(c.reader.s)
  {
    if events == [] then Run(Reader(State(map[], 0), []), [], false)
    else Advance(maxLen, After(maxLen, events[..|events| - 1]), events[|events| - 1])
  }

  ghost function Advance(maxLen: nat, c: Run, event: Event): (c1: Run)
    requires Sound(c.reader.s)
    ensures Sound(c1.reader.s)
  {
    match event
    case Arrive(record) => c.(reader := c.reader.(records := SkipEmpty(c.reader.records + [record])))
    case Get(max, want) =>
      if c.over then c
      else
        var (reader, answer) := GetNext(c.reader, maxLen, max, want);
        match answer
        case Got(_, _) => Run(reader, c.got + [answer], false)
        case NoData => Run(reader, c.got, false)
        case _ => Run(reader, c.got, true)
  }

  lemma OneMore(maxLen: nat, events: seq<Event>, event: Event)
    ensures After(maxLen, events + [event]) == Advance(maxLen, After(maxLen, events), event)
  {
    assert (events + [event])[..|events|] == events;
  }

  lemma AdvanceByGet(maxLen: nat, c: Run, max: nat, want: int)
    requires Sound(c.reader.s) && !c.over && !Fetch(c.reader, maxLen).Astray?
    ensures var (reader, a) := GetNext(c.reader, maxLen, max, want);
            var c1 := Advance(maxLen, c, Get(max, want));
            && c1.got == c.got + (if a.Got? then [a] else [])
            && (if a.Failed? then c1.over else c1.reader == reader && !c1.over)
  {
  }

  ghost predicate Sendable(sent: seq<Message>) {
    |sent| < LIMIT16 && forall i | 0 <= i < |sent| :: |sent[i].body| < LIMIT24
  }

  /** The first n messages, each in the form in which its sender hashed it. */
  ghost function Delivered(sent: seq<Message>, n: nat): seq<Answer>
    requires n <= |sent| && Sendable(sent)
  {
    seq(n, i requires 0 <= i < n => Got(sent[i], HashedBySender(sent[i], i)))
  }

  ghost predicate AllHonest(sent: seq<Message>, maxLen: nat, records: seq<seq<Byte>>) {
    forall i | 0 <= i < |records| :: records[i] == [] || Honest(sent, maxLen, records[i])
  }

  /** What is asked for cannot be this message. */
  predicate Refuses(event: Event, m: Message) {
    event.Get? && (|m.body| > event.max || (event.want >= 0 && m.kind != event.want))
  }

  lemma {:induction false} SkipKeepsHonest(sent: seq<Message>, maxLen: nat, records: seq<seq<Byte>>)
    requires AllHonest(sent, maxLen, records)
    ensures AllHonest(sent, maxLen, SkipEmpty(records))
  {
    if records != [] && records[0] == [] {
      SkipKeepsHonest(sent, maxLen, records[1..]);
    }
  }

  /** With honest records the loop ends with a complete message, or for want of records. */
  lemma {:induction false} FetchFromHonest(r: Reader, sent: seq<Message>, maxLen: nat)
    requires Sound(r.s) && Inv(r.s, sent) && AllHonest(sent, maxLen, r.records)
    ensures var f := Fetch(r, maxLen);
            && (f.Whole? || f.Starved?)
            && Inv(f.r.s, sent) && AllHonest(sent, maxLen, f.r.records)
            && (f.Starved? ==> f.r.records == [] && !NextComplete(f.r.s))
    decreases Weight(r.records)
  {
    hide Process, Sound, Inv, Honest, NextComplete, AllSized;
    if !NextComplete(r.s) {
      var records := SkipEmpty(r.records);
      SkipKeepsHonest(sent, maxLen, r.records);
      if records != [] {
        ProcessIsSound(r.s, maxLen, records[0], AnotherRecord(records));
        HonestRecordIsAbsorbed(r.s, sent, maxLen, records[0], AnotherRecord(records));
        var o := Process(r.s, maxLen, records[0], AnotherRecord(records));
        SkipKeepsHonest(sent, maxLen, [o.more] + records[1..]);
        FetchFromHonest(Reader(o.s, Behind(o.more, records)), sent, maxLen);
      }
    }
  }

  /** One call: the next message as it was sent, or nothing yet, or it is not what was asked for. */
  lemma GetFromHonest(r: Reader, sent: seq<Message>, maxLen: nat, max: nat, want: int)
    requires Sound(r.s) && Inv(r.s, sent) && AllHonest(sent, maxLen, r.records) && Sendable(sent)
    ensures var (r1, a) := GetNext(r, maxLen, max, want);
            && AllHonest(sent, maxLen, r1.records)
            && match a
               case Got(m, initBuf) =>
                 && r.s.readSeq < |sent| && r1.s.readSeq == r.s.readSeq + 1 && Inv(r1.s, sent)
                 && m == sent[r.s.readSeq] && initBuf == HashedBySender(m, r.s.readSeq)
               case NoData =>
                 r1.s.readSeq == r.s.readSeq && Inv(r1.s, sent) && r1.records == [] && !NextComplete(r1.s)
               case Failed(_) => r.s.readSeq < |sent| && Refuses(Get(max, want), sent[r.s.readSeq])
               case Lost => false
  {
    FetchFromHonest(r, sent, maxLen);
    hide Fetch, Honest, HashedBySender, WellMarked, Agrees;
    var f := Fetch(r, maxLen);
    if f.Whole? {
      var n := f.r.s.readSeq;
      AgreedShape(f.r.s.queue[n], sent[n]);
      CompleteIsSent(f.r.s.queue[n], sent[n]);
    }
  }

  /** Everything that has come was cut from `sent`, and its first messages have been handed out. */
  ghost predicate Receiving(r: Reader, got: seq<Answer>, sent: seq<Message>, maxLen: nat) {
    && Sendable(sent) && Sound(r.s) && Inv(r.s, sent) && AllHonest(sent, maxLen, r.records)
    && got == Delivered(sent, r.s.readSeq)
  }

  /** What is handed out is the next message of the sender, in the bytes its sender hashed. */
  ghost predicate AnswersFor(r: Reader, got: seq<Answer>, sent: seq<Message>, maxLen: nat,
                             max: nat, want: int, r1: Reader, a: Answer)
    requires Sendable(sent)
  {
    var n := r.s.readSeq;
    match a
    case Got(_, _) =>
      && n < |sent| && a == Got(sent[n], HashedBySender(sent[n], n))
      && r1.s.readSeq == n + 1 && Receiving(r1, got + [a], sent, maxLen)
    case NoData => r1.s.readSeq == n && r1.records == [] && Receiving(r1, got, sent, maxLen)
    case Failed(_) => n < |sent| && Refuses(Get(max, want), sent[n])
    case Lost => false
  }

  lemma NextAnswersFor(r: Reader, got: seq<Answer>, sent: seq<Message>, maxLen: nat, max: nat, want: int)
    requires Receiving(r, got, sent, maxLen)
    ensures var (r1, a) := GetNext(r, maxLen, max, want);
            AnswersFor(r, got, sent, maxLen, max, want, r1, a)
  {
    GetFromHonest(r, sent, maxLen, max, want);
    hide GetNext, Inv, Honest, HashedBySender;
  }

  /**
    If everything that arrives was cut from `sent`, then at every point of every run what the
    handshake has received are the first messages of `sent`, each whole, once and in order, and
    each in the very bytes its sender hashed.  A run is over only if the next message was refused.
   */
  lemma {:induction false} RunDeliversPrefix(sent: seq<Message>, maxLen: nat, events: seq<Event>)
    requires Sendable(sent)
    requires forall i | 0 <= i < |events| && events[i].Arrive? :: Honest(sent, maxLen, events[i].record)
    ensures var c := After(maxLen, events);
            && |c.got| <= |sent| && c.got == Delivered(sent, |c.got|)
            && AllHonest(sent, maxLen, c.reader.records)
            && if c.over then
                 |c.got| < |sent| && exists i :: 0 <= i < |events| && Refuses(events[i], sent[|c.got|])
               else Inv(c.reader.s, sent) && c.reader.s.readSeq == |c.got|
  {
    hide Inv, Honest, GetNext, HashedBySender;
    if events == [] {
      NothingReceived(sent);
    } else {
      var n := |events| - 1;
      RunDeliversPrefix(sent, maxLen, events[..n]);
      var c := After(maxLen, events[..n]);
      if events[n].Arrive? {
        SkipKeepsHonest(sent, maxLen, c.reader.records + [events[n].record]);
      } else if !c.over {
        GetFromHonest(c.reader, sent, maxLen, events[n].max, events[n].want);
      }
      if c.over {
        var i :| 0 <= i < n && Refuses(events[..n][i], sent[|c.got|]);
        assert Refuses(events[i], sent[|c.got|]);
      }
    }
  }

  lemma NothingReceived(sent: seq<Message>)
    requires |sent| < LIMIT16
    ensures Inv(State(map[], 0), sent)
  {
  }

  /**
    The same for a network: messages are sent any number of times, cut in any way, and of the
    records any may be lost, repeated and reordered.
   */
  lemma NetworkDeliversPrefix(sent: seq<Message>, maxLen: nat, wire: seq<Transmission>, events: seq<Event>)
    requires Sendable(sent)
    requires forall i | 0 <= i < |wire| :: Transmits(sent, maxLen, wire[i])
    requires forall i | 0 <= i < |events| && events[i].Arrive? ::
               exists j :: 0 <= j < |wire| && events[i].record in wire[j].records
    ensures var c := After(maxLen, events);
            |c.got| <= |sent| && c.got == Delivered(sent, |c.got|)
  {
    forall i | 0 <= i < |events| && events[i].Arrive? ensures Honest(sent, maxLen, events[i].record) {
      AnySelectionIsHonest(sent, maxLen, wire, [events[i].record]);
      assert [events[i].record][0] == events[i].record;
    }
    hide *;
    RunDeliversPrefix(sent, maxLen, events);
  }
}
