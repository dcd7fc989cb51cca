/**
  When a message comes out (dtls1_get_message in 3rdparty/boringssl/ssl/d1_both.c): exactly when
  the fragments that were looked at while it lay in the window of buffered messages cover it.
 */
module DtlsProgress {
  import opened Optional
  import opened DtlsWire
  import opened DtlsReassembly
  import opened DtlsReceiver
  import opened DtlsSender
  import opened DtlsDelivery

  // ---------------------------------------------------------------- fragments

  /** The headers of the fragments in a record. */
  function Pieces(record: seq<Byte>): set<Header>
    decreases |record|
  {
    if |record| < HEADER_LENGTH then {}
    else
      var h, rest := ParseHeader(record[..HEADER_LENGTH]), record[HEADER_LENGTH..];
      if h.fragLen > |rest| then {} else {h} + Pieces(rest[h.fragLen..])
  }

  function Waiting(records: seq<seq<Byte>>): set<Header> {
    if records == [] then {} else Pieces(records[0]) + Waiting(records[1..])
  }

  ghost predicate Announced(heard: set<Header>, n: nat) {
    exists h | h in heard :: h.seqNo == n
  }

  ghost predicate HasByte(heard: set<Header>, n: nat, i: nat) {
    exists h | h in heard :: h.seqNo == n && h.fragOff <= i < h.fragOff + h.fragLen
  }

  /** Some fragments of message n have been heard of, and together they cover its body. */
  ghost predicate WholeHeard(heard: set<Header>, n: nat, msgLen: nat) {
    Announced(heard, n) && forall i: nat | i < msgLen :: HasByte(heard, n, i)
  }

  /** Its fragment is looked at: it is neither of the past nor too far in the future. */
  predicate InWindow(s: State, n: nat) { s.readSeq <= n <= s.readSeq + BUFFER_SIZE }

  /** The header of the first fragment of a record, if it lies in the window. */
  function Took(s: State, record: seq<Byte>): set<Header> {
    if |record| < HEADER_LENGTH then {}
    else
      var h := ParseHeader(record[..HEADER_LENGTH]);
      if InWindow(s, h.seqNo) then {h} else {}
  }

  // ---------------------------------------------------------------- what the queue tells

  /** Message n is in the queue if a fragment of it was heard of, and has the bytes of all of them. */
  ghost predicate TellsOf(s: State, heard: set<Header>, n: nat) {
    && (n in s.queue <==> Announced(heard, n))
    && (n in s.queue ==>
          forall i: nat | i < |s.queue[n].body| :: s.queue[n].body[i].Some? <==> HasByte(heard, n, i))
  }

  ghost predicate Tells(s: State, heard: set<Header>) {
    forall n: nat {:trigger TellsOf(s, heard, n)} | s.readSeq <= n :: TellsOf(s, heard, n)
  }

  lemma BytesAnnounce(heard: set<Header>, n: nat, i: nat)
    requires HasByte(heard, n, i)
    ensures Announced(heard, n)
  {
  }

  lemma OneMoreHeader(heard: set<Header>, h: Header, n: nat)
    ensures Announced(heard + {h}, n) <==> Announced(heard, n) || h.seqNo == n
    ensures forall i: nat :: HasByte(heard + {h}, n, i)
              <==> HasByte(heard, n, i) || (h.seqNo == n && h.fragOff <= i < h.fragOff + h.fragLen)
  {
    var all := heard + {h};
    assert h in all && forall g | g in heard :: g in all;
  }

  /** A fragment in the window is added to what the queue tells, whoever sent it. */
  lemma ParsedTells(s: State, maxLen: nat, h: Header, rest: seq<Byte>, next: bool, heard: set<Header>)
    requires Sound(s) && AllSized(s) && Tells(s, heard) && ProcessParsed(s, maxLen, h, rest, next).Ok?
    ensures var o := ProcessParsed(s, maxLen, h, rest, next);
            && h.fragLen <= |rest| && o.more == rest[h.fragLen..]
            && Tells(o.s, if InWindow(s, h.seqNo) then heard + {h} else heard)
  {
    hide MarkMask, Announced, HasByte;
    var o := ProcessParsed(s, maxLen, h, rest, next);
    if InWindow(s, h.seqNo) {
      forall n: nat | s.readSeq <= n ensures TellsOf(o.s, heard + {h}, n) {
        assert TellsOf(s, heard, n);
        OneMoreHeader(heard, h, n);
        if n == h.seqNo {
          FoundTells(s, h, heard);
        }
      }
    } else {
      assert o.s == s;
    }
  }

  lemma FoundTells(s: State, h: Header, heard: set<Header>)
    requires Sound(s) && TellsOf(s, heard, h.seqNo)
    ensures var b := Found(s, h);
            && (forall i: nat | i < |b.body| :: b.body[i].Some? <==> HasByte(heard, h.seqNo, i))
            && (b.mask.None? ==> forall i: nat | i < |b.body| :: b.body[i].Some?)
  {
    if h.seqNo in s.queue {
      FoundIsMarked(s, h.seqNo);
    } else {
      forall i: nat ensures !HasByte(heard, h.seqNo, i) {
        if HasByte(heard, h.seqNo, i) {
          BytesAnnounce(heard, h.seqNo, i);
        }
      }
    }
  }

  lemma PiecesStep(record: seq<Byte>, h: Header, rest: seq<Byte>)
    requires |record| >= HEADER_LENGTH && rest == record[HEADER_LENGTH..]
    requires h == ParseHeader(record[..HEADER_LENGTH]) && h.fragLen <= |rest|
    ensures Pieces(record) == {h} + Pieces(rest[h.fragLen..])
  {
    hide ParseHeader;
  }

  lemma ProcessTells(s: State, maxLen: nat, record: seq<Byte>, next: bool, heard: set<Header>)
    requires Sound(s) && AllSized(s) && Tells(s, heard) && Process(s, maxLen, record, next).Ok?
    ensures var o := Process(s, maxLen, record, next);
            && Tells(o.s, heard + Took(s, record)) && |record| >= HEADER_LENGTH
            && Pieces(record) == {ParseHeader(record[..HEADER_LENGTH])} + Pieces(o.more)
  {
    hide Sound, AllSized, Tells, ParseHeader, ProcessParsed;
    var h, rest := ParseHeader(record[..HEADER_LENGTH]), record[HEADER_LENGTH..];
    ParsedTells(s, maxLen, h, rest, next, heard);
    PiecesStep(record, h, rest);
    hide Pieces;
    assert heard + {} == heard;
  }

  /** The next message is complete exactly when what was heard of it covers it. */
  lemma CompleteIffHeard(s: State, sent: seq<Message>, heard: set<Header>)
    requires Sound(s) && Inv(s, sent) && Tells(s, heard)
    ensures NextComplete(s)
            <==> s.readSeq < |sent| && WholeHeard(heard, s.readSeq, |sent[s.readSeq].body|)
  {
    hide Announced, HasByte, Fits, Marked;
    assert TellsOf(s, heard, s.readSeq);
    if s.readSeq in s.queue {
      FoundIsMarked(s, s.readSeq);
      AgreedShape(s.queue[s.readSeq], sent[s.readSeq]);
    }
  }

  // ---------------------------------------------------------------- one call

  /** The headers of the fragments in the window that Fetch looks at. */
  ghost function Taken(r: Reader, maxLen: nat): set<Header>
    requires Sound(r.s)
    decreases Weight(r.records)
  {
    var records := SkipEmpty(r.records);
    if NextComplete(r.s) || records == [] then {}
    else
      ProcessIsSound(r.s, maxLen, records[0], AnotherRecord(records));
      match Process(r.s, maxLen, records[0], AnotherRecord(records))
      case Ok(s, more) => Took(r.s, records[0]) + Taken(Reader(s, Behind(more, records)), maxLen)
      case _ => {}
  }

  lemma {:induction false} WaitingSkips(records: seq<seq<Byte>>)
    ensures Waiting(SkipEmpty(records)) == Waiting(records)
  {
    if records != [] && records[0] == [] {
      WaitingSkips(records[1..]);
    }
  }

  lemma {:induction false} WaitingJoins(records: seq<seq<Byte>>, record: seq<Byte>)
    ensures Waiting(records + [record]) == Waiting(records) + Pieces(record)
  {
    hide Pieces;
    if records == [] {
      assert ([] + [record])[1..] == [];
    } else {
      WaitingJoins(records[1..], record);
      assert (records + [record])[1..] == records[1..] + [record];
    }
  }

  lemma WaitingBehind(more: seq<Byte>, records: seq<seq<Byte>>)
    requires records != []
    ensures Waiting(Behind(more, records)) == Pieces(more) + Waiting(records[1..])
  {
    hide Pieces;
    WaitingSkips([more] + records[1..]);
    assert ([more] + records[1..])[1..] == records[1..];
  }

  /**
    Whatever Fetch works on, it accounts for every fragment: those in the window that it does not
    leave in the records are told by the queue, and nothing else is.
   */
  lemma {:induction false} FetchTells(r: Reader, maxLen: nat, heard: set<Header>)
    requires Sound(r.s) && Tells(r.s, heard)
    ensures var f, taken := Fetch(r, maxLen), Taken(r, maxLen);
            f.Whole? || f.Starved? ==>
              && Tells(f.r.s, heard + taken)
              && taken + Waiting(f.r.records) <= Waiting(r.records)
              && forall h | h in Waiting(r.records) && InWindow(r.s, h.seqNo) ::
                   h in taken || h in Waiting(f.r.records)
    decreases Weight(r.records)
  {
    hide Process, Sound, Tells, NextComplete, AllSized, Pieces, ParseHeader;
    var records := SkipEmpty(r.records);
    WaitingSkips(r.records);
    if NextComplete(r.s) || records == [] {
      assert heard + {} == heard;
    } else {
      var next := AnotherRecord(records);
      ProcessIsSound(r.s, maxLen, records[0], next);
      var o := Process(r.s, maxLen, records[0], next);
      if o.Ok? {
        var took := Took(r.s, records[0]);
        ProcessTells(r.s, maxLen, records[0], next, heard);
        WaitingBehind(o.more, records);
        var r1 := Reader(o.s, Behind(o.more, records));
        FetchTells(r1, maxLen, heard + took);
        assert Taken(r, maxLen) == took + Taken(r1, maxLen);
        assert heard + took + Taken(r1, maxLen) == heard + Taken(r, maxLen);
        forall h | h in Waiting(r.records) && InWindow(r.s, h.seqNo) ensures h in took || h in Waiting(r1.records) {
          assert h in Pieces(records[0]) || h in Waiting(records[1..]);
          assert InWindow(r1.s, h.seqNo);
        }
      }
    }
  }

  // ---------------------------------------------------------------- runs

  /** The headers of all fragments that have been looked at while they were in the window. */
  ghost function Heard(maxLen: nat, events: seq<Event>): set<Header> {
    if events == [] then {}
    else
      var n := |events| - 1;
      var c := After(maxLen, events[..n]);
      Heard(maxLen, events[..n]) + (if events[n].Get? && !c.over then Taken(c.reader, maxLen) else {})
  }

  /** The headers of all fragments that were not too far in the future when they arrived. */
  ghost function Arrived(maxLen: nat, events: seq<Event>): set<Header> {
    if events == [] then {}
    else
      var n := |events| - 1;
      var c := After(maxLen, events[..n]);
      Arrived(maxLen, events[..n]) + (if events[n].Arrive? then InReach(Pieces(events[n].record), c) else {})
  }

  ghost function InReach(pieces: set<Header>, c: Run): set<Header> {
    set h | h in pieces && h.seqNo <= c.reader.s.readSeq + BUFFER_SIZE
  }

  /** What has arrived in time has been looked at, or still waits, or belongs to a message handed out. */
  ghost predicate Accounted(c: Run, arrived: set<Header>, heard: set<Header>) {
    forall h | h in arrived ::
      && h.seqNo <= c.reader.s.readSeq + BUFFER_SIZE
      && (h.seqNo < c.reader.s.readSeq || h in heard || h in Waiting(c.reader.records))
  }

  ghost predicate FromHonest(sent: seq<Message>, maxLen: nat, events: seq<Event>) {
    && Sendable(sent)
    && forall i | 0 <= i < |events| && events[i].Arrive? :: Honest(sent, maxLen, events[i].record)
  }

  lemma ArriveTells(maxLen: nat, c: Run, record: seq<Byte>, arrived: set<Header>, heard: set<Header>)
    requires Sound(c.reader.s) && Tells(c.reader.s, heard) && Accounted(c, arrived, heard)
    ensures var c1 := Advance(maxLen, c, Event.Arrive(record));
            && Tells(c1.reader.s, heard)
            && Accounted(c1, arrived + InReach(Pieces(record), c), heard)
  {
    hide Tells, Pieces, Waiting;
    WaitingSkips(c.reader.records + [record]);
    WaitingJoins(c.reader.records, record);
  }

  lemma GetTells(sent: seq<Message>, maxLen: nat, c: Run, max: nat, want: int, arrived: set<Header>, heard: set<Header>)
    requires Sound(c.reader.s) && Inv(c.reader.s, sent) && AllHonest(sent, maxLen, c.reader.records) && Sendable(sent)
    requires !c.over && Tells(c.reader.s, heard) && Accounted(c, arrived, heard)
    ensures var c1 := Advance(maxLen, c, Get(max, want));
            var heard1 := heard + Taken(c.reader, maxLen);
            !c1.over ==> Tells(c1.reader.s, heard1) && Accounted(c1, arrived, heard1)
  {
    hide Inv, Honest, Tells, HashedBySender, Waiting;
    FetchFromHonest(c.reader, sent, maxLen);
    GetFromHonest(c.reader, sent, maxLen, max, want);
    FetchTells(c.reader, maxLen, heard);
    hide Fetch, Taken, Sound, WellMarked;
    var f := Fetch(c.reader, maxLen);
    if f.Whole? {
      TakenOutTells(f.r.s, heard + Taken(c.reader, maxLen));
    }
  }

  lemma TakenOutTells(s: State, heard: set<Header>)
    requires Tells(s, heard)
    ensures Tells(State(s.queue - {s.readSeq}, s.readSeq + 1), heard)
  {
    hide Announced, HasByte;
    var s1 := State(s.queue - {s.readSeq}, s.readSeq + 1);
    forall n: nat | s1.readSeq <= n ensures TellsOf(s1, heard, n) {
      assert TellsOf(s, heard, n);
    }
  }

  /** At every point of every run the queue tells exactly what has been heard. */
  lemma {:induction false} RunTells(sent: seq<Message>, maxLen: nat, events: seq<Event>)
    requires FromHonest(sent, maxLen, events)
    ensures var c, heard := After(maxLen, events), Heard(maxLen, events);
            !c.over ==> Tells(c.reader.s, heard) && Accounted(c, Arrived(maxLen, events), heard)
  {
    hide Honest, Tells, Inv, Accounted, Advance;
    if events == [] {
      NothingTold();
    } else {
      var n := |events| - 1;
      RunTells(sent, maxLen, events[..n]);
      RunDeliversPrefix(sent, maxLen, events[..n]);
      var c, heard, arrived := After(maxLen, events[..n]), Heard(maxLen, events[..n]), Arrived(maxLen, events[..n]);
      if c.over {
        OverStays(maxLen, c, events[n]);
      } else {
        match events[n] {
          case Arrive(record) =>
            ArriveTells(maxLen, c, record, arrived, heard);
            assert heard + {} == heard;
          case Get(max, want) =>
            GetTells(sent, maxLen, c, max, want, arrived, heard);
            assert arrived + {} == arrived;
        }
      }
    }
  }

  lemma OverStays(maxLen: nat, c: Run, event: Event)
    requires Sound(c.reader.s) && c.over
    ensures Advance(maxLen, c, event).over
  {
  }

  lemma NothingTold()
    ensures Tells(State(map[], 0), {})
    ensures Accounted(Run(Reader(State(map[], 0), []), [], false), {}, {})
  {
    forall n: nat ensures TellsOf(State(map[], 0), {}, n) {
    }
  }

  // ---------------------------------------------------------------- when a message comes out

  /** One call decides by what has been heard of the next message, and by what is asked for. */
  lemma FetchDecides(r: Reader, sent: seq<Message>, maxLen: nat, heard: set<Header>, max: nat, want: int)
    requires Sound(r.s) && Inv(r.s, sent) && AllHonest(sent, maxLen, r.records) && Sendable(sent) && Tells(r.s, heard)
    ensures var n, a := r.s.readSeq, GetNext(r, maxLen, max, want).1;
            var whole := n < |sent| && WholeHeard(heard + Taken(r, maxLen), n, |sent[n].body|);
            && (a.NoData? <==> !whole)
            && (a.Failed? <==> whole && Refuses(Get(max, want), sent[n]))
            && (a.Got? <==> whole && !Refuses(Get(max, want), sent[n]))
  {
    FetchFromHonest(r, sent, maxLen);
    FetchTells(r, maxLen, heard);
    var f := Fetch(r, maxLen);
    CompleteIffHeard(f.r.s, sent, heard + Taken(r, maxLen));
    hide Fetch, Taken, Tells, Honest, WholeHeard, WellMarked, HashedBySender;
    if f.Whole? {
      AgreedShape(f.r.s.queue[r.s.readSeq], sent[r.s.readSeq]);
    }
  }

  lemma AdvanceDecides(c: Run, sent: seq<Message>, maxLen: nat, heard: set<Header>, max: nat, want: int)
    requires Receiving(c.reader, c.got, sent, maxLen) && !c.over && Tells(c.reader.s, heard)
    ensures var call, n := Get(max, want), |c.got|;
            var c1 := Advance(maxLen, c, call);
            var whole := n < |sent| && WholeHeard(heard + Taken(c.reader, maxLen), n, |sent[n].body|);
            && (c1.over <==> whole && Refuses(call, sent[n]))
            && c1.got == if whole && !Refuses(call, sent[n]) then Delivered(sent, n + 1) else c.got
  {
    FetchDecides(c.reader, sent, maxLen, heard, max, want);
    NextAnswersFor(c.reader, c.got, sent, maxLen, max, want);
    hide Taken, GetNext, AllHonest, WholeHeard, HashedBySender, Tells, Inv, Refuses, Sendable;
    if |c.got| < |sent| {
      DeliveredStep(sent, |c.got|);
    }
  }

  lemma DeliveredStep(sent: seq<Message>, n: nat)
    requires n < |sent| && Sendable(sent)
    ensures Delivered(sent, n + 1) == Delivered(sent, n) + [Got(sent[n], HashedBySender(sent[n], n))]
  {
  }

  lemma RunIsReceiving(sent: seq<Message>, maxLen: nat, events: seq<Event>)
    requires FromHonest(sent, maxLen, events) && !After(maxLen, events).over
    ensures var c := After(maxLen, events);
            && Receiving(c.reader, c.got, sent, maxLen) && |c.got| == c.reader.s.readSeq
            && Tells(c.reader.s, Heard(maxLen, events))
  {
    hide After, Heard, Tells, Accounted, Refuses, Inv, Honest;
    RunDeliversPrefix(sent, maxLen, events);
    RunTells(sent, maxLen, events);
  }

  lemma HeardByGet(maxLen: nat, events: seq<Event>, max: nat, want: int)
    requires !After(maxLen, events).over
    ensures Heard(maxLen, events + [Get(max, want)])
            == Heard(maxLen, events) + Taken(After(maxLen, events).reader, maxLen)
  {
    assert (events + [Get(max, want)])[..|events|] == events;
  }

  /**
    At any point of any run of an honest sender, a call hands out the next message exactly when the
    fragments of it that were in the window when they were looked at cover it, and it is what was
    asked for.  If they do not cover it, the call waits for more; if it is not, it fails.
   */
  lemma NextIffHeard(sent: seq<Message>, maxLen: nat, events: seq<Event>, max: nat, want: int)
    requires FromHonest(sent, maxLen, events) && !After(maxLen, events).over
    ensures var c, call := After(maxLen, events), Get(max, want);
            var c1, n := After(maxLen, events + [call]), |c.got|;
            var whole := n < |sent| && WholeHeard(Heard(maxLen, events + [call]), n, |sent[n].body|);
            && (c1.over <==> whole && Refuses(call, sent[n]))
            && c1.got == if whole && !Refuses(call, sent[n]) then Delivered(sent, n + 1) else c.got
  {
    RunIsReceiving(sent, maxLen, events);
    OneMore(maxLen, events, Get(max, want));
    HeardByGet(maxLen, events, max, want);
    hide *;
    AdvanceDecides(After(maxLen, events), sent, maxLen, Heard(maxLen, events), max, want);
  }

  /** Nothing is heard but what has come. */
  ghost function Came(events: seq<Event>): set<Header> {
    set i, h | 0 <= i < |events| && events[i].Arrive? && h in Pieces(events[i].record) :: h
  }

  lemma CameStep(events: seq<Event>)
    requires events != []
    ensures var n := |events| - 1;
            Came(events) == Came(events[..n]) + (if events[n].Arrive? then Pieces(events[n].record) else {})
  {
    hide Pieces;
  }

  lemma GetLeaves(r: Reader, maxLen: nat, max: nat, want: int)
    requires Sound(r.s)
    ensures var f, (r1, a) := Fetch(r, maxLen), GetNext(r, maxLen, max, want);
            f.Whole? || f.Starved? ==> r1.records == f.r.records
  {
    hide Fetch, Sound;
  }

  lemma GetHasCome(c: Run, sent: seq<Message>, maxLen: nat, heard: set<Header>, max: nat, want: int)
    requires Sound(c.reader.s) && Inv(c.reader.s, sent) && AllHonest(sent, maxLen, c.reader.records)
    requires !c.over && Tells(c.reader.s, heard)
    ensures var c1 := Advance(maxLen, c, Get(max, want));
            && Taken(c.reader, maxLen) <= Waiting(c.reader.records)
            && (!c1.over ==> Waiting(c1.reader.records) <= Waiting(c.reader.records))
  {
    FetchFromHonest(c.reader, sent, maxLen);
    FetchTells(c.reader, maxLen, heard);
    GetLeaves(c.reader, maxLen, max, want);
    hide Fetch, Taken, GetNext, Tells, Sound, Inv, AllHonest, Waiting;
  }

  lemma {:induction false} HeardHasCome(sent: seq<Message>, maxLen: nat, events: seq<Event>)
    requires FromHonest(sent, maxLen, events)
    ensures var c := After(maxLen, events);
            Heard(maxLen, events) <= Came(events) && (!c.over ==> Waiting(c.reader.records) <= Came(events))
  {
    hide Honest, Tells, Inv, Accounted, Sound, GetNext, Pieces, Came;
    if events != [] {
      var n := |events| - 1;
      HeardHasCome(sent, maxLen, events[..n]);
      CameStep(events);
      RunDeliversPrefix(sent, maxLen, events[..n]);
      RunTells(sent, maxLen, events[..n]);
      var c := After(maxLen, events[..n]);
      if events[n].Arrive? {
        WaitingSkips(c.reader.records + [events[n].record]);
        WaitingJoins(c.reader.records, events[n].record);
      } else if !c.over {
        GetHasCome(c, sent, maxLen, Heard(maxLen, events[..n]), events[n].max, events[n].want);
      }
    }
  }

  /** Message n: fragments of it that cover it have arrived, none of them too far in the future. */
  ghost predicate InTime(sent: seq<Message>, maxLen: nat, events: seq<Event>, n: nat)
    requires n < |sent|
  {
    WholeHeard(Arrived(maxLen, events), n, |sent[n].body|)
  }

  lemma CoverGrows(a: set<Header>, b: set<Header>, n: nat, msgLen: nat)
    requires WholeHeard(a, n, msgLen) && forall h | h in a && h.seqNo == n :: h in b
    ensures WholeHeard(b, n, msgLen)
  {
    var h :| h in a && h.seqNo == n;
    assert h in b;
    forall i: nat | i < msgLen ensures HasByte(b, n, i) {
      assert HasByte(a, n, i);
      var g :| g in a && g.seqNo == n && g.fragOff <= i < g.fragOff + g.fragLen;
      assert g in b;
    }
  }

  /** A message that has arrived in time is handed out by the first call that gets to it. */
  lemma ArrivedIsDelivered(sent: seq<Message>, maxLen: nat, events: seq<Event>, max: nat, want: int)
    requires FromHonest(sent, maxLen, events) && !After(maxLen, events).over
    requires var n := |After(maxLen, events).got|;
             n < |sent| && InTime(sent, maxLen, events, n) && !Refuses(Get(max, want), sent[n])
    ensures var n, c1 := |After(maxLen, events).got|, After(maxLen, events + [Get(max, want)]);
            !c1.over && c1.got == Delivered(sent, n + 1)
  {
    var c, call := After(maxLen, events), Get(max, want);
    var n := |c.got|;
    RunDeliversPrefix(sent, maxLen, events);
    RunTells(sent, maxLen, events);
    NextIffHeard(sent, maxLen, events, max, want);
    var heard := Heard(maxLen, events + [call]);
    assert (events + [call])[..|events|] == events;
    if !WholeHeard(heard, n, |sent[n].body|) {
      FetchDecides(c.reader, sent, maxLen, Heard(maxLen, events), max, want);
      FetchFromHonest(c.reader, sent, maxLen);
      FetchTells(c.reader, maxLen, Heard(maxLen, events));
      hide Fetch, Taken, Tells, Inv, Sound, Honest, WholeHeard, Pieces;
      CoverGrows(Arrived(maxLen, events), heard, n, |sent[n].body|);
      assert false;
    }
  }

  lemma AskingArrivesNothing(maxLen: nat, events: seq<Event>, call: Event)
    requires call.Get?
    ensures Arrived(maxLen, events + [call]) == Arrived(maxLen, events)
  {
    assert (events + [call])[..|events|] == events;
  }

  /** Message n has arrived in time, and the call asks for it. */
  ghost predicate AsksInTime(sent: seq<Message>, maxLen: nat, events: seq<Event>, n: nat, call: Event) {
    n < |sent| && InTime(sent, maxLen, events, n) && call.Get? && !Refuses(call, sent[n])
  }

  /**
    Nothing gets stuck: once the messages up to number n + k have arrived in time, in whatever
    pieces and order, k calls that ask for what was sent hand all of them out.
   */
  lemma {:induction false} AllArrivedAllDelivered(sent: seq<Message>, maxLen: nat, events: seq<Event>, calls: seq<Event>)
    requires FromHonest(sent, maxLen, events) && !After(maxLen, events).over
    requires |After(maxLen, events).got| + |calls| <= |sent|
    requires forall i | 0 <= i < |calls| ::
               AsksInTime(sent, maxLen, events, |After(maxLen, events).got| + i, calls[i])
    ensures var c1 := After(maxLen, events + calls);
            !c1.over && c1.got == Delivered(sent, |After(maxLen, events).got| + |calls|)
    decreases |calls|
  {
    hide Honest, InTime, Refuses, After, HashedBySender;
    RunDeliversPrefix(sent, maxLen, events);
    if calls == [] {
      assert events + [] == events;
    } else {
      var k, n := |calls| - 1, |After(maxLen, events).got|;
      var before := calls[..k];
      assert forall i | 0 <= i < k :: before[i] == calls[i];
      assert AsksInTime(sent, maxLen, events, n + k, calls[k]);
      assert forall i | 0 <= i < k :: AsksInTime(sent, maxLen, events, n + i, calls[i]);
      AllArrivedAllDelivered(sent, maxLen, events, before);
      InTimeStays(sent, maxLen, events, before, n + k);
      assert events + calls == events + before + [calls[k]];
      assert FromHonest(sent, maxLen, events + before);
      ArrivedIsDelivered(sent, maxLen, events + before, calls[k].max, calls[k].want);
    }
  }

  lemma InTimeStays(sent: seq<Message>, maxLen: nat, events: seq<Event>, calls: seq<Event>, n: nat)
    requires n < |sent| && InTime(sent, maxLen, events, n) && forall i | 0 <= i < |calls| :: calls[i].Get?
    ensures InTime(sent, maxLen, events + calls, n)
  {
    hide Arrived, WholeHeard;
    ArrivedByThen(maxLen, events, calls);
  }

  lemma {:induction false} ArrivedByThen(maxLen: nat, events: seq<Event>, calls: seq<Event>)
    requires forall i | 0 <= i < |calls| :: calls[i].Get?
    ensures Arrived(maxLen, events + calls) == Arrived(maxLen, events)
    decreases |calls|
  {
    hide Arrived;
    if calls == [] {
      assert events + [] == events;
    } else {
      var k := |calls| - 1;
      ArrivedByThen(maxLen, events, calls[..k]);
      AskingArrivesNothing(maxLen, events + calls[..k], calls[k]);
      assert events + calls == (events + calls[..k]) + [calls[k]];
    }
  }

  // ---------------------------------------------------------------- what the sender has to get through

  lemma PieceOfFragment(m: Message, n: nat, off: nat, len: nat)
    requires |m.body| < LIMIT24 && n < LIMIT16 && off + len <= |m.body|
    ensures Pieces(FragmentRecord(m, n, off, len)) == {Header(m.kind, |m.body|, n, off, len)}
  {
    var h, record := Header(m.kind, |m.body|, n, off, len), FragmentRecord(m, n, off, len);
    assert record + [] == record;
    HonestParts(m, n, off, len, []);
    ParseInvertsHeader(h);
    hide HeaderBytes, ParseHeader, FragmentRecord;
    PiecesStep(record, h, record[HEADER_LENGTH..]);
  }

  /** The fragments of a cut cover what was cut. */
  lemma {:induction false} CutCovers(m: Message, n: nat, records: seq<seq<Byte>>, from: nat, to: nat, heard: set<Header>)
    requires |m.body| < LIMIT24 && n < LIMIT16 && Cut(m, n, records, from, to)
    requires forall k | 0 <= k < |records| :: Pieces(records[k]) <= heard
    ensures records != [] ==> Announced(heard, n)
    ensures forall i: nat | from <= i < to :: HasByte(heard, n, i)
    decreases |records|
  {
    hide Pieces, FragmentRecord;
    if records != [] {
      var k := |records| - 1;
      var mid: nat :| CutAt(m, n, records, from, mid, to);
      assert forall j | 0 <= j < k :: records[..k][j] == records[j];
      CutCovers(m, n, records[..k], from, mid, heard);
      PieceOfFragment(m, n, mid, to - mid);
      var h := Header(m.kind, |m.body|, n, mid, to - mid);
      assert h in Pieces(records[k]);
      assert h in heard && h.seqNo == n;
    }
  }

  /** A record of message n has arrived, and the message was not too far in the future then. */
  ghost predicate CameInTime(maxLen: nat, events: seq<Event>, record: seq<Byte>, n: nat) {
    exists i :: 0 <= i < |events| && events[i] == Event.Arrive(record)
      && n <= After(maxLen, events[..i]).reader.s.readSeq + BUFFER_SIZE
  }

  lemma {:induction false} ArrivedHas(maxLen: nat, events: seq<Event>, i: nat, h: Header)
    requires i < |events| && events[i].Arrive? && h in Pieces(events[i].record)
    requires h.seqNo <= After(maxLen, events[..i]).reader.s.readSeq + BUFFER_SIZE
    ensures h in Arrived(maxLen, events)
  {
    hide Pieces, After;
    var n := |events| - 1;
    if i < n {
      assert events[..n][..i] == events[..i];
      ArrivedHas(maxLen, events[..n], i, h);
    }
  }

  lemma {:induction false} CutOfOne(m: Message, n: nat, records: seq<seq<Byte>>, from: nat, to: nat, k: nat)
    requires |m.body| < LIMIT24 && n < LIMIT16 && Cut(m, n, records, from, to) && k < |records|
    ensures forall h | h in Pieces(records[k]) :: h.seqNo == n
    decreases |records|
  {
    hide Pieces, FragmentRecord;
    var last := |records| - 1;
    var mid: nat :| CutAt(m, n, records, from, mid, to);
    if k < last {
      assert records[..last][k] == records[k];
      CutOfOne(m, n, records[..last], from, mid, k);
    } else {
      PieceOfFragment(m, n, mid, to - mid);
    }
  }

  /** It is enough that every record of one whole transmission of the message gets through in time. */
  lemma TransmissionInTime(sent: seq<Message>, maxLen: nat, n: nat, records: seq<seq<Byte>>, events: seq<Event>)
    requires Sendable(sent) && n < |sent| && records != [] && Cut(sent[n], n, records, 0, |sent[n].body|)
    requires forall k | 0 <= k < |records| :: CameInTime(maxLen, events, records[k], n)
    ensures InTime(sent, maxLen, events, n)
  {
    hide Cut, Pieces, Arrived, After, Announced, HasByte;
    forall k | 0 <= k < |records| ensures Pieces(records[k]) <= Arrived(maxLen, events) {
      CutOfOne(sent[n], n, records, 0, |sent[n].body|, k);
      assert CameInTime(maxLen, events, records[k], n);
      var i :| 0 <= i < |events| && events[i] == Event.Arrive(records[k])
        && n <= After(maxLen, events[..i]).reader.s.readSeq + BUFFER_SIZE;
      forall h | h in Pieces(records[k]) ensures h in Arrived(maxLen, events) {
        ArrivedHas(maxLen, events, i, h);
      }
    }
    CutCovers(sent[n], n, records, 0, |sent[n].body|, Arrived(maxLen, events));
  }
}
