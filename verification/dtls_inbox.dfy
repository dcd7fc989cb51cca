/**
  The receiver in place: hm_fragment, buffered_messages and dtls1_get_message
  (3rdparty/boringssl/ssl/d1_both.c), proved against DtlsReceiver and DtlsDelivery.
 */
module DtlsInbox {
  import opened Optional
  import opened DtlsWire
  import opened DtlsReassembly
  import opened DtlsReceiver
  import opened DtlsDelivery

  ghost predicate Apart(a: object, b: object) { a != b }

  /** An hm_fragment: the header it was made for, the body, and the marks. */
  class Fragment {
    const kind: Byte
    const msgLen: nat
    const body: array<Option<Byte>>
    const marks: MaskBuffer
    ghost const repr: set<object>

    ghost predicate Valid()
      reads repr
    {
      && body in repr && marks in repr && (marks.reassembly != null ==> marks.reassembly in repr)
      && marks.msgLen == msgLen == body.Length && marks.Valid()
      && Apart(marks, body) && (marks.reassembly != null ==> Apart(marks.reassembly, body))
    }

    ghost function Value(): Buffered
      reads repr
      requires Valid()
    {
      Buffered(kind, msgLen, body[..], if marks.reassembly == null then None else Some(marks.reassembly[..]))
    }

    /** dtls1_hm_fragment_new */
    constructor (h: Header)
      ensures Valid() && Value() == NewBuffered(h) && fresh(repr)
    {
      kind, msgLen := h.kind, h.msgLen;
      var bytes := new Option<Byte>[h.msgLen](_ => None);
      var bits := new MaskBuffer(h.msgLen);
      body, marks := bytes, bits;
      repr := {bytes, bits} + (if bits.reassembly == null then {} else {bits.reassembly});
      new;
      assert body[..] == seq(h.msgLen, _ => None);
      assert h.msgLen > 0 ==> marks.reassembly[..] == seq(MaskLength(h.msgLen), _ => 0);
    }

    /** The body of a fragment is read into place, and its range is marked. */
    method Read(off: nat, data: seq<Byte>)
      requires Valid() && marks.reassembly != null && InBounds(Range(off, off + |data|), msgLen)
      modifies repr
      ensures Valid()
      ensures Value() == Buffered(kind, msgLen, WriteBody(old(body[..]), off, data),
                                  MarkMask(old(marks.reassembly[..]), msgLen, off, off + |data|))
    {
      hide MarkRange, Complete;
      Fill(off, data);
      ghost var written := body[..];
      marks.Mark(off, off + |data|);
      assert body[..] == written;
    }

    method Fill(off: nat, data: seq<Byte>)
      requires off + |data| <= body.Length
      modifies body
      ensures body[..] == WriteBody(old(body[..]), off, data)
    {
      for i := 0 to |data|
        invariant forall j | 0 <= j < body.Length ::
            body[j] == if off <= j < off + i then Some(data[j - off]) else old(body[j])
      {
        body[off + i] := Some(data[i]);
      }
    }
  }

  /** What dtls1_process_fragment comes to. */
  datatype Progress = Processed | NothingToRead | Broken(e: Error)

  /** What error e leaves behind: a message may have joined the queue before its body failed to come. */
  function Remains(s: State, h: Header, e: Error): State {
    if e == InternalError then s.(queue := s.queue[h.seqNo := Found(s, h)]) else s
  }

  /** The fields of SSL that dtls1_get_message works on; records[0] is what is left of s3->rrec. */
  class Receiver {
    const maxLen: nat
    var queue: map<nat, Fragment>
    var readSeq: nat
    var records: seq<seq<Byte>>
    var initBuf: seq<Byte>
    ghost var got: seq<Answer>     // the messages handed out so far
    ghost var events: seq<Event>   // everything that has happened here

    ghost function Repr(): set<object>
      reads `queue
    {
      set k, o | k in queue && o in queue[k].repr :: o
    }

    ghost predicate Usable()
      reads `queue, Repr()
    {
      forall k | k in queue :: queue[k].Valid()
    }

    /** No two fragments share a buffer. */
    ghost predicate Valid()
      reads `queue, `readSeq, Repr()
    {
      this !in Repr() && Usable() && Separate() && Sound(Snapshot())
    }

    ghost predicate Separate()
      reads `queue
    {
      forall j, k | j in queue && k in queue && j != k :: queue[j].repr !! queue[k].repr
    }

    ghost function Snapshot(): State
      reads `queue, `readSeq, Repr()
      requires Usable()
    {
      State(Values(), readSeq)
    }

    ghost function Values(): map<nat, Buffered>
      reads `queue, Repr()
      requires Usable()
    {
      map k | k in queue :: queue[k].Value()
    }

    constructor (maxLen: nat)
      ensures this.maxLen == maxLen && Valid() && Repr() == {}
      ensures Snapshot() == State(map[], 0) && records == [] && events == [] && Live()
    {
      this.maxLen := maxLen;
      queue, readSeq, records, initBuf, got, events := map[], 0, [], [], [], [];
      new;
      assert Values() == map[];
    }

    /** What a caller of dtls1_get_message finds here, empty records aside. */
    ghost function Contents(): Reader
      reads `queue, `readSeq, `records, Repr()
      requires Usable()
    {
      Reader(Snapshot(), SkipEmpty(records))
    }

    /** The objects are where the run of `events` has led, and it has not failed. */
    ghost predicate Live()
      reads this, Repr()
      requires Usable()
    {
      After(maxLen, events) == Run(Contents(), got, false)
    }

    /** dtls1_get_record has opened a handshake record. */
    method Arrive(record: seq<Byte>)
      requires Valid() && Live()
      modifies `records, `events
      ensures Valid() && Live() && events == old(events) + [Event.Arrive(record)] && got == old(got)
    {
      hide After, Sound;
      OneMore(maxLen, events, Event.Arrive(record));
      SkipThenJoin(records, record);
      records := records + [record];
      events := events + [Event.Arrive(record)];
    }

    /** dtls1_read_bytes for the handshake: at most `len` bytes, all from one record. */
    method ReadBytes(len: nat) returns (ret: int, data: seq<Byte>)
      modifies `records
      ensures var rs := SkipEmpty(old(records));
              if rs == [] then ret == -1 && records == []
              else ret == |data| && |data| == (if len <= |rs[0]| then len else |rs[0]|)
                   && data == rs[0][..|data|] && records == [rs[0][|data|..]] + rs[1..]
    {
      while records != [] && records[0] == []
        invariant SkipEmpty(records) == SkipEmpty(old(records))
        decreases |records|
      {
        records := records[1..];
      }
      if records == [] {
        return -1, [];
      }
      var n := if len <= |records[0]| then len else |records[0]|;
      data := records[0][..n];
      records := [records[0][n..]] + records[1..];
      ret := n;
    }

    /** dtls1_discard_fragment_body, in pieces of at most 256 bytes. */
    method DiscardBody(len: nat) returns (ok: bool)
      requires records != [] && len <= |records[0]|
      modifies `records
      ensures ok && records == [old(records[0])[len..]] + old(records)[1..]
      ensures SkipEmpty(records) == Behind(old(records)[0][len..], old(records))
    {
      var left := len;
      while left > 0
        invariant 0 <= left <= len && records == [old(records[0])[len - left..]] + old(records)[1..]
      {
        var chunk := if left < 256 then left else 256;
        assert SkipEmpty(records) == records;
        var ret, data := ReadBytes(chunk);
        if ret != chunk {
          return false;
        }
        left := left - chunk;
      }
      ok := true;
    }

    /** The first fragment of a message: a new hm_fragment joins the queue. */
    method InsertNew(h: Header) returns (frag: Fragment)
      requires Valid() && readSeq <= h.seqNo < LIMIT16 && h.msgLen < LIMIT24 && h.seqNo !in queue
      modifies `queue
      ensures Valid() && fresh(Repr() - old(Repr()))
      ensures queue == old(queue)[h.seqNo := frag] && frag.Valid() && frag.Value() == NewBuffered(h)
      ensures Snapshot() == old(Snapshot()).(queue := old(Snapshot()).queue[h.seqNo := NewBuffered(h)])
    {
      hide Sound, WellMarked, NewBuffered;
      ghost var s := Snapshot();
      frag := new Fragment(h);
      queue := queue[h.seqNo := frag];
      Joined(old(queue), h.seqNo, frag, s);
      NewIsWellMarked(h);
      SoundGrows(s, h.seqNo, NewBuffered(h));
    }

    /** What the queue holds once a fragment with buffers of its own has joined it. */
    lemma Joined(before: map<nat, Fragment>, n: nat, frag: Fragment, s: State)
      requires n !in before && queue == before[n := frag] && frag.Valid()
      requires forall k | k in before :: before[k].Valid() && before[k].repr !! frag.repr
      requires forall j, k | j in before && k in before && j != k :: before[j].repr !! before[k].repr
      requires s.readSeq == readSeq && s.queue.Keys == before.Keys
      requires forall k | k in before :: s.queue[k] == before[k].Value()
      ensures Usable() && Separate() && Snapshot() == s.(queue := s.queue[n := frag.Value()])
    {
    }

    /** dtls1_get_buffered_message: null if the header contradicts what is buffered. */
    method GetBuffered(h: Header) returns (frag: Fragment?)
      requires Valid() && readSeq <= h.seqNo < LIMIT16 && h.msgLen < LIMIT24
      modifies `queue
      ensures Valid() && fresh(Repr() - old(Repr())) && readSeq == old(readSeq)
      ensures var b := Found(old(Snapshot()), h);
              if frag == null then
                (b.kind != h.kind || b.msgLen != h.msgLen) && Snapshot() == old(Snapshot())
              else
                && h.seqNo in queue && queue[h.seqNo] == frag && frag.Value() == b
                && b.kind == h.kind && b.msgLen == h.msgLen
                && Snapshot().queue == old(Snapshot()).queue[h.seqNo := b]
    {
      hide WellMarked;
      if h.seqNo in queue {
        frag := queue[h.seqNo];
        if frag.kind != h.kind || frag.msgLen != h.msgLen {
          return null;
        }
      } else {
        frag := InsertNew(h);
      }
    }

    /** The body of a fragment is read into the message it belongs to. */
    method StoreBody(h: Header, data: seq<Byte>)
      requires Valid() && h.seqNo in queue && queue[h.seqNo].marks.reassembly != null
      requires h.msgLen == queue[h.seqNo].msgLen && |data| == h.fragLen && h.fragOff + h.fragLen <= h.msgLen
      requires h.fragOff < 8 * MaskLength(h.msgLen)
      modifies queue[h.seqNo].repr
      ensures Valid()
      ensures var s := old(Snapshot());
              var b := Absorb(s.queue[h.seqNo], h, data);
              b.Some? && Snapshot() == s.(queue := s.queue[h.seqNo := b.value])
    {
      hide Sound, WellMarked, WriteBody, MarkMask;
      ghost var s := Snapshot();
      var frag := queue[h.seqNo];
      ghost var b := frag.Value();
      FoundIsMarked(s, h.seqNo);
      frag.Read(h.fragOff, data);
      Stored(h.seqNo, s);
      AbsorbKeepsMarks(b, h, data);
      SoundGrows(s, h.seqNo, frag.Value());
    }

    /** One fragment of the queue has changed. */
    lemma Stored(n: nat, s: State)
      requires this !in Repr() && n in queue && s.readSeq == readSeq && s.queue.Keys == queue.Keys
      requires queue[n].Valid()
      requires forall k | k in queue && k != n :: queue[k].Valid() && s.queue[k] == queue[k].Value()
      ensures Usable() && Snapshot() == s.(queue := s.queue[n := queue[n].Value()])
    {
    }

    /** The body of a fragment is read: from the rest of its record, or none of it from the next one. */
    method TakeBody(len: nat) returns (ok: bool, data: seq<Byte>)
      requires records != [] && len <= |records[0]|
      modifies `records
      ensures ok == (old(records)[0] != [] || AnotherRecord(old(records)))
      ensures ok ==> data == old(records)[0][..len]
                     && SkipEmpty(records) == Behind(old(records)[0][len..], old(records))
    {
      var ret;
      ret, data := ReadBytes(len);
      SkipTwice(old(records));
      ok := ret == len;
    }

    /** A fragment of a message in the queue: its body is read, or discarded once that is complete. */
    method ReceiveBody(h: Header) returns (p: Progress)
      requires Valid() && h.seqNo in queue && records != [] && h.msgLen == queue[h.seqNo].msgLen
      requires h.fragOff + h.fragLen <= h.msgLen && h.fragLen <= |records[0]|
      requires Sized(Snapshot().queue[h.seqNo])
      requires !Receive(Snapshot(), Snapshot().queue[h.seqNo], h, records[0], AnotherRecord(records)).Wild?
      modifies `records, queue[h.seqNo].repr
      ensures Valid()
      ensures match Receive(old(Snapshot()), old(Snapshot()).queue[h.seqNo], h, old(records)[0], AnotherRecord(old(records)))
              case Ok(s, more) => p == Processed && Snapshot() == s && SkipEmpty(records) == Behind(more, old(records))
              case Fail(e) => e == InternalError && p == Broken(e) && Snapshot() == old(Snapshot())
              case Wild => true
    {
      hide Sound, Absorb, Separate, Sized, Behind, SkipEmpty, AnotherRecord;
      if queue[h.seqNo].marks.reassembly == null {
        AlreadyThere(Snapshot(), h.seqNo);
        var discarded := DiscardBody(h.fragLen);
        return Processed;
      }
      var ok, data := TakeBody(h.fragLen);
      if !ok {
        return Broken(InternalError);
      }
      NotWild(Snapshot().queue[h.seqNo], h, data);
      StoreBody(h, data);
      p := Processed;
    }

    /** dtls1_process_fragment behind its header. */
    method ProcessBody(h: Header) returns (p: Progress)
      requires Valid() && records != [] && Encodable(h) && AllSized(Snapshot())
      requires !ProcessParsed(Snapshot(), maxLen, h, records[0], AnotherRecord(records)).Wild?
      modifies `queue, `records, Repr()
      ensures Valid() && fresh(Repr() - old(Repr()))
      ensures match ProcessParsed(old(Snapshot()), maxLen, h, old(records)[0], AnotherRecord(old(records)))
              case Ok(s, more) => p == Processed && Snapshot() == s && SkipEmpty(records) == Behind(more, old(records))
              case Fail(e) => p == Broken(e) && Snapshot() == Remains(old(Snapshot()), h, e)
              case Wild => true
    {
      hide Sound, NewBuffered, Receive, WellMarked, Sized;
      ghost var s := Snapshot();
      if h.fragOff > h.msgLen || h.fragOff + h.fragLen > h.msgLen || h.msgLen > maxLen || h.fragLen > |records[0]| {
        return Broken(ExcessiveMessageSize);
      }
      if h.seqNo < readSeq || h.seqNo > readSeq + BUFFER_SIZE {
        var discarded := DiscardBody(h.fragLen);
        return Processed;
      }
      var frag := GetBuffered(h);
      if frag == null {
        return Broken(FragmentMismatch);
      }
      FoundIsMarked(Snapshot(), h.seqNo);
      ReceiveInserted(s, frag.Value(), h, records[0], AnotherRecord(records));
      p := ReceiveBody(h);
    }

    /** dtls1_process_fragment */
    method ProcessFragment() returns (p: Progress)
      requires Valid() && AllSized(Snapshot())
      requires var rs := SkipEmpty(records);
               rs != [] ==> !Process(Snapshot(), maxLen, rs[0], AnotherRecord(rs)).Wild?
      modifies `queue, `records, Repr()
      ensures Valid() && fresh(Repr() - old(Repr()))
      ensures var rs := SkipEmpty(old(records));
              if rs == [] then p == NothingToRead && records == [] && Snapshot() == old(Snapshot())
              else match Process(old(Snapshot()), maxLen, rs[0], AnotherRecord(rs))
                   case Ok(s, more) => p == Processed && Snapshot() == s && SkipEmpty(records) == Behind(more, rs)
                   case Fail(e) =>
                     && p == Broken(e)
                     && if |rs[0]| < HEADER_LENGTH then Snapshot() == old(Snapshot())
                        else Snapshot() == Remains(old(Snapshot()), ParseHeader(rs[0][..HEADER_LENGTH]), e)
                   case Wild => true
    {
      hide Sound, ProcessParsed, ParseHeader;
      var ret, header := ReadBytes(HEADER_LENGTH);
      if ret <= 0 {
        return NothingToRead;
      }
      if ret != HEADER_LENGTH {
        return Broken(UnexpectedMessage);
      }
      ParsedFits(header);
      p := ProcessBody(ParseHeader(header));
    }

    /** The loop of dtls1_get_message: fragments are processed until the next message is complete. */
    method Assemble() returns (p: Progress)
      requires Valid() && !Fetch(Contents(), maxLen).Astray?
      modifies `queue, `records, Repr()
      ensures Valid() && fresh(Repr() - old(Repr()))
      ensures match Fetch(old(Contents()), maxLen)
              case Whole(r) => p == Processed && Contents() == r
              case Starved(r) => p == NothingToRead && Contents() == r
              case Refused(e) => p == Broken(e)
              case Astray => true
    {
      hide Sound, Process, NextComplete;
      ghost var fetched := Fetch(Contents(), maxLen);
      while !IsNextComplete()
        invariant Valid() && fresh(Repr() - old(Repr()))
        invariant Fetch(Contents(), maxLen) == fetched
        decreases Weight(SkipEmpty(records))
      {
        SoundIsSized(Snapshot());
        p := ProcessFragment();
        if p != Processed {
          return;
        }
      }
      p := Processed;
    }

    /** dtls1_is_next_message_complete */
    predicate IsNextComplete()
      reads `queue, `readSeq, Repr()
      requires Usable()
      ensures IsNextComplete() == NextComplete(Snapshot())
    {
      readSeq in queue && queue[readSeq].marks.reassembly == null
    }

    /** The complete message leaves the queue. */
    method Pop() returns (frag: Fragment)
      requires Valid() && IsNextComplete()
      modifies `queue
      ensures Valid() && Repr() <= old(Repr()) && Values() == old(Values()) - {readSeq}
      ensures readSeq in old(Values()) && frag.Valid() && frag.Value() == old(Values())[readSeq]
    {
      hide Sound;
      ghost var s := Snapshot();
      frag := queue[readSeq];
      queue := queue - {readSeq};
      Left(old(queue), readSeq, s);
      SoundShrinks(s);
    }

    /** What the queue holds once a fragment has left it. */
    lemma Left(before: map<nat, Fragment>, n: nat, s: State)
      requires n in before && queue == before - {n} && Usable() && s.readSeq == readSeq
      requires s.queue.Keys == before.Keys && forall k | k in queue :: s.queue[k] == queue[k].Value()
      ensures Snapshot() == State(s.queue - {n}, readSeq)
    {
      assert Values() == s.queue - {n};
    }

    /** The end of dtls1_get_message: the message is put together in init_buf. */
    method TakeMessage(max: nat, want: int) returns (a: Answer)
      requires Valid() && IsNextComplete()
      modifies `queue, `readSeq, `initBuf
      ensures Valid() && Repr() <= old(Repr())
      ensures (Contents(), a) == TakeOut(old(Contents()), max, want)
      ensures a.Got? ==> initBuf == a.initBuf
    {
      hide Sound, HeaderBytes, Values, Separate;
      ghost var s := Snapshot();
      FoundIsMarked(s, readSeq);
      SoundShrinks(s);
      var frag := Pop();
      if frag.msgLen > max {
        return Failed(ExcessiveMessageSize);
      }
      var m := Message(frag.kind, BytesOf(frag.body[..]));
      initBuf := HeaderBytes(Header(frag.kind, frag.msgLen, readSeq, 0, frag.msgLen)) + m.body;
      readSeq := (readSeq + 1) % LIMIT16;
      if want >= 0 && m.kind != want {
        return Failed(UnexpectedMessage);
      }
      a := Got(m, initBuf);
    }

    /**
      dtls1_get_message.  In general it answers as GetNext does, and so the objects follow the run
      of all events; if what arrives comes from an honest sender, then a message it hands out is the
      next one of that sender.
     */
    method GetMessage(max: nat, want: int, ghost sent: seq<Message>) returns (a: Answer)
      requires Valid() && Live() && !Fetch(Contents(), maxLen).Astray?
      modifies this, Repr()
      ensures Valid() && fresh(Repr() - old(Repr())) && events == old(events) + [Get(max, want)]
      ensures var (r, answer) := GetNext(old(Contents()), maxLen, max, want);
              a == answer && (!a.Failed? ==> Contents() == r)
      ensures if a.Failed? then After(maxLen, events).over else Live()
      ensures got == After(maxLen, events).got == old(got) + (if a.Got? then [a] else [])
      ensures a.Got? ==> initBuf == a.initBuf
      ensures old(Receiving(Contents(), got, sent, maxLen)) ==>
                AnswersFor(old(Contents()), old(got), sent, maxLen, max, want,
                           if a.Failed? then old(Contents()) else Contents(), a)
    {
      hide Fetch, GetNext, Sound, Receiving, Separate, HashedBySender, Live, Snapshot;
      ghost var r0, got0 := Contents(), got;
      a := NextEvent(max, want);
      if Receiving(r0, got0, sent, maxLen) {
        NextAnswersFor(r0, got0, sent, maxLen, max, want);
      }
    }

    method NextEvent(max: nat, want: int) returns (a: Answer)
      requires Valid() && Live() && !Fetch(Contents(), maxLen).Astray?
      modifies this, Repr()
      ensures Valid() && fresh(Repr() - old(Repr())) && events == old(events) + [Get(max, want)]
      ensures var (r, answer) := GetNext(old(Contents()), maxLen, max, want);
              a == answer && (!a.Failed? ==> Contents() == r)
      ensures if a.Failed? then After(maxLen, events).over else Live()
      ensures got == After(maxLen, events).got == old(got) + (if a.Got? then [a] else [])
      ensures a.Got? ==> initBuf == a.initBuf
    {
      hide Fetch, GetNext, Sound, Separate, After, Snapshot, Advance;
      ghost var c := Run(Contents(), got, false);
      OneMore(maxLen, events, Get(max, want));
      AdvanceByGet(maxLen, c, max, want);
      a := Next(max, want);
      got := got + (if a.Got? then [a] else []);
      events := events + [Get(max, want)];
    }

    method Next(max: nat, want: int) returns (a: Answer)
      requires Valid() && !Fetch(Contents(), maxLen).Astray?
      modifies `queue, `records, `readSeq, `initBuf, Repr()
      ensures Valid() && fresh(Repr() - old(Repr()))
      ensures var (r, answer) := GetNext(old(Contents()), maxLen, max, want);
              a == answer && (!a.Failed? ==> Contents() == r)
      ensures a.Got? ==> initBuf == a.initBuf
    {
      hide Fetch, Sound, TakeOut;
      var p := Assemble();
      match p {
        case NothingToRead => a := NoData;
        case Broken(e) => a := Failed(e);
        case Processed => a := TakeMessage(max, want);
      }
    }
  }
}
