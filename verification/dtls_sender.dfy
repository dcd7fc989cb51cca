/**
  The sending half (dtls1_do_handshake_write in 3rdparty/boringssl/ssl/d1_both.c): a message is cut
  into fragments that fit the room left in the packet being filled.
 */
module DtlsSender {
  import opened Optional
  import opened DtlsWire
  import opened DtlsReassembly
  import opened DtlsReceiver

  /** The records that carry bytes from..to of message n, cut wherever the room ran out. */
  ghost predicate Cut(m: Message, n: nat, records: seq<seq<Byte>>, from: nat, to: nat)
    requires |m.body| < LIMIT24 && n < LIMIT16
    decreases |records|, 1
  {
    if records == [] then from == to else exists mid :: CutAt(m, n, records, from, mid, to)
  }

  /** The last record carries mid..to: at least one byte, unless the message has none. */
  ghost predicate CutAt(m: Message, n: nat, records: seq<seq<Byte>>, from: nat, mid: nat, to: nat)
    requires |m.body| < LIMIT24 && n < LIMIT16
    decreases |records|, 0
  {
    && records != []
    && mid <= to <= |m.body| && (mid < to || (m.body == [] && |records| == 1))
    && records[|records| - 1] == FragmentRecord(m, n, mid, to - mid)
    && Cut(m, n, records[..|records| - 1], from, mid)
  }

  /** Every record of a cut is honest, whoever receives it. */
  lemma {:induction false} CutIsHonest(sent: seq<Message>, n: nat, records: seq<seq<Byte>>, from: nat, to: nat, maxLen: nat)
    requires n < |sent| < LIMIT16 && |sent[n].body| < LIMIT24 && |sent[n].body| <= maxLen
    requires Cut(sent[n], n, records, from, to)
    ensures forall i | 0 <= i < |records| :: Honest(sent, maxLen, records[i])
    decreases |records|
  {
    if records != [] {
      var m, k := sent[n], |records| - 1;
      var mid: nat :| CutAt(m, n, records, from, mid, to);
      CutIsHonest(sent, n, records[..k], from, mid, maxLen);
      assert records[k] == records[k] + [];
      assert HonestPiece(sent, maxLen, records[k], n, mid, to - mid, []);
      assert Honest(sent, maxLen, records[k]);
      assert forall i | 0 <= i < k :: records[i] == records[..k][i];
    }
  }

  /** The bytes of the records, without their headers. */
  function Bodies(records: seq<seq<Byte>>): seq<Byte>
    requires forall i | 0 <= i < |records| :: |records[i]| >= HEADER_LENGTH
  {
    if records == [] then [] else Bodies(records[..|records| - 1]) + records[|records| - 1][HEADER_LENGTH..]
  }

  /** Together, and in order, the records of a cut carry exactly the bytes from..to. */
  lemma {:induction false} CutCarriesAll(m: Message, n: nat, records: seq<seq<Byte>>, from: nat, to: nat)
    requires |m.body| < LIMIT24 && n < LIMIT16 && from <= |m.body| && Cut(m, n, records, from, to)
    ensures forall i | 0 <= i < |records| :: |records[i]| >= HEADER_LENGTH
    ensures from <= to <= |m.body| && Bodies(records) == m.body[from..to]
    decreases |records|
  {
    if records != [] {
      var k := |records| - 1;
      var mid: nat :| CutAt(m, n, records, from, mid, to);
      CutCarriesAll(m, n, records[..k], from, mid);
      assert forall i | 0 <= i < k :: records[i] == records[..k][i];
      assert records[k][HEADER_LENGTH..] == m.body[mid..to];
      assert m.body[from..mid] + m.body[mid..to] == m.body[from..to];
    }
  }

  /** A write that stopped half-way, and its continuation, make one cut. */
  lemma {:induction false} CutsJoin(m: Message, n: nat, a: seq<seq<Byte>>, b: seq<seq<Byte>>, from: nat, mid: nat, to: nat)
    requires |m.body| < LIMIT24 && n < LIMIT16 && m.body != []
    requires Cut(m, n, a, from, mid) && Cut(m, n, b, mid, to)
    ensures Cut(m, n, a + b, from, to)
    decreases |b|
  {
    if b == [] {
      assert a + b == a;
    } else {
      var k := |b| - 1;
      var last: nat :| CutAt(m, n, b, mid, last, to);
      CutsJoin(m, n, a, b[..k], from, mid, last);
      assert (a + b)[..|a + b| - 1] == a + b[..k];
      assert CutAt(m, n, a + b, from, last, to);
    }
  }

  /** One transmission of message n, in whatever pieces. */
  datatype Transmission = Transmission(n: nat, records: seq<seq<Byte>>)

  ghost predicate Transmits(sent: seq<Message>, maxLen: nat, t: Transmission) {
    && t.n < |sent| < LIMIT16 && |sent[t.n].body| < LIMIT24 && |sent[t.n].body| <= maxLen
    && exists from: nat, to: nat :: Cut(sent[t.n], t.n, t.records, from, to)
  }

  /**
    However often the messages are sent, in whatever pieces, and whatever the network loses,
    repeats or reorders, the receiver sees honest records only.
   */
  lemma AnySelectionIsHonest(sent: seq<Message>, maxLen: nat, wire: seq<Transmission>, arriving: seq<seq<Byte>>)
    requires forall i | 0 <= i < |wire| :: Transmits(sent, maxLen, wire[i])
    requires forall r | r in arriving :: exists i :: 0 <= i < |wire| && r in wire[i].records
    ensures forall j | 0 <= j < |arriving| :: Honest(sent, maxLen, arriving[j])
  {
    forall j | 0 <= j < |arriving| ensures Honest(sent, maxLen, arriving[j]) {
      assert arriving[j] in arriving;
      var i :| 0 <= i < |wire| && arriving[j] in wire[i].records;
      assert Transmits(sent, maxLen, wire[i]);
      var from: nat, to: nat :| Cut(sent[wire[i].n], wire[i].n, wire[i].records, from, to);
      CutIsHonest(sent, wire[i].n, wire[i].records, from, to, maxLen);
    }
  }

  // ---------------------------------------------------------------- writing

  /** A record on the wire, with the epoch whose keys sealed it. */
  datatype Record = HandshakeRecord(fragment: seq<Byte>, epoch: nat) | ChangeCipherSpecRecord(epoch: nat)

  function Stamped(fragments: seq<seq<Byte>>, epoch: nat): seq<Record> {
    seq(|fragments|, i requires 0 <= i < |fragments| => HandshakeRecord(fragments[i], epoch))
  }

  /**
    A fragment as dtls1_do_handshake_write makes it, wherever it has got to: the header holds what
    24 bits hold of the offset, and behind the body come whatever bytes lie there.
   */
  predicate IsPiece(m: Message, n: nat, off: nat, len: nat, record: seq<Byte>)
    requires |m.body| < LIMIT24 && n < LIMIT16
  {
    && len < LIMIT24 && |record| == HEADER_LENGTH + len
    && record[..HEADER_LENGTH] == HeaderBytes(Header(m.kind, |m.body|, n, off % LIMIT24, len))
    && FromBody(m, off, record[HEADER_LENGTH..])
  }

  predicate FromBody(m: Message, off: nat, data: seq<Byte>) {
    forall j | 0 <= j < |data| && off + j < |m.body| :: data[j] == m.body[off + j]
  }

  /** Like Cut, but from and to may lie behind the body. */
  ghost predicate Spill(m: Message, n: nat, records: seq<seq<Byte>>, from: nat, to: nat)
    requires |m.body| < LIMIT24 && n < LIMIT16
    decreases |records|, 1
  {
    if records == [] then from == to else exists mid :: SpillAt(m, n, records, from, mid, to)
  }

  ghost predicate SpillAt(m: Message, n: nat, records: seq<seq<Byte>>, from: nat, mid: nat, to: nat)
    requires |m.body| < LIMIT24 && n < LIMIT16
    decreases |records|, 0
  {
    && records != []
    && mid <= to && (mid < to || (m.body == [] && |records| == 1))
    && IsPiece(m, n, mid, to - mid, records[|records| - 1])
    && Spill(m, n, records[..|records| - 1], from, mid)
  }

  lemma PieceWithin(m: Message, n: nat, off: nat, len: nat, record: seq<Byte>)
    requires |m.body| < LIMIT24 && n < LIMIT16 && off + len <= |m.body| && IsPiece(m, n, off, len, record)
    ensures record == FragmentRecord(m, n, off, len)
  {
    hide HeaderBytes;
    assert record[HEADER_LENGTH..] == m.body[off..off + len];
    assert record == record[..HEADER_LENGTH] + record[HEADER_LENGTH..];
  }

  /** What stays within the body is a cut of it. */
  lemma {:induction false} SpillWithin(m: Message, n: nat, records: seq<seq<Byte>>, from: nat, to: nat)
    requires |m.body| < LIMIT24 && n < LIMIT16 && to <= |m.body| && Spill(m, n, records, from, to)
    ensures Cut(m, n, records, from, to)
    decreases |records|
  {
    if records != [] {
      var mid: nat :| SpillAt(m, n, records, from, mid, to);
      SpillWithin(m, n, records[..|records| - 1], from, mid);
      PieceWithin(m, n, mid, to - mid, records[|records| - 1]);
      hide IsPiece, FragmentRecord;
      assert CutAt(m, n, records, from, mid, to);
    }
  }

  lemma SpillGrows(m: Message, n: nat, records: seq<seq<Byte>>, from: nat, mid: nat, to: nat, piece: seq<Byte>)
    requires |m.body| < LIMIT24 && n < LIMIT16 && Spill(m, n, records, from, mid)
    requires mid <= to && (mid < to || (m.body == [] && records == [])) && IsPiece(m, n, mid, to - mid, piece)
    ensures Spill(m, n, records + [piece], from, to)
  {
    hide IsPiece;
    var all := records + [piece];
    assert all[..|all| - 1] == records;
    assert SpillAt(m, n, all, from, mid, to);
  }

  /** How many bytes of messages some fragments hold. */
  function Carried(records: seq<seq<Byte>>): int {
    if records == [] then 0 else Carried(records[..|records| - 1]) + |records[|records| - 1]| - HEADER_LENGTH
  }

  lemma {:induction false} SpillCarries(m: Message, n: nat, records: seq<seq<Byte>>, from: nat, to: nat)
    requires |m.body| < LIMIT24 && n < LIMIT16 && Spill(m, n, records, from, to)
    ensures from <= to && Carried(records) == to - from
    decreases |records|
  {
    if records != [] {
      var mid: nat :| SpillAt(m, n, records, from, mid, to);
      SpillCarries(m, n, records[..|records| - 1], from, mid);
    }
  }

  lemma {:induction false} CutCarries(m: Message, n: nat, records: seq<seq<Byte>>, from: nat, to: nat)
    requires |m.body| < LIMIT24 && n < LIMIT16 && Cut(m, n, records, from, to)
    ensures from <= to && Carried(records) == to - from
    decreases |records|
  {
    if records != [] {
      var mid: nat :| CutAt(m, n, records, from, mid, to);
      CutCarries(m, n, records[..|records| - 1], from, mid);
    }
  }

  /** No receiver takes a fragment that reaches beyond its message. */
  lemma BeyondIsRefused(s: State, maxLen: nat, m: Message, n: nat, off: nat, len: nat, record: seq<Byte>, next: bool)
    requires AllSized(s) && |m.body| < LIMIT24 && n < LIMIT16 && off < LIMIT24
    requires IsPiece(m, n, off, len, record) && off + len > |m.body|
    ensures Process(s, maxLen, record, next) == Fail(ExcessiveMessageSize)
  {
    PieceParses(m, n, off, len, record);
    hide HeaderBytes, ParseHeader, ProcessParsed, IsPiece, AllSized;
    BeyondFails(s, maxLen, Header(m.kind, |m.body|, n, off, len), record[HEADER_LENGTH..], next);
  }

  lemma PieceParses(m: Message, n: nat, off: nat, len: nat, record: seq<Byte>)
    requires |m.body| < LIMIT24 && n < LIMIT16 && off < LIMIT24 && IsPiece(m, n, off, len, record)
    ensures |record| >= HEADER_LENGTH
    ensures ParseHeader(record[..HEADER_LENGTH]) == Header(m.kind, |m.body|, n, off, len)
  {
    assert off % LIMIT24 == off;
    hide HeaderBytes, ParseHeader, FromBody;
    ParseInvertsHeader(Header(m.kind, |m.body|, n, off, len));
  }

  lemma BeyondFails(s: State, maxLen: nat, h: Header, rest: seq<Byte>, next: bool)
    requires AllSized(s) && h.fragOff + h.fragLen > h.msgLen
    ensures ProcessParsed(s, maxLen, h, rest, next) == Fail(ExcessiveMessageSize)
  {
  }

  /** What has run beyond the body holds such a fragment: its last. */
  lemma SpillIsRefused(s: State, maxLen: nat, m: Message, n: nat, records: seq<seq<Byte>>, from: nat, to: nat, next: bool)
    requires AllSized(s) && |m.body| < LIMIT24 && n < LIMIT16
    requires Spill(m, n, records, from, to) && from < to <= LIMIT24 && |m.body| < to
    ensures records != [] && Process(s, maxLen, records[|records| - 1], next) == Fail(ExcessiveMessageSize)
  {
    var mid: nat :| SpillAt(m, n, records, from, mid, to);
    hide IsPiece, Process;
    if mid == to {
      EmptySpill(m, n, records, from, to);
    }
    BeyondIsRefused(s, maxLen, m, n, mid, to - mid, records[|records| - 1], next);
  }

  /** An empty fragment is all that is sent of an empty message. */
  lemma EmptySpill(m: Message, n: nat, records: seq<seq<Byte>>, from: nat, to: nat)
    requires |m.body| < LIMIT24 && n < LIMIT16 && SpillAt(m, n, records, from, to, to)
    ensures from == to
  {
    assert records[..|records| - 1] == [];
  }

  /**
    The fields of SSL that dtls1_do_handshake_write works on; `pending` is BIO_wpending.  The
    transport answers its requests, flushes and writes alike, one after the other.
   */
  class Writer {
    const mtu: nat
    const overhead: nat
    const answers: nat -> int
    var asked: nat
    var writeEpoch: nat
    var message: Message
    var seqNo: nat
    var initOff: nat
    var initNum: nat
    var pending: nat
    var wire: seq<Record>

    constructor (mtu: nat, overhead: nat, answers: nat -> int)
      ensures this.mtu == mtu && this.overhead == overhead && this.answers == answers && asked == 0
      ensures wire == [] && initOff == 0 && initNum == 0 && writeEpoch == 0
    {
      this.mtu, this.overhead, this.answers, asked := mtu, overhead, answers, 0;
      message, seqNo, initOff, initNum, pending, wire, writeEpoch := Message(0, []), 0, 0, 0, 0, [], 0;
    }

    /** The transport takes everything from now on, and a packet has room for a byte of a message. */
    ghost predicate Willing()
      reads `asked
    {
      mtu > overhead + HEADER_LENGTH && forall i: nat | i >= asked :: answers(i) > 0
    }

    /** init_off stands at the beginning, or somewhere in a body. */
    ghost predicate CanRetransmit()
      reads `initOff
    {
      initOff == 0 || initOff >= HEADER_LENGTH
    }

    /** ssl_set_write_state: the new keys start epoch 1, for there is no renegotiation. */
    method NewWriteEpoch()
      requires writeEpoch == 0
      modifies this`writeEpoch
      ensures writeEpoch == 1
    {
      writeEpoch := writeEpoch + 1;
    }

    /** What the fields can be: a message is loaded, and there is something of it to write. */
    ghost predicate Loaded()
      reads `message, `seqNo, `initOff, `initNum
    {
      && |message.body| < LIMIT24 && seqNo < LIMIT16
      && (if initOff == 0 then initNum >= HEADER_LENGTH else initOff >= HEADER_LENGTH)
      && (End() > Done() || (End() == Done() && message.body == []))
    }

    /** How many body bytes count as sent. */
    ghost function Done(): nat
      reads `initOff
    {
      if initOff < HEADER_LENGTH then 0 else initOff - HEADER_LENGTH
    }

    /** Where the bytes end that are still to be sent: at the end of the body, if all is well. */
    ghost function End(): int
      reads `initOff, `initNum
    {
      if initOff == 0 then initNum - HEADER_LENGTH else Done() + initNum
    }

    /** dtls1_set_handshake_header */
    method Load(m: Message, n: nat)
      requires |m.body| < LIMIT24 && n < LIMIT16
      modifies this`message, this`seqNo, this`initOff, this`initNum
      ensures Loaded() && message == m && seqNo == n && initOff == 0 && End() == |m.body|
    {
      message, seqNo, initOff, initNum := m, n, 0, HEADER_LENGTH + |m.body|;
    }

    /** What dtls1_retransmit_message does instead: init_off stays what it was. */
    method Reload(m: Message, n: nat)
      requires |m.body| < LIMIT24 && n < LIMIT16 && CanRetransmit()
      modifies this`message, this`seqNo, this`initNum
      ensures Loaded() && message == m && seqNo == n
      ensures End() == Done() + |m.body| + if initOff == 0 then 0 else HEADER_LENGTH
    {
      message, seqNo, initNum := m, n, HEADER_LENGTH + |m.body|;
    }

    /** dtls1_max_record_size */
    method MaxRecordSize() returns (room: nat)
      ensures room == if mtu <= overhead + pending then 0 else mtu - overhead - pending
    {
      room := mtu;
      if room <= overhead {
        return 0;
      }
      room := room - overhead;
      if room <= pending {
        return 0;
      }
      room := room - pending;
    }

    /** BIO_flush: it may fail, and empties the buffer when it does not. */
    method Flush() returns (ret: int)
      modifies this`pending, this`asked
      ensures ret == answers(old(asked)) && asked == old(asked) + 1
      ensures ret > 0 ==> pending == 0
    {
      ret := answers(asked);
      asked := asked + 1;
      if ret > 0 {
        pending := 0;
      } else {
        pending := *;
      }
    }

    /** dtls1_write_bytes: it may fail; otherwise the record joins the packet being filled. */
    method WriteRecord(record: Record) returns (ret: int)
      requires record.HandshakeRecord? ==> |record.fragment| + overhead + pending <= mtu
      modifies this`pending, this`asked, this`wire
      ensures ret == answers(old(asked)) && asked == old(asked) + 1
      ensures wire == if ret > 0 then old(wire) + [record] else old(wire)
    {
      ret := answers(asked);
      asked := asked + 1;
      pending := *;
      if ret > 0 {
        wire := wire + [record];
      }
    }

    /** dtls_seal_record: the keys of the current epoch, or those of the one before. */
    function Epoch(previous: bool): nat
      reads `writeEpoch
      requires previous ==> writeEpoch >= 1
    {
      if previous then writeEpoch - 1 else writeEpoch
    }

    /** dtls1_write_change_cipher_spec */
    method WriteChangeCipherSpec(previous: bool) returns (ret: int)
      requires previous ==> writeEpoch >= 1
      modifies this`pending, this`asked, this`wire
      ensures wire == if ret > 0 then old(wire) + [ChangeCipherSpecRecord(Epoch(previous))] else old(wire)
      ensures asked >= old(asked) && (old(Willing()) ==> ret > 0)
    {
      var room := MaxRecordSize();
      if room == 0 {
        ret := Flush();
        if ret <= 0 {
          return;
        }
      }
      ret := WriteRecord(ChangeCipherSpecRecord(Epoch(previous)));
      if ret > 0 {
        ret := 1;
      }
    }

    /** The bytes of init_buf from off on: the body, and behind it whatever lies there. */
    method BytesAt(off: nat, len: nat) returns (bytes: seq<Byte>)
      ensures |bytes| == len && FromBody(message, off, bytes)
    {
      var have := if off >= |message.body| then 0
                  else if |message.body| - off < len then |message.body| - off else len;
      assert |seq<Byte>(len - have, _ => 0)| == len - have;
      var behind: seq<Byte> :| |behind| == len - have;
      bytes := (if have == 0 then [] else message.body[off..off + have]) + behind;
    }

    /** A fragment of `todo` bytes from off on. */
    method MakeFragment(off: nat, todo: nat) returns (fragment: seq<Byte>)
      requires |message.body| < LIMIT24 && seqNo < LIMIT16 && todo < LIMIT24
      ensures IsPiece(message, seqNo, off, todo, fragment) && |fragment| == HEADER_LENGTH + todo
    {
      hide HeaderBytes, FromBody;
      var bytes := BytesAt(off, todo);
      fragment := HeaderBytes(Header(message.kind, |message.body|, seqNo, off % LIMIT24, todo)) + bytes;
      assert fragment[HEADER_LENGTH..] == bytes;
    }

    /** One turn of the loop: as much of what is left as the packet has room for. */
    method SendFragment(previous: bool) returns (ret: int, ghost piece: seq<Byte>)
      requires Loaded() && initOff >= HEADER_LENGTH && (previous ==> writeEpoch >= 1)
      modifies this`initOff, this`initNum, this`pending, this`asked, this`wire
      ensures initOff >= HEADER_LENGTH && End() == old(End()) && asked >= old(asked)
      ensures ret <= 0 ==> initOff == old(initOff) && wire == old(wire)
      ensures ret > 0 ==>
                && old(Done()) <= Done() <= End() && (Done() > old(Done()) || old(initNum) == 0)
                && IsPiece(message, seqNo, old(Done()), Done() - old(Done()), piece)
                && wire == old(wire) + [HandshakeRecord(piece, Epoch(previous))]
      ensures old(Willing()) ==> ret > 0
      ensures answers(old(asked)) <= 0 ==> ret <= 0 && asked == old(asked) + 1
    {
      hide IsPiece;
      ret, piece := 1, [];
      var room := MaxRecordSize();
      if room < HEADER_LENGTH + 1 {
        ret := Flush();
        if ret <= 0 {
          return;
        }
      }
      var todo := MaxRecordSize();
      if todo < HEADER_LENGTH + 1 {
        return -1, piece;
      }
      todo := todo - HEADER_LENGTH;
      if todo > initNum {
        todo := initNum;
      }
      if todo >= LIMIT24 {
        todo := LIMIT24 - 1;
      }
      var off := initOff - HEADER_LENGTH;
      var fragment := MakeFragment(off, todo);
      ret := WriteRecord(HandshakeRecord(fragment, Epoch(previous)));
      piece := fragment;
      if ret > 0 {
        initOff := initOff + todo;
        initNum := initNum - todo;
      }
    }

    /**
      dtls1_do_handshake_write.  Whether it succeeds or stops half-way, what it adds to the wire is
      what comes next, all in one epoch, and every record fits the packet; called again, it goes on
      where it stopped.  If no more was left than the message has, that is a cut of the message.
     */
    method DoHandshakeWrite(previous: bool) returns (ret: int, ghost out: seq<seq<Byte>>)
      requires Loaded() && (previous ==> writeEpoch >= 1)
      modifies this`initOff, this`initNum, this`pending, this`asked, this`wire
      ensures ret == 1 || ret <= 0
      ensures wire == old(wire) + Stamped(out, Epoch(previous))
      ensures ret == 1 ==>
                && initOff == 0 && initNum == 0
                && Spill(message, seqNo, out, old(Done()), old(End()))
                && (old(End()) == |message.body| ==> Cut(message, seqNo, out, old(Done()), |message.body|))
      ensures ret <= 0 ==>
                && Loaded() && initOff >= HEADER_LENGTH && End() == old(End())
                && Spill(message, seqNo, out, old(Done()), Done())
                && (End() == |message.body| ==> Cut(message, seqNo, out, old(Done()), Done()))
      ensures asked >= old(asked) && (old(Willing()) ==> ret == 1)
      ensures answers(old(asked)) <= 0 ==>
                ret <= 0 && out == [] && asked == old(asked) + 1 && initOff == old(Done()) + HEADER_LENGTH
    {
      hide Cut, Spill, Epoch;
      ghost var from, end := Done(), End();
      if initOff == 0 {
        initOff := initOff + HEADER_LENGTH;
        initNum := initNum - HEADER_LENGTH;
      }
      ret, out := SendFragments(previous);
      if end == |message.body| {
        SpillWithin(message, seqNo, out, from, if ret > 0 then end else Done());
      }
      if ret > 0 {
        initOff, initNum := 0, 0;
        ret := 1;
      }
    }

    /** The loop. */
    method SendFragments(previous: bool) returns (ret: int, ghost out: seq<seq<Byte>>)
      requires Loaded() && initOff >= HEADER_LENGTH && (previous ==> writeEpoch >= 1)
      modifies this`initOff, this`initNum, this`pending, this`asked, this`wire
      ensures initOff >= HEADER_LENGTH && End() == old(End()) && wire == old(wire) + Stamped(out, Epoch(previous))
      ensures Spill(message, seqNo, out, old(Done()), Done())
      ensures if ret > 0 then Done() == End() else Loaded()
      ensures asked >= old(asked) && (old(Willing()) ==> ret > 0)
      ensures answers(old(asked)) <= 0 ==> ret <= 0 && out == [] && asked == old(asked) + 1 && Done() == old(Done())
    {
      hide Spill, IsPiece, Epoch;
      ghost var from, end, wire0 := Done(), End(), wire;
      out := [];
      NothingSpilt(message, seqNo, from);
      while true
        invariant Loaded() && initOff >= HEADER_LENGTH && End() == end
        invariant wire == wire0 + Stamped(out, Epoch(previous)) && Spill(message, seqNo, out, from, Done())
        invariant initNum > 0 || (message.body == [] && out == [])
        invariant asked >= old(asked) && (out == [] ==> asked == old(asked) && Done() == from)
        invariant out != [] ==> answers(old(asked)) > 0
        decreases initNum
      {
        ghost var off, piece := Done(), [];
        ret, piece := SendFragment(previous);
        if ret <= 0 {
          return;
        }
        SpillGrows(message, seqNo, out, from, off, Done(), piece);
        out := out + [piece];
        if initNum == 0 {
          break;
        }
      }
    }
  }

  lemma NothingSpilt(m: Message, n: nat, from: nat)
    requires |m.body| < LIMIT24 && n < LIMIT16
    ensures Spill(m, n, [], from, from)
  {
  }
}
