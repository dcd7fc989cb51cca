/**
  Retransmission (sections 4.2.4 and 4.2.6 of RFC 6347; dtls1_retransmit_buffered_messages in
  3rdparty/boringssl/ssl/d1_both.c): what a replay of the flight is meant to put on the wire, what it
  does put there, and when the two are the same.
 */
module DtlsRetransmit {
  import opened Optional
  import opened DtlsWire
  import opened DtlsReceiver
  import opened DtlsSender
  import opened DtlsFlight

  // ---------------------------------------------------------------- replaying it

  /** dtls1_retransmit_message: whether the item needs the keys of the previous epoch. */
  predicate UsePrevious(item: Item, writeEpoch: nat) { writeEpoch == 1 && item.epoch == 0 }

  /** Some of the records of an item: all of them, or the first ones of a message that broke off. */
  ghost predicate Sends(item: Item, out: seq<Record>, whole: bool)
    requires ValidItem(item)
  {
    match item.content
    case ChangeCipherSpec => out == if whole then [ChangeCipherSpecRecord(item.epoch)] else []
    case Handshake(m, n) =>
      exists pieces: seq<seq<Byte>>, to: nat ::
        Cut(m, n, pieces, 0, to) && out == Stamped(pieces, item.epoch) && (whole ==> to == |m.body|)
  }

  predicate ValidItem(item: Item) {
    item.content.Handshake? ==> |item.content.m.body| < LIMIT24 && item.content.seqNo < LIMIT16
  }

  ghost predicate ValidItems(q: seq<Item>) { forall i | 0 <= i < |q| :: ValidItem(q[i]) }

  /** The queue on the wire: each item in turn, whole, in the epoch it was first sent in. */
  ghost predicate Replays(q: seq<Item>, out: seq<Record>)
    requires ValidItems(q)
  {
    if q == [] then out == []
    else
      var n := |q| - 1;
      exists k: nat :: k <= |out| && Replays(q[..n], out[..k]) && Sends(q[n], out[k..], true)
  }

  /** A replay that broke off in item n. */
  ghost predicate ReplaysUntil(q: seq<Item>, out: seq<Record>, n: nat)
    requires ValidItems(q)
  {
    n < |q| && exists k: nat :: k <= |out| && Replays(q[..n], out[..k]) && Sends(q[n], out[k..], false)
  }

  /** The messages of the queue are those the peer is meant to receive. */
  ghost predicate Carries(q: seq<Item>, sent: seq<Message>, maxLen: nat) {
    && |sent| < LIMIT16
    && forall i {:trigger q[i]} | 0 <= i < |q| :: q[i].content.Handshake? ==>
         var n := q[i].content.seqNo;
         n < |sent| && sent[n] == q[i].content.m && |sent[n].body| < LIMIT24 && |sent[n].body| <= maxLen
  }

  ghost predicate AllHonest(sent: seq<Message>, maxLen: nat, out: seq<Record>) {
    forall j {:trigger out[j]} | 0 <= j < |out| :: out[j].HandshakeRecord? ==> Honest(sent, maxLen, out[j].fragment)
  }

  lemma SendsHonestly(q: seq<Item>, i: nat, sent: seq<Message>, maxLen: nat, out: seq<Record>, whole: bool)
    requires ValidItems(q) && Carries(q, sent, maxLen) && i < |q| && Sends(q[i], out, whole)
    ensures AllHonest(sent, maxLen, out)
  {
    match q[i].content {
      case ChangeCipherSpec =>
      case Handshake(m, n) =>
        var pieces: seq<seq<Byte>>, to: nat :| Cut(m, n, pieces, 0, to) && out == Stamped(pieces, q[i].epoch);
        CutIsHonest(sent, n, pieces, 0, to, maxLen);
    }
  }

  /** Whatever a replay puts on the wire, whole or broken off, is honest. */
  lemma {:induction false} ReplayIsHonest(q: seq<Item>, sent: seq<Message>, maxLen: nat, out: seq<Record>)
    requires ValidItems(q) && Carries(q, sent, maxLen)
    requires Replays(q, out) || exists n: nat :: ReplaysUntil(q, out, n)
    ensures AllHonest(sent, maxLen, out)
    decreases |q|
  {
    hide Sends, Honest;
    if !Replays(q, out) {
      var n: nat :| ReplaysUntil(q, out, n);
      var k: nat :| k <= |out| && Replays(q[..n], out[..k]) && Sends(q[n], out[k..], false);
      ReplayIsHonest(q[..n], sent, maxLen, out[..k]);
      SendsHonestly(q, n, sent, maxLen, out[k..], false);
      JoinHonest(sent, maxLen, out, k);
    } else if q != [] {
      var n := |q| - 1;
      var k: nat :| k <= |out| && Replays(q[..n], out[..k]) && Sends(q[n], out[k..], true);
      ReplayIsHonest(q[..n], sent, maxLen, out[..k]);
      SendsHonestly(q, n, sent, maxLen, out[k..], true);
      JoinHonest(sent, maxLen, out, k);
    }
  }

  lemma JoinHonest(sent: seq<Message>, maxLen: nat, out: seq<Record>, k: nat)
    requires k <= |out| && AllHonest(sent, maxLen, out[..k]) && AllHonest(sent, maxLen, out[k..])
    ensures AllHonest(sent, maxLen, out)
  {
    forall j | 0 <= j < |out| && out[j].HandshakeRecord? ensures Honest(sent, maxLen, out[j].fragment) {
      if j < k {
        assert out[..k][j] == out[j];
      } else {
        assert out[k..][j - k] == out[j];
      }
    }
  }

  // ---------------------------------------------------------------- what the code replays

  /** Where init_off makes dtls1_do_handshake_write begin. */
  function Skipped(initOff: nat): nat { if initOff < HEADER_LENGTH then 0 else initOff - HEADER_LENGTH }

  /** And where the bytes end that init_num makes it send of a message that is retransmitted. */
  function Reach(m: Message, initOff: nat): nat {
    if initOff == 0 then |m.body| else Skipped(initOff) + HEADER_LENGTH + |m.body|
  }

  /** The records of an item that is retransmitted with init_off as it happens to be. */
  ghost predicate SendsFrom(item: Item, initOff: nat, out: seq<Record>, whole: bool)
    requires ValidItem(item)
  {
    match item.content
    case ChangeCipherSpec => out == if whole then [ChangeCipherSpecRecord(item.epoch)] else []
    case Handshake(m, n) =>
      exists pieces: seq<seq<Byte>>, to: nat ::
        && Spill(m, n, pieces, Skipped(initOff), to) && out == Stamped(pieces, item.epoch)
        && to <= Reach(m, initOff) && (whole ==> to == Reach(m, initOff))
  }

  /** init_off after the items of q: a message that has been written resets it. */
  function Left(q: seq<Item>, initOff: nat): nat {
    if q == [] then initOff
    else if q[|q| - 1].content.Handshake? then 0
    else Left(q[..|q| - 1], initOff)
  }

  predicate HasMessage(q: seq<Item>) { exists i :: 0 <= i < |q| && q[i].content.Handshake? }

  ghost predicate ReplaysFrom(q: seq<Item>, initOff: nat, out: seq<Record>)
    requires ValidItems(q)
  {
    if q == [] then out == []
    else
      var n := |q| - 1;
      exists k: nat ::
        k <= |out| && ReplaysFrom(q[..n], initOff, out[..k]) && SendsFrom(q[n], Left(q[..n], initOff), out[k..], true)
  }

  ghost predicate ReplaysFromUntil(q: seq<Item>, initOff: nat, out: seq<Record>, n: nat)
    requires ValidItems(q)
  {
    n < |q| && exists k: nat ::
      k <= |out| && ReplaysFrom(q[..n], initOff, out[..k]) && SendsFrom(q[n], Left(q[..n], initOff), out[k..], false)
  }

  lemma ReplayGrows(q: seq<Item>, initOff: nat, i: nat, out: seq<Record>, more: seq<Record>)
    requires ValidItems(q) && i < |q| && ReplaysFrom(q[..i], initOff, out)
    requires SendsFrom(q[i], Left(q[..i], initOff), more, true)
    ensures ReplaysFrom(q[..i + 1], initOff, out + more)
  {
    hide SendsFrom, Left;
    assert q[..i + 1][..i] == q[..i];
    assert (out + more)[..|out|] == out && (out + more)[|out|..] == more;
  }

  lemma ReplayBreaks(q: seq<Item>, initOff: nat, i: nat, out: seq<Record>, more: seq<Record>)
    requires ValidItems(q) && i < |q| && ReplaysFrom(q[..i], initOff, out)
    requires SendsFrom(q[i], Left(q[..i], initOff), more, false)
    ensures ReplaysFromUntil(q, initOff, out + more, i)
  {
    hide SendsFrom, Left;
    assert (out + more)[..|out|] == out && (out + more)[|out|..] == more;
  }

  lemma SendsFromStart(item: Item, out: seq<Record>, whole: bool)
    requires ValidItem(item) && SendsFrom(item, 0, out, whole)
    ensures Sends(item, out, whole)
  {
    match item.content {
      case ChangeCipherSpec =>
      case Handshake(m, n) =>
        var pieces: seq<seq<Byte>>, to: nat :|
          Spill(m, n, pieces, 0, to) && out == Stamped(pieces, item.epoch)
          && to <= |m.body| && (whole ==> to == |m.body|);
        SpillWithin(m, n, pieces, 0, to);
    }
  }

  lemma {:induction false} NothingLeft(q: seq<Item>)
    ensures Left(q, 0) == 0
  {
    if q != [] {
      NothingLeft(q[..|q| - 1]);
    }
  }

  lemma {:induction false} ReplaysFromStart(q: seq<Item>, out: seq<Record>)
    requires ValidItems(q) && ReplaysFrom(q, 0, out)
    ensures Replays(q, out)
  {
    hide SendsFrom, Sends, Left;
    if q != [] {
      var n := |q| - 1;
      var k: nat :|
        k <= |out| && ReplaysFrom(q[..n], 0, out[..k]) && SendsFrom(q[n], Left(q[..n], 0), out[k..], true);
      ReplaysFromStart(q[..n], out[..k]);
      NothingLeft(q[..n]);
      SendsFromStart(q[n], out[k..], true);
    }
  }

  lemma ReplaysFromStartUntil(q: seq<Item>, out: seq<Record>, n: nat)
    requires ValidItems(q) && ReplaysFromUntil(q, 0, out, n)
    ensures ReplaysUntil(q, out, n)
  {
    hide SendsFrom, Sends, Left;
    var k: nat :|
      k <= |out| && ReplaysFrom(q[..n], 0, out[..k]) && SendsFrom(q[n], Left(q[..n], 0), out[k..], false);
    ReplaysFromStart(q[..n], out[..k]);
    NothingLeft(q[..n]);
    SendsFromStart(q[n], out[k..], false);
  }

  // ---------------------------------------------------------------- counting bytes

  /** How many bytes of messages are on the wire. */
  function Load(out: seq<Record>): int {
    if out == [] then 0
    else
      var r := out[|out| - 1];
      Load(out[..|out| - 1]) + if r.HandshakeRecord? then |r.fragment| - HEADER_LENGTH else 0
  }

  /** How many there are in the queue. */
  function Weight(q: seq<Item>): nat {
    if q == [] then 0
    else
      var c := q[|q| - 1].content;
      Weight(q[..|q| - 1]) + if c.Handshake? then |c.m.body| else 0
  }

  lemma {:induction false} LoadAdds(a: seq<Record>, b: seq<Record>)
    ensures Load(a + b) == Load(a) + Load(b)
  {
    if b == [] {
      assert a + b == a;
    } else {
      LoadAdds(a, b[..|b| - 1]);
      assert (a + b)[..|a + b| - 1] == a + b[..|b| - 1];
    }
  }

  lemma {:induction false} LoadOfStamped(pieces: seq<seq<Byte>>, epoch: nat)
    ensures Load(Stamped(pieces, epoch)) == Carried(pieces)
  {
    if pieces != [] {
      var n := |pieces| - 1;
      LoadOfStamped(pieces[..n], epoch);
      assert Stamped(pieces, epoch)[..n] == Stamped(pieces[..n], epoch);
    }
  }

  lemma LoadOfSends(item: Item, out: seq<Record>)
    requires ValidItem(item) && Sends(item, out, true)
    ensures Load(out) == if item.content.Handshake? then |item.content.m.body| else 0
  {
    match item.content {
      case ChangeCipherSpec => assert out[..0] == [];
      case Handshake(m, n) =>
        var pieces: seq<seq<Byte>>, to: nat :| Cut(m, n, pieces, 0, to) && out == Stamped(pieces, item.epoch) && to == |m.body|;
        CutCarries(m, n, pieces, 0, to);
        LoadOfStamped(pieces, item.epoch);
    }
  }

  lemma LoadOfSendsFrom(item: Item, initOff: nat, out: seq<Record>)
    requires ValidItem(item) && SendsFrom(item, initOff, out, true)
    ensures Load(out) == if item.content.Handshake? then |item.content.m.body| + (if initOff == 0 then 0 else HEADER_LENGTH)
                         else 0
  {
    match item.content {
      case ChangeCipherSpec => assert out[..0] == [];
      case Handshake(m, n) =>
        var pieces: seq<seq<Byte>>, to: nat :|
          Spill(m, n, pieces, Skipped(initOff), to) && out == Stamped(pieces, item.epoch) && to == Reach(m, initOff);
        SpillCarries(m, n, pieces, Skipped(initOff), to);
        LoadOfStamped(pieces, item.epoch);
    }
  }

  lemma {:induction false} LoadOfReplays(q: seq<Item>, out: seq<Record>)
    requires ValidItems(q) && Replays(q, out)
    ensures Load(out) == Weight(q)
  {
    hide Sends;
    if q != [] {
      var n := |q| - 1;
      var k: nat :| k <= |out| && Replays(q[..n], out[..k]) && Sends(q[n], out[k..], true);
      LoadOfReplays(q[..n], out[..k]);
      LoadOfSends(q[n], out[k..]);
      LoadAdds(out[..k], out[k..]);
      assert out[..k] + out[k..] == out;
    }
  }

  /** A write that was left half-way makes the first message twelve bytes too long. */
  lemma {:induction false} LoadOfReplaysFrom(q: seq<Item>, initOff: nat, out: seq<Record>)
    requires ValidItems(q) && ReplaysFrom(q, initOff, out)
    ensures Load(out) == Weight(q) + if HasMessage(q) && initOff != 0 then HEADER_LENGTH else 0
  {
    hide SendsFrom;
    if q != [] {
      var n := |q| - 1;
      var k: nat :|
        k <= |out| && ReplaysFrom(q[..n], initOff, out[..k]) && SendsFrom(q[n], Left(q[..n], initOff), out[k..], true);
      LoadOfReplaysFrom(q[..n], initOff, out[..k]);
      LoadOfSendsFrom(q[n], Left(q[..n], initOff), out[k..]);
      LoadAdds(out[..k], out[k..]);
      assert out[..k] + out[k..] == out;
      LeftOf(q[..n], initOff);
      HasMessageStep(q);
    }
  }

  lemma HasMessageStep(q: seq<Item>)
    requires q != []
    ensures HasMessage(q) <==> HasMessage(q[..|q| - 1]) || q[|q| - 1].content.Handshake?
  {
    var before := q[..|q| - 1];
    if HasMessage(before) {
      var i :| 0 <= i < |before| && before[i].content.Handshake?;
      assert q[i].content.Handshake?;
    }
    if HasMessage(q) && !q[|q| - 1].content.Handshake? {
      var i :| 0 <= i < |q| && q[i].content.Handshake?;
      assert before[i].content.Handshake?;
    }
  }

  lemma {:induction false} LeftOf(q: seq<Item>, initOff: nat)
    ensures Left(q, initOff) == if HasMessage(q) then 0 else initOff
  {
    if q != [] {
      LeftOf(q[..|q| - 1], initOff);
      HasMessageStep(q);
    }
  }

  /**
    A replay that succeeds puts the whole queue on the wire in order, each message cut to cover it,
    exactly when no write had been left half-way before it; a queue without messages does not mind.
   */
  lemma ReplaysIffNothingLeft(q: seq<Item>, initOff: nat, out: seq<Record>)
    requires ValidItems(q) && ReplaysFrom(q, initOff, out)
    ensures Replays(q, out) <==> initOff == 0 || !HasMessage(q)
  {
    LoadOfReplaysFrom(q, initOff, out);
    if Replays(q, out) {
      LoadOfReplays(q, out);
    }
    if initOff == 0 {
      ReplaysFromStart(q, out);
    } else if !HasMessage(q) {
      WithoutMessages(q, initOff, out);
      ReplaysFromStart(q, out);
    }
  }

  lemma {:induction false} WithoutMessages(q: seq<Item>, initOff: nat, out: seq<Record>)
    requires ValidItems(q) && ReplaysFrom(q, initOff, out) && !HasMessage(q)
    ensures ReplaysFrom(q, 0, out)
  {
    if q != [] {
      var n := |q| - 1;
      var k: nat :|
        k <= |out| && ReplaysFrom(q[..n], initOff, out[..k]) && SendsFrom(q[n], Left(q[..n], initOff), out[k..], true);
      HasMessageStep(q);
      WithoutMessages(q[..n], initOff, out[..k]);
      assert SendsFrom(q[n], Left(q[..n], 0), out[k..], true);
    }
  }

  /** Then no receiver takes what comes of the first message. */
  lemma {:induction false} OverlongIsRefused(q: seq<Item>, initOff: nat, out: seq<Record>, s: State, maxLen: nat)
    requires ValidItems(q) && ReplaysFrom(q, initOff, out) && initOff >= HEADER_LENGTH && HasMessage(q) && AllSized(s)
    requires forall i | 0 <= i < |q| && q[i].content.Handshake? :: initOff + |q[i].content.m.body| <= LIMIT24
    ensures exists j :: 0 <= j < |out| && RefusedBy(out[j], s, maxLen)
  {
    hide SendsFrom, RefusedBy;
    var n := |q| - 1;
    var k: nat :|
      k <= |out| && ReplaysFrom(q[..n], initOff, out[..k]) && SendsFrom(q[n], Left(q[..n], initOff), out[k..], true);
    HasMessageStep(q);
    if HasMessage(q[..n]) {
      OverlongIsRefused(q[..n], initOff, out[..k], s, maxLen);
      var j :| 0 <= j < k && RefusedBy(out[..k][j], s, maxLen);
      assert RefusedBy(out[j], s, maxLen);
    } else {
      LeftOf(q[..n], initOff);
      FirstIsRefused(q[n], initOff, out[k..], s, maxLen);
      assert out[k..][|out| - k - 1] == out[|out| - 1];
    }
  }

  ghost predicate RefusedBy(r: Record, s: State, maxLen: nat)
    requires AllSized(s)
  {
    && r.HandshakeRecord?
    && Process(s, maxLen, r.fragment, true) == Process(s, maxLen, r.fragment, false) == Fail(ExcessiveMessageSize)
  }

  lemma FirstIsRefused(item: Item, initOff: nat, out: seq<Record>, s: State, maxLen: nat)
    requires ValidItem(item) && item.content.Handshake? && SendsFrom(item, initOff, out, true) && AllSized(s)
    requires initOff >= HEADER_LENGTH && initOff + |item.content.m.body| <= LIMIT24
    ensures out != [] && RefusedBy(out[|out| - 1], s, maxLen)
  {
    hide Spill, Process, AllSized;
    var m, n := item.content.m, item.content.seqNo;
    var pieces: seq<seq<Byte>>, to: nat :|
      Spill(m, n, pieces, Skipped(initOff), to) && out == Stamped(pieces, item.epoch) && to == Reach(m, initOff);
    SpillIsRefused(s, maxLen, m, n, pieces, Skipped(initOff), to, true);
    SpillIsRefused(s, maxLen, m, n, pieces, Skipped(initOff), to, false);
  }

  // ---------------------------------------------------------------- the objects

  ghost predicate NotLater(q: seq<Item>, epoch: nat) {
    forall i {:trigger q[i]} | 0 <= i < |q| :: q[i].epoch <= epoch
  }

  lemma InsertKeeps(q: seq<Item>, item: Item, epoch: nat)
    requires ValidItems(q) && NotLater(q, epoch) && ValidItem(item) && item.epoch <= epoch
    ensures ValidItems(Insert(q, item)) && NotLater(Insert(q, item), epoch)
  {
    hide Insert, ValidItem;
    InsertHolds(q, item);
    var r := Insert(q, item);
    assert forall i | 0 <= i < |r| :: r[i] in r;
  }

  /** sent_messages with the counter that numbers its items, and the flight they stand for. */
  class Flight {
    var sentMessages: seq<Item>
    var nextWriteSeq: nat
    ghost var sends: seq<Send>  // what has been sent since the queue was last cleared
    ghost var first: nat        // the number of its first message, not cut to 16 bits

    /** There are only epochs 0 and 1, and what was sent was not sent in a later one. */
    ghost predicate Valid(w: Writer)
      reads this, w`writeEpoch
    {
      && sentMessages == Queued(Items(sends, first)) && nextWriteSeq == Wrap16(NextSeq(sends, first))
      && ValidItems(sentMessages) && NotLater(sentMessages, w.writeEpoch) && w.writeEpoch <= 1
    }

    constructor ()
      ensures sentMessages == [] && nextWriteSeq == 0 && sends == [] && first == 0
      ensures forall w: Writer | w.writeEpoch <= 1 :: Valid(w)
    {
      sentMessages, nextWriteSeq, sends, first := [], 0, [], 0;
    }

    /** dtls1_set_handshake_header and dtls1_buffer_message */
    method BufferMessage(m: Message, w: Writer) returns (seqNo: nat)
      requires Valid(w) && |m.body| < LIMIT24
      modifies this`sentMessages, this`nextWriteSeq, this`sends
      ensures Valid(w) && seqNo == old(nextWriteSeq) && nextWriteSeq == Wrap16(seqNo + 1)
      ensures sends == old(sends) + [SendMessage(m, w.writeEpoch)]
      ensures sentMessages
              == Insert(old(sentMessages), Item(Priority(seqNo, false), Handshake(m, seqNo), w.writeEpoch))
    {
      FlightGrows(sends, first, SendMessage(m, w.writeEpoch));
      WrapAgain(NextSeq(sends, first));
      hide Queued, Items, NextSeq, ValidItems, NotLater, Insert, Priority, Wrap16;
      seqNo := nextWriteSeq;
      nextWriteSeq := Wrap16(nextWriteSeq + 1);
      var item := Item(Priority(seqNo, false), Handshake(m, seqNo), w.writeEpoch);
      InsertKeeps(sentMessages, item, w.writeEpoch);
      sentMessages := Insert(sentMessages, item);
      sends := sends + [SendMessage(m, w.writeEpoch)];
    }

    /** dtls1_send_change_cipher_spec, the first time it is called */
    method BufferChangeCipherSpec(w: Writer)
      requires Valid(w)
      modifies this`sentMessages, this`sends
      ensures Valid(w) && sends == old(sends) + [SendCcs(w.writeEpoch)]
      ensures sentMessages
              == Insert(old(sentMessages), Item(Priority(nextWriteSeq, true), ChangeCipherSpec, w.writeEpoch))
    {
      FlightGrows(sends, first, SendCcs(w.writeEpoch));
      hide Queued, Items, NextSeq, ValidItems, NotLater, Insert, Priority;
      var item := Item(Priority(nextWriteSeq, true), ChangeCipherSpec, w.writeEpoch);
      InsertKeeps(sentMessages, item, w.writeEpoch);
      sentMessages := Insert(sentMessages, item);
      sends := sends + [SendCcs(w.writeEpoch)];
    }

    /** ssl_set_write_state in the middle of a flight: what is queued stays what it was, in epoch 0. */
    method NewWriteEpoch(w: Writer)
      requires Valid(w) && w.writeEpoch == 0
      modifies w`writeEpoch
      ensures Valid(w) && w.writeEpoch == 1 && sentMessages == old(sentMessages)
      ensures forall i | 0 <= i < |sentMessages| :: UsePrevious(sentMessages[i], w.writeEpoch)
    {
      w.NewWriteEpoch();
    }

    /** dtls1_clear_record_buffer */
    method Clear(w: Writer)
      requires Valid(w)
      modifies this`sentMessages, this`sends, this`first
      ensures Valid(w) && sentMessages == [] && sends == []
    {
      while sentMessages != []
        invariant nextWriteSeq == Wrap16(NextSeq(sends, first))
        decreases |sentMessages|
      {
        sentMessages := sentMessages[1..];
      }
      sends, first := [], NextSeq(sends, first);
    }

    /** dtls1_retransmit_message: the item goes out in the epoch it was first sent in. */
    method RetransmitItem(w: Writer, item: Item) returns (ret: int, ghost out: seq<Record>)
      requires ValidItem(item) && item.epoch <= w.writeEpoch <= 1 && w.CanRetransmit()
      modifies w
      ensures w.writeEpoch == old(w.writeEpoch) && w.wire == old(w.wire) + out
      ensures SendsFrom(item, old(w.initOff), out, ret > 0)
      ensures if item.content.ChangeCipherSpec? then w.initOff == old(w.initOff)
              else if ret > 0 then w.initOff == 0
              else w.initOff >= HEADER_LENGTH
      ensures w.asked >= old(w.asked) && (old(w.Willing()) ==> ret > 0)
      ensures item.content.Handshake? && w.answers(old(w.asked)) <= 0 ==>
                && ret <= 0 && w.asked == old(w.asked) + 2
                && w.initOff == if old(w.initOff) == 0 then HEADER_LENGTH else old(w.initOff)
    {
      hide Cut, Spill;
      ghost var initOff := w.initOff;
      var previous := UsePrevious(item, w.writeEpoch);
      assert w.Epoch(previous) == item.epoch;
      match item.content {
        case ChangeCipherSpec =>
          ret := w.WriteChangeCipherSpec(previous);
          out := if ret > 0 then [ChangeCipherSpecRecord(item.epoch)] else [];
        case Handshake(m, seqNo) =>
          ghost var pieces;
          w.Reload(m, seqNo);
          ret, pieces := w.DoHandshakeWrite(previous);
          out := Stamped(pieces, item.epoch);
          ghost var to := if ret > 0 then Reach(m, initOff) else w.Done();
          assert Spill(m, seqNo, pieces, Skipped(initOff), to) && to <= Reach(m, initOff);
      }
      var flushed := w.Flush();
    }

    /**
      dtls1_retransmit_buffered_messages.  When it succeeds, what joins the wire is the whole queue
      in its order exactly if no write had been left half-way; then, if the flight is orderly, that
      is the flight as it was first sent.  When it fails with nothing left half-way before, what
      joins the wire is a part of the queue, up to the item that could not be written; if that is a
      message, something is left half-way now.
     */
    method Retransmit(w: Writer) returns (ret: int, ghost out: seq<Record>)
      requires Valid(w) && w.CanRetransmit()
      modifies w
      ensures Valid(w) && w.CanRetransmit() && w.writeEpoch == old(w.writeEpoch) && w.wire == old(w.wire) + out
      ensures ret == 1 || ret == -1
      ensures ret == 1 ==>
                && ReplaysFrom(sentMessages, old(w.initOff), out)
                && w.initOff == Left(sentMessages, old(w.initOff))
                && (Replays(sentMessages, out) <==> old(w.initOff) == 0 || !HasMessage(sentMessages))
      ensures ret == 1 && old(w.initOff) == 0 && Orderly(sends, first) && first + |sends| <= 0x8000 ==>
                sentMessages == Items(sends, first) && Replays(sentMessages, out)
      ensures ret == -1 ==>
                exists n: nat ::
                  && ReplaysFromUntil(sentMessages, old(w.initOff), out, n)
                  && (old(w.initOff) == 0 ==>
                        && ReplaysUntil(sentMessages, out, n)
                        && (w.initOff == 0 <==> sentMessages[n].content.ChangeCipherSpec?))
      ensures old(w.Willing()) ==> ret == 1
      ensures sentMessages != [] && sentMessages[0].content.Handshake? && w.answers(old(w.asked)) <= 0 ==>
                ret == -1 && w.asked == old(w.asked) + 2
                && w.initOff == if old(w.initOff) == 0 then HEADER_LENGTH else old(w.initOff)
    {
      hide Queued, Items, NextSeq, Orderly, SendsFrom, Sends, Replays, ReplaysFrom, ReplaysUntil, ReplaysFromUntil;
      hide HasMessage, Left;
      out := [];
      ghost var initOff := w.initOff;
      NothingReplayed(sentMessages, initOff);
      for i := 0 to |sentMessages|
        invariant w.writeEpoch == old(w.writeEpoch) && w.wire == old(w.wire) + out
        invariant ReplaysFrom(sentMessages[..i], initOff, out) && w.initOff == Left(sentMessages[..i], initOff)
        invariant w.CanRetransmit()
        invariant w.asked >= old(w.asked) && (i == 0 ==> w.asked == old(w.asked))
        invariant i > 0 && sentMessages[0].content.Handshake? ==> w.answers(old(w.asked)) > 0
      {
        var written: int;
        ghost var more: seq<Record>;
        written, more := RetransmitItem(w, sentMessages[i]);
        if written <= 0 {
          ReplayBreaks(sentMessages, initOff, i, out, more);
          out := out + more;
          BreaksAt(sentMessages, initOff, out, i);
          return -1, out;
        }
        ReplayGrows(sentMessages, initOff, i, out, more);
        LeftStep(sentMessages, initOff, i);
        out := out + more;
      }
      assert sentMessages[..|sentMessages|] == sentMessages;
      ReplaysIffNothingLeft(sentMessages, initOff, out);
      if first + |sends| <= 0x8000 {
        FlightKeepsOrderIffOrderly(sends, first);
      }
      ret := 1;
    }
  }

  lemma NothingReplayed(q: seq<Item>, initOff: nat)
    ensures ReplaysFrom(q[..0], initOff, []) && Left(q[..0], initOff) == initOff
  {
  }

  lemma LeftStep(q: seq<Item>, initOff: nat, i: nat)
    requires i < |q|
    ensures Left(q[..i + 1], initOff) == if q[i].content.Handshake? then 0 else Left(q[..i], initOff)
  {
    assert q[..i + 1][..i] == q[..i];
  }

  lemma BreaksAt(q: seq<Item>, initOff: nat, out: seq<Record>, n: nat)
    requires ValidItems(q) && ReplaysFromUntil(q, initOff, out, n)
    ensures initOff == 0 ==> ReplaysUntil(q, out, n) && Left(q[..n], initOff) == 0
  {
    if initOff == 0 {
      ReplaysFromStartUntil(q, out, n);
      NothingLeft(q[..n]);
    }
  }
}
