/**
  The receiving half of a DTLS handshake (3rdparty/boringssl/ssl/d1_both.c): fragments arrive in
  any order, cut in any way, any number of times; messages come out whole and in order.
 */
module DtlsReceiver {
  import opened Optional
  import opened DtlsWire
  import opened DtlsReassembly

  /** A buffered message.  A byte that no fragment has written yet is None: uninitialised memory. */
  datatype Buffered = Buffered(kind: Byte, msgLen: nat, body: seq<Option<Byte>>, mask: Option<seq<bv8>>)

  /** buffered_messages (a queue ordered by its unique keys) and handshake_read_seq. */
  datatype State = State(queue: map<nat, Buffered>, readSeq: nat)

  datatype Error = UnexpectedMessage | ExcessiveMessageSize | FragmentMismatch | InternalError

  /** `more` is what the record still holds.  Wild: a mark just behind the mask (see WildIff). */
  datatype Outcome = Ok(s: State, more: seq<Byte>) | Fail(e: Error) | Wild

  const BUFFER_SIZE: nat := 10  // kHandshakeBufferSize

  /** dtls1_hm_fragment_new with a reassembly mask: an empty message has none. */
  function NewBuffered(h: Header): Buffered {
    Buffered(h.kind, h.msgLen, seq(h.msgLen, _ => None),
             if h.msgLen > 0 then Some(seq(MaskLength(h.msgLen), _ => 0)) else None)
  }

  /** The body of the fragment is read into place. */
  function WriteBody(body: seq<Option<Byte>>, off: nat, data: seq<Byte>): (r: seq<Option<Byte>>)
    requires off + |data| <= |body|
    ensures |r| == |body|
    ensures forall i | 0 <= i < |r| :: r[i] == if off <= i < off + |data| then Some(data[i - off]) else body[i]
  {
    seq(|body|, i requires 0 <= i < |body| => if off <= i < off + |data| then Some(data[i - off]) else body[i])
  }

  /** dtls1_hm_fragment_mark */
  function MarkMask(mask: seq<bv8>, msgLen: nat, start: nat, end: nat): Option<seq<bv8>>
    requires |mask| == MaskLength(msgLen) && InBounds(Range(start, end), msgLen)
  {
    var mask1 := MarkRange(mask, start, end);
    if Complete(mask1, msgLen) then None else Some(mask1)
  }

  /** A fragment of a message that is still incomplete. */
  function Absorb(b: Buffered, h: Header, data: seq<Byte>): Option<Buffered>
    requires b.mask.Some? && |b.mask.value| == MaskLength(b.msgLen) && |b.body| == b.msgLen == h.msgLen
    requires h.fragOff + h.fragLen <= h.msgLen && |data| == h.fragLen
  {
    if h.fragOff >= 8 * MaskLength(h.msgLen) then None
    else Some(b.(body := WriteBody(b.body, h.fragOff, data),
                 mask := MarkMask(b.mask.value, h.msgLen, h.fragOff, h.fragOff + h.fragLen)))
  }

  /** The buffers of the queue have the sizes they were made with. */
  predicate Sized(b: Buffered) {
    |b.body| == b.msgLen && (b.mask.Some? ==> |b.mask.value| == MaskLength(b.msgLen))
  }

  predicate AllSized(s: State) { forall k | k in s.queue :: Sized(s.queue[k]) }

  /** The message of that number in the queue, or a new one. */
  function Found(s: State, h: Header): Buffered {
    if h.seqNo in s.queue then s.queue[h.seqNo] else NewBuffered(h)
  }

  /**
    A fragment of message b, which the queue now holds.  An empty body at the end of its record is
    read from the next record, if one has come: nothing of that is taken.
   */
  function Receive(s: State, b: Buffered, h: Header, rest: seq<Byte>, next: bool): Outcome
    requires Sized(b) && b.msgLen == h.msgLen && h.fragOff + h.fragLen <= h.msgLen && h.fragLen <= |rest|
  {
    if b.mask.None? then Ok(s.(queue := s.queue[h.seqNo := b]), rest[h.fragLen..])
    else if rest == [] && !next then Fail(InternalError)
    else match Absorb(b, h, rest[..h.fragLen])
      case None => Wild
      case Some(b1) => Ok(s.(queue := s.queue[h.seqNo := b1]), rest[h.fragLen..])
  }

  /** It makes no difference whether b is already in the queue. */
  lemma ReceiveInserted(s: State, b: Buffered, h: Header, rest: seq<Byte>, next: bool)
    requires Sized(b) && b.msgLen == h.msgLen && h.fragOff + h.fragLen <= h.msgLen && h.fragLen <= |rest|
    ensures Receive(s.(queue := s.queue[h.seqNo := b]), b, h, rest, next) == Receive(s, b, h, rest, next)
  {
    hide Absorb;
    var a := if b.mask.Some? then Absorb(b, h, rest[..h.fragLen]) else Some(b);
    assert a.Some? ==> s.queue[h.seqNo := b][h.seqNo := a.value] == s.queue[h.seqNo := a.value];
  }

  /**
    dtls1_process_fragment, once its header has been read; `rest` is what the record still holds,
    and `next` says whether another record has come.
   */
  function ProcessParsed(s: State, maxLen: nat, h: Header, rest: seq<Byte>, next: bool): Outcome
    requires AllSized(s)
  {
    if h.fragOff > h.msgLen || h.fragOff + h.fragLen > h.msgLen || h.msgLen > maxLen || h.fragLen > |rest|
    then Fail(ExcessiveMessageSize)
    else if h.seqNo < s.readSeq || h.seqNo > s.readSeq + BUFFER_SIZE then Ok(s, rest[h.fragLen..])
    else
      var b := Found(s, h);
      if b.kind != h.kind || b.msgLen != h.msgLen then Fail(FragmentMismatch) else Receive(s, b, h, rest, next)
  }

  /** dtls1_process_fragment on one record. */
  function Process(s: State, maxLen: nat, record: seq<Byte>, next: bool): (o: Outcome)
    requires AllSized(s)
    ensures o.Ok? ==> AllSized(o.s) && o.s.readSeq == s.readSeq && |o.more| < |record|
  {
    if |record| < HEADER_LENGTH then Fail(UnexpectedMessage)
    else ProcessParsed(s, maxLen, ParseHeader(record[..HEADER_LENGTH]), record[HEADER_LENGTH..], next)
  }

  /** dtls1_is_next_message_complete */
  predicate NextComplete(s: State) { s.readSeq in s.queue && s.queue[s.readSeq].mask.None? }

  function BytesOf(body: seq<Option<Byte>>): (r: seq<Byte>)
    requires forall i | 0 <= i < |body| :: body[i].Some?
    ensures |r| == |body| && forall i | 0 <= i < |r| :: body[i] == Some(r[i])
  {
    seq(|body|, i requires 0 <= i < |body| => body[i].value)
  }

  // ---------------------------------------------------------------- what the queue holds, whoever sends

  /** Written exactly where marked, and without a mask only when every byte has been written. */
  ghost predicate WellMarked(b: Buffered) {
    && |b.body| == b.msgLen < LIMIT24
    && match b.mask
       case None => forall i | 0 <= i < b.msgLen :: b.body[i].Some?
       case Some(mask) =>
         && b.msgLen > 0 && Fits(mask, b.msgLen)
         && (forall i: nat | i < b.msgLen :: Marked(mask, i) == b.body[i].Some?)
         && exists i: nat :: i < b.msgLen && b.body[i].None?
  }

  /** No message is older than the one expected, so that one is the first of the queue if it is there. */
  ghost predicate Sound(s: State) {
    && s.readSeq < LIMIT16
    && forall k {:trigger k in s.queue} | k in s.queue :: s.readSeq <= k < LIMIT16 && WellMarked(s.queue[k])
  }

  lemma SoundGrows(s: State, n: nat, b: Buffered)
    requires Sound(s) && s.readSeq <= n < LIMIT16 && WellMarked(b)
    ensures Sound(s.(queue := s.queue[n := b]))
  {
  }

  lemma SoundShrinks(s: State)
    requires Sound(s) && s.readSeq in s.queue
    ensures Sound(State(s.queue - {s.readSeq}, s.readSeq))
    ensures Sound(State(s.queue - {s.readSeq}, (s.readSeq + 1) % LIMIT16))
  {
  }

  lemma AlreadyThere(s: State, n: nat)
    requires n in s.queue
    ensures s.(queue := s.queue[n := s.queue[n]]) == s
  {
    assert s.queue[n := s.queue[n]] == s.queue;
  }

  lemma FoundIsMarked(s: State, n: nat)
    requires Sound(s) && n in s.queue
    ensures s.readSeq <= n < LIMIT16 && WellMarked(s.queue[n]) && Sized(s.queue[n])
  {
  }

  lemma SoundIsSized(s: State)
    requires Sound(s)
    ensures AllSized(s)
  {
  }

  lemma NewIsWellMarked(h: Header)
    requires h.msgLen < LIMIT24
    ensures WellMarked(NewBuffered(h))
  {
    BlankFits(h.msgLen);
    if h.msgLen > 0 {
      assert NewBuffered(h).body[0].None?;
    }
  }

  lemma NotWild(b: Buffered, h: Header, data: seq<Byte>)
    requires Sized(b) && b.mask.Some? && h.msgLen == b.msgLen
    requires h.fragOff + h.fragLen <= h.msgLen && |data| == h.fragLen && Absorb(b, h, data).Some?
    ensures h.fragOff < 8 * MaskLength(h.msgLen)
  {
  }

  lemma AbsorbKeepsMarks(b: Buffered, h: Header, data: seq<Byte>)
    requires WellMarked(b) && b.mask.Some? && h.msgLen == b.msgLen
    requires h.fragOff + h.fragLen <= h.msgLen && |data| == h.fragLen
    requires Absorb(b, h, data).Some?
    ensures WellMarked(Absorb(b, h, data).value)
  {
    hide Marked, MarkRange, Complete;
    var mask, start, end := b.mask.value, h.fragOff, h.fragOff + h.fragLen;
    MarkKeepsFit(mask, h.msgLen, Range(start, end));
    var b1 := Absorb(b, h, data).value;
    var mask1 := MarkRange(mask, start, end);
    assert forall i: nat | i < b.msgLen :: b1.body[i].Some? == Marked(mask1, i);
    if !Complete(mask1, h.msgLen) {
      var i: nat :| i < h.msgLen && !Marked(mask1, i);
      assert b1.body[i].None?;
    }
  }

  /** Whatever arrives, from whomever, no byte ever counts as received that was never written. */
  lemma ProcessIsSound(s: State, maxLen: nat, record: seq<Byte>, next: bool)
    requires Sound(s)
    ensures AllSized(s)
    ensures Process(s, maxLen, record, next).Ok? ==> Sound(Process(s, maxLen, record, next).s)
  {
    SoundIsSized(s);
    if |record| >= HEADER_LENGTH {
      var h := ParseHeader(record[..HEADER_LENGTH]);
      ParsedFits(record[..HEADER_LENGTH]);
      hide ParseHeader, ProcessParsed, Sound;
      ParsedIsSound(s, maxLen, h, record[HEADER_LENGTH..], next);
    }
  }

  lemma ParsedIsSound(s: State, maxLen: nat, h: Header, rest: seq<Byte>, next: bool)
    requires Sound(s) && AllSized(s) && h.seqNo < LIMIT16 && h.msgLen < LIMIT24
    ensures var o := ProcessParsed(s, maxLen, h, rest, next);
            o.Ok? ==> Sound(o.s) && o.more == rest[h.fragLen..]
  {
    hide Absorb, NewBuffered, WellMarked;
    var o := ProcessParsed(s, maxLen, h, rest, next);
    if o.Ok? && s.readSeq <= h.seqNo <= s.readSeq + BUFFER_SIZE {
      NewIsWellMarked(h);
      var b := Found(s, h);
      MarkedShape(b);
      if b.mask.Some? {
        AbsorbKeepsMarks(b, h, rest[..h.fragLen]);
      }
    }
  }

  lemma MarkedShape(b: Buffered)
    requires WellMarked(b)
    ensures Sized(b) && (b.mask.Some? ==> b.msgLen > 0)
  {
  }

  /** An empty range at the very end of message b, which does not end within a byte of the mask. */
  predicate JustBehind(b: Buffered, h: Header) { h.fragLen == 0 && h.fragOff == b.msgLen && b.msgLen % 8 == 0 }

  /** The header has passed all checks, and the message it belongs to is incomplete. */
  predicate Incomplete(s: State, maxLen: nat, h: Header, rest: seq<Byte>) {
    && h.fragOff + h.fragLen <= h.msgLen <= maxLen && h.fragLen <= |rest|
    && s.readSeq <= h.seqNo <= s.readSeq + BUFFER_SIZE
    && var b := Found(s, h);
       b.kind == h.kind && b.msgLen == h.msgLen && b.mask.Some?
  }

  /**
    dtls1_hm_fragment_mark is called for a range of the message, and yet with a place behind the
    mask, exactly for an empty fragment at the end of an incomplete message of 8k bytes.
   */
  lemma WildIff(s: State, maxLen: nat, h: Header, rest: seq<Byte>, next: bool)
    requires AllSized(s)
    ensures ProcessParsed(s, maxLen, h, rest, next).Wild?
            <==> Incomplete(s, maxLen, h, rest) && JustBehind(Found(s, h), h) && (rest != [] || next)
  {
    hide NewBuffered, MarkMask, WriteBody;
    NewShape(h);
    if Incomplete(s, maxLen, h, rest) {
      hide AllSized;
      WildBehind(Found(s, h), h, rest[..h.fragLen]);
    }
  }

  lemma WildBehind(b: Buffered, h: Header, data: seq<Byte>)
    requires Sized(b) && b.mask.Some? && b.msgLen == h.msgLen
    requires h.fragOff + h.fragLen <= h.msgLen && |data| == h.fragLen
    ensures Absorb(b, h, data).None? <==> JustBehind(b, h)
  {
    hide MarkMask, WriteBody;
  }

  lemma NewShape(h: Header)
    ensures Sized(NewBuffered(h))
  {
  }

  // ---------------------------------------------------------------- an honest sender

  /**
    A record an honest sender may have put on the wire: one or more pieces of any of its messages,
    none of them empty unless the message is.
   */
  ghost predicate Honest(sent: seq<Message>, maxLen: nat, record: seq<Byte>)
    decreases |record|
  {
    exists n, off, len, more: seq<Byte> ::
      HonestPiece(sent, maxLen, record, n, off, len, more) && |more| < |record|
      && (more == [] || Honest(sent, maxLen, more))
  }

  ghost predicate HonestPiece(sent: seq<Message>, maxLen: nat, record: seq<Byte>,
                              n: nat, off: nat, len: nat, more: seq<Byte>)
  {
    && n < |sent| < LIMIT16 && |sent[n].body| < LIMIT24 && |sent[n].body| <= maxLen
    && off + len <= |sent[n].body| && (len > 0 || sent[n].body == [])
    && record == FragmentRecord(sent[n], n, off, len) + more
  }

  /** Where message m is written it is right. */
  ghost predicate Agrees(b: Buffered, m: Message) {
    && b.kind == m.kind && b.msgLen == |m.body| == |b.body|
    && forall i {:trigger b.body[i]} | 0 <= i < b.msgLen :: b.body[i] == None || b.body[i] == Some(m.body[i])
  }

  ghost predicate Inv(s: State, sent: seq<Message>) {
    && s.readSeq <= |sent| < LIMIT16
    && forall k {:trigger k in s.queue} | k in s.queue :: k < |sent| && Agrees(s.queue[k], sent[k])
  }

  lemma AbsorbAgrees(b: Buffered, h: Header, m: Message, data: seq<Byte>)
    requires Agrees(b, m) && Sized(b) && b.mask.Some? && h.msgLen == b.msgLen && h.fragLen > 0
    requires h.fragOff + h.fragLen <= |m.body| && data == m.body[h.fragOff..h.fragOff + h.fragLen]
    ensures Absorb(b, h, data).Some? && Agrees(Absorb(b, h, data).value, m)
  {
    hide MarkRange, Complete;
  }

  /** An honest record is never refused, never goes wild, and what it leaves in the queue is right. */
  lemma HonestRecordIsAbsorbed(s: State, sent: seq<Message>, maxLen: nat, record: seq<Byte>, next: bool)
    requires Sound(s) && Inv(s, sent) && AllSized(s) && Honest(sent, maxLen, record)
    ensures var o := Process(s, maxLen, record, next);
            && o.Ok? && Sound(o.s) && Inv(o.s, sent)
            && (o.more == [] || Honest(sent, maxLen, o.more))
  {
    var n: nat, off: nat, len: nat, more: seq<Byte> :|
      HonestPiece(sent, maxLen, record, n, off, len, more) && |more| < |record|
      && (more == [] || Honest(sent, maxLen, more));
    hide *;
    HonestPieceIsAbsorbed(s, sent, maxLen, record, next, n, off, len, more);
  }

  lemma HonestPieceIsAbsorbed(s: State, sent: seq<Message>, maxLen: nat, record: seq<Byte>, next: bool,
                              n: nat, off: nat, len: nat, more: seq<Byte>)
    requires Sound(s) && Inv(s, sent) && AllSized(s) && HonestPiece(sent, maxLen, record, n, off, len, more)
    ensures var o := Process(s, maxLen, record, next);
            o.Ok? && Sound(o.s) && Inv(o.s, sent) && o.more == more
  {
    var m := sent[n];
    var h := Header(m.kind, |m.body|, n, off, len);
    HonestParts(m, n, off, len, more);
    ParseInvertsHeader(h);
    ProcessIsSound(s, maxLen, record, next);
    hide FragmentRecord, HeaderBytes, ParseHeader, Inv, Sound, ProcessParsed, AllSized;
    ParsedRecordIsAbsorbed(s, sent, maxLen, h, record[HEADER_LENGTH..], next);
  }

  lemma HonestParts(m: Message, n: nat, off: nat, len: nat, more: seq<Byte>)
    requires |m.body| < LIMIT24 && n < LIMIT16 && off + len <= |m.body|
    ensures var record := FragmentRecord(m, n, off, len) + more;
            && |record| >= HEADER_LENGTH + len
            && record[..HEADER_LENGTH] == HeaderBytes(Header(m.kind, |m.body|, n, off, len))
            && record[HEADER_LENGTH..][..len] == m.body[off..off + len]
            && record[HEADER_LENGTH..][len..] == more
  {
  }

  lemma ParsedRecordIsAbsorbed(s: State, sent: seq<Message>, maxLen: nat, h: Header, rest: seq<Byte>, next: bool)
    requires Sound(s) && Inv(s, sent) && AllSized(s)
    requires h.seqNo < |sent| && h.msgLen <= maxLen && h.fragLen <= |rest|
    requires var m := sent[h.seqNo];
             && h.kind == m.kind && h.msgLen == |m.body| && h.fragOff + h.fragLen <= |m.body|
             && (h.fragLen > 0 || m.body == [])
             && rest[..h.fragLen] == m.body[h.fragOff..h.fragOff + h.fragLen]
    ensures var o := ProcessParsed(s, maxLen, h, rest, next);
            o.Ok? && Inv(o.s, sent) && o.more == rest[h.fragLen..]
  {
    hide Absorb, NewBuffered, Agrees, WellMarked;
    if s.readSeq <= h.seqNo <= s.readSeq + BUFFER_SIZE {
      var m := sent[h.seqNo];
      NewAgrees(h, m);
      var b := Found(s, h);
      AgreedShape(b, m);
      if b.mask.Some? {
        if h.seqNo in s.queue {
          MarkedShape(b);
        }
        AbsorbAgrees(b, h, m, rest[..h.fragLen]);
      }
    }
  }

  lemma NewAgrees(h: Header, m: Message)
    requires h.kind == m.kind && h.msgLen == |m.body|
    ensures var b := NewBuffered(h); Agrees(b, m) && Sized(b) && (b.mask.Some? ==> b.msgLen > 0)
  {
  }

  lemma AgreedShape(b: Buffered, m: Message)
    requires Agrees(b, m)
    ensures b.kind == m.kind && b.msgLen == |m.body|
  {
  }

  /** A message that leaves the queue is the one that was sent: no byte of it was never written. */
  lemma CompleteIsSent(b: Buffered, m: Message)
    requires WellMarked(b) && Agrees(b, m) && b.mask.None?
    ensures (forall i | 0 <= i < |b.body| :: b.body[i].Some?) && BytesOf(b.body) == m.body
  {
  }

  // ---------------------------------------------------------------- overlapping pieces

  /** A piece of one message, as it arrives. */
  datatype Piece = Piece(off: nat, data: seq<Byte>)

  function RangeOf(p: Piece): Range { Range(p.off, p.off + |p.data|) }

  function Ranges(pieces: seq<Piece>): seq<Range> {
    seq(|pieces|, i requires 0 <= i < |pieces| => RangeOf(pieces[i]))
  }

  ghost predicate AllInBounds(pieces: seq<Piece>, msgLen: nat) {
    forall i | 0 <= i < |pieces| :: InBounds(RangeOf(pieces[i]), msgLen)
  }

  /** The buffer after some pieces: those that come after the message was complete are discarded. */
  ghost function BufferAfter(kind: Byte, msgLen: nat, pieces: seq<Piece>): (b: Buffered)
    requires msgLen > 0 && AllInBounds(pieces, msgLen)
    ensures b.kind == kind && b.msgLen == msgLen && Sized(b)
  {
    if pieces == [] then NewBuffered(Header(kind, msgLen, 0, 0, 0))
    else
      var n := |pieces| - 1;
      var b, p := BufferAfter(kind, msgLen, pieces[..n]), pieces[n];
      if b.mask.None? then b
      else
        assert InBounds(RangeOf(p), msgLen);
        Absorb(b, Header(kind, msgLen, 0, p.off, |p.data|), p.data).value
  }

  /** Byte i of the last of the pieces that has one. */
  function LastWrite(pieces: seq<Piece>, i: nat): Option<Byte> {
    if pieces == [] then None
    else
      var p := pieces[|pieces| - 1];
      if p.off <= i < p.off + |p.data| then Some(p.data[i - p.off]) else LastWrite(pieces[..|pieces| - 1], i)
  }

  ghost predicate CoversAll(pieces: seq<Piece>, msgLen: nat) {
    forall i: nat | i < msgLen :: Covered(Ranges(pieces), i)
  }

  /** How many pieces were written: all of them, or those up to the one that completed the message. */
  ghost function Count(pieces: seq<Piece>, msgLen: nat): (n: nat)
    ensures n <= |pieces|
  {
    if pieces == [] then 0
    else if CoversAll(pieces[..|pieces| - 1], msgLen) then Count(pieces[..|pieces| - 1], msgLen)
    else |pieces|
  }

  /** The pieces that were written cover the message if others were discarded, and no fewer of them do. */
  lemma {:induction false} CountTells(pieces: seq<Piece>, msgLen: nat)
    ensures var n := Count(pieces, msgLen);
            && (n < |pieces| ==> CoversAll(pieces[..n], msgLen))
            && forall k: nat | k < n :: !CoversAll(pieces[..k], msgLen)
  {
    if pieces != [] {
      var n := |pieces| - 1;
      var before, w := pieces[..n], Count(pieces[..n], msgLen);
      CountTells(before, msgLen);
      if CoversAll(before[..w], msgLen) {
        CoverStays(before, msgLen, w);
      }
      hide CoversAll;
      assert forall k: nat | k <= n :: before[..k] == pieces[..k];
      assert before[..n] == before;
    }
  }

  lemma CoverStays(pieces: seq<Piece>, msgLen: nat, w: nat)
    requires w <= |pieces| && CoversAll(pieces[..w], msgLen)
    ensures CoversAll(pieces, msgLen)
  {
    forall i: nat | i < msgLen ensures Covered(Ranges(pieces), i) {
      assert Covered(Ranges(pieces[..w]), i);
      var k :| 0 <= k < w && Ranges(pieces[..w])[k].start <= i < Ranges(pieces[..w])[k].end;
      assert Ranges(pieces)[k].start <= i < Ranges(pieces)[k].end;
    }
  }

  /**
    However the pieces overlap, each byte of the buffer is that of the last piece that wrote it
    before the message was complete, and the mask is that of the ranges.
   */
  lemma {:induction false} LastWriteStays(kind: Byte, msgLen: nat, pieces: seq<Piece>)
    requires msgLen > 0 && AllInBounds(pieces, msgLen)
    ensures var b, n := BufferAfter(kind, msgLen, pieces), Count(pieces, msgLen);
            && b.mask == MaskAfter(msgLen, Ranges(pieces))
            && forall i: nat | i < msgLen :: b.body[i] == LastWrite(pieces[..n], i)
  {
    MaskOfBuffer(kind, msgLen, pieces);
    if pieces != [] {
      var n := |pieces| - 1;
      var before := pieces[..n];
      LastWriteStays(kind, msgLen, before);
      CompleteIffCovered(kind, msgLen, before);
      CountStep(pieces, msgLen);
      BodyStep(kind, msgLen, pieces);
      var b0, b := BufferAfter(kind, msgLen, before), BufferAfter(kind, msgLen, pieces);
      hide *;
      forall i: nat | i < msgLen ensures b.body[i] == LastWrite(pieces[..Count(pieces, msgLen)], i) {
        LastWriteStep(pieces, Count(before, msgLen), Count(pieces, msgLen), b0.mask.None?, b0.body[i], b.body[i], i);
      }
    }
  }

  lemma LastWriteStep(pieces: seq<Piece>, c0: nat, c: nat, complete: bool, was: Option<Byte>, now: Option<Byte>, i: nat)
    requires pieces != [] && c0 <= |pieces| - 1
    requires if complete then c == c0 else c0 == |pieces| - 1 && c == |pieces|
    requires was == LastWrite(pieces[..|pieces| - 1][..c0], i)
    requires var p := pieces[|pieces| - 1];
             now == if !complete && p.off <= i < p.off + |p.data| then Some(p.data[i - p.off]) else was
    ensures now == LastWrite(pieces[..c], i)
  {
    var n := |pieces| - 1;
    assert pieces[..n][..c0] == pieces[..c0] && pieces[..|pieces|] == pieces;
  }

  lemma CompleteIffCovered(kind: Byte, msgLen: nat, pieces: seq<Piece>)
    requires msgLen > 0 && AllInBounds(pieces, msgLen)
    ensures BufferAfter(kind, msgLen, pieces).mask.None? <==> CoversAll(pieces, msgLen)
  {
    MaskOfBuffer(kind, msgLen, pieces);
    MaskTellsCoverage(msgLen, Ranges(pieces));
    hide BufferAfter, MaskAfter, Covered;
  }

  lemma CountStep(pieces: seq<Piece>, msgLen: nat)
    requires pieces != []
    ensures var n := |pieces| - 1;
            if CoversAll(pieces[..n], msgLen) then Count(pieces, msgLen) == Count(pieces[..n], msgLen)
            else Count(pieces[..n], msgLen) == n && Count(pieces, msgLen) == n + 1
  {
    var n := |pieces| - 1;
    var before := pieces[..n];
    CountTells(before, msgLen);
    if Count(before, msgLen) < n {
      CoverStays(before, msgLen, Count(before, msgLen));
    }
  }

  lemma BodyStep(kind: Byte, msgLen: nat, pieces: seq<Piece>)
    requires msgLen > 0 && pieces != [] && AllInBounds(pieces, msgLen)
    ensures var n := |pieces| - 1;
            var b0, b, p := BufferAfter(kind, msgLen, pieces[..n]), BufferAfter(kind, msgLen, pieces), pieces[n];
            forall i: nat | i < msgLen ::
              b.body[i] == if b0.mask.Some? && p.off <= i < p.off + |p.data| then Some(p.data[i - p.off]) else b0.body[i]
  {
    hide MarkMask;
  }

  lemma {:induction false} MaskOfBuffer(kind: Byte, msgLen: nat, pieces: seq<Piece>)
    requires msgLen > 0 && AllInBounds(pieces, msgLen)
    ensures BufferAfter(kind, msgLen, pieces).mask == MaskAfter(msgLen, Ranges(pieces))
  {
    hide MarkRange, Complete;
    if pieces != [] {
      var n := |pieces| - 1;
      MaskOfBuffer(kind, msgLen, pieces[..n]);
      assert Ranges(pieces)[..n] == Ranges(pieces[..n]);
    }
  }
}
