/**
  What anyone at all can make the receiver of a DTLS handshake keep: a bounded number of messages of
  bounded size, in the window behind the next one (dtls1_process_fragment and dtls1_get_message in
  3rdparty/boringssl/ssl/d1_both.c).
 */
module DtlsLimits {
  import opened Optional
  import opened DtlsWire
  import opened DtlsReassembly
  import opened DtlsReceiver
  import opened DtlsDelivery

  const WINDOW: nat := 11  // the message that comes next, and ten behind it

  /** At most so many messages, none larger than maxLen. */
  ghost predicate Bounded(s: State, maxLen: nat) {
    forall k {:trigger k in s.queue} | k in s.queue :: s.readSeq <= k < s.readSeq + WINDOW && s.queue[k].msgLen <= maxLen
  }

  /** Whatever fragment comes: the queue stays within its bounds. */
  lemma ProcessIsBounded(s: State, maxLen: nat, record: seq<Byte>, next: bool)
    requires Sound(s) && Bounded(s, maxLen) && AllSized(s) && Process(s, maxLen, record, next).Ok?
    ensures Bounded(Process(s, maxLen, record, next).s, maxLen)
  {
    hide Absorb, Sound, ParseHeader;
    if HEADER_LENGTH <= |record| {
      var h := ParseHeader(record[..HEADER_LENGTH]);
      var o := Process(s, maxLen, record, next);
      assert forall k | k in o.s.queue && k != h.seqNo :: k in s.queue && o.s.queue[k] == s.queue[k];
      if h.seqNo in o.s.queue && h.seqNo !in s.queue {
        AbsorbKeepsSize(NewBuffered(h), h, record[HEADER_LENGTH..][..h.fragLen]);
      } else if h.seqNo in o.s.queue && s.readSeq <= h.seqNo < s.readSeq + WINDOW && s.queue[h.seqNo].mask.Some? {
        AbsorbKeepsSize(s.queue[h.seqNo], h, record[HEADER_LENGTH..][..h.fragLen]);
      }
    }
  }

  lemma AbsorbKeepsSize(b: Buffered, h: Header, data: seq<Byte>)
    ensures b.mask.Some? && |b.mask.value| == MaskLength(b.msgLen) && |b.body| == b.msgLen == h.msgLen
            && h.fragOff + h.fragLen <= h.msgLen && |data| == h.fragLen && Absorb(b, h, data).Some?
            ==> Absorb(b, h, data).value.msgLen == b.msgLen && Absorb(b, h, data).value.kind == b.kind
  {
  }

  /**
    A fragment that is taken within the window agrees with the message of its number that is kept:
    all fragments of a message name the same type and the same length.
   */
  lemma FragmentsAgree(s: State, maxLen: nat, record: seq<Byte>, next: bool)
    requires AllSized(s) && HEADER_LENGTH <= |record| && Process(s, maxLen, record, next).Ok?
    ensures var h := ParseHeader(record[..HEADER_LENGTH]);
            var q := Process(s, maxLen, record, next).s.queue;
            s.readSeq <= h.seqNo < s.readSeq + WINDOW ==>
              && h.seqNo in q && q[h.seqNo].kind == h.kind && q[h.seqNo].msgLen == h.msgLen
              && (h.seqNo in s.queue ==> s.queue[h.seqNo].kind == h.kind && s.queue[h.seqNo].msgLen == h.msgLen)
  {
    hide Absorb, ParseHeader;
    var h := ParseHeader(record[..HEADER_LENGTH]);
    if s.readSeq <= h.seqNo < s.readSeq + WINDOW {
      AbsorbKeepsSize(Found(s, h), h, record[HEADER_LENGTH..][..h.fragLen]);
    }
  }

  lemma {:induction false} FetchIsBounded(r: Reader, maxLen: nat)
    requires Sound(r.s) && Bounded(r.s, maxLen)
    ensures var f := Fetch(r, maxLen);
            f.Whole? || f.Starved? ==> Bounded(f.r.s, maxLen)
    decreases Weight(r.records)
  {
    hide Sound, Process, Bounded, NextComplete;
    if !NextComplete(r.s) {
      var records := SkipEmpty(r.records);
      if records != [] {
        SoundIsSized(r.s);
        ProcessIsSound(r.s, maxLen, records[0], AnotherRecord(records));
        var o := Process(r.s, maxLen, records[0], AnotherRecord(records));
        if o.Ok? {
          ProcessIsBounded(r.s, maxLen, records[0], AnotherRecord(records));
          FetchIsBounded(Reader(o.s, Behind(o.more, records)), maxLen);
        }
      }
    }
  }

  /** A message that leaves lets the window move on; at the end of the numbers nothing is left in it. */
  lemma TakeOutIsBounded(r: Reader, maxLen: nat, max: nat, want: int)
    requires Sound(r.s) && NextComplete(r.s) && Bounded(r.s, maxLen)
    ensures Bounded(TakeOut(r, max, want).0.s, maxLen)
  {
    hide WellMarked;
  }

  lemma GetNextIsBounded(r: Reader, maxLen: nat, max: nat, want: int)
    requires Sound(r.s) && Bounded(r.s, maxLen)
    ensures Bounded(GetNext(r, maxLen, max, want).0.s, maxLen)
  {
    hide Sound, Bounded, TakeOut;
    FetchIsBounded(r, maxLen);
    var f := Fetch(r, maxLen);
    if f.Whole? {
      TakeOutIsBounded(f.r, maxLen, max, want);
    }
  }

  lemma FewInWindow(keys: set<nat>, n: nat)
    requires forall k | k in keys :: n <= k < n + WINDOW
    ensures |keys| <= WINDOW
  {
    var all: set<nat> := {n, n + 1, n + 2, n + 3, n + 4, n + 5, n + 6, n + 7, n + 8, n + 9, n + 10};
    assert keys <= all;
    SubsetIsSmaller(keys, all);
  }

  lemma SubsetIsSmaller(a: set<nat>, b: set<nat>)
    requires a <= b
    ensures |a| <= |b|
  {
    assert b == a + (b - a);
  }

  /** At every point of every run, whoever sends: at most eleven messages, none larger than allowed. */
  lemma {:induction false} RunIsBounded(maxLen: nat, events: seq<Event>)
    ensures Bounded(After(maxLen, events).reader.s, maxLen) && |After(maxLen, events).reader.s.queue| <= WINDOW
    decreases |events|
  {
    hide GetNext, Sound;
    var s := After(maxLen, events).reader.s;
    if events != [] {
      var event := events[|events| - 1];
      RunIsBounded(maxLen, events[..|events| - 1]);
      if event.Get? {
        GetNextIsBounded(After(maxLen, events[..|events| - 1]).reader, maxLen, event.max, event.want);
      }
    }
    FewInWindow(s.queue.Keys, s.readSeq);
  }
}
