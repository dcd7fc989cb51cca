/**
  Opening records (3rdparty/boringssl/ssl/dtls_record.c, tls_record.c): epochs, the replay window
  and the order of the checks, over whole runs of a connection.
 */
module DtlsReplay {
  import opened Bytes
  import opened DtlsWindow

  const LIMIT16: nat := 0x1_0000
  const LIMIT64: nat := 0x1_0000_0000_0000_0000
  const MAX_PLAIN: nat := 16384  // SSL3_RT_MAX_PLAIN_LENGTH

  /** The eight-octet sequence field of a record: two octets of epoch, six of number. */
  type Sequence = b: seq<Byte> | |b| == 8 witness seq(8, _ => 0)

  function EpochOf(b: Sequence): nat {
    var high: nat, low: nat := b[0], b[1];
    high * 0x100 + low
  }

  function Power256(k: nat): nat { if k == 0 then 1 else Power256(k - 1) * 0x100 }

  lemma {:induction false} NumberIsBounded(b: seq<Byte>)
    ensures Number(b) < Power256(|b|)
  {
    if b != [] {
      NumberIsBounded(b[..|b| - 1]);
    }
  }

  lemma {:induction false} NumberIsInjective(a: seq<Byte>, b: seq<Byte>)
    requires |a| == |b| && Number(a) == Number(b)
    ensures a == b
  {
    if a != [] {
      NumberIsInjective(a[..|a| - 1], b[..|b| - 1]);
      assert a == a[..|a| - 1] + [a[|a| - 1]] && b == b[..|b| - 1] + [b[|b| - 1]];
    }
  }

  /** to_u64_be, in 64 bits */
  method ToU64Be(b: seq<Byte>) returns (ret: nat)
    requires |b| <= 8
    ensures ret == Number(b) < LIMIT64
  {
    ret := 0;
    var i := 0;
    while i < |b|
      invariant 0 <= i <= |b| && ret == Number(b[..i])
    {
      assert b[..i + 1][..i] == b[..i];
      NumberOfFew(b[..i]);
      ret := ret * 0x100 % LIMIT64;
      ret := ret + b[i];
      i := i + 1;
    }
    assert b[..i] == b;
    NumberOfFew(b);
  }

  lemma NumberOfFew(b: seq<Byte>)
    requires |b| <= 8
    ensures Number(b) < LIMIT64 && (|b| < 8 ==> Number(b) * 0x100 < LIMIT64)
  {
    NumberIsBounded(b);
    Powers();
    PowersRise(|b|, 8);
    if |b| < 8 {
      PowersRise(|b|, 7);
    }
  }

  lemma Powers()
    ensures Power256(8) == LIMIT64 && Power256(7) * 0x100 == LIMIT64
  {
    assert Power256(2) == 0x1_0000;
    assert Power256(4) == Power256(2) * 0x1_0000;
    assert Power256(6) == Power256(4) * 0x1_0000;
    assert Power256(8) == Power256(6) * 0x1_0000;
  }

  lemma {:induction false} PowersRise(i: nat, j: nat)
    requires i <= j
    ensures Power256(i) <= Power256(j)
  {
    if i < j {
      PowersRise(i, j - 1);
    }
  }

  /** A datagram's record: dropped for its header, or with its sequence field and what the AEAD makes of it. */
  datatype Arrival = Malformed | Record(sequence: Sequence, opens: bool, plainLen: nat)

  datatype Verdict = Discarded | TooLong | Opened

  /** r_epoch and the bitmap. */
  datatype Reader = Reader(epoch: nat, window: Window)

  const START := Reader(0, EMPTY)

  /** dtls_open_record */
  function Open(r: Reader, a: Arrival): (Reader, Verdict) {
    if a.Malformed? then (r, Discarded)
    else if EpochOf(a.sequence) != r.epoch || ShouldDiscard(r.window, Number(a.sequence)) then (r, Discarded)
    else if !a.opens then (r, Discarded)
    else if a.plainLen > MAX_PLAIN then (r, TooLong)
    else (r.(window := Recorded(r.window, Number(a.sequence))), Opened)
  }

  /** A uint16_t. */
  function Wrap16(n: nat): nat { n % LIMIT16 }

  /** The DTLS half of ssl_set_read_state */
  function NewEpoch(r: Reader): Reader { Reader(Wrap16(r.epoch + 1), EMPTY) }

  datatype Event = Arrives(a: Arrival) | NewReadState

  function Step(r: Reader, e: Event): Reader {
    match e
    case Arrives(a) => Open(r, a).0
    case NewReadState => NewEpoch(r)
  }

  function After(es: seq<Event>): Reader {
    if es == [] then START else Step(After(es[..|es| - 1]), es[|es| - 1])
  }

  predicate OpensRecord(r: Reader, e: Event) { e.Arrives? && Open(r, e.a).1 == Opened }

  /** The numbers opened since the last new read state. */
  function Seen(es: seq<Event>): set<nat> {
    if es == [] then {}
    else
      var before, e := es[..|es| - 1], es[|es| - 1];
      if e.NewReadState? then {}
      else if OpensRecord(After(before), e) then Seen(before) + {Number(e.a.sequence)}
      else Seen(before)
  }

  function Changes(es: seq<Event>): nat {
    if es == [] then 0 else Changes(es[..|es| - 1]) + if es[|es| - 1].NewReadState? then 1 else 0
  }

  /** Along every run the bitmap stands for the set of numbers opened in this epoch. */
  lemma {:induction false} WindowIsSeen(es: seq<Event>)
    ensures Refines(After(es).window, Seen(es))
  {
    hide Refines, ShouldDiscard, Recorded;
    EmptyRefines();
    if es != [] {
      var before, e := es[..|es| - 1], es[|es| - 1];
      WindowIsSeen(before);
      if OpensRecord(After(before), e) {
        RecordingRefines(After(before).window, Seen(before), Number(e.a.sequence));
      }
    }
  }

  lemma {:induction false} EpochCountsChanges(es: seq<Event>)
    ensures After(es).epoch == Wrap16(Changes(es))
  {
    hide ShouldDiscard, Recorded;
    if es != [] {
      EpochCountsChanges(es[..|es| - 1]);
      OneMore(Changes(es[..|es| - 1]));
    }
  }

  lemma OneMore(n: nat)
    ensures Wrap16(Wrap16(n) + 1) == Wrap16(n + 1)
  {
  }

  /** A record is opened exactly when it is sound, of this epoch, new, and not too far behind. */
  lemma {:induction false} OpenedIff(es: seq<Event>, a: Arrival)
    ensures Open(After(es), a).1 == Opened
            <==> a.Record? && a.opens && a.plainLen <= MAX_PLAIN && EpochOf(a.sequence) == Wrap16(Changes(es))
                 && Number(a.sequence) !in Seen(es) && !Stale(Seen(es), Number(a.sequence))
  {
    hide Refines, ShouldDiscard, Recorded, Stale, After, Seen;
    EpochCountsChanges(es);
    if a.Record? {
      WindowIsSeen(es);
      DiscardedIffSeenOrStale(After(es).window, Seen(es), Number(a.sequence));
    }
  }

  lemma LastStep(es: seq<Event>)
    requires es != []
    ensures Changes(es) == Changes(es[..|es| - 1]) + if es[|es| - 1].NewReadState? then 1 else 0
    ensures es[|es| - 1].Arrives? ==> Seen(es[..|es| - 1]) <= Seen(es)
    ensures OpensRecord(After(es[..|es| - 1]), es[|es| - 1]) ==> Number(es[|es| - 1].a.sequence) in Seen(es)
  {
    hide After;
  }

  lemma {:induction false} ChangesGrow(es: seq<Event>, i: nat, j: nat)
    requires i <= j <= |es|
    ensures Changes(es[..i]) <= Changes(es[..j])
    decreases j
  {
    if i < j {
      ChangesGrow(es, i, j - 1);
      LastStep(es[..j]);
      assert es[..j][..j - 1] == es[..j - 1];
    }
  }

  /** Within an epoch nothing is forgotten. */
  lemma {:induction false} SeenStays(es: seq<Event>, i: nat, j: nat)
    requires i < j <= |es| && OpensRecord(After(es[..i]), es[i])
    requires Changes(es[..i]) == Changes(es[..j])
    ensures Number(es[i].a.sequence) in Seen(es[..j])
    decreases j
  {
    hide After, OpensRecord, Seen, Changes;
    assert es[..j][..j - 1] == es[..j - 1];
    LastStep(es[..j]);
    if i < j - 1 {
      ChangesGrow(es, i, j - 1);
      SeenStays(es, i, j - 1);
    }
  }

  /** No sequence field is opened twice before the epoch has gone round its sixteen bits. */
  lemma {:induction false} OpenedAtMostOnce(es: seq<Event>, i: nat, j: nat)
    requires i < j < |es|
    requires OpensRecord(After(es[..i]), es[i]) && OpensRecord(After(es[..j]), es[j])
    requires Changes(es[..j]) - Changes(es[..i]) < LIMIT16
    ensures es[i].a.sequence != es[j].a.sequence
  {
    OpenedIff(es[..i], es[i].a);
    OpenedIff(es[..j], es[j].a);
    hide After, Open, Seen, Changes, Stale;
    ChangesGrow(es, i, j);
    if es[i].a.sequence == es[j].a.sequence {
      SameRemainder(Changes(es[..i]), Changes(es[..j]));
      SeenStays(es, i, j);
      assert false;
    }
  }

  lemma SameRemainder(x: nat, y: nat)
    requires x <= y < x + LIMIT16 && Wrap16(x) == Wrap16(y)
    ensures x == y
  {
  }

  /** k new read states in a row. */
  function Rekeyed(es: seq<Event>, k: nat): (r: seq<Event>)
    ensures |r| == |es| + k && es <= r
  {
    if k == 0 then es else Rekeyed(es, k - 1) + [NewReadState]
  }

  lemma AfterRekeying(es: seq<Event>, k: nat)
    requires k > 0
    ensures After(Rekeyed(es, k)) == NewEpoch(After(Rekeyed(es, k - 1)))
  {
    hide Open;
    var rest := Rekeyed(es, k - 1);
    assert Rekeyed(es, k)[..|rest|] == rest;
  }

  lemma NewEpochIs(r: Reader)
    ensures NewEpoch(r) == Reader(Wrap16(r.epoch + 1), EMPTY)
  {
  }

  lemma NotRekeyed(es: seq<Event>)
    ensures Rekeyed(es, 0) == es
  {
  }

  lemma {:induction false} RekeyingForgets(es: seq<Event>, k: nat)
    requires k > 0
    ensures After(Rekeyed(es, k)) == Reader(Wrap16(After(es).epoch + k), EMPTY)
  {
    hide *;
    AfterRekeying(es, k);
    NotRekeyed(es);
    NewEpochIs(After(Rekeyed(es, k - 1)));
    if k > 1 {
      RekeyingForgets(es, k - 1);
      OneMore(After(es).epoch + k - 1);
    }
  }

  lemma EmptyDiscardsNothing(n: nat)
    ensures !ShouldDiscard(EMPTY, n) || n == 0
    ensures n == 0 ==> !ShouldDiscard(EMPTY, n)
  {
    hide Bit;
    NothingInZero(0);
  }

  /** After 2^16 new read states a record that was opened in the same numbered epoch opens again. */
  lemma {:induction false} ReplayAfterFullCircle(es: seq<Event>, a: Arrival)
    requires OpensRecord(After(es), Arrives(a))
    ensures var again := Rekeyed(es + [Arrives(a)], LIMIT16);
            es + [Arrives(a)] <= again && OpensRecord(After(again), Arrives(a))
  {
    var first := es + [Arrives(a)];
    assert first[..|es|] == es;
    hide After, Rekeyed, ShouldDiscard, Recorded;
    RekeyingForgets(first, LIMIT16);
    var again := Rekeyed(first, LIMIT16);
    EmptyDiscardsNothing(Number(a.sequence));
    EpochAfter(es, Arrives(a));
    EpochCountsChanges(first);
    OneLap(Changes(first));
  }

  lemma EpochAfter(es: seq<Event>, e: Event)
    requires e.Arrives?
    ensures After(es + [e]).epoch == After(es).epoch
  {
    hide ShouldDiscard, Recorded;
    assert (es + [e])[..|es|] == es;
  }

  lemma OneLap(n: nat)
    ensures Wrap16(Wrap16(n) + LIMIT16) == Wrap16(n)
  {
  }

  /** The receiving half of a connection's state. */
  class ReadState {
    var rEpoch: nat
    var bits: bv64
    var maxSeqNum: nat
    ghost var trace: seq<Event>

    ghost predicate Valid()
      reads this
    {
      Reader(rEpoch, Window(bits, maxSeqNum)) == After(trace)
    }

    constructor ()
      ensures Valid() && trace == []
    {
      rEpoch, bits, maxSeqNum, trace := 0, 0, 0, [];
    }

    method BitmapShouldDiscard(seqNum: Sequence) returns (r: bool)
      ensures r == ShouldDiscard(Window(bits, maxSeqNum), Number(seqNum))
    {
      var n := ToU64Be(seqNum);
      if n > maxSeqNum {
        return false;
      }
      var idx := maxSeqNum - n;
      r := idx >= WINDOW || Bit(bits, idx);
    }

    method BitmapRecord(seqNum: Sequence)
      modifies this`bits, this`maxSeqNum
      ensures Window(bits, maxSeqNum) == Recorded(old(Window(bits, maxSeqNum)), Number(seqNum))
    {
      hide Shl, Join;
      var n := ToU64Be(seqNum);
      if n > maxSeqNum {
        var shift := n - maxSeqNum;
        if shift >= WINDOW {
          bits := 0;
        } else {
          bits := Shl(bits, shift);
        }
        maxSeqNum := n;
      }
      var idx := maxSeqNum - n;
      if idx < WINDOW {
        bits := Join(bits, Shl(1, idx));
      }
    }

    /**
      dtls_open_record: a record goes through exactly when OpenedIff says so, and is then on record;
      one that does not, whatever the reason, leaves epoch and window as they were.
     */
    method OpenRecord(a: Arrival) returns (verdict: Verdict)
      requires Valid()
      modifies this
      ensures Valid() && trace == old(trace) + [Arrives(a)]
      ensures verdict == Open(After(old(trace)), a).1
      ensures verdict == Opened <==>
                a.Record? && a.opens && a.plainLen <= MAX_PLAIN && EpochOf(a.sequence) == old(rEpoch)
                && Number(a.sequence) !in Seen(old(trace)) && !Stale(Seen(old(trace)), Number(a.sequence))
      ensures verdict != Opened ==> rEpoch == old(rEpoch) && bits == old(bits) && maxSeqNum == old(maxSeqNum)
    {
      OpenedIff(trace, a);
      EpochCountsChanges(trace);
      assert (trace + [Arrives(a)])[..|trace|] == trace;
      hide ShouldDiscard, Recorded, Seen, Stale;
      trace := trace + [Arrives(a)];
      if a.Malformed? {
        return Discarded;
      }
      var replay := BitmapShouldDiscard(a.sequence);
      if EpochOf(a.sequence) != rEpoch || replay {
        return Discarded;
      }
      if !a.opens {
        return Discarded;
      }
      if a.plainLen > MAX_PLAIN {
        return TooLong;
      }
      BitmapRecord(a.sequence);
      verdict := Opened;
    }

    /** ssl_set_read_state */
    method SetReadState()
      requires Valid()
      modifies this
      ensures Valid() && trace == old(trace) + [NewReadState]
    {
      assert (trace + [NewReadState])[..|trace|] == trace;
      trace := trace + [NewReadState];
      rEpoch := (rEpoch + 1) % LIMIT16;
      bits, maxSeqNum := 0, 0;
    }
  }
}
