/**
  Sequence numbers from sender to receiver (3rdparty/boringssl/ssl/tls_record.c, dtls_record.c):
  the carry that counts a sender's records, the field it puts into each of them, and which of them
  the window of the receiver lets through, said by the order of sending alone.
 */
module DtlsSequence {
  import opened Bytes
  import opened DtlsWindow
  import opened DtlsReplay

  // ---------------------------------------------------------------- counting

  datatype Counted = Counted(octets: seq<Byte>, ok: bool)

  /** ssl_record_sequence_update: the last octet is raised, and every octet that comes to 0 carries. */
  function Raised(b: seq<Byte>): (r: Counted)
    ensures |r.octets| == |b|
  {
    if b == [] then Counted([], false)
    else
      var n := |b| - 1;
      if b[n] < 0xFF then Counted(b[..n] + [b[n] + 1], true)
      else
        var r := Raised(b[..n]);
        Counted(r.octets + [0], r.ok)
  }

  /** It counts one further, or there are no more numbers of that width and it starts again at 0. */
  lemma {:induction false} RaisedCounts(b: seq<Byte>)
    ensures var r := Raised(b);
            && (r.ok <==> Number(b) + 1 < Power256(|b|))
            && Number(r.octets) == if r.ok then Number(b) + 1 else 0
  {
    NumberIsBounded(b);
    if b != [] {
      var n := |b| - 1;
      RaisedCounts(b[..n]);
      NumberIsBounded(b[..n]);
      var r := Raised(b).octets;
      assert r[..n] == if b[n] < 0xFF then b[..n] else Raised(b[..n]).octets;
    }
  }

  lemma RaisedIs(b: seq<Byte>, x: Byte)
    ensures Raised(b + [x])
            == if x < 0xFF then Counted(b + [x + 1], true) else Counted(Raised(b).octets + [0], Raised(b).ok)
  {
    assert (b + [x])[..|b|] == b;
  }

  function Join(c: Counted, tail: seq<Byte>): Counted { Counted(c.octets + tail, c.ok) }

  lemma JoinMoves(a: seq<Byte>, x: Byte, ok: bool, tail: seq<Byte>)
    ensures Join(Counted(a + [x], ok), tail) == Join(Counted(a, ok), [x] + tail)
  {
    assert a + [x] + tail == a + ([x] + tail);
  }

  /** One octet of the carry, seen from the right; `tail` is what has been dealt with. */
  lemma RaisedStep(b: seq<Byte>, i: nat, tail: seq<Byte>)
    requires i < |b|
    ensures Join(Raised(b[..i + 1]), tail)
            == if b[i] < 0xFF then Join(Counted(b[..i], true), [b[i] + 1] + tail) else Join(Raised(b[..i]), [0] + tail)
  {
    assert b[..i + 1] == b[..i] + [b[i]];
    RaisedIs(b[..i], b[i]);
    hide Raised, Join;
    if b[i] < 0xFF {
      JoinMoves(b[..i], b[i] + 1, true, tail);
    } else {
      JoinMoves(Raised(b[..i]).octets, 0, Raised(b[..i]).ok, tail);
    }
  }

  /** What the loop leaves of head, octets, tail when it has written octet i. */
  lemma PutOctet(head: seq<Byte>, b: seq<Byte>, k: nat, tail: seq<Byte>, x: Byte)
    requires k < |b|
    ensures (head + b[..k + 1] + tail)[|head| + k := x] == head + b[..k] + ([x] + tail)
    ensures (head + b[..k + 1] + tail)[|head| + k] == b[k]
  {
  }

  /** The loop of ssl_record_sequence_update, on the octets of a counter from `start` on. */
  method SequenceUpdate(counter: array<Byte>, start: nat) returns (ok: bool)
    requires start <= counter.Length
    modifies counter
    ensures counter[..start] == old(counter[..start])
    ensures Counted(counter[start..], ok) == Raised(old(counter[start..]))
  {
    ghost var head, b := counter[..start], counter[start..];
    ghost var tail: seq<Byte> := [];
    var i := counter.Length;
    assert b[..i - start] == b;
    ghost var r := Raised(b);
    assert r == Join(Raised(b[..i - start]), tail);
    assert Raised([]) == Counted([], false);
    hide Raised;
    while i > start
      invariant start <= i <= counter.Length
      invariant counter[..] == head + b[..i - start] + tail
      invariant r == Join(Raised(b[..i - start]), tail)
    {
      i := i - 1;
      RaisedStep(b, i - start, tail);
      ok := RaiseOctet(counter, i);
      PutOctet(head, b, i - start, tail, counter[i]);
      tail := [counter[i]] + tail;
      if ok {
        return;
      }
    }
    ok := false;
  }

  /** ++seq[i], and whether that ends the carry. */
  method RaiseOctet(counter: array<Byte>, i: nat) returns (done: bool)
    requires i < counter.Length
    modifies counter
    ensures counter[..] == old(counter[..])[i := counter[i]]
    ensures if old(counter[i]) < 0xFF then done && counter[i] == old(counter[i]) + 1 else !done && counter[i] == 0
  {
    var octet: nat := counter[i];
    counter[i] := (octet + 1) % 0x100;
    done := counter[i] != 0;
  }

  // ---------------------------------------------------------------- the fields of a sender

  const COUNTER: nat := 6  // octets of the field behind the epoch

  /** The counter after n records of an epoch. */
  function CounterAfter(n: nat): (b: seq<Byte>)
    ensures |b| == COUNTER
  {
    if n == 0 then seq(COUNTER, _ => 0) else Raised(CounterAfter(n - 1)).octets
  }

  function EpochOctets(epoch: nat): seq<Byte>
    requires epoch < LIMIT16
  {
    [epoch / 0x100, epoch % 0x100]
  }

  /** The field of record n of an epoch. */
  function FieldOf(epoch: nat, n: nat): Sequence
    requires epoch < LIMIT16
  {
    EpochOctets(epoch) + CounterAfter(n)
  }

  const SENDS: nat := 0x1_0000_0000_0000  // 48 bits

  lemma SendsIsPower()
    ensures SENDS == Power256(COUNTER)
  {
    assert Power256(2) == 0x1_0000;
    assert Power256(4) == Power256(2) * 0x1_0000;
  }

  lemma {:induction false} CounterCounts(n: nat)
    requires n < SENDS
    ensures Number(CounterAfter(n)) == n
  {
    if n == 0 {
      ZeroIsZero(COUNTER);
    } else {
      CounterCounts(n - 1);
      RaisedCounts(CounterAfter(n - 1));
      SendsIsPower();
    }
  }

  lemma {:induction false} ZeroIsZero(k: nat)
    ensures Number(seq<Byte>(k, _ => 0)) == 0
  {
    if k > 0 {
      ZeroIsZero(k - 1);
      assert seq<Byte>(k, _ => 0)[..k - 1] == seq<Byte>(k - 1, _ => 0);
    }
  }

  lemma {:induction false} NumberJoins(a: seq<Byte>, b: seq<Byte>)
    ensures Number(a + b) == Number(a) * Power256(|b|) + Number(b)
  {
    if b == [] {
      assert a + b == a;
    } else {
      var n := |b| - 1;
      NumberJoins(a, b[..n]);
      assert (a + b)[..|a| + n] == a + b[..n];
      Shift(Number(a), Power256(n), Number(b[..n]));
    }
  }

  lemma Shift(x: nat, p: nat, y: nat)
    ensures (x * p + y) * 0x100 == x * (p * 0x100) + y * 0x100
  {
  }

  lemma TwoOctets(epoch: nat)
    requires epoch < LIMIT16
    ensures Number(EpochOctets(epoch)) == epoch
  {
    var e := EpochOctets(epoch);
    var high: nat, low: nat := e[0], e[1];
    assert Number([]) == 0;
    assert e[..1][..0] == [] && e[..1][0] == high;
    assert Number(e[..1]) == high;
    assert Number(e) == high * 0x100 + low;
  }

  /** The number of the first record of an epoch. */
  function Base(epoch: nat): nat { epoch * SENDS }

  /** Within an epoch the fields are numbered in the order of sending, without a gap. */
  lemma FieldCounts(epoch: nat, n: nat)
    requires epoch < LIMIT16 && n < SENDS
    ensures Number(FieldOf(epoch, n)) == Base(epoch) + n && EpochOf(FieldOf(epoch, n)) == epoch
  {
    CounterCounts(n);
    TwoOctets(epoch);
    SendsIsPower();
    var e := EpochOctets(epoch);
    hide CounterAfter, EpochOctets, Number;
    NumberJoins(e, CounterAfter(n));
  }

  /** The sending half of a connection's state; n records have been sent in this epoch, m in the one before. */
  class WriteState {
    var wEpoch: nat
    const writeSequence: array<Byte>
    const lastWriteSequence: array<Byte>
    ghost var n: nat
    ghost var m: nat

    ghost predicate Valid()
      reads this, writeSequence, lastWriteSequence
    {
      && writeSequence.Length == lastWriteSequence.Length == 8 && writeSequence != lastWriteSequence
      && wEpoch < LIMIT16
      && writeSequence[2..] == CounterAfter(n) && lastWriteSequence[2..] == CounterAfter(m)
    }

    constructor ()
      ensures Valid() && wEpoch == 0 && n == 0 && fresh(writeSequence) && fresh(lastWriteSequence)
    {
      wEpoch, n, m := 0, 0, 0;
      writeSequence := new Byte[8](_ => 0);
      lastWriteSequence := new Byte[8](_ => 0);
    }

    /**
      dtls_seal_record: the field of the record, and whether it goes out.  A record that cannot be
      sealed does not count; one whose number is the last of the epoch counts, but does not go out.
     */
    method SealRecord(usePrevious: bool, seals: bool) returns (ok: bool, field: Sequence)
      requires Valid() && (usePrevious ==> wEpoch == 1)
      modifies this`n, this`m, writeSequence, lastWriteSequence
      ensures Valid() && wEpoch == old(wEpoch)
      ensures if usePrevious then
                && n == old(n) && m == old(m) + (if seals then 1 else 0)
                && field == FieldOf(wEpoch - 1, old(m)) && (old(m) < SENDS ==> (ok <==> seals && old(m) + 1 < SENDS))
              else
                && m == old(m) && n == old(n) + (if seals then 1 else 0)
                && field == FieldOf(wEpoch, old(n)) && (old(n) < SENDS ==> (ok <==> seals && old(n) + 1 < SENDS))
    {
      hide CounterAfter;
      if usePrevious {
        ok, field := Seal(wEpoch - 1, lastWriteSequence, m, seals);
        m := m + (if seals then 1 else 0);
      } else {
        ok, field := Seal(wEpoch, writeSequence, n, seals);
        n := n + (if seals then 1 else 0);
      }
    }

    /** The header of the record takes the counter as it is; then the counter is raised. */
    static method Seal(epoch: nat, counter: array<Byte>, ghost k: nat, seals: bool) returns (ok: bool, field: Sequence)
      requires epoch < LIMIT16 && counter.Length == 8 && counter[2..] == CounterAfter(k)
      modifies counter
      ensures field == FieldOf(epoch, k) && counter[2..] == CounterAfter(k + (if seals then 1 else 0))
      ensures k < SENDS ==> (ok <==> seals && k + 1 < SENDS)
    {
      if k < SENDS {
        CounterCounts(k);
        RaisedCounts(CounterAfter(k));
        SendsIsPower();
      }
      field := [epoch / 0x100, epoch % 0x100] + counter[2..];
      ok := false;
      assert CounterAfter(k + 1) == Raised(CounterAfter(k)).octets;
      hide Raised, CounterAfter, Number;
      if seals {
        ok := SequenceUpdate(counter, 2);
      }
    }

    /** The DTLS half of ssl_set_write_state */
    method SetWriteState()
      requires Valid()
      modifies this, writeSequence, lastWriteSequence
      ensures Valid() && wEpoch == Wrap16(old(wEpoch) + 1) && n == 0 && m == old(n)
    {
      wEpoch := (wEpoch + 1) % LIMIT16;
      forall i | 0 <= i < 8 {
        lastWriteSequence[i] := writeSequence[i];
      }
      assert lastWriteSequence[2..] == writeSequence[2..];
      ghost var last := lastWriteSequence[2..];
      forall i | 0 <= i < 8 {
        writeSequence[i] := 0;
      }
      assert lastWriteSequence[2..] == last;
      n, m := 0, n;
      assert writeSequence[2..] == CounterAfter(0);
    }
  }

  // ---------------------------------------------------------------- which records get through

  /** Event i opened the record with that field. */
  ghost predicate Opens(es: seq<Event>, i: nat, field: Sequence) {
    i < |es| && OpensRecord(After(es[..i]), es[i]) && es[i].a.sequence == field
  }

  /** Record j of the sender's present epoch has been opened, in the receiver's present epoch. */
  ghost predicate HasOpened(es: seq<Event>, j: nat) {
    exists i: nat :: Opens(es, i, FieldOf(Wrap16(Changes(es)), j)) && Changes(es[..i]) == Changes(es)
  }

  /** Whatever can be opened was sealed by the sender, in the epoch the receiver reads. */
  ghost predicate OneSender(es: seq<Event>) {
    forall i: nat, field: Sequence | Opens(es, i, field) :: IsSent(Wrap16(Changes(es[..i])), field)
  }

  ghost predicate IsSent(epoch: nat, field: Sequence)
    requires epoch < LIMIT16
  {
    exists j: nat :: j < SENDS && field == FieldOf(epoch, j)
  }

  /** What has been seen was opened in this epoch. */
  lemma {:induction false} SeenWasOpened(es: seq<Event>, n: nat) returns (i: nat, field: Sequence)
    requires n in Seen(es)
    ensures i < |es| && Opens(es, i, field) && Number(field) == n && Changes(es[..i]) == Changes(es)
  {
    hide After, Number, ShouldDiscard, Recorded;
    var k := |es| - 1;
    if OpensRecord(After(es[..k]), es[k]) && Number(es[k].a.sequence) == n {
      i, field := k, es[k].a.sequence;
    } else {
      i, field := SeenWasOpened(es[..k], n);
      assert es[..k][..i] == es[..i];
    }
  }

  lemma OpenedIsSeen(es: seq<Event>, i: nat, field: Sequence)
    requires Opens(es, i, field) && Changes(es[..i]) == Changes(es)
    ensures Number(field) in Seen(es)
  {
    hide After, Seen, Changes, Open, Number;
    assert es[..|es|] == es;
    SeenStays(es, i, |es|);
  }

  /** The numbers seen are those of the sender's records that have been opened. */
  lemma SeenIffOpened(es: seq<Event>, j: nat)
    requires j < SENDS
    ensures Base(Wrap16(Changes(es))) + j in Seen(es) <==> HasOpened(es, j)
  {
    var e := Wrap16(Changes(es));
    FieldCounts(e, j);
    hide Opens, Seen, Changes, Number, FieldOf, Base, Wrap16;
    if HasOpened(es, j) {
      var i: nat :| Opens(es, i, FieldOf(e, j)) && Changes(es[..i]) == Changes(es);
      OpenedIsSeen(es, i, FieldOf(e, j));
    }
    if Base(e) + j in Seen(es) {
      var i, field := SeenWasOpened(es, Base(e) + j);
      NumberIsInjective(field, FieldOf(e, j));
    }
  }

  /** Everything seen is the number of some record of the sender. */
  lemma SeenIsSent(es: seq<Event>, n: nat)
    requires OneSender(es) && n in Seen(es)
    ensures Base(Wrap16(Changes(es))) <= n < Base(Wrap16(Changes(es))) + SENDS
  {
    hide Opens, Seen, Changes, Number, FieldOf, Base;
    var i, field := SeenWasOpened(es, n);
    assert IsSent(Wrap16(Changes(es[..i])), field);
    var j: nat :| j < SENDS && field == FieldOf(Wrap16(Changes(es)), j);
    FieldCounts(Wrap16(Changes(es)), j);
  }

  /**
    In every run with one sender: a sound record of the sender's present epoch gets through exactly
    if it has not been opened before and is fewer than 64 records behind every one that has.
   */
  lemma SentIsOpenedIff(es: seq<Event>, a: Arrival, k: nat)
    requires OneSender(es) && k < SENDS
    requires a.Record? && a.opens && a.plainLen <= MAX_PLAIN && a.sequence == FieldOf(Wrap16(Changes(es)), k)
    ensures Open(After(es), a).1 == Opened
            <==> !HasOpened(es, k) && forall j: nat | j < SENDS && HasOpened(es, j) :: j < k + 64
  {
    hide After, Seen, Changes, Open, Number, FieldOf, HasOpened, OneSender, EpochOf, Stale, Base;
    var e := Wrap16(Changes(es));
    OpenedIff(es, a);
    FieldCounts(e, k);
    forall j: nat | j < SENDS ensures HasOpened(es, j) <==> Base(e) + j in Seen(es) {
      SeenIffOpened(es, j);
    }
    forall m | m in Seen(es) ensures Base(e) <= m < Base(e) + SENDS {
      SeenIsSent(es, m);
    }
    WindowOfSends(es, Base(e), k);
  }

  lemma WindowOfSends(es: seq<Event>, base: nat, k: nat)
    requires k < SENDS && forall j: nat | j < SENDS :: HasOpened(es, j) <==> base + j in Seen(es)
    requires forall m | m in Seen(es) :: base <= m < base + SENDS
    ensures base + k !in Seen(es) && !Stale(Seen(es), base + k)
            <==> !HasOpened(es, k) && forall j: nat | j < SENDS && HasOpened(es, j) :: j < k + 64
  {
    hide Seen, HasOpened;
    if Stale(Seen(es), base + k) {
      var m: nat :| m in Seen(es) && m >= base + k + 64;
      assert HasOpened(es, m - base) by {
        assert base + (m - base) in Seen(es);
      }
    }
    forall j: nat | j < SENDS && HasOpened(es, j) && j >= k + 64 ensures Stale(Seen(es), base + k) {
      assert base + j in Seen(es);
    }
  }
}
