/**
  The replay window of a DTLS receiver (section 4.1.2.6 of RFC 6347;
  3rdparty/boringssl/ssl/dtls_record.c, tls_record.c): a 64-bit map that slides along the sequence
  numbers stands for the unbounded set of the numbers seen.
 */
module DtlsWindow {

  const WINDOW: nat := 64  // sizeof(bitmap->map) * 8

  /** The operations on a uint64_t map. */
  function Up(m: bv64): bv64 { m << 1 }

  function Join(m: bv64, p: bv64): bv64 { m | p }

  predicate Meet(m: bv64, p: bv64) { m & p != 0 }

  /** m << k, one place at a time */
  function Shl(m: bv64, k: nat): bv64 { if k == 0 then m else Up(Shl(m, k - 1)) }

  /** Bit 1 << i of a map. */
  predicate Bit(m: bv64, i: nat) { Meet(m, Shl(1, i)) }

  /** DTLS1_BITMAP: bit 1 << i of `bits` is number `max` - i. */
  datatype Window = Window(bits: bv64, max: nat)

  const EMPTY := Window(0, 0)

  /** dtls1_bitmap_should_discard */
  predicate ShouldDiscard(w: Window, n: nat) {
    if n > w.max then false
    else w.max - n >= WINDOW || Bit(w.bits, w.max - n)
  }

  function Slide(m: bv64, shift: nat): bv64 { if shift >= WINDOW then 0 else Shl(m, shift) }

  function SetBit(m: bv64, i: nat): bv64 { if i < WINDOW then Join(m, Shl(1, i)) else m }

  /** dtls1_bitmap_record */
  function Recorded(w: Window, n: nat): Window {
    if n > w.max then Window(SetBit(Slide(w.bits, n - w.max), 0), n)
    else Window(SetBit(w.bits, w.max - n), w.max)
  }

  function Pow2(k: nat): nat { if k == 0 then 1 else 2 * Pow2(k - 1) }

  lemma {:induction false} Pow2Rises(i: nat, j: nat)
    requires i <= j
    ensures Pow2(i) <= Pow2(j)
  {
    if i < j {
      Pow2Rises(i, j - 1);
    }
  }

  lemma {:induction false} Pow2Adds(i: nat, j: nat)
    ensures Pow2(i + j) == Pow2(i) * Pow2(j)
  {
    if j > 0 {
      Pow2Adds(i, j - 1);
    }
  }

  lemma Pow2Of62()
    ensures Pow2(62) == 0x4000_0000_0000_0000
  {
    assert Pow2(2) == 4;
    Pow2Adds(2, 2);
    Pow2Adds(4, 4);
    Pow2Adds(8, 8);
    Pow2Adds(16, 16);
    Pow2Adds(32, 16);
    Pow2Adds(48, 8);
    Pow2Adds(56, 4);
    Pow2Adds(60, 2);
  }

  /** The top bit is free, so that Up loses nothing. */
  predicate Low(p: bv64) { p < 0x8000_0000_0000_0000 }

  function Value(p: bv64): nat { p as nat }

  lemma DoublingFits(p: bv64)
    requires Value(p) < 0x8000_0000_0000_0000
    ensures Low(p) && Value(Up(p)) == 2 * Value(p)
  {
  }

  lemma OneIsOne()
    ensures Value(1) == 1
  {
  }

  /** The bits of a 64-bit word: shifting loses none of them. */
  lemma {:induction false} BitsAreInRange(i: nat)
    requires i < 63
    ensures Value(Shl(1, i)) == Pow2(i) && Low(Shl(1, i))
  {
    hide Up, Low, Value;
    Pow2Of62();
    Pow2Rises(i, 62);
    OneIsOne();
    if i > 0 {
      BitsAreInRange(i - 1);
      Pow2Rises(i - 1, 62);
      DoublingFits(Shl(1, i - 1));
    }
    DoublingFits(Shl(1, i));
  }

  lemma BothShifted(m: bv64, p: bv64)
    requires Low(p)
    ensures Meet(Up(m), Up(p)) <==> Meet(m, p)
  {
  }

  lemma LowestBit(m: bv64)
    ensures !Meet(Up(m), 1) && !Meet(1, Up(m)) && Meet(1, 1) && !Meet(0, m)
  {
  }

  lemma EitherHas(m: bv64, p: bv64, q: bv64)
    ensures Meet(Join(m, p), q) <==> Meet(m, q) || Meet(p, q)
  {
    if m & q == 0 && p & q == 0 {
      NeitherHas(m, p, q);
    } else if (m | p) & q == 0 {
      NoneHas(m, p, q);
    }
  }

  lemma NeitherHas(m: bv64, p: bv64, q: bv64)
    requires m & q == 0 && p & q == 0
    ensures (m | p) & q == 0
  {
  }

  lemma NoneHas(m: bv64, p: bv64, q: bv64)
    requires (m | p) & q == 0
    ensures m & q == 0 && p & q == 0
  {
  }

  lemma ShiftByOne(m: bv64, i: nat)
    requires i < 64
    ensures Bit(Up(m), i) <==> 1 <= i && Bit(m, i - 1)
  {
    hide Up, Low, Meet;
    LowestBit(m);
    if 1 <= i {
      BitsAreInRange(i - 1);
      BothShifted(m, Shl(1, i - 1));
    }
  }

  lemma {:induction false} ShiftMovesBits(m: bv64, s: nat, i: nat)
    requires i < 64
    ensures Bit(Shl(m, s), i) <==> s <= i && Bit(m, i - s)
  {
    hide Bit, Up;
    if s > 0 {
      ShiftByOne(Shl(m, s - 1), i);
      if 1 <= i {
        ShiftMovesBits(m, s - 1, i - 1);
      }
    }
  }

  lemma OneHasOneBit(i: nat)
    requires i < 64
    ensures Bit(1, i) <==> i == 0
  {
    hide Up, Meet;
    LowestBit(Shl(1, if i > 0 then i - 1 else 0));
  }

  lemma NothingInZero(i: nat)
    ensures !Bit(0, i)
  {
    hide Meet;
    LowestBit(Shl(1, i));
  }

  lemma SlideMovesBits(m: bv64, shift: nat, i: nat)
    requires i < 64
    ensures Bit(Slide(m, shift), i) <==> shift <= i && Bit(m, i - shift)
  {
    hide Bit, Up;
    if shift < 64 {
      ShiftMovesBits(m, shift, i);
    } else {
      NothingInZero(i);
    }
  }

  lemma SetBitSetsOne(m: bv64, k: nat, i: nat)
    requires i < 64
    ensures Bit(SetBit(m, k), i) <==> Bit(m, i) || i == k
  {
    hide Up, Join, Meet;
    if k < 64 {
      EitherHas(m, Shl(1, k), Shl(1, i));
      ShiftMovesBits(1, k, i);
      if k <= i {
        OneHasOneBit(i - k);
      }
    }
  }

  /** The window stands for a set: it knows its maximum, and of the last 64 numbers which are in. */
  ghost predicate Refines(w: Window, seen: set<nat>) {
    && (w.max in seen || (seen == {} && w.max == 0))
    && (forall n | n in seen :: n <= w.max)
    && (forall n: nat | n <= w.max < n + 64 :: n in seen <==> Bit(w.bits, w.max - n))
  }

  /** At least 64 behind something that has been seen. */
  ghost predicate Stale(seen: set<nat>, n: nat) { exists m :: m in seen && m >= n + 64 }

  lemma EmptyRefines()
    ensures Refines(EMPTY, {})
  {
    hide Bit;
    NothingInZero(0);
  }

  /** The verdict of the bitmap is the verdict of the set. */
  lemma {:induction false} DiscardedIffSeenOrStale(w: Window, seen: set<nat>, n: nat)
    requires Refines(w, seen)
    ensures ShouldDiscard(w, n) <==> n in seen || Stale(seen, n)
  {
    hide Bit;
    if n + 64 <= w.max {
      assert w.max in seen;
    }
  }

  /** Recording a number in the window is adding it to the set, however far the window slides. */
  lemma {:induction false} RecordingRefines(w: Window, seen: set<nat>, n: nat)
    requires Refines(w, seen)
    ensures Refines(Recorded(w, n), seen + {n})
  {
    hide Bit, SetBit, Slide;
    var r := Recorded(w, n);
    forall k: nat | k <= r.max < k + 64 ensures k in seen + {n} <==> Bit(r.bits, r.max - k) {
      if n > w.max {
        SetBitSetsOne(Slide(w.bits, n - w.max), 0, n - k);
        SlideMovesBits(w.bits, n - w.max, n - k);
      } else {
        SetBitSetsOne(w.bits, w.max - n, w.max - k);
      }
    }
  }
}
