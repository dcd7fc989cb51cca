/**
  The reassembly bitmask of one handshake message (dtls1_hm_fragment_mark in
  3rdparty/boringssl/ssl/d1_both.c): one bit for each body byte received.
 */
module DtlsReassembly {
  import opened Optional

  function BitRange(start: nat, end: nat): bv8
    requires start <= 8 && end <= 8
  {
    var below: bv32 := ((1 as bv32) << start) - 1;
    var upto: bv32 := ((1 as bv32) << end) - 1;
    (!below & upto & 0xff) as bv8
  }

  predicate Bit(b: bv8, k: nat)
    requires k < 8
  {
    (b >> k) & 1 == 1
  }

  lemma BitRangeBits(start: nat, end: nat, k: nat)
    requires start <= 8 && end <= 8 && k < 8
    ensures Bit(BitRange(start, end), k) <==> start <= k < end
  {
  }

  lemma OrBits(a: bv8, b: bv8, k: nat)
    requires k < 8
    ensures Bit(Or(a, b), k) == (Bit(a, k) || Bit(b, k))
  {
    match k {
      case 0 => case 1 => case 2 => case 3 => case 4 => case 5 => case 6 => case _ =>
    }
  }

  lemma SameBits(a: bv8, b: bv8)
    requires forall k: nat | k < 8 :: Bit(a, k) == Bit(b, k)
    ensures a == b
  {
    assert Bit(a, 0) == Bit(b, 0) && Bit(a, 1) == Bit(b, 1) && Bit(a, 2) == Bit(b, 2) && Bit(a, 3) == Bit(b, 3);
    assert Bit(a, 4) == Bit(b, 4) && Bit(a, 5) == Bit(b, 5) && Bit(a, 6) == Bit(b, 6) && Bit(a, 7) == Bit(b, 7);
  }

  /** Byte i of the message has been received. */
  predicate Marked(mask: seq<bv8>, i: nat)
    requires i < 8 * |mask|
  {
    Bit(mask[i / 8], i % 8)
  }

  function MaskLength(msgLen: nat): nat { (msgLen + 7) / 8 }

  /** A mask of the right size in which no bit beyond the message is set. */
  ghost predicate Fits(mask: seq<bv8>, msgLen: nat) {
    |mask| == MaskLength(msgLen) && forall i: nat | msgLen <= i < 8 * |mask| :: !Marked(mask, i)
  }

  function Or(a: bv8, b: bv8): bv8 { a | b }

  /** What marking the range from bit sk of byte sj to bit ek of byte ej makes of byte j. */
  function MarkByte(b: bv8, j: nat, sj: nat, sk: nat, ej: nat, ek: nat): bv8
    requires sk < 8 && ek < 8
  {
    if j == sj == ej then Or(b, BitRange(sk, ek))
    else if j == sj then Or(b, BitRange(sk, 8))
    else if sj < j < ej then 0xff
    else if j == ej && j > sj && ek != 0 then Or(b, BitRange(0, ek))
    else b
  }

  /** The exact bytes of the mask after [start, end) has been marked. */
  function MarkRange(mask: seq<bv8>, start: nat, end: nat): (r: seq<bv8>)
    requires start <= end <= 8 * |mask| && start < 8 * |mask|
    ensures |r| == |mask|
  {
    seq(|mask|, j requires 0 <= j < |mask| => MarkByte(mask[j], j, start / 8, start % 8, end / 8, end % 8))
  }

  lemma MarkByteMarks(b: bv8, j: nat, k: nat, sj: nat, sk: nat, ej: nat, ek: nat)
    requires sk < 8 && ek < 8 && k < 8 && 8 * sj + sk <= 8 * ej + ek
    ensures Bit(MarkByte(b, j, sj, sk, ej, ek), k) == (Bit(b, k) || 8 * sj + sk <= 8 * j + k < 8 * ej + ek)
  {
    hide Bit, BitRange, Or;
    if j == sj == ej {
      BitRangeBits(sk, ek, k);
      OrBits(b, BitRange(sk, ek), k);
    } else if j == sj {
      BitRangeBits(sk, 8, k);
      OrBits(b, BitRange(sk, 8), k);
    } else if sj < j < ej {
      AllBits(k);
    } else if j == ej && ek != 0 {
      BitRangeBits(0, ek, k);
      OrBits(b, BitRange(0, ek), k);
    }
  }

  lemma AllBits(k: nat)
    requires k < 8
    ensures Bit(0xff, k)
  {
    BitRangeBits(0, 8, k);
    assert BitRange(0, 8) == 0xff;
  }

  /** Marking sets exactly the bits of the range. */
  lemma {:induction false} MarkRangeMarks(mask: seq<bv8>, start: nat, end: nat, i: nat)
    requires start <= end <= 8 * |mask| && start < 8 * |mask| && i < 8 * |mask|
    ensures Marked(MarkRange(mask, start, end), i) == (Marked(mask, i) || start <= i < end)
  {
    hide Bit, MarkByte;
    MarkByteMarks(mask[i / 8], i / 8, i % 8, start / 8, start % 8, end / 8, end % 8);
    assert MarkRange(mask, start, end)[i / 8]
        == MarkByte(mask[i / 8], i / 8, start / 8, start % 8, end / 8, end % 8);
  }

  /** The test at the end of dtls1_hm_fragment_mark. */
  predicate Complete(mask: seq<bv8>, msgLen: nat)
    requires |mask| == MaskLength(msgLen)
  {
    && (forall j | 0 <= j < msgLen / 8 :: mask[j] == 0xff)
    && (msgLen % 8 != 0 ==> mask[msgLen / 8] == BitRange(0, msgLen % 8))
  }

  /** It is passed exactly when every byte of the message has been received. */
  lemma CompleteMeansAllMarked(mask: seq<bv8>, msgLen: nat)
    requires Fits(mask, msgLen)
    ensures Complete(mask, msgLen) <==> forall i: nat | i < msgLen :: Marked(mask, i)
  {
    assert BitRange(0, 8) == 0xff;
    if Complete(mask, msgLen) {
      forall i: nat | i < msgLen ensures Marked(mask, i) {
        BitRangeBits(0, 8, i % 8);
        BitRangeBits(0, msgLen % 8, i % 8);
      }
    }
    if forall i: nat | i < msgLen :: Marked(mask, i) {
      forall j | 0 <= j < msgLen / 8 ensures mask[j] == 0xff {
        AllBitsOfByte(mask, msgLen, j, 8);
      }
      if msgLen % 8 != 0 {
        AllBitsOfByte(mask, msgLen, msgLen / 8, msgLen % 8);
      }
    }
  }

  lemma AllBitsOfByte(mask: seq<bv8>, msgLen: nat, j: nat, n: nat)
    requires Fits(mask, msgLen) && (forall i: nat | i < msgLen :: Marked(mask, i))
    requires j < |mask| && n <= 8 && (n == 8 ==> 8 * j + 8 <= msgLen) && (n < 8 ==> 8 * j + n == msgLen)
    ensures mask[j] == BitRange(0, n)
  {
    forall k: nat | k < 8 ensures Bit(mask[j], k) == Bit(BitRange(0, n), k) {
      BitRangeBits(0, n, k);
      var i := 8 * j + k;
      assert i / 8 == j && i % 8 == k;
      assert Marked(mask, i) == (i < msgLen);
    }
    SameBits(mask[j], BitRange(0, n));
  }

  // ---------------------------------------------------------------- any number of marks

  datatype Range = Range(start: nat, end: nat)

  /** What a caller of dtls1_hm_fragment_mark must pass: a range of the message, inside the mask. */
  predicate InBounds(r: Range, msgLen: nat) {
    r.start <= r.end <= msgLen && r.start < 8 * MaskLength(msgLen)
  }

  /** The mask after some ranges, or None once the message was complete and the mask thrown away. */
  function MaskAfter(msgLen: nat, ranges: seq<Range>): (r: Option<seq<bv8>>)
    requires forall i | 0 <= i < |ranges| :: InBounds(ranges[i], msgLen)
    ensures r.Some? ==> |r.value| == MaskLength(msgLen)
  {
    if ranges == [] then Some(seq(MaskLength(msgLen), _ => 0))
    else
      var r := ranges[|ranges| - 1];
      assert InBounds(r, msgLen);
      match MaskAfter(msgLen, ranges[..|ranges| - 1])
      case None => None
      case Some(mask) =>
        var mask1 := MarkRange(mask, r.start, r.end);
        if Complete(mask1, msgLen) then None else Some(mask1)
  }

  ghost predicate Covered(ranges: seq<Range>, i: nat) {
    exists k :: 0 <= k < |ranges| && ranges[k].start <= i < ranges[k].end
  }

  lemma CoveredStep(ranges: seq<Range>, i: nat)
    requires ranges != []
    ensures var n := |ranges| - 1;
            Covered(ranges, i) == (Covered(ranges[..n], i) || ranges[n].start <= i < ranges[n].end)
  {
    var n := |ranges| - 1;
    if Covered(ranges[..n], i) {
      var k :| 0 <= k < n && ranges[..n][k].start <= i < ranges[..n][k].end;
      assert ranges[k].start <= i < ranges[k].end;
    }
    if Covered(ranges, i) {
      var k :| 0 <= k < |ranges| && ranges[k].start <= i < ranges[k].end;
      assert k < n ==> ranges[..n][k] == ranges[k];
    }
  }

  lemma BlankFits(msgLen: nat)
    ensures Fits(seq(MaskLength(msgLen), _ => 0), msgLen)
    ensures var blank: seq<bv8> := seq(MaskLength(msgLen), _ => 0);
            forall i: nat | i < 8 * |blank| :: !Marked(blank, i)
  {
    forall k: nat | k < 8 ensures !Bit(0, k) {
      BitRangeBits(0, 0, k);
      assert BitRange(0, 0) == 0;
    }
  }

  /**
    After any in-bounds marks of a non-empty message the mask is gone exactly when the ranges
    together cover the message; until then it shows what is covered, and nothing beyond the message.
   */
  lemma {:induction false} MaskTellsCoverage(msgLen: nat, ranges: seq<Range>)
    requires msgLen > 0 && forall i | 0 <= i < |ranges| :: InBounds(ranges[i], msgLen)
    ensures var r := MaskAfter(msgLen, ranges);
            && (r.None? <==> forall i: nat | i < msgLen :: Covered(ranges, i))
            && (r.Some? ==> Fits(r.value, msgLen)
                            && forall i: nat | i < msgLen :: Marked(r.value, i) == Covered(ranges, i))
  {
    hide Marked, MarkRange, Complete;
    if ranges == [] {
      BlankFits(msgLen);
      assert !Covered(ranges, 0);
    } else {
      var n := |ranges| - 1;
      var before, r := ranges[..n], ranges[n];
      MaskTellsCoverage(msgLen, before);
      forall i: nat ensures Covered(ranges, i) == (Covered(before, i) || r.start <= i < r.end) {
        CoveredStep(ranges, i);
      }
      match MaskAfter(msgLen, before) {
        case None =>
        case Some(mask) => MarkKeepsFit(mask, msgLen, r);
      }
    }
  }

  lemma MarkKeepsFit(mask: seq<bv8>, msgLen: nat, r: Range)
    requires Fits(mask, msgLen) && InBounds(r, msgLen)
    ensures var mask1 := MarkRange(mask, r.start, r.end);
            && Fits(mask1, msgLen)
            && (forall i: nat | i < msgLen :: Marked(mask1, i) == (Marked(mask, i) || r.start <= i < r.end))
            && (Complete(mask1, msgLen) <==> forall i: nat | i < msgLen :: Marked(mask1, i))
  {
    hide Marked, MarkRange, Complete;
    var mask1 := MarkRange(mask, r.start, r.end);
    forall i: nat | i < 8 * |mask| ensures Marked(mask1, i) == (Marked(mask, i) || r.start <= i < r.end) {
      MarkRangeMarks(mask, r.start, r.end, i);
    }
    CompleteMeansAllMarked(mask1, msgLen);
  }

  // ---------------------------------------------------------------- in place

  /** The part of an hm_fragment that marking changes. */
  class MaskBuffer {
    const msgLen: nat
    var reassembly: array?<bv8>

    ghost predicate Valid()
      reads this, reassembly
    {
      reassembly != null ==> msgLen > 0 && reassembly.Length == MaskLength(msgLen)
    }

    constructor (msgLen: nat)
      ensures this.msgLen == msgLen && Valid()
      ensures msgLen == 0 ==> reassembly == null
      ensures msgLen > 0 ==> reassembly != null && Some(reassembly[..]) == MaskAfter(msgLen, [])
      ensures reassembly != null ==> fresh(reassembly)
    {
      this.msgLen := msgLen;
      if msgLen > 0 {
        reassembly := new bv8[(msgLen + 7) / 8](_ => 0);
      } else {
        reassembly := null;
      }
      new;
      assert msgLen > 0 ==> reassembly[..] == seq(MaskLength(msgLen), _ => 0);
    }

    /** dtls1_hm_fragment_mark */
    method Mark(start: nat, end: nat)
      requires Valid() && reassembly != null && InBounds(Range(start, end), msgLen)
      modifies this, reassembly
      ensures Valid()
      ensures var mask := MarkRange(old(reassembly[..]), start, end);
              if Complete(mask, msgLen) then reassembly == null
              else reassembly == old(reassembly) && reassembly[..] == mask
    {
      SetBits(start, end);
      for i := 0 to msgLen / 8
        invariant forall j | 0 <= j < i :: reassembly[j] == 0xff
      {
        if reassembly[i] != 0xff {
          return;
        }
      }
      if msgLen % 8 != 0 && reassembly[msgLen / 8] != BitRange(0, msgLen % 8) {
        return;
      }
      reassembly := null;
    }

    /** Its first half: the bytes of the mask between start and end. */
    method SetBits(start: nat, end: nat)
      requires Valid() && reassembly != null && InBounds(Range(start, end), msgLen)
      modifies reassembly
      ensures reassembly[..] == MarkRange(old(reassembly[..]), start, end)
    {
      hide Or, BitRange;
      var first, last := start / 8, end / 8;
      if first == last {
        reassembly[first] := Or(reassembly[first], BitRange(start % 8, end % 8));
      } else {
        reassembly[first] := Or(reassembly[first], BitRange(start % 8, 8));
        for i := first + 1 to last
          invariant forall j | 0 <= j < reassembly.Length && j != first && !(first < j < i) ::
              reassembly[j] == old(reassembly[j])
          invariant reassembly[first] == Or(old(reassembly[first]), BitRange(start % 8, 8))
          invariant forall j | first < j < i :: reassembly[j] == 0xff
        {
          reassembly[i] := 0xff;
        }
        if end % 8 != 0 {
          reassembly[last] := Or(reassembly[last], BitRange(0, end % 8));
        }
      }
    }
  }
}
