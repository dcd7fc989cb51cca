/**
  What the word operations of SHA-1 come to as numbers (section 3 of FIPS PUB 180-1): the circular
  shift to the left, and the length of a message as two words.
 */
module Sha1Words {
  import opened Bytes
  import opened Sha1Spec

  const WORD: nat := 0x1_0000_0000

  function Value(x: bv32): (v: nat)
    ensures v < WORD
  {
    x as nat
  }

  function Pow2(k: nat): nat { if k == 0 then 1 else 2 * Pow2(k - 1) }

  lemma {:induction false} Pow2Adds(i: nat, j: nat)
    ensures Pow2(i + j) == Pow2(i) * Pow2(j)
  {
    if j > 0 {
      Pow2Adds(i, j - 1);
    }
  }

  lemma Pow2Of32()
    ensures Pow2(32) == WORD
  {
    assert Pow2(4) == 16;
    Pow2Adds(4, 4);
    Pow2Adds(8, 8);
    Pow2Adds(16, 16);
  }

  /** One place: what falls out on the left comes in on the right. */
  lemma RotateOne(x: bv32)
    ensures Value(Rotate(x, 1)) == if Value(x) < 0x8000_0000 then 2 * Value(x) else 2 * (Value(x) - 0x8000_0000) + 1
  {
    IsHigh(x);
    if Value(x) < 0x8000_0000 {
      DoubleLow(x);
      LowFallsOut(x);
    } else {
      DropHigh(x);
      HighFallsOut(x);
      DoubleLow(x - 0x8000_0000);
    }
  }

  lemma DoubleLow(x: bv32)
    requires Value(x) < 0x8000_0000
    ensures x < 0x8000_0000 && Value(x << 1) == 2 * Value(x) && Value((x << 1) + 1) == 2 * Value(x) + 1
  {
  }

  lemma LowFallsOut(x: bv32)
    requires x < 0x8000_0000
    ensures Rotate(x, 1) == x << 1
  {
  }

  lemma DropHigh(x: bv32)
    requires x >= 0x8000_0000
    ensures Value(x - 0x8000_0000) == Value(x) - 0x8000_0000
  {
  }

  lemma IsHigh(x: bv32)
    ensures Value(x) >= 0x8000_0000 <==> x >= 0x8000_0000
  {
    if x < 0x8000_0000 {
      DropHigh(x + 0x8000_0000);
      SetHigh(x);
      assert Value(x + 0x8000_0000) < WORD;
    } else {
      DropHigh(x);
    }
  }

  lemma SetHigh(x: bv32)
    requires x < 0x8000_0000
    ensures x + 0x8000_0000 >= 0x8000_0000 && x + 0x8000_0000 - 0x8000_0000 == x
  {
  }

  lemma HighFallsOut(x: bv32)
    requires x >= 0x8000_0000
    ensures Rotate(x, 1) == ((x - 0x8000_0000) << 1) + 1
  {
  }

  function Left(x: bv32, n: bv6): bv32
    requires n < 32
  {
    x << n
  }

  function Right(x: bv32, n: bv6): bv32
    requires n < 32
  {
    x >> n
  }

  function Or(a: bv32, b: bv32): bv32 { a | b }

  lemma RotateIs(x: bv32, n: bv6)
    requires 0 < n < 32
    ensures Rotate(x, n) == Or(Left(x, n), Right(x, 32 - n))
  {
  }

  lemma LeftOneMore(x: bv32, n: bv6)
    requires 1 < n < 32
    ensures Left(Left(x, n - 1), 1) == Left(x, n)
  {
  }

  lemma RightOneMore(x: bv32, n: bv6)
    requires 1 < n < 32
    ensures Or(Right(Left(x, n - 1), 31), Left(Right(x, 33 - n), 1)) == Right(x, 32 - n) && Right(Right(x, 33 - n), 31) == 0
  {
  }

  lemma RotateBoth(a: bv32, b: bv32)
    requires Right(b, 31) == 0
    ensures Rotate(Or(a, b), 1) == Or(Left(a, 1), Or(Right(a, 31), Left(b, 1)))
  {
  }

  lemma RotateOneMore(x: bv32, n: bv6)
    requires 1 < n < 32
    ensures Rotate(x, n) == Rotate(Rotate(x, n - 1), 1)
  {
    assert 32 - (n - 1) == 33 - n;
    hide Left, Right, Or, Rotate;
    RotateIs(x, n);
    RotateIs(x, n - 1);
    LeftOneMore(x, n);
    RightOneMore(x, n);
    RotateBoth(Left(x, n - 1), Right(x, 33 - n));
  }

  function Count(n: bv6): nat { n as nat }

  lemma Places(n: bv6)
    requires 0 < n < 32
    ensures 0 < Count(n) < 32 && Count(n - 1) == Count(n) - 1 && (n == 1 <==> Count(n) == 1)
  {
  }

  /** A place more moves the top bit of the low part r to the end of the high part q. */
  lemma OnePlace(r: nat, q: nat, p: nat, k: nat, x: nat) returns (q1: nat, r1: nat)
    requires p > 0 && k > 0 && p * k == 0x8000_0000 && r < 2 * p && q < k && x == q * (2 * p) + r
    ensures x == q1 * p + r1 && r1 < p && q1 < 2 * k
    ensures r1 * (2 * k) + q1
            == if r * k + q < 0x8000_0000 then 2 * (r * k + q) else 2 * (r * k + q - 0x8000_0000) + 1
  {
    var bit := if r < p then 0 else 1;
    q1, r1 := 2 * q + bit, r - bit * p;
    Split(q, bit, p, k, r1);
    Times(r1, k, p);
  }

  lemma Split(q: nat, bit: nat, p: nat, k: nat, r1: nat)
    ensures q * (2 * p) + (r1 + bit * p) == (2 * q + bit) * p + r1
    ensures (r1 + bit * p) * k == r1 * k + bit * (p * k)
    ensures r1 * (2 * k) == 2 * (r1 * k)
  {
  }

  lemma Times(r: nat, k: nat, p: nat)
    requires r < p
    ensures r * k + k <= p * k
  {
    assert (r + 1) * k <= p * k;
  }

  /** The high part q of x comes in below its low part r. */
  lemma {:induction false} RotateSwaps(x: bv32, n: bv6, m: nat) returns (q: nat, r: nat)
    requires 0 < n < 32 && 0 < m < 32 && Count(n) == m
    ensures Value(x) == q * Pow2(32 - m) + r && r < Pow2(32 - m) && q < Pow2(m)
    ensures Value(Rotate(x, n)) == r * Pow2(m) + q
    decreases m
  {
    hide Rotate, Value, Pow2, Count;
    Places(n);
    HalfWord(m);
    if m == 1 {
      RotateOne(x);
      q, r := OnePlace(Value(x), 0, Pow2(32 - m), Pow2(m - 1), Value(x));
    } else {
      q, r := RotateSwaps(x, n - 1, m - 1);
      RotateOneMore(x, n);
      RotateOne(Rotate(x, n - 1));
      q, r := OnePlace(r, q, Pow2(32 - m), Pow2(m - 1), Value(x));
    }
  }

  lemma HalfWord(m: nat)
    requires 0 < m < 32
    ensures Pow2(m - 1) * Pow2(32 - m) == 0x8000_0000 && Pow2(m - 1) > 0 && Pow2(32 - m) > 0
    ensures Pow2(m) == 2 * Pow2(m - 1) && Pow2(33 - m) == 2 * Pow2(32 - m) && Pow2(0) == 1
  {
    Pow2Of32();
    Pow2Adds(m - 1, 32 - m);
    Pow2Positive(m - 1);
    Pow2Positive(32 - m);
  }

  lemma {:induction false} Pow2Positive(k: nat)
    ensures Pow2(k) > 0
  {
    if k > 0 {
      Pow2Positive(k - 1);
    }
  }

  /** A circular shift to the left multiplies by 2^n, and what exceeds the word comes in from below. */
  lemma RotateIsNumber(x: bv32, n: bv6)
    requires 0 < n < 32
    ensures 0 < Count(n) < 32 && Pow2(32 - Count(n)) > 0
    ensures Value(Rotate(x, n)) == Value(x) * Pow2(Count(n)) % WORD + Value(x) / Pow2(32 - Count(n))
  {
    hide Rotate, Value, Pow2, Count;
    Places(n);
    var m := Count(n);
    var q, r := RotateSwaps(x, n, m);
    HalfWord(m);
    Pow2Of32();
    Pow2Adds(m, 32 - m);
    Quotients(Value(x), q, r, Pow2(m), Pow2(32 - m));
  }

  lemma Quotients(x: nat, q: nat, r: nat, k: nat, p: nat)
    requires k * p == WORD && x == q * p + r && r < p && q < k
    ensures x * k % WORD == r * k && x / p == q
  {
    assert x * k == q * WORD + r * k by {
      assert (q * p + r) * k == q * (p * k) + r * k;
    }
    assert r * k < WORD by {
      assert (r + 1) * k <= p * k;
    }
    Remainder(x * k, q, r * k);
    DivideBy(x, q, r, p);
  }

  lemma Remainder(y: nat, q: nat, s: nat)
    requires y == q * WORD + s && s < WORD
    ensures y % WORD == s
  {
  }

  lemma DivideBy(x: nat, q: nat, r: nat, p: nat)
    requires x == q * p + r && r < p
    ensures x / p == q
  {
    var d := x / p;
    if d > q {
      Times(q, p, d);
    } else if d < q {
      Times(d, p, q);
    }
  }

  // ---------------------------------------------------------------- octets

  lemma NumberGrows(b: seq<Byte>, x: Byte)
    ensures Number(b + [x]) == Number(b) * 0x100 + x
  {
    assert (b + [x])[..|b|] == b;
  }

  lemma NumberOfFour(high: nat, b0: Byte, b1: Byte, b2: Byte, b3: Byte, a: seq<Byte>)
    requires Number(a) == high
    ensures Number(a + [b0, b1, b2, b3])
            == high * WORD + (b0 as nat) * 0x100_0000 + (b1 as nat) * 0x1_0000 + (b2 as nat) * 0x100 + b3
  {
    hide Number;
    NumberGrows(a, b0);
    NumberGrows(a + [b0], b1);
    NumberGrows(a + [b0] + [b1], b2);
    NumberGrows(a + [b0] + [b1] + [b2], b3);
    assert a + [b0, b1, b2, b3] == a + [b0] + [b1] + [b2] + [b3];
  }

  /** The two-word representation of the length is the length, high word first. */
  lemma LengthIsNumber(bits: nat)
    requires bits < LENGTH_LIMIT
    ensures Number(LengthField(bits)) == bits
  {
    var high, low := bits / WORD, bits % WORD;
    FourOctets(high);
    FourOctets(low);
    var a, b := Octets32(high), Octets32(low);
    assert a == [] + [a[0], a[1], a[2], a[3]] && b == [b[0], b[1], b[2], b[3]];
    NumberOfFour(0, a[0], a[1], a[2], a[3], []);
    NumberOfFour(high, b[0], b[1], b[2], b[3], a);
  }
}
