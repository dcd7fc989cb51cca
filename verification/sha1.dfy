/**
  The streaming SHA-1 of 3rdparty/sha1/sha1.c: a context with a 64-octet buffer and a two-word bit
  counter, fed in pieces of any size, computes the digest of Sha1Spec.
 */
module Sha1 {
  import opened Bytes
  import opened Sha1Spec

  const SUCCESS: nat := 0
  const NULL_PARAMETER: nat := 1  // shaNull
  const TOO_LONG: nat := 1        // what SHA1Input stores on overflow
  const STATE_ERROR: nat := 3     // shaStateError
  const WORD: nat := 0x1_0000_0000

  function Min(a: nat, b: nat): nat { if a <= b then a else b }

  /** The longest message the counter can hold is one octet shorter than this. */
  const MOST: nat := LENGTH_LIMIT / 8

  lemma FoldNextBlock(m: seq<Byte>, b: Block)
    requires |m| % 64 == 0
    ensures Fold(START, m + b) == Compress(Fold(START, m), b)
  {
    FoldInParts(START, m, b);
    FoldOne(Fold(START, m), b);
  }

  lemma NextIndex(n: nat)
    ensures (n + 1) % 64 == if n % 64 == 63 then 0 else n % 64 + 1
  {
  }

  /** One octet more of message, of which i wait in the buffer. */
  lemma TailGrows(m: seq<Byte>, x: Byte, i: nat, base: seq<Byte>, part: seq<Byte>)
    requires i <= |m| && base == m[..|m| - i] && part == m[|m| - i..]
    ensures var m1, i1 := m + [x], i + 1;
            && m1[|m1| - i1..] == part + [x] && m1[..|m1| - i1] == base && m1 == base + (part + [x])
  {
  }

  lemma ZerosJoin(a: nat, b: nat)
    ensures Zeros(a) + Zeros(b) == Zeros(a + b)
  {
  }

  lemma GapOf(n: nat)
    ensures Gap(n) == if n % 64 > 55 then 119 - n % 64 else 55 - n % 64
  {
  }

  /** The padded message, cut where the buffer starts: one more block, or two. */
  lemma PadByBlocks(m: seq<Byte>)
    ensures var i := |m| % 64;
            var base, part := m[..|m| - i], m[|m| - i..];
            Pad(m) == if i > 55
                      then base + (part + [0x80] + Zeros(63 - i)) + (Zeros(56) + LengthField(8 * |m|))
                      else base + (part + [0x80] + Zeros(55 - i) + LengthField(8 * |m|))
  {
    hide LengthField, Gap;
    var i := |m| % 64;
    GapOf(|m|);
    if i > 55 {
      ZerosJoin(63 - i, 56);
    }
  }

  lemma RoundUnfolds(h: Hash, b: Block, t: nat, f: bv32, k: bv32)
    requires var x := Rounds(h, b, t); f == F(t, x.b, x.c, x.d) && k == K(t)
    ensures var x := Rounds(h, b, t);
            Rounds(h, b, t + 1) == Hash(Plus(Plus(Plus(Plus(Rotate(x.a, 5), f), x.e), W(b, t)), k), x.a, Rotate(x.b, 30), x.c, x.d)
  {
    hide Rotate, F, K, W, Plus;
  }

  lemma WordOfBlock(b: Block, t: nat)
    requires t < 16
    ensures W(b, t) == Word(b[t * 4], b[t * 4 + 1], b[t * 4 + 2], b[t * 4 + 3])
  {
  }

  lemma WordOfWords(b: Block, t: nat)
    requires t >= 16
    ensures W(b, t) == Rotate(Xor(W(b, t - 3), W(b, t - 8), W(b, t - 14), W(b, t - 16)), 1)
  {
    hide Rotate, Xor;
  }

  lemma FiveFours(a: seq<Byte>, b: seq<Byte>, c: seq<Byte>, d: seq<Byte>, e: seq<Byte>, i: nat)
    requires |a| == |b| == |c| == |d| == |e| == 4 && i < 20
    ensures (a + b + c + d + e)[i] == [a, b, c, d, e][i / 4][i % 4]
  {
    var s := a + b + c + d + e;
    var k := i / 4;
    assert i == 4 * k + i % 4;
    if k == 0 { assert s[i] == a[i]; }
    else if k == 1 { assert s[i] == b[i - 4]; }
    else if k == 2 { assert s[i] == c[i - 8]; }
    else if k == 3 { assert s[i] == d[i - 12]; }
    else { assert s[i] == e[i - 16]; }
  }

  lemma DigestAt(h: Hash, i: nat)
    requires i < 20
    ensures Digest(h)[i] == OctetAt([h.a, h.b, h.c, h.d, h.e][i / 4], i % 4)
  {
    hide OctetAt, Octets;
    FiveFours(Octets(h.a), Octets(h.b), Octets(h.c), Octets(h.d), Octets(h.e), i);
    OctetsAt([h.a, h.b, h.c, h.d, h.e][i / 4], i % 4);
    assert [Octets(h.a), Octets(h.b), Octets(h.c), Octets(h.d), Octets(h.e)][i / 4]
        == Octets([h.a, h.b, h.c, h.d, h.e][i / 4]);
  }

  lemma OctetsAt(w: bv32, k: nat)
    requires k < 4
    ensures Octets(w)[k] == OctetAt(w, k)
  {
    hide OctetAt;
  }

  class Context {
    const intermediateHash: array<bv32>
    const messageBlock: array<Byte>
    var lengthLow: nat
    var lengthHigh: nat
    var index: nat
    var computed: bool
    var corrupted: nat
    ghost var message: seq<Byte>  // everything SHA1Input has taken

    constructor ()
      ensures Valid() && Fresh() && fresh(intermediateHash) && fresh(messageBlock)
    {
      intermediateHash := new bv32[5];
      messageBlock := new Byte[64];
      new;
      Reset();
    }

    ghost function HashValue(): Hash
      reads intermediateHash
      requires intermediateHash.Length == 5
    {
      Hash(intermediateHash[0], intermediateHash[1], intermediateHash[2], intermediateHash[3], intermediateHash[4])
    }

    predicate Shaped()
      reads this
    {
      intermediateHash.Length == 5 && messageBlock.Length == 64
    }

    /** The hash is that of the whole blocks, the buffer holds the rest, the counter counts the bits. */
    ghost predicate Buffered()
      reads this, intermediateHash, messageBlock
    {
      && Shaped()
      && index == |message| % 64
      && messageBlock[..index] == message[|message| - index..]
      && HashValue() == Fold(START, message[..|message| - index])
    }

    ghost predicate Counted()
      reads this
    {
      lengthLow < WORD && lengthHigh < WORD && lengthHigh * WORD + lengthLow == 8 * |message|
    }

    ghost predicate Valid()
      reads this, intermediateHash, messageBlock
    {
      && Shaped()
      && corrupted in {SUCCESS, TOO_LONG, STATE_ERROR}
      && |message| <= MOST
      && (computed ==> HashValue() == Fold(START, Pad(message)) && |message| < MOST && corrupted != TOO_LONG)
      && (!computed && corrupted == SUCCESS ==> Buffered() && Counted())
      && (corrupted == TOO_LONG <==> |message| == MOST)
      && (corrupted == STATE_ERROR ==> computed)
    }

    predicate Fresh()
      reads this
    {
      !computed && corrupted == SUCCESS
    }

    /** Octets outside the context. */
    predicate Apart(octets: array<Byte>)
      reads this
    {
      var o: object := octets;
      o != intermediateHash && o != messageBlock
    }

    /** SHA1Reset */
    method Reset()
      requires Shaped()
      modifies this, intermediateHash
      ensures Valid() && Fresh() && message == []
    {
      lengthLow, lengthHigh, index := 0, 0, 0;
      intermediateHash[0] := 0x67452301;
      intermediateHash[1] := 0xEFCDAB89;
      intermediateHash[2] := 0x98BADCFE;
      intermediateHash[3] := 0x10325476;
      intermediateHash[4] := 0xC3D2E1F0;
      computed, corrupted := false, 0;
      message := [];
    }

    /** The loop over the first sixteen and the other sixty-four words of W. */
    method Schedule() returns (w: array<bv32>)
      requires Shaped()
      ensures fresh(w) && w.Length == 80 && forall t | 0 <= t < 80 :: w[t] == W(messageBlock[..], t)
    {
      hide Word, Rotate, W, Xor;
      w := new bv32[80];
      ghost var b: Block := messageBlock[..];
      var t := 0;
      while t < 16
        invariant 0 <= t <= 16 && b == messageBlock[..]
        invariant forall i | 0 <= i < t :: w[i] == W(b, i)
      {
        WordOfBlock(b, t);
        w[t] := Word(messageBlock[t * 4], messageBlock[t * 4 + 1], messageBlock[t * 4 + 2], messageBlock[t * 4 + 3]);
        t := t + 1;
      }
      while t < 80
        invariant 16 <= t <= 80 && b == messageBlock[..]
        invariant forall i | 0 <= i < t :: w[i] == W(b, i)
      {
        WordOfWords(b, t);
        w[t] := Rotate(Xor(w[t - 3], w[t - 8], w[t - 14], w[t - 16]), 1);
        t := t + 1;
      }
    }

    /** The four loops of twenty rounds. */
    method Twist(w: array<bv32>, ghost block: Block, h: Hash) returns (r: Hash)
      requires w.Length == 80 && forall t | 0 <= t < 80 :: w[t] == W(block, t)
      ensures r == Rounds(h, block, 80)
    {
      hide W, Rotate, Rounds, Plus;
      var a, b, c, d, e := h.a, h.b, h.c, h.d, h.e;
      var t := 0;
      NoRounds(h, block);
      while t < 20
        invariant 0 <= t <= 20 && Hash(a, b, c, d, e) == Rounds(h, block, t)
      {
        RoundUnfolds(h, block, t, (b & c) | ((!b) & d), 0x5A827999);
        var temp := Plus(Plus(Plus(Plus(Rotate(a, 5), (b & c) | ((!b) & d)), e), w[t]), 0x5A827999);
        e, d, c, b, a := d, c, Rotate(b, 30), a, temp;
        t := t + 1;
      }
      while t < 40
        invariant 20 <= t <= 40 && Hash(a, b, c, d, e) == Rounds(h, block, t)
      {
        RoundUnfolds(h, block, t, b ^ c ^ d, 0x6ED9EBA1);
        var temp := Plus(Plus(Plus(Plus(Rotate(a, 5), b ^ c ^ d), e), w[t]), 0x6ED9EBA1);
        e, d, c, b, a := d, c, Rotate(b, 30), a, temp;
        t := t + 1;
      }
      while t < 60
        invariant 40 <= t <= 60 && Hash(a, b, c, d, e) == Rounds(h, block, t)
      {
        RoundUnfolds(h, block, t, (b & c) | (b & d) | (c & d), 0x8F1BBCDC);
        var temp := Plus(Plus(Plus(Plus(Rotate(a, 5), (b & c) | (b & d) | (c & d)), e), w[t]), 0x8F1BBCDC);
        e, d, c, b, a := d, c, Rotate(b, 30), a, temp;
        t := t + 1;
      }
      while t < 80
        invariant 60 <= t <= 80 && Hash(a, b, c, d, e) == Rounds(h, block, t)
      {
        RoundUnfolds(h, block, t, b ^ c ^ d, 0xCA62C1D6);
        var temp := Plus(Plus(Plus(Plus(Rotate(a, 5), b ^ c ^ d), e), w[t]), 0xCA62C1D6);
        e, d, c, b, a := d, c, Rotate(b, 30), a, temp;
        t := t + 1;
      }
      r := Hash(a, b, c, d, e);
    }

    lemma NoRounds(h: Hash, b: Block)
      ensures Rounds(h, b, 0) == h
    {
    }

    /** The sums at the end of a block. */
    method AddIn(x: Hash)
      requires intermediateHash.Length == 5
      modifies intermediateHash
      ensures HashValue() == Sum(old(HashValue()), x)
    {
      hide Plus;
      intermediateHash[0] := Plus(intermediateHash[0], x.a);
      intermediateHash[1] := Plus(intermediateHash[1], x.b);
      intermediateHash[2] := Plus(intermediateHash[2], x.c);
      intermediateHash[3] := Plus(intermediateHash[3], x.d);
      intermediateHash[4] := Plus(intermediateHash[4], x.e);
    }

    /** SHA1ProcessMessageBlock */
    method ProcessMessageBlock()
      requires Shaped()
      modifies intermediateHash, this`index
      ensures HashValue() == Compress(old(HashValue()), old(messageBlock[..]))
      ensures index == 0
    {
      hide W, Rounds, Plus, Sum, Rotate, F, Word;
      var w := Schedule();
      var h := Hash(intermediateHash[0], intermediateHash[1], intermediateHash[2], intermediateHash[3], intermediateHash[4]);
      var x := Twist(w, messageBlock[..], h);
      AddIn(x);
      index := 0;
    }

    method Zero(upTo: nat)
      requires Shaped() && index <= upTo <= 64
      modifies messageBlock, this`index
      ensures index == upTo
      ensures messageBlock[..upTo] == old(messageBlock[..index]) + Zeros(upTo - old(index))
    {
      ghost var i := index;
      while index < upTo
        invariant i <= index <= upTo
        invariant messageBlock[..index] == old(messageBlock[..index]) + Zeros(index - i)
      {
        messageBlock[index] := 0;
        index := index + 1;
      }
    }

    /** Message_Block[Message_Block_Index++] = x */
    method Put(x: Byte)
      requires Shaped() && index < 64
      modifies messageBlock, this`index
      ensures index == old(index) + 1 && messageBlock[..index] == old(messageBlock[..index]) + [x]
    {
      messageBlock[index] := x;
      index := index + 1;
    }

    /** The eight octets of the length at the end of the block. */
    method PutLength()
      requires Shaped() && Counted() && index == 56 && |message| < MOST
      modifies messageBlock
      ensures messageBlock[..] == old(messageBlock[..56]) + LengthField(8 * |message|)
    {
      WordsOfLength(lengthHigh, lengthLow, 8 * |message|);
      messageBlock[56] := lengthHigh / 0x100_0000 % 0x100;
      messageBlock[57] := lengthHigh / 0x1_0000 % 0x100;
      messageBlock[58] := lengthHigh / 0x100 % 0x100;
      messageBlock[59] := lengthHigh % 0x100;
      messageBlock[60] := lengthLow / 0x100_0000 % 0x100;
      messageBlock[61] := lengthLow / 0x1_0000 % 0x100;
      messageBlock[62] := lengthLow / 0x100 % 0x100;
      messageBlock[63] := lengthLow % 0x100;
      assert messageBlock[56..60] == Octets32(lengthHigh) && messageBlock[60..] == Octets32(lengthLow);
    }

    lemma WordsOfLength(high: nat, low: nat, bits: nat)
      requires low < WORD && high * WORD + low == bits
      ensures bits / WORD == high && bits % WORD == low
    {
    }

    /** 0x80 and zeros, up to the end of the block or up to its length field. */
    method PadUpTo(upTo: nat)
      requires Shaped() && index < upTo <= 64
      modifies this`index, messageBlock
      ensures index == upTo
      ensures messageBlock[..upTo] == old(messageBlock[..index]) + [0x80] + Zeros(upTo - 1 - old(index))
    {
      Put(0x80);
      Zero(upTo);
    }

    /** The block is too full to hold the length: it is padded, processed, and a second one follows. */
    method PadTwoBlocks()
      requires Buffered() && Counted() && |message| < MOST && index > 55
      modifies this`index, intermediateHash, messageBlock
      ensures HashValue() == Fold(START, Pad(message))
    {
      hide Pad, Fold, LengthField, Compress, Sum, Zeros;
      PadByBlocks(message);
      ghost var i := index;
      ghost var base, part := message[..|message| - i], messageBlock[..i];
      ghost var first, second := part + [0x80] + Zeros(63 - i), Zeros(56) + LengthField(8 * |message|);
      PadUpTo(64);
      assert messageBlock[..] == first;
      FoldNextBlock(base, first);
      ProcessMessageBlock();
      LastBlock();
      FoldNextBlock(base + first, second);
    }

    /** A block of zeros and the length. */
    method LastBlock()
      requires Shaped() && Counted() && |message| < MOST && index == 0
      modifies this`index, intermediateHash, messageBlock
      ensures HashValue() == Compress(old(HashValue()), Zeros(56) + LengthField(8 * |message|))
    {
      hide LengthField, Compress, Sum, Zeros;
      Zero(56);
      PutLength();
      assert messageBlock[..] == Zeros(56) + LengthField(8 * |message|);
      ProcessMessageBlock();
    }

    method PadOneBlock()
      requires Buffered() && Counted() && |message| < MOST && index <= 55
      modifies this`index, intermediateHash, messageBlock
      ensures HashValue() == Fold(START, Pad(message))
    {
      hide Pad, Fold, LengthField, Compress, Sum, Zeros;
      PadByBlocks(message);
      ghost var i := index;
      ghost var base, part := message[..|message| - i], messageBlock[..i];
      PadUpTo(56);
      PutLength();
      FoldNextBlock(base, messageBlock[..]);
      ProcessMessageBlock();
    }

    /** SHA1PadMessage */
    method PadMessage()
      requires Buffered() && Counted() && |message| < MOST
      modifies this`index, intermediateHash, messageBlock
      ensures HashValue() == Fold(START, Pad(message))
    {
      if index > 55 {
        PadTwoBlocks();
      } else {
        PadOneBlock();
      }
    }

    /** The message gets one octet longer, and so does its count. */
    method Count(x: Byte)
      requires Counted() && |message| < MOST && corrupted == SUCCESS
      modifies this`lengthLow, this`lengthHigh, this`corrupted, this`message
      ensures message == old(message) + [x]
      ensures if |message| < MOST then corrupted == SUCCESS && Counted() else corrupted == TOO_LONG
    {
      message := message + [x];
      lengthLow := (lengthLow + 8) % WORD;
      if lengthLow == 0 {
        lengthHigh := (lengthHigh + 1) % WORD;
        if lengthHigh == 0 {
          corrupted := TOO_LONG;
        }
      }
    }

    /** One turn of the loop of SHA1Input. */
    method Take(x: Byte)
      requires Valid() && Fresh()
      modifies this`index, this`lengthLow, this`lengthHigh, this`corrupted, this`message, intermediateHash, messageBlock
      ensures Valid() && message == old(message) + [x]
    {
      hide Fold, Compress, Pad, Sum, Buffered;
      ghost var base := AddOctet(x);
      if index == 64 {
        EmptyBlock(base);
      }
    }

    /** The octet goes into the buffer, which may be full then. */
    method AddOctet(x: Byte) returns (ghost base: seq<Byte>)
      requires Buffered() && Counted() && |message| < MOST && corrupted == SUCCESS
      modifies this`index, this`lengthLow, this`lengthHigh, this`corrupted, this`message, messageBlock
      ensures Shaped() && index <= 64 && message == old(message) + [x]
      ensures if |message| < MOST then corrupted == SUCCESS && Counted() else corrupted == TOO_LONG
      ensures if index < 64 then Buffered()
              else |base| % 64 == 0 && HashValue() == Fold(START, base) && message == base + messageBlock[..64]
    {
      hide Fold;
      NextIndex(|message|);
      ghost var part := messageBlock[..index];
      base := message[..|message| - index];
      TailGrows(message, x, index, base, part);
      Put(x);
      Count(x);
    }

    /** The buffer is full: its block goes into the hash. */
    method EmptyBlock(ghost base: seq<Byte>)
      requires Shaped() && index == 64 && |base| % 64 == 0
      requires HashValue() == Fold(START, base) && message == base + messageBlock[..64]
      modifies this`index, intermediateHash
      ensures Buffered()
    {
      hide Fold, Compress, Sum;
      assert messageBlock[..64] == messageBlock[..];
      FoldNextBlock(base, messageBlock[..]);
      ProcessMessageBlock();
      assert message[..|message| - index] == message && message[|message| - index..] == [];
    }

    /** The loop of SHA1Input, which an overflow of the counter ends. */
    method TakeAll(messageArray: array<Byte>, length: nat)
      requires Valid() && Fresh() && length <= messageArray.Length && Apart(messageArray)
      modifies this`index, this`lengthLow, this`lengthHigh, this`corrupted, this`message, intermediateHash, messageBlock
      ensures Valid() && !computed && corrupted != STATE_ERROR
      ensures message == old(message + messageArray[..Min(length, MOST - |message|)])
    {
      hide Fold, Pad, HashValue, Buffered, Counted;
      ghost var m := message;
      var i := 0;
      while i < length && corrupted == SUCCESS
        invariant 0 <= i <= length && Valid() && !computed && corrupted != STATE_ERROR
        invariant messageArray[..] == old(messageArray[..])
        invariant message == m + messageArray[..i]
      {
        assert messageArray[..i + 1] == messageArray[..i] + [messageArray[i]];
        Take(messageArray[i]);
        i := i + 1;
      }
    }

    /**
      SHA1Input.  Octets are taken until the counter overflows; that call still reports success,
      and every later one the corruption.
     */
    method Input(messageArray: array?<Byte>, length: nat) returns (code: nat)
      requires Valid() && (messageArray != null ==> length <= messageArray.Length && Apart(messageArray))
      modifies this`index, this`lengthLow, this`lengthHigh, this`corrupted, this`message, intermediateHash, messageBlock
      ensures Valid()
      ensures length == 0 ==> code == SUCCESS && message == old(message) && corrupted == old(corrupted)
      ensures length > 0 && messageArray == null ==> code == NULL_PARAMETER && message == old(message) && corrupted == old(corrupted)
      ensures length > 0 && messageArray != null ==>
                if computed then code == STATE_ERROR && message == old(message) && corrupted == STATE_ERROR
                else if old(corrupted) != SUCCESS then code == old(corrupted) && message == old(message)
                else code == SUCCESS && message == old(message + messageArray[..Min(length, MOST - |message|)])
    {
      if length == 0 {
        return SUCCESS;
      }
      if messageArray == null {
        return NULL_PARAMETER;
      }
      if computed {
        corrupted := STATE_ERROR;
        return STATE_ERROR;
      }
      if corrupted != SUCCESS {
        return corrupted;
      }
      TakeAll(messageArray, length);
      code := SUCCESS;
    }

    method ClearBlock()
      requires Shaped()
      modifies messageBlock
      ensures messageBlock[..] == Zeros(64)
    {
      var i := 0;
      while i < 64
        invariant 0 <= i <= 64 && messageBlock[..i] == Zeros(i)
      {
        messageBlock[i] := 0;
        i := i + 1;
      }
      assert messageBlock[..] == messageBlock[..64];
    }

    method WriteDigest(digest: array<Byte>)
      requires Shaped() && digest.Length == 20
      modifies digest
      ensures digest[..] == Digest(HashValue())
    {
      hide OctetAt, Digest;
      ghost var d := Digest(HashValue());
      var i := 0;
      while i < 20
        invariant 0 <= i <= 20 && forall j | 0 <= j < i :: digest[j] == d[j]
      {
        DigestAt(HashValue(), i);
        digest[i] := OctetAt(intermediateHash[i / 4], i % 4);
        i := i + 1;
      }
    }

    /**
      SHA1Result: the digest of everything SHA1Input has taken, the first time and every time after,
      or else the reason why there is none.
     */
    method Result(digest: array?<Byte>) returns (code: nat)
      requires Valid()
      requires digest != null ==> digest.Length == 20 && Apart(digest)
      modifies this`index, this`lengthLow, this`lengthHigh, this`computed, intermediateHash, messageBlock, digest
      ensures Valid()
      ensures digest == null ==> code == NULL_PARAMETER && computed == old(computed)
      ensures digest != null ==> code == corrupted
      ensures code == SUCCESS ==> digest != null && computed && digest[..] == Sha1Spec.Sha1(message)
    {
      if digest == null {
        return NULL_PARAMETER;
      }
      if corrupted != SUCCESS {
        return corrupted;
      }
      hide Fold, Pad, Digest;
      if !computed {
        PadMessage();
        ClearBlock();
        lengthLow, lengthHigh := 0, 0;
        computed := true;
      }
      WriteDigest(digest);
      code := SUCCESS;
    }
  }
}
