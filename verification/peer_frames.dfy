/**
  The framing of the signalling stream (src/humblenet/humblepeer/humblepeer.cpp): an eight-byte
  header with the size and the checksum of a message, then the message.  The message format and
  the checksum themselves are parameters.
 */
module PeerFrames {
  import opened Bytes
  import opened Optional

  const OFFSET: nat := 8               // PEER_OFFSET_SIZE
  const LIMIT32: nat := 0x1_0000_0000

  /** Serialiser, verifying deserialiser and checksum. */
  datatype Codec<!M> = Codec(write: M -> seq<Byte>, read: seq<Byte> -> Option<M>, crc: seq<Byte> -> nat)

  /** A message that can be read back, and whose size and checksum have thirty-two bits. */
  ghost predicate RoundTrips<M>(k: Codec<M>, m: M) {
    k.read(k.write(m)) == Some(m) && |k.write(m)| < LIMIT32 && k.crc(k.write(m)) < LIMIT32
  }

  ghost predicate AllRoundTrip<M>(k: Codec<M>, ms: seq<M>) {
    forall i | 0 <= i < |ms| :: RoundTrips(k, ms[i])
  }

  /** WriteScalar of a 32-bit value. */
  function Le32(n: nat): (r: seq<Byte>)
    ensures |r| == 4
  {
    [n % 0x100, n / 0x100 % 0x100, n / 0x1_0000 % 0x100, n / 0x100_0000 % 0x100]
  }

  /** ReadScalar of a 32-bit value. */
  function FromLe32(b: seq<Byte>): nat
    requires |b| == 4
  {
    var b0: nat, b1: nat, b2: nat, b3: nat := b[0], b[1], b[2], b[3];
    b0 + 0x100 * b1 + 0x1_0000 * b2 + 0x100_0000 * b3
  }

  lemma ScalarRoundTrip(n: nat)
    requires n < LIMIT32
    ensures FromLe32(Le32(n)) == n
  {
    var b := Le32(n);
    assert n / 0x100_0000 < 0x100;
    assert n / 0x1_0000 == 0x100 * (n / 0x100_0000) + n / 0x1_0000 % 0x100;
    assert n / 0x100 == 0x100 * (n / 0x1_0000) + n / 0x100 % 0x100;
  }

  lemma NumberOfFour(a: Byte, b: Byte, c: Byte, d: Byte)
    ensures Number([a, b, c, d]) == (((a as nat) * 0x100 + b) * 0x100 + c) * 0x100 + d
  {
    assert [a, b, c, d][..3] == [a, b, c] && [a, b, c][..2] == [a, b] && [a, b][..1] == [a] && [a][..0] == [];
    assert Number([a]) == a && Number([a, b]) == (a as nat) * 0x100 + b;
    assert Number([a, b, c]) == ((a as nat) * 0x100 + b) * 0x100 + c;
  }

  /** The least significant octet comes first. */
  lemma ScalarLayout(n: nat)
    requires n < LIMIT32
    ensures var b := Le32(n);
            Number([b[3], b[2], b[1], b[0]]) == n
  {
    var b := Le32(n);
    NumberOfFour(b[3], b[2], b[1], b[0]);
    assert n / 0x100_0000 < 0x100;
    assert n / 0x1_0000 == 0x100 * (n / 0x100_0000) + n / 0x1_0000 % 0x100;
    assert n / 0x100 == 0x100 * (n / 0x1_0000) + n / 0x100 % 0x100;
  }

  /** What sendP2PMessage hands to the connection. */
  function Frame<M>(k: Codec<M>, m: M): (r: seq<Byte>)
    ensures |r| == OFFSET + |k.write(m)|
  {
    Le32(|k.write(m)|) + Le32(k.crc(k.write(m))) + k.write(m)
  }

  /** The size of the message, its checksum, the message; both numbers with the least significant octet first. */
  lemma FrameLayout<M>(k: Codec<M>, m: M)
    requires RoundTrips(k, m)
    ensures var f := Frame(k, m);
            && Number([f[3], f[2], f[1], f[0]]) == |k.write(m)|
            && Number([f[7], f[6], f[5], f[4]]) == k.crc(k.write(m))
            && f[OFFSET..] == k.write(m)
  {
    var size, crc := Le32(|k.write(m)|), Le32(k.crc(k.write(m)));
    var f := Frame(k, m);
    ScalarLayout(|k.write(m)|);
    ScalarLayout(k.crc(k.write(m)));
    hide Le32, Number;
    assert f[..4] == size && f[4..8] == crc;
    assert forall i | 0 <= i < 4 :: f[i] == size[i] && f[i + 4] == f[4..8][i];
    assert [f[3], f[2], f[1], f[0]] == [size[3], size[2], size[1], size[0]];
    assert [f[7], f[6], f[5], f[4]] == [crc[3], crc[2], crc[1], crc[0]];
  }

  function Frames<M>(k: Codec<M>, ms: seq<M>): seq<Byte> {
    if ms == [] then [] else Frames(k, ms[..|ms| - 1]) + Frame(k, ms[|ms| - 1])
  }

  datatype Parsed<M> = Partial | Bad | Message(m: M, size: nat)

  /** One turn of parseMessage, up to the call of processFunc. */
  function ParseOne<M>(k: Codec<M>, buf: seq<Byte>): (r: Parsed<M>)
    ensures r.Message? ==> OFFSET <= r.size <= |buf|
  {
    if |buf| < OFFSET then Partial
    else
      var size := FromLe32(buf[..4]);
      if |buf| < size + OFFSET then Partial
      else
        var body := buf[OFFSET..OFFSET + size];
        if FromLe32(buf[4..OFFSET]) != k.crc(body) then Bad
        else if k.read(body).None? then Bad
        else Message(k.read(body).value, size + OFFSET)
  }

  datatype Stream<M> = Stream(messages: seq<M>, rest: seq<Byte>, bad: bool)

  /** The messages a buffer yields when every one of them is accepted, and what stays in it. */
  function ParseAll<M>(k: Codec<M>, buf: seq<Byte>): Stream<M>
    decreases |buf|
  {
    match ParseOne(k, buf)
    case Partial => Stream([], buf, false)
    case Bad => Stream([], buf, true)
    case Message(m, size) =>
      var tail := ParseAll(k, buf[size..]);
      tail.(messages := [m] + tail.messages)
  }

  /** More bytes never change a verdict that has been reached. */
  lemma {:induction false} VerdictStands<M>(k: Codec<M>, a: seq<Byte>, b: seq<Byte>)
    requires !ParseOne(k, a).Partial?
    ensures ParseOne(k, a + b) == ParseOne(k, a)
  {
    assert (a + b)[..4] == a[..4];
    assert (a + b)[4..OFFSET] == a[4..OFFSET];
    var size := FromLe32(a[..4]);
    assert (a + b)[OFFSET..OFFSET + size] == a[OFFSET..OFFSET + size];
  }

  /** However the stream is cut into RECEIVE callbacks, the same messages come out of it. */
  lemma {:induction false} CutsDoNotMatter<M>(k: Codec<M>, a: seq<Byte>, b: seq<Byte>)
    ensures var first := ParseAll(k, a);
            var whole := ParseAll(k, a + b);
            if first.bad then whole == first.(rest := first.rest + b)
            else var second := ParseAll(k, first.rest + b);
                 whole == second.(messages := first.messages + second.messages)
    decreases |a|
  {
    hide ParseOne;
    match ParseOne(k, a) {
      case Partial =>
      case Bad =>
        VerdictStands(k, a, b);
      case Message(m, size) =>
        VerdictStands(k, a, b);
        assert (a + b)[size..] == a[size..] + b;
        CutsDoNotMatter(k, a[size..], b);
        var first := ParseAll(k, a);
        if !first.bad {
          var second := ParseAll(k, first.rest + b);
          hide ParseAll;
          assert [m] + (ParseAll(k, a[size..]).messages + second.messages) == first.messages + second.messages;
        }
    }
  }

  lemma {:induction false} FrameParses<M>(k: Codec<M>, m: M, tail: seq<Byte>)
    requires RoundTrips(k, m)
    ensures ParseOne(k, Frame(k, m) + tail) == Message(m, |Frame(k, m)|)
  {
    var body := k.write(m);
    var buf := Frame(k, m) + tail;
    ScalarRoundTrip(|body|);
    ScalarRoundTrip(k.crc(body));
    assert buf[..4] == Le32(|body|);
    assert buf[4..OFFSET] == Le32(k.crc(body));
    assert buf[OFFSET..OFFSET + |body|] == body;
  }

  lemma {:induction false} CutFrameIsPartial<M>(k: Codec<M>, m: M, n: nat)
    requires RoundTrips(k, m) && n < |Frame(k, m)|
    ensures ParseOne(k, Frame(k, m)[..n]).Partial?
  {
    var body := k.write(m);
    ScalarRoundTrip(|body|);
    if OFFSET <= n {
      assert Frame(k, m)[..n][..4] == Le32(|body|);
    }
  }

  lemma {:induction false} FramesFromFront<M>(k: Codec<M>, ms: seq<M>)
    requires ms != []
    ensures Frames(k, ms) == Frame(k, ms[0]) + Frames(k, ms[1..])
  {
    hide Frame;
    if |ms| == 1 {
      assert Frames(k, ms[..0]) == [] && Frames(k, ms[1..]) == [];
    } else {
      FramesFromFront(k, ms[..|ms| - 1]);
      assert ms[..|ms| - 1][1..] == ms[1..][..|ms| - 2];
    }
  }

  /**
    Whatever part of the stream has arrived, the receiver has got a prefix of the messages that
    were sent, has seen no error, and keeps the cut message; once everything is there it has them all.
   */
  lemma {:induction false} ArrivedSoFar<M>(k: Codec<M>, ms: seq<M>, n: nat)
    requires AllRoundTrip(k, ms) && n <= |Frames(k, ms)|
    ensures var got := ParseAll(k, Frames(k, ms)[..n]);
            && !got.bad
            && got.messages <= ms
            && Frames(k, ms)[..n] == Frames(k, got.messages) + got.rest
            && (n == |Frames(k, ms)| ==> got.messages == ms)
  {
    hide ParseOne, Frame;
    if ms == [] {
      assert Frames(k, ms)[..n] == [];
      EmptyIsPartial(k);
    } else {
      FramesFromFront(k, ms);
      var head, rest := Frame(k, ms[0]), Frames(k, ms[1..]);
      if n < |head| {
        assert RoundTrips(k, ms[0]);
        CutFrameIsPartial(k, ms[0], n);
        assert Frames(k, ms)[..n] == head[..n];
        assert Frames(k, []) + head[..n] == head[..n];
      } else {
        TailRoundTrips(k, ms);
        hide *;
        var tail := rest[..n - |head|];
        CutBehind(head, rest, n);
        ArrivedSoFar(k, ms[1..], n - |head|);
        OneMoreArrived(k, ms[0], tail);
        PrefixGrows(ParseAll(k, tail).messages, ms);
      }
    }
  }

  lemma TailRoundTrips<M>(k: Codec<M>, ms: seq<M>)
    requires ms != [] && AllRoundTrip(k, ms)
    ensures RoundTrips(k, ms[0]) && AllRoundTrip(k, ms[1..])
  {
  }

  lemma CutBehind(head: seq<Byte>, rest: seq<Byte>, n: nat)
    requires |head| <= n <= |head| + |rest|
    ensures (head + rest)[..n] == head + rest[..n - |head|]
  {
  }

  lemma PrefixGrows<M>(later: seq<M>, ms: seq<M>)
    requires ms != [] && later <= ms[1..]
    ensures [ms[0]] + later <= ms
    ensures later == ms[1..] ==> [ms[0]] + later == ms
  {
  }

  lemma Regroup(a: seq<Byte>, b: seq<Byte>, c: seq<Byte>)
    ensures a + (b + c) == a + b + c
  {
  }

  lemma EmptyIsPartial<M>(k: Codec<M>)
    ensures ParseOne(k, []).Partial?
  {
  }

  lemma {:induction false} OneMoreArrived<M>(k: Codec<M>, m: M, tail: seq<Byte>)
    requires RoundTrips(k, m)
    requires var later := ParseAll(k, tail); tail == Frames(k, later.messages) + later.rest
    ensures var later := ParseAll(k, tail);
            var got := ParseAll(k, Frame(k, m) + tail);
            && got.messages == [m] + later.messages
            && got.rest == later.rest && got.bad == later.bad
            && Frame(k, m) + tail == Frames(k, got.messages) + got.rest
  {
    hide ParseOne, Frame, Frames;
    var head := Frame(k, m);
    FrameParses(k, m, tail);
    assert (head + tail)[|head|..] == tail;
    var later := ParseAll(k, tail);
    var got := ParseAll(k, head + tail);
    FramesFromFront(k, got.messages);
    assert got.messages[1..] == later.messages;
    Regroup(head, Frames(k, later.messages), later.rest);
  }
}
