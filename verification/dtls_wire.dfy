/**
  DTLS handshake messages on the wire (section 4.2.2 of RFC 6347): the 12-byte fragment header and
  the form in which a whole message enters the handshake hash.
 */
module DtlsWire {
  import Bytes

  type Byte = Bytes.Byte

  const HEADER_LENGTH: nat := 12  // DTLS1_HM_HEADER_LENGTH
  const LIMIT16: nat := 0x1_0000
  const LIMIT24: nat := 0x100_0000

  datatype Header = Header(kind: Byte, msgLen: nat, seqNo: nat, fragOff: nat, fragLen: nat)

  /** A handshake message as its sender knows it. */
  datatype Message = Message(kind: Byte, body: seq<Byte>)

  predicate Encodable(h: Header) {
    h.msgLen < LIMIT24 && h.seqNo < LIMIT16 && h.fragOff < LIMIT24 && h.fragLen < LIMIT24
  }

  function U16(n: nat): (r: seq<Byte>)
    requires n < LIMIT16
    ensures |r| == 2
  {
    [n / 0x100, n % 0x100]
  }

  function U24(n: nat): (r: seq<Byte>)
    requires n < LIMIT24
    ensures |r| == 3
  {
    [n / 0x1_0000, n / 0x100 % 0x100, n % 0x100]
  }

  /** n2s and n2l3 */
  function N2S(b: seq<Byte>): nat
    requires |b| == 2
  {
    var b0: nat, b1: nat := b[0], b[1];
    b0 * 0x100 + b1
  }

  function N2L3(b: seq<Byte>): nat
    requires |b| == 3
  {
    var b0: nat, b1: nat, b2: nat := b[0], b[1], b[2];
    b0 * 0x1_0000 + b1 * 0x100 + b2
  }

  function HeaderBytes(h: Header): (r: seq<Byte>)
    requires Encodable(h)
    ensures |r| == HEADER_LENGTH
  {
    [h.kind] + U24(h.msgLen) + U16(h.seqNo) + U24(h.fragOff) + U24(h.fragLen)
  }

  /** dtls1_get_message_header */
  function ParseHeader(b: seq<Byte>): Header
    requires |b| == HEADER_LENGTH
  {
    Header(b[0], N2L3(b[1..4]), N2S(b[4..6]), N2L3(b[6..9]), N2L3(b[9..12]))
  }

  /** A parsed header is within the widths of its fields. */
  lemma ParsedFits(b: seq<Byte>)
    requires |b| == HEADER_LENGTH
    ensures Encodable(ParseHeader(b))
  {
  }

  lemma U24RoundTrip(n: nat)
    requires n < LIMIT24
    ensures N2L3(U24(n)) == n
  {
  }

  lemma ParseInvertsHeader(h: Header)
    requires Encodable(h)
    ensures ParseHeader(HeaderBytes(h)) == h
  {
    var b := HeaderBytes(h);
    assert forall i | 0 <= i < 3 ::
        b[1 + i] == U24(h.msgLen)[i] && b[6 + i] == U24(h.fragOff)[i] && b[9 + i] == U24(h.fragLen)[i];
    assert b[1..4] == U24(h.msgLen) && b[4..6] == U16(h.seqNo);
    assert b[6..9] == U24(h.fragOff) && b[9..12] == U24(h.fragLen);
    U24RoundTrip(h.msgLen);
    U24RoundTrip(h.fragOff);
    U24RoundTrip(h.fragLen);
  }

  lemma NumberOfTwo(x: Byte, y: Byte)
    ensures Bytes.Number([x, y]) == (x as nat) * 0x100 + y
  {
    assert [x, y][..1] == [x] && [x][..0] == [] && Bytes.Number([]) == 0;
    assert Bytes.Number([x]) == x;
  }

  lemma NumberOfThree(x: Byte, y: Byte, z: Byte)
    ensures Bytes.Number([x, y, z]) == (x as nat) * 0x1_0000 + (y as nat) * 0x100 + z
  {
    NumberOfTwo(x, y);
    assert [x, y, z][..2] == [x, y];
  }

  /**
    The layout of section 4.2.2 of RFC 6347: type, length, message_seq, fragment_offset and
    fragment_length, in this order, each with its most significant octet first.
   */
  lemma HeaderLayout(h: Header)
    requires Encodable(h)
    ensures var b := HeaderBytes(h);
            && b[0] == h.kind && Bytes.Number(b[1..4]) == h.msgLen && Bytes.Number(b[4..6]) == h.seqNo
            && Bytes.Number(b[6..9]) == h.fragOff && Bytes.Number(b[9..12]) == h.fragLen
  {
    var b := HeaderBytes(h);
    NumberOfThree(b[1], b[2], b[3]);
    NumberOfTwo(b[4], b[5]);
    NumberOfThree(b[6], b[7], b[8]);
    NumberOfThree(b[9], b[10], b[11]);
    assert b[1..4] == [b[1], b[2], b[3]] && b[4..6] == [b[4], b[5]];
    assert b[6..9] == [b[6], b[7], b[8]] && b[9..12] == [b[9], b[10], b[11]];
    ThreeOctets(h.msgLen);
    ThreeOctets(h.fragOff);
    ThreeOctets(h.fragLen);
  }

  lemma ThreeOctets(n: nat)
    requires n < LIMIT24
    ensures n == n / 0x1_0000 * 0x1_0000 + n / 0x100 % 0x100 * 0x100 + n % 0x100
  {
    assert n / 0x100 / 0x100 == n / 0x1_0000;
  }

  /** The header of a message sent as a single fragment. */
  function WholeHeader(m: Message, seqNo: nat): Header { Header(m.kind, |m.body|, seqNo, 0, |m.body|) }

  /** What dtls1_set_handshake_header adds to the handshake hash of the sender. */
  function HashedBySender(m: Message, seqNo: nat): seq<Byte>
    requires |m.body| < LIMIT24 && seqNo < LIMIT16
  {
    HeaderBytes(WholeHeader(m, seqNo)) + m.body
  }

  /** A record holding bytes off .. off+len of message number seqNo. */
  function FragmentRecord(m: Message, seqNo: nat, off: nat, len: nat): (r: seq<Byte>)
    requires |m.body| < LIMIT24 && seqNo < LIMIT16 && off + len <= |m.body|
    ensures |r| == HEADER_LENGTH + len
  {
    HeaderBytes(Header(m.kind, |m.body|, seqNo, off, len)) + m.body[off..off + len]
  }
}
