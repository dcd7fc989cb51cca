/**
  One serialisation of the signalling messages that meets what PeerFrames asks of a codec: every
  message whose ids have thirty-two bits and that is not too long can be read back.  The format is
  not FlatBuffers; it only shows that what is proved for all codecs is said of some.
 */
module PeerCodec {
  import opened Bytes
  import opened Optional
  import opened PeerFrames
  import opened PeerProtocol
  import opened PeerInvariant
  import opened PeerHistory

  /** What every message comes down to. */
  datatype Fields = Fields(tag: Byte, flag: Byte, id: nat, tail: seq<Byte>)

  function FieldBytes(f: Fields): seq<Byte> { [f.tag, f.flag] + Le32(f.id) + f.tail }

  function FromBytes(b: seq<Byte>): Option<Fields> {
    if |b| < 6 then None else Some(Fields(b[0], b[1], FromLe32(b[2..6]), b[6..]))
  }

  lemma FieldsReadBack(f: Fields)
    requires f.id < LIMIT32
    ensures FromBytes(FieldBytes(f)) == Some(f)
  {
    ScalarRoundTrip(f.id);
    assert FieldBytes(f)[2..6] == Le32(f.id);
  }

  /** Text, one character in four bytes. */
  function TextBytes(s: string): seq<Byte> {
    if s == "" then [] else TextBytes(s[..|s| - 1]) + Le32(s[|s| - 1] as nat)
  }

  function CharOf(n: nat): char { if n < 0xD800 || 0xE000 <= n < 0x11_0000 then n as char else '?' }

  function TextOf(b: seq<Byte>): string {
    if |b| < 4 then "" else TextOf(b[..|b| - 4]) + [CharOf(FromLe32(b[|b| - 4..]))]
  }

  lemma {:induction false} TextReadsBack(s: string)
    ensures TextOf(TextBytes(s)) == s
  {
    if s != "" {
      var n := |s| - 1;
      var b, c := TextBytes(s[..n]), Le32(s[n] as nat);
      TextReadsBack(s[..n]);
      ScalarRoundTrip(s[n] as nat);
      assert (b + c)[..|b + c| - 4] == b && (b + c)[|b + c| - 4..] == c;
    }
  }

  function MsgFields(m: Msg): Fields {
    match m
    case Hello(None, flags) => Fields(0, flags, 0, [])
    case Hello(Some(g), flags) => Fields(1, flags, g, [])
    case Offer(p, flags, text) => Fields(2, flags, p, TextBytes(text))
    case Answer(p, text) => Fields(3, 0, p, TextBytes(text))
    case Candidate(p, text) => Fields(4, 0, p, TextBytes(text))
    case Reject(p, reason) => Fields(5, reason, p, [])
    case RelayData(p, data) => Fields(6, 0, p, data)
    case AliasRegister(a) => Fields(7, 0, 0, TextBytes(a))
    case AliasUnregister(None) => Fields(8, 0, 0, [])
    case AliasUnregister(Some(a)) => Fields(9, 0, 0, TextBytes(a))
    case AliasLookup(a) => Fields(10, 0, 0, TextBytes(a))
    case Other => Fields(11, 0, 0, [])
  }

  function MsgOf(f: Fields): Msg {
    match f.tag
    case 0 => Hello(None, f.flag)
    case 1 => Hello(Some(f.id), f.flag)
    case 2 => Offer(f.id, f.flag, TextOf(f.tail))
    case 3 => Answer(f.id, TextOf(f.tail))
    case 4 => Candidate(f.id, TextOf(f.tail))
    case 5 => Reject(f.id, f.flag)
    case 6 => RelayData(f.id, f.tail)
    case 7 => AliasRegister(TextOf(f.tail))
    case 8 => AliasUnregister(None)
    case 9 => AliasUnregister(Some(TextOf(f.tail)))
    case 10 => AliasLookup(TextOf(f.tail))
    case _ => Other
  }

  function OutFields(out: Out): Fields {
    match out
    case Welcome(id) => Fields(0, 0, id, [])
    case NoSuchPeer(id) => Fields(1, 0, id, [])
    case Refused(id) => Fields(2, 0, id, [])
    case OfferFrom(id, flags, text) => Fields(3, flags, id, TextBytes(text))
    case AnswerFrom(id, text) => Fields(4, 0, id, TextBytes(text))
    case CandidateFrom(id, text) => Fields(5, 0, id, TextBytes(text))
    case DataFrom(id, data) => Fields(6, 0, id, data)
    case Resolved(a, id) => Fields(7, 0, id, TextBytes(a))
  }

  function OutOf(f: Fields): Out {
    match f.tag
    case 0 => Welcome(f.id)
    case 1 => NoSuchPeer(f.id)
    case 2 => Refused(f.id)
    case 3 => OfferFrom(f.id, f.flag, TextOf(f.tail))
    case 4 => AnswerFrom(f.id, TextOf(f.tail))
    case 5 => CandidateFrom(f.id, TextOf(f.tail))
    case 6 => DataFrom(f.id, f.tail)
    case _ => Resolved(TextOf(f.tail), f.id)
  }

  function Inbound(): Codec<Msg> {
    Codec(m => FieldBytes(MsgFields(m)),
          b => match FromBytes(b) case None => None case Some(f) => Some(MsgOf(f)),
          b => |b| % LIMIT32)
  }

  function Outbound(): Codec<Out> {
    Codec(out => FieldBytes(OutFields(out)),
          b => match FromBytes(b) case None => None case Some(f) => Some(OutOf(f)),
          b => |b| % LIMIT32)
  }

  predicate Fits(f: Fields) { f.id < LIMIT32 && |f.tail| < LIMIT32 - 6 }

  lemma MsgReadsBack(m: Msg)
    ensures MsgOf(MsgFields(m)) == m
  {
    hide TextBytes, TextOf;
    match m {
      case Offer(_, _, text) => TextReadsBack(text);
      case Answer(_, text) => TextReadsBack(text);
      case Candidate(_, text) => TextReadsBack(text);
      case AliasRegister(a) => TextReadsBack(a);
      case AliasUnregister(Some(a)) => TextReadsBack(a);
      case AliasLookup(a) => TextReadsBack(a);
      case _ =>
    }
  }

  lemma OutReadsBack(out: Out)
    ensures OutOf(OutFields(out)) == out
  {
    hide TextBytes, TextOf;
    match out {
      case OfferFrom(_, _, text) => TextReadsBack(text);
      case AnswerFrom(_, text) => TextReadsBack(text);
      case CandidateFrom(_, text) => TextReadsBack(text);
      case Resolved(a, _) => TextReadsBack(a);
      case _ =>
    }
  }

  /** Every message of a size the frame can hold meets what is asked of a codec. */
  lemma CodecsRoundTrip(m: Msg, out: Out)
    ensures Fits(MsgFields(m)) ==> RoundTrips(Inbound(), m)
    ensures Fits(OutFields(out)) ==> RoundTrips(Outbound(), out)
  {
    hide MsgFields, OutFields, MsgOf, OutOf, FromBytes;
    MsgReadsBack(m);
    OutReadsBack(out);
    if Fits(MsgFields(m)) {
      FieldsReadBack(MsgFields(m));
    }
    if Fits(OutFields(out)) {
      FieldsReadBack(OutFields(out));
    }
  }

  /** So there is a server whose registry goes wrong. */
  lemma SomeRegistryBreaks(g: GameId)
    requires g < LIMIT32
    ensures exists es: seq<Event> :: !Consistent(After(Wire(Inbound(), Outbound()), es))
  {
    CodecsRoundTrip(Hello(Some(g), 1), Welcome(1));
    IdsCanRunOut(Wire(Inbound(), Outbound()), g);
  }
}
