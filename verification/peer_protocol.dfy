/**
  The signalling server as a state machine (src/peer-server/p2p_connection.cpp, peer-server.cpp,
  game.h, server.cpp).  Connections are named by numbers that are never used twice, which is what
  the raw pointers in `peers` and `connectedPeers` stand for.
 */
module PeerProtocol {
  import opened Bytes
  import opened Optional
  import opened PeerFrames

  type ConnId = nat
  type GameId = nat
  type PeerId = nat  // 32 bits wide: see Enter

  /**
    The messages a client may send.  The game of a Hello is the verdict of the token lookup and
    the signature check: None when getVerifiedGame refuses.
   */
  datatype Msg =
    | Hello(game: Option<GameId>, flags: Byte)
    | Offer(peer: PeerId, flags: Byte, text: string)
    | Answer(peer: PeerId, text: string)
    | Candidate(peer: PeerId, text: string)
    | Reject(peer: PeerId, reason: Byte)
    | RelayData(peer: PeerId, data: seq<Byte>)
    | AliasRegister(alias: string)
    | AliasUnregister(name: Option<string>)
    | AliasLookup(alias: string)
    | Other  // HelloClient, P2PConnected, P2PDisconnect and everything unknown: logged only

  /** The messages the server sends; `sender` is the id of the peer a message comes from. */
  datatype Out =
    | Welcome(id: PeerId)
    | NoSuchPeer(id: PeerId)
    | Refused(id: PeerId)
    | OfferFrom(sender: PeerId, flags: Byte, text: string)
    | AnswerFrom(sender: PeerId, text: string)
    | CandidateFrom(sender: PeerId, text: string)
    | DataFrom(sender: PeerId, data: seq<Byte>)
    | Resolved(alias: string, id: PeerId)

  const NOT_FOUND: Byte := 1     // P2PRejectReason
  const PEER_REFUSED: Byte := 2

  /** Messages that are passed on from one peer to another. */
  predicate IsRelay(out: Out) { out.OfferFrom? || out.AnswerFrom? || out.CandidateFrom? || out.DataFrom? }

  /**
    A P2PSignalConnection.  `pending` and `doomed` belong to the socket library: a writable
    callback has been asked for; a callback has returned -1, so that the connection is to be closed.
   */
  datatype Conn = Conn(peerId: PeerId, game: Option<GameId>, webRTC: bool, trickleICE: bool,
                       connected: set<ConnId>, recvBuf: seq<Byte>, sendBuf: seq<Byte>,
                       pending: bool, doomed: bool)

  datatype Game = Game(next: PeerId, peers: map<PeerId, ConnId>, aliases: map<string, PeerId>)

  datatype State = State(conns: map<ConnId, Conn>, games: map<GameId, Game>, count: nat)

  const NEW_CONN := Conn(0, None, false, true, {}, [], [], false, false)
  const NEW_GAME := Game(1, map[], map[])
  const INIT := State(map[], map[], 0)

  /** The two serialisations: what clients send and what the server sends. */
  datatype Wire = Wire(inbound: Codec<Msg>, outbound: Codec<Out>)

  datatype Sent = Sent(to: ConnId, out: Out)

  /** What one callback step does: the next state, `false` for -1, at most one message, bytes to the socket. */
  datatype Outcome = Outcome(state: State, keep: bool, sent: Option<Sent>, wrote: seq<Byte>)

  function WithConn(s: State, c: ConnId, x: Conn): State { s.(conns := s.conns[c := x]) }

  function WithGame(s: State, g: GameId, x: Game): State { s.(games := s.games[g := x]) }

  /** sendMessage */
  function Send(w: Wire, s: State, to: ConnId, out: Out): State {
    if to !in s.conns then s
    else
      var x := s.conns[to];
      WithConn(s, to, x.(sendBuf := x.sendBuf + Frame(w.outbound, out), pending := x.pending || x.sendBuf == []))
  }

  function Reply(w: Wire, s: State, to: ConnId, out: Out): Outcome {
    Outcome(Send(w, s, to, out), true, Some(Sent(to, out)), [])
  }

  function Nothing(s: State): Outcome { Outcome(s, true, None, []) }

  /** The game of a connection; a connection without one never gets to use it. */
  function GameOf(s: State, c: ConnId): Game {
    if c in s.conns && s.conns[c].game.Some? && s.conns[c].game.value in s.games
    then s.games[s.conns[c].game.value]
    else NEW_GAME
  }

  function HasRTC(s: State, c: ConnId): bool { c in s.conns && s.conns[c].webRTC }

  function ConnectedOf(s: State, c: ConnId): set<ConnId> { if c in s.conns then s.conns[c].connected else {} }

  /** connectedPeers.insert */
  function Link(s: State, c: ConnId, other: ConnId): State
    requires c in s.conns
  {
    WithConn(s, c, s.conns[c].(connected := s.conns[c].connected + {other}))
  }

  function WithAliases(s: State, c: ConnId, aliases: map<string, PeerId>): State
    requires c in s.conns
  {
    if s.conns[c].game.None? || s.conns[c].game.value !in s.games then s
    else WithGame(s, s.conns[c].game.value, s.games[s.conns[c].game.value].(aliases := aliases))
  }

  /** erase_value */
  function WithoutValue(m: map<string, PeerId>, v: PeerId): map<string, PeerId> {
    map a | a in m && m[a] != v :: m[a]
  }

  /** A PeerId is a uint32_t. */
  function Wrap32(n: nat): PeerId { n % LIMIT32 }

  /** An accepted HelloServer: find or create the game, take the next id, register. */
  function Enter(w: Wire, s: State, c: ConnId, g: GameId, flags: Byte): Outcome
    requires c in s.conns
  {
    var game := if g in s.games then s.games[g] else NEW_GAME;
    var id := game.next;
    var peers := if id in game.peers then game.peers else game.peers[id := c];
    var x := s.conns[c].(peerId := id, game := Some(g), webRTC := true, trickleICE := (flags / 2) % 2 == 0);
    var s1 := WithConn(WithGame(s, g, game.(next := Wrap32(id + 1), peers := peers)), c, x);
    Reply(w, s1, c, Welcome(id))
  }

  predicate Accepted(s: State, c: ConnId, m: Msg) {
    c in s.conns && s.conns[c].peerId == 0 && m.Hello? && m.flags % 2 == 1 && m.game.Some?
  }

  function ProcessHello(w: Wire, s: State, c: ConnId, m: Msg): Outcome
    requires c in s.conns && m.Hello?
  {
    if s.conns[c].peerId != 0 || m.flags % 2 == 0 then Nothing(s)
    else if m.game.None? then Outcome(s, false, None, [])
    else Enter(w, s, c, m.game.value, m.flags)
  }

  function ProcessOffer(w: Wire, s: State, c: ConnId, m: Msg): Outcome
    requires c in s.conns && m.Offer?
  {
    var peers := GameOf(s, c).peers;
    if m.flags % 2 == 1 || m.peer !in peers then Reply(w, s, c, NoSuchPeer(m.peer))
    else if !HasRTC(s, peers[m.peer]) then Reply(w, s, c, Refused(m.peer))
    else Reply(w, Link(s, c, peers[m.peer]), peers[m.peer], OfferFrom(s.conns[c].peerId, m.flags, m.text))
  }

  function ProcessAnswer(w: Wire, s: State, c: ConnId, m: Msg): Outcome
    requires c in s.conns && m.Answer?
  {
    var peers := GameOf(s, c).peers;
    if m.peer !in peers || c !in ConnectedOf(s, peers[m.peer]) then Reply(w, s, c, NoSuchPeer(m.peer))
    else Reply(w, Link(s, c, peers[m.peer]), peers[m.peer], AnswerFrom(s.conns[c].peerId, m.text))
  }

  function ProcessReject(w: Wire, s: State, c: ConnId, m: Msg): Outcome
    requires c in s.conns && m.Reject?
  {
    var peers := GameOf(s, c).peers;
    if m.peer in peers && (m.reason == PEER_REFUSED || m.reason == NOT_FOUND)
    then Reply(w, s, peers[m.peer], Refused(s.conns[c].peerId))
    else Nothing(s)
  }

  /** Candidates and relayed data go straight to the named peer. */
  function Forward(w: Wire, s: State, c: ConnId, peer: PeerId, out: Out): Outcome {
    var peers := GameOf(s, c).peers;
    if peer in peers then Reply(w, s, peers[peer], out) else Reply(w, s, c, NoSuchPeer(peer))
  }

  function ProcessAlias(w: Wire, s: State, c: ConnId, m: Msg): Outcome
    requires c in s.conns && (m.AliasRegister? || m.AliasUnregister? || m.AliasLookup?)
  {
    var aliases := GameOf(s, c).aliases;
    var me := s.conns[c].peerId;
    match m
    case AliasRegister(a) => Nothing(if a in aliases then s else WithAliases(s, c, aliases[a := me]))
    case AliasUnregister(Some(a)) =>
      Nothing(if a in aliases && aliases[a] == me then WithAliases(s, c, aliases - {a}) else s)
    case AliasUnregister(None) => Nothing(WithAliases(s, c, WithoutValue(aliases, me)))
    case AliasLookup(a) => Reply(w, s, c, Resolved(a, if a in aliases then aliases[a] else 0))
  }

  /** sendP2PRelayData takes the length in sixteen bits. */
  function Relayed(data: seq<Byte>): seq<Byte> { data[..|data| % 0x1_0000] }

  /** processMsg */
  function Process(w: Wire, s: State, c: ConnId, m: Msg): Outcome
    requires c in s.conns
  {
    if s.conns[c].peerId == 0 && !m.Hello? then Outcome(s, false, None, [])
    else
      match m
      case Hello(_, _) => ProcessHello(w, s, c, m)
      case Offer(_, _, _) => ProcessOffer(w, s, c, m)
      case Answer(_, _) => ProcessAnswer(w, s, c, m)
      case Candidate(peer, text) => Forward(w, s, c, peer, CandidateFrom(s.conns[c].peerId, text))
      case Reject(_, _) => ProcessReject(w, s, c, m)
      case RelayData(peer, data) => Forward(w, s, c, peer, DataFrom(s.conns[c].peerId, Relayed(data)))
      case AliasRegister(_) => ProcessAlias(w, s, c, m)
      case AliasUnregister(_) => ProcessAlias(w, s, c, m)
      case AliasLookup(_) => ProcessAlias(w, s, c, m)
      case Other => Nothing(s)
  }

  /**
    The callbacks, one turn of parseMessage at a time: RECEIVE is an Arrive followed by Handles.
    `room` is what the socket answers to a write: negative for an error.
   */
  datatype Event =
    | Open
    | Arrive(conn: ConnId, data: seq<Byte>)
    | Handle(conn: ConnId)
    | Writable(conn: ConnId, room: int)
    | Close(conn: ConnId)

  function Doom(s: State, c: ConnId): State
    requires c in s.conns
  {
    WithConn(s, c, s.conns[c].(doomed := true))
  }

  /** What is left in recvBuf once its first message has been processed. */
  function Consume(s: State, c: ConnId, size: nat): State {
    if c in s.conns && size <= |s.conns[c].recvBuf|
    then WithConn(s, c, s.conns[c].(recvBuf := s.conns[c].recvBuf[size..]))
    else s
  }

  function HandleMessage(w: Wire, s: State, c: ConnId, m: Msg, size: nat): Outcome
    requires c in s.conns
  {
    var r := Process(w, s, c, m);
    if r.keep then r.(state := Consume(r.state, c, size))
    else Outcome(Doom(s, c), false, None, [])
  }

  function StepHandle(w: Wire, s: State, c: ConnId): Outcome
    requires c in s.conns
  {
    match ParseOne(w.inbound, s.conns[c].recvBuf)
    case Partial => Nothing(s)
    case Bad => Outcome(Doom(s, c), false, None, [])
    case Message(m, size) => HandleMessage(w, s, c, m, size)
  }

  function StepWritable(s: State, c: ConnId, room: int): Outcome
    requires c in s.conns
  {
    var x := s.conns[c];
    if x.sendBuf == [] then Nothing(WithConn(s, c, x.(pending := false)))
    else if room < 0 then Outcome(WithConn(s, c, x.(pending := false, doomed := true)), false, None, [])
    else
      var n := if room < |x.sendBuf| then room else |x.sendBuf|;
      var rest := x.sendBuf[n..];
      Outcome(WithConn(s, c, x.(sendBuf := rest, pending := rest != [])), true, None, x.sendBuf[..n])
  }

  /** The registry entries of a connection that closes. */
  function Deregister(s: State, c: ConnId): State
    requires c in s.conns
  {
    var x := s.conns[c];
    if x.peerId == 0 || x.game.None? || x.game.value !in s.games then s
    else
      var game := s.games[x.game.value];
      WithGame(s, x.game.value,
               game.(peers := game.peers - {x.peerId}, aliases := WithoutValue(game.aliases, x.peerId)))
  }

  function StepClose(s: State, c: ConnId): State
    requires c in s.conns
  {
    var s1 := Deregister(s, c);
    s1.(conns := s1.conns - {c})
  }

  function Step(w: Wire, s: State, e: Event): Outcome {
    match e
    case Open => Nothing(State(s.conns[s.count := NEW_CONN], s.games, s.count + 1))
    case Arrive(c, data) =>
      if c !in s.conns then Nothing(s)
      else Nothing(WithConn(s, c, s.conns[c].(recvBuf := s.conns[c].recvBuf + data)))
    case Handle(c) => if c !in s.conns then Nothing(s) else StepHandle(w, s, c)
    case Writable(c, room) => if c !in s.conns then Outcome(s, false, None, []) else StepWritable(s, c, room)
    case Close(c) => if c !in s.conns then Nothing(s) else Nothing(StepClose(s, c))
  }

  function After(w: Wire, es: seq<Event>): State {
    if es == [] then INIT else Step(w, After(w, es[..|es| - 1]), es[|es| - 1]).state
  }

  /** What step k of a run did. */
  function At(w: Wire, es: seq<Event>, k: nat): Outcome
    requires k < |es|
  {
    Step(w, After(w, es[..k]), es[k])
  }

  /** The message that step hands to processMsg. */
  function Handled(w: Wire, s: State, e: Event): Option<Msg> {
    if e.Handle? && e.conn in s.conns then
      match ParseOne(w.inbound, s.conns[e.conn].recvBuf)
      case Message(m, _) => Some(m)
      case Partial => None
      case Bad => None
    else None
  }
}
