/**
  The signalling server on its own objects: connections and games are updated in place, `peers` and
  `connectedPeers` hold references.  Every callback is proved to be steps of PeerProtocol, so what
  PeerHistory shows of all runs holds of the objects.
 */
module PeerServer {
  import opened Bytes
  import opened Optional
  import opened PeerFrames
  import opened PeerProtocol
  import opened PeerInvariant
  import opened PeerHistory

  ghost function IdsOf(xs: set<Connection>): set<ConnId> { set x | x in xs :: x.id }

  ghost function NumbersOf(m: map<PeerId, Connection>): map<PeerId, ConnId> { map p | p in m :: m[p].id }

  ghost predicate AddsOnly(x: Connection, now: map<PeerId, Connection>, was: map<PeerId, Connection>) {
    forall p | p in now :: now[p] == x || (p in was && now[p] == was[p])
  }

  /** P2PSignalConnection */
  class Connection {
    const id: ConnId
    var peerId: PeerId
    var game: GameRecord?
    var webRTCsupport: bool
    var trickleICE: bool
    var connectedPeers: set<Connection>
    var recvBuf: seq<Byte>
    var sendBuf: seq<Byte>
    ghost var pending: bool  // kept by the socket library
    ghost var doomed: bool

    constructor (id: ConnId)
      ensures this.id == id && Value() == NEW_CONN && connectedPeers == {} && game == null
    {
      this.id := id;
      peerId, game, webRTCsupport, trickleICE := 0, null, false, true;
      connectedPeers, recvBuf, sendBuf := {}, [], [];
      pending, doomed := false, false;
    }

    ghost function Value(): Conn
      reads this
    {
      Conn(peerId, if game == null then None else Some(game.gameId), webRTCsupport, trickleICE,
           IdsOf(connectedPeers), recvBuf, sendBuf, pending, doomed)
    }
  }

  /** struct Game */
  class GameRecord {
    const gameId: GameId
    var nextPeerId: PeerId
    var peers: map<PeerId, Connection>
    var aliases: map<string, PeerId>

    constructor (gameId: GameId)
      ensures this.gameId == gameId && Value() == NEW_GAME && peers == map[]
    {
      this.gameId := gameId;
      nextPeerId, peers, aliases := 1, map[], map[];
    }

    ghost function Value(): Game
      reads this
    {
      Game(nextPeerId, NumbersOf(peers), aliases)
    }

    method GenerateNewPeerId() returns (id: PeerId)
      modifies this`nextPeerId
      ensures id == old(nextPeerId) && nextPeerId == Wrap32(id + 1)
    {
      id := nextPeerId;
      nextPeerId := (nextPeerId + 1) % LIMIT32;
    }

    /** The next id, with the connection registered under it: map::insert leaves an entry that exists. */
    method Enrol(x: Connection) returns (id: PeerId)
      modifies this
      ensures id == old(nextPeerId)
      ensures AddsOnly(x, peers, old(peers))
      ensures Value() == (var had := old(Value());
                          had.(next := Wrap32(id + 1),
                               peers := if id in had.peers then had.peers else had.peers[id := x.id]))
    {
      id := GenerateNewPeerId();
      ghost var had := Value().peers;
      if id !in peers {
        peers := peers[id := x];
        assert Value().peers == had[id := x.id];
      }
    }

    method ErasePeerAliases(p: PeerId)
      modifies this`aliases
      ensures aliases == WithoutValue(old(aliases), p)
    {
      aliases := EraseValue(aliases, p);
    }

    /** The entries of a peer that leaves. */
    method Forget(p: PeerId)
      modifies this`peers, this`aliases
      ensures peers == old(peers) - {p}
      ensures Value() == (var had := old(Value());
                          had.(peers := had.peers - {p}, aliases := WithoutValue(had.aliases, p)))
    {
      ghost var had := Value().peers;
      peers := peers - {p};
      assert Value().peers == had - {p};
      ErasePeerAliases(p);
    }
  }

  /** erase_value: the iterator goes through the entries in any order. */
  method EraseValue(m: map<string, PeerId>, v: PeerId) returns (r: map<string, PeerId>)
    ensures r == WithoutValue(m, v)
  {
    r := m;
    var ahead := m.Keys;
    while ahead != {}
      invariant ahead <= m.Keys
      invariant r == map a | a in m && (m[a] != v || a in ahead) :: m[a]
      decreases |ahead|
    {
      var a: string :| a in ahead;
      ahead := ahead - {a};
      if r[a] == v {
        r := r - {a};
      }
    }
  }

  /** Making the game first, as getVerifiedGame does, changes nothing. */
  lemma EnteredOnDemand(w: Wire, s: State, c: ConnId, g: GameId, flags: Byte)
    requires c in s.conns
    ensures var s1 := WithGame(s, g, if g in s.games then s.games[g] else NEW_GAME);
            c in s1.conns
            && Enter(w, s, c, g, flags) == Outcome(Send(w, Entered(s1, c, g, flags), c, Welcome(NextId(s, g))), true,
                                                   Some(Sent(c, Welcome(NextId(s, g)))), [])
  {
    hide Send;
    assert Entered(WithGame(s, g, if g in s.games then s.games[g] else NEW_GAME), c, g, flags) == Entered(s, c, g, flags);
  }

  lemma EnteredIs(s: State, c: ConnId, g: GameId, flags: Byte, was: Conn, had: Game, game: Game, conn: Conn)
    requires c in s.conns && s.conns[c] == was && g in s.games && s.games[g] == had
    requires game == had.(next := Wrap32(had.next + 1),
                          peers := if had.next in had.peers then had.peers else had.peers[had.next := c])
    requires conn == was.(peerId := had.next, game := Some(g), webRTC := true, trickleICE := (flags / 2) % 2 == 0)
    ensures WithConn(WithGame(s, g, game), c, conn) == Entered(s, c, g, flags)
  {
  }

  lemma OthersAreNeverRefused(w: Wire, s: State, c: ConnId, m: Msg)
    requires c in s.conns && s.conns[c].peerId != 0 && !m.Hello?
    ensures Process(w, s, c, m).keep
  {
    hide Send, GameOf, WithAliases;
  }

  lemma ProcessCases(w: Wire, s: State, c: ConnId, m: Msg)
    requires c in s.conns && s.conns[c].peerId != 0
    ensures m.Offer? ==> Process(w, s, c, m) == ProcessOffer(w, s, c, m)
    ensures m.Answer? ==> Process(w, s, c, m) == ProcessAnswer(w, s, c, m)
    ensures m.Candidate? ==> Process(w, s, c, m) == Forward(w, s, c, m.peer, CandidateFrom(s.conns[c].peerId, m.text))
    ensures m.Reject? ==> Process(w, s, c, m) == ProcessReject(w, s, c, m)
    ensures m.RelayData? ==> Process(w, s, c, m) == Forward(w, s, c, m.peer, DataFrom(s.conns[c].peerId, Relayed(m.data)))
    ensures m.AliasRegister? || m.AliasUnregister? || m.AliasLookup? ==> Process(w, s, c, m) == ProcessAlias(w, s, c, m)
    ensures m.Other? ==> Process(w, s, c, m).state == s
  {
    hide ProcessOffer, ProcessAnswer, Forward, ProcessReject, ProcessAlias;
  }

  function BufferAfter(s: State, c: ConnId): seq<Byte> { if c in s.conns then s.conns[c].recvBuf else [] }

  /** Every game still has an id to give. */
  predicate IdsLeft(s: State) { forall g | g in s.games :: s.games[g].next != 0 }

  lemma ArriveFits(w: Wire, s: State, c: ConnId, data: seq<Byte>)
    ensures StepFits(w, s, Arrive(c, data))
  {
  }

  /** A connection says an accepted Hello once at most, so one id left in each game is enough for it. */
  lemma TurnFits(w: Wire, s: State, c: ConnId)
    requires Consistent(s) && c in s.conns && (s.conns[c].peerId == 0 ==> IdsLeft(s))
    ensures StepFits(w, s, Handle(c))
    ensures var t := Step(w, s, Handle(c)).state;
            c in t.conns && (t.conns[c].peerId == 0 ==> IdsLeft(t))
  {
    hide Consistent, ParseOne, Process;
    var t := Step(w, s, Handle(c)).state;
    TurnKeepsId(w, s, c);
    if t.conns[c].peerId == 0 {
      forall g | g in t.games ensures t.games[g].next != 0 {
        StepCounts(w, s, Handle(c), g);
        if HelloInto(w, s, Handle(c), g) {
          TurnGivesId(w, s, c, g);
        }
      }
    }
  }

  lemma TurnKeepsId(w: Wire, s: State, c: ConnId)
    requires c in s.conns
    ensures var t := Step(w, s, Handle(c)).state;
            c in t.conns && (s.conns[c].peerId != 0 ==> t.conns[c].peerId != 0)
  {
    hide ParseOne, Process;
    var m := Handled(w, s, Handle(c));
    if m.Some? {
      ProcessKeepsId(w, s, c, m.value);
    }
  }

  lemma SendLeavesIds(w: Wire)
    ensures forall s: State, to, out :: Send(w, s, to, out).conns.Keys == s.conns.Keys
    ensures forall s: State, to, out, c | c in s.conns ::
              Send(w, s, to, out).conns[c].peerId == s.conns[c].peerId
              && Send(w, s, to, out).conns[c].recvBuf == s.conns[c].recvBuf
  {
  }

  lemma ProcessKeepsId(w: Wire, s: State, c: ConnId, m: Msg)
    requires c in s.conns
    ensures var t := Process(w, s, c, m).state;
            && c in t.conns && t.conns[c].recvBuf == s.conns[c].recvBuf
            && (s.conns[c].peerId != 0 ==> t.conns[c].peerId == s.conns[c].peerId)
            && (Accepted(s, c, m) ==> t.conns[c].peerId == NextId(s, m.game.value))
  {
    hide Send, GameOf, WithoutValue;
    SendLeavesIds(w);
  }

  lemma TurnGivesId(w: Wire, s: State, c: ConnId, g: GameId)
    requires c in s.conns && HelloInto(w, s, Handle(c), g)
    ensures var t := Step(w, s, Handle(c)).state; c in t.conns && t.conns[c].peerId == NextId(s, g)
  {
    hide ParseOne, Process;
    var m := Handled(w, s, Handle(c)).value;
    ProcessKeepsId(w, s, c, m);
    if !Process(w, s, c, m).keep {
      RefusalsChangeNothing(w, s, c, m);
    }
  }

  /** Every turn that is followed by another one takes a message out of the buffer. */
  lemma TurnShrinks(w: Wire, s: State, c: ConnId)
    requires c in s.conns
    ensures var r := StepHandle(w, s, c);
            && r == Step(w, s, Handle(c)) && c in r.state.conns
            && (if ParseOne(w.inbound, s.conns[c].recvBuf).Partial? then r.keep && r.state == s
                else if r.keep then |r.state.conns[c].recvBuf| < |s.conns[c].recvBuf|
                else r.state.conns[c].doomed && r.state.conns[c].recvBuf == s.conns[c].recvBuf)
  {
    hide ParseOne, Process;
    var m := Handled(w, s, Handle(c));
    if m.Some? {
      ProcessKeepsId(w, s, c, m.value);
    }
  }

  /** None of the turns of parseMessage that come next registers c under an id a game has run out of. */
  ghost predicate TurnsFit(w: Wire, s: State, c: ConnId)
    requires c in s.conns
    decreases |s.conns[c].recvBuf|
  {
    TurnShrinks(w, s, c);
    var r := StepHandle(w, s, c);
    && StepFits(w, s, Handle(c))
    && (r.keep && !ParseOne(w.inbound, s.conns[c].recvBuf).Partial? ==> TurnsFit(w, r.state, c))
  }

  /** It is enough that c has its id already, or that every game has one left. */
  lemma {:induction false} IdsLeftFit(w: Wire, s: State, c: ConnId)
    requires Consistent(s) && c in s.conns && (s.conns[c].peerId == 0 ==> IdsLeft(s))
    ensures TurnsFit(w, s, c)
    decreases |s.conns[c].recvBuf|
  {
    hide Consistent, ParseOne, StepHandle, Step, IdsLeft;
    TurnShrinks(w, s, c);
    TurnFits(w, s, c);
    StepKeeps(w, s, Handle(c));
    var r := StepHandle(w, s, c);
    if r.keep && !ParseOne(w.inbound, s.conns[c].recvBuf).Partial? {
      IdsLeftFit(w, r.state, c);
    }
  }

  lemma WritableFits(w: Wire, s: State, c: ConnId, room: int)
    ensures StepFits(w, s, Writable(c, room))
  {
  }

  lemma CloseFits(w: Wire, s: State, c: ConnId)
    ensures StepFits(w, s, Close(c))
  {
  }

  lemma StrangersHaveNoGame(s: State, c: ConnId)
    requires Consistent(s) && c in s.conns
    ensures s.conns[c].peerId == 0 ==> s.conns[c].game == None
    ensures s.conns[c].peerId != 0 ==> s.conns[c].game.Some? && s.conns[c].game.value in s.games
  {
    assert ConnOk(s, c);
  }

  lemma CloseIs(s: State, c: ConnId)
    requires Consistent(s) && c in s.conns
    ensures var x := s.conns[c];
            StepClose(s, c)
            == PeerProtocol.State.State(
                 s.conns - {c},
                 if x.peerId == 0 then s.games
                 else
                   assert ConnOk(s, c);
                   var had := s.games[x.game.value];
                   s.games[x.game.value := had.(peers := had.peers - {x.peerId},
                                                aliases := WithoutValue(had.aliases, x.peerId))],
                 s.count)
  {
    StrangersHaveNoGame(s, c);
  }

  class Server {
    const wire: Wire
    var signalConnections: map<ConnId, Connection>
    var games: map<GameId, GameRecord>
    var nextWsi: nat                // the socket library's next handle; no handle comes back
    ghost var all: seq<Connection>  // every connection there ever was
    ghost var trace: seq<Event>

    constructor (wire: Wire)
      ensures Valid() && trace == [] && this.wire == wire
    {
      this.wire := wire;
      signalConnections, games, nextWsi, all, trace := map[], map[], 0, [], [];
      new;
      StartOfRun(wire);
      assert State().conns == map[] && State().games == map[];
    }

    ghost predicate Known(x: Connection)
      reads `all
    {
      x.id < |all| && all[x.id] == x
    }

    ghost predicate ConnValid(x: Connection)
      reads `games, `all, x
    {
      && (x.game != null ==> x.game.gameId in games && games[x.game.gameId] == x.game)
      && (forall y | y in x.connectedPeers :: Known(y))
    }

    ghost predicate GameValid(x: GameRecord)
      reads `all, x
    {
      forall p | p in x.peers :: Known(x.peers[p])
    }

    /** References are sound: none leads to an object that was never made or to another game's record. */
    ghost predicate Sound()
      reads `signalConnections, `games, `nextWsi, `all, signalConnections.Values, games.Values
    {
      && nextWsi == |all|
      && (forall i | 0 <= i < |all| :: all[i].id == i)
      && (forall c | c in signalConnections ::
            signalConnections[c].id == c && Known(signalConnections[c]) && ConnValid(signalConnections[c]))
      && (forall g | g in games :: games[g].gameId == g && GameValid(games[g]))
    }

    ghost function State(): State
      reads `signalConnections, `games, `nextWsi, `all, signalConnections.Values, games.Values
    {
      PeerProtocol.State.State(map c | c in signalConnections :: signalConnections[c].Value(),
            map g | g in games :: games[g].Value(), |all|)
    }

    /** The objects are sound, are where the trace of events leads, and no game has lost its bearings. */
    ghost predicate Valid()
      reads this, signalConnections.Values, games.Values
    {
      Sound() && State() == After(wire, trace) && Consistent(State())
    }

    ghost predicate IsOpen(x: Connection)
      reads `signalConnections
    {
      x.id in signalConnections && signalConnections[x.id] == x
    }

    /** A registered peer is a live object with the id it is registered under. */
    lemma PeerIsLive(x: Connection, p: PeerId)
      requires Sound() && Consistent(State()) && IsOpen(x) && x.game != null && p in x.game.peers
      ensures IsOpen(x.game.peers[p]) && x.game.peers[p].peerId == p
      ensures p in GameOf(State(), x.id).peers && GameOf(State(), x.id).peers[p] == x.game.peers[p].id
      ensures HasRTC(State(), x.game.peers[p].id) == x.game.peers[p].webRTCsupport
    {
      GameIsItsRecord(x);
      PeerIsOpen(State(), x.id, p);
      assert Known(x.game.peers[p]);
    }

    lemma GameIsItsRecord(x: Connection)
      requires Sound() && IsOpen(x) && x.game != null
      ensures GameOf(State(), x.id) == x.game.Value()
      ensures GameOf(State(), x.id).peers.Keys == x.game.peers.Keys
    {
      assert ConnValid(x);
      assert State().conns[x.id] == x.Value();
      assert State().games[x.game.gameId] == x.game.Value();
    }

    lemma RegisteredHaveGames(x: Connection)
      requires Sound() && Consistent(State()) && IsOpen(x)
      ensures State().conns[x.id] == x.Value()
      ensures x.peerId != 0 ==> x.game != null && games[x.game.gameId] == x.game
    {
      assert State().conns[x.id] == x.Value();
      assert ConnOk(State(), x.id);
      assert ConnValid(x);
    }

    /** Only connection x has changed. */
    twostate lemma OneConnChanged(x: Connection)
      requires old(Sound()) && old(IsOpen(x)) && unchanged(this) && ConnValid(x)
      requires forall c | c in signalConnections && c != x.id :: unchanged(signalConnections[c])
      requires forall g | g in games :: unchanged(games[g])
      ensures Sound() && State() == WithConn(old(State()), x.id, x.Value())
    {
      assert forall c | c in signalConnections && c != x.id :: signalConnections[c] != x;
      assert State().conns == old(State()).conns[x.id := x.Value()];
      assert State().games == old(State()).games;
      assert forall c | c in signalConnections && c != x.id :: ConnValid(signalConnections[c]) by {
        assert forall c | c in signalConnections && c != x.id :: old(ConnValid(signalConnections[c]));
      }
      assert forall g | g in games :: old(GameValid(games[g]));
    }

    /** Only game x has changed. */
    twostate lemma OneGameChanged(x: GameRecord)
      requires old(Sound()) && x.gameId in games && games[x.gameId] == x && unchanged(this) && GameValid(x)
      requires forall c | c in signalConnections :: unchanged(signalConnections[c])
      requires forall g | g in games && g != x.gameId :: unchanged(games[g])
      ensures Sound() && State() == WithGame(old(State()), x.gameId, x.Value())
    {
      assert forall g | g in games && g != x.gameId :: games[g] != x;
      assert State().games == old(State()).games[x.gameId := x.Value()];
      assert State().conns == old(State()).conns;
      assert forall c | c in signalConnections :: old(ConnValid(signalConnections[c]));
      assert forall g | g in games && g != x.gameId :: old(GameValid(games[g]));
    }

    /** sendMessage */
    method SendMessage(x: Connection, out: Out)
      requires Sound() && IsOpen(x)
      modifies x`sendBuf, x`pending
      ensures Sound() && State() == Send(wire, old(State()), x.id, out)
    {
      assert State().conns[x.id] == x.Value();
      assert ConnValid(x);
      var wasEmpty := x.sendBuf == [];
      x.sendBuf := x.sendBuf + Frame(wire.outbound, out);
      if wasEmpty {
        x.pending := true;
      }
      OneConnChanged(x);
    }

    /** connectedPeers.insert */
    method Connect(x: Connection, y: Connection)
      requires Sound() && IsOpen(x) && IsOpen(y)
      modifies x`connectedPeers
      ensures Sound() && State() == Link(old(State()), x.id, y.id)
    {
      assert State().conns[x.id] == x.Value();
      assert ConnValid(x) && Known(y);
      ghost var before := x.Value().connected;
      x.connectedPeers := x.connectedPeers + {y};
      assert x.Value().connected == before + {y.id};
      OneConnChanged(x);
    }

    lemma ConnectedByReference(x: Connection, y: Connection)
      requires Sound() && IsOpen(x) && IsOpen(y)
      ensures y in x.connectedPeers <==> y.id in ConnectedOf(State(), x.id)
    {
      assert State().conns[x.id] == x.Value();
      assert ConnValid(x) && Known(y);
    }

    method ProcessOffer(x: Connection, m: Msg)
      requires Sound() && Consistent(State()) && IsOpen(x) && x.peerId != 0 && m.Offer?
      modifies signalConnections.Values
      ensures Sound() && State() == PeerProtocol.ProcessOffer(wire, old(State()), x.id, m).state
    {
      RegisteredHaveGames(x);
      GameIsItsRecord(x);
      hide Consistent, Sound, GameOf, Send, Link;
      var emulated := m.flags % 2 == 1;
      if emulated {
        SendMessage(x, NoSuchPeer(m.peer));
        return;
      }
      if m.peer !in x.game.peers {
        SendMessage(x, NoSuchPeer(m.peer));
      } else {
        var other := x.game.peers[m.peer];
        PeerIsLive(x, m.peer);
        if !emulated && !other.webRTCsupport {
          SendMessage(x, Refused(m.peer));
          return;
        }
        Connect(x, other);
        SendMessage(other, OfferFrom(x.peerId, m.flags, m.text));
      }
    }

    method ProcessAnswer(x: Connection, m: Msg)
      requires Sound() && Consistent(State()) && IsOpen(x) && x.peerId != 0 && m.Answer?
      modifies signalConnections.Values
      ensures Sound() && State() == PeerProtocol.ProcessAnswer(wire, old(State()), x.id, m).state
    {
      RegisteredHaveGames(x);
      GameIsItsRecord(x);
      hide Consistent, Sound, GameOf, Send, Link;
      if m.peer !in x.game.peers {
        SendMessage(x, NoSuchPeer(m.peer));
      } else {
        var other := x.game.peers[m.peer];
        PeerIsLive(x, m.peer);
        assert other.peerId == m.peer;  // as the source asserts
        ConnectedByReference(other, x);
        var otherPeerConnected := x in other.connectedPeers;
        if !otherPeerConnected {
          SendMessage(x, NoSuchPeer(m.peer));
        } else {
          Connect(x, other);
          SendMessage(other, AnswerFrom(x.peerId, m.text));
        }
      }
    }

    /** ICECandidate and P2PRelayData */
    method Forward(x: Connection, peer: PeerId, out: Out)
      requires Sound() && Consistent(State()) && IsOpen(x) && x.peerId != 0
      modifies signalConnections.Values
      ensures Sound() && State() == PeerProtocol.Forward(wire, old(State()), x.id, peer, out).state
    {
      RegisteredHaveGames(x);
      GameIsItsRecord(x);
      hide Consistent, Sound, GameOf, Send;
      if peer !in x.game.peers {
        SendMessage(x, NoSuchPeer(peer));
      } else {
        var other := x.game.peers[peer];
        PeerIsLive(x, peer);
        SendMessage(other, out);
      }
    }

    method ProcessReject(x: Connection, m: Msg)
      requires Sound() && Consistent(State()) && IsOpen(x) && x.peerId != 0 && m.Reject?
      modifies signalConnections.Values
      ensures Sound() && State() == PeerProtocol.ProcessReject(wire, old(State()), x.id, m).state
    {
      RegisteredHaveGames(x);
      GameIsItsRecord(x);
      hide Consistent, Sound, GameOf, Send;
      if m.peer in x.game.peers {
        var other := x.game.peers[m.peer];
        PeerIsLive(x, m.peer);
        if m.reason == PEER_REFUSED || m.reason == NOT_FOUND {
          SendMessage(other, Refused(x.peerId));
        }
      }
    }

    /** The aliases of x's game have changed. */
    twostate lemma AliasesChanged(x: Connection)
      requires old(Sound()) && old(IsOpen(x)) && x.game != null && unchanged(this)
      requires forall c | c in signalConnections :: unchanged(signalConnections[c])
      requires forall g | g in games && games[g] != x.game :: unchanged(games[g])
      requires x.game.nextPeerId == old(x.game.nextPeerId) && x.game.peers == old(x.game.peers)
      ensures Sound() && State() == WithAliases(old(State()), x.id, x.game.aliases)
    {
      assert unchanged(signalConnections[x.id]) && signalConnections[x.id] == x;
      assert old(ConnValid(x));
      var g := x.game.gameId;
      assert old(GameValid(games[g]));
      OneGameChanged(x.game);
      assert old(State()).conns[x.id] == old(x.Value());
      assert old(State()).games[g] == old(x.game.Value());
      assert x.game.Value() == old(x.game.Value()).(aliases := x.game.aliases);
    }

    method ProcessAlias(x: Connection, m: Msg)
      requires Sound() && Consistent(State()) && IsOpen(x) && x.peerId != 0
      requires m.AliasRegister? || m.AliasUnregister? || m.AliasLookup?
      modifies signalConnections.Values, games.Values
      ensures Sound() && State() == PeerProtocol.ProcessAlias(wire, old(State()), x.id, m).state
    {
      RegisteredHaveGames(x);
      GameIsItsRecord(x);
      hide Consistent, Sound, GameOf, Send, WithAliases;
      var game := x.game;
      match m {
        case AliasRegister(alias) =>
          if alias in game.aliases && game.aliases[alias] != x.peerId {
          } else if alias !in game.aliases {
            game.aliases := game.aliases[alias := x.peerId];
            AliasesChanged(x);
          }
        case AliasUnregister(Some(alias)) =>
          if alias in game.aliases && game.aliases[alias] == x.peerId {
            game.aliases := game.aliases - {alias};
            AliasesChanged(x);
          }
        case AliasUnregister(None) =>
          game.ErasePeerAliases(x.peerId);
          AliasesChanged(x);
        case AliasLookup(alias) =>
          if alias in game.aliases {
            SendMessage(x, Resolved(alias, game.aliases[alias]));
          } else {
            SendMessage(x, Resolved(alias, 0));
          }
      }
    }

    /** The end of getVerifiedGame: find the game, or make it. */
    method FindGame(id: GameId) returns (r: GameRecord)
      requires Sound()
      modifies this`games
      ensures Sound() && r.gameId == id && id in games && games[id] == r
      ensures r.nextPeerId == NextId(old(State()), id)
      ensures State() == WithGame(old(State()), id, if id in old(games) then old(State()).games[id] else NEW_GAME)
      ensures forall g | g in games.Values :: g in old(games.Values) || fresh(g)
    {
      hide NumbersOf, IdsOf;
      if id in games {
        r := games[id];
        assert State().games[id] == r.Value();
        assert State().games == State().games[id := State().games[id]];
      } else {
        hide Sound, State;
        r := MakeGame(id);
        GameIsMapped(id);
      }
    }

    lemma GameIsMapped(id: GameId)
      requires Sound() && id in games
      ensures id in State().games && games[id].nextPeerId == NextId(State(), id)
    {
    }

    method MakeGame(id: GameId) returns (r: GameRecord)
      requires Sound() && id !in games
      modifies this`games
      ensures Sound() && r.gameId == id && games == old(games)[id := r] && fresh(r)
      ensures id !in old(State()).games && r.nextPeerId == 1
      ensures State() == WithGame(old(State()), id, NEW_GAME)
    {
      assert forall c | c in signalConnections :: ConnValid(signalConnections[c]);
      assert forall g | g in games :: GameValid(games[g]);
      hide NumbersOf, IdsOf;
      r := new GameRecord(id);
      games := games[id := r];
      GameAdded(r);
    }

    /** A new record has been put into `games`. */
    twostate lemma GameAdded(new r: GameRecord)
      requires old(Sound()) && r.gameId !in old(games) && games == old(games)[r.gameId := r] && r.Value() == NEW_GAME
      requires signalConnections == old(signalConnections) && all == old(all) && nextWsi == old(nextWsi)
      requires r.peers == map[]
      requires forall c | c in signalConnections :: unchanged(signalConnections[c])
      requires forall g | g in old(games) :: unchanged(old(games[g]))
      ensures Sound()
      ensures State() == WithGame(old(State()), r.gameId, NEW_GAME)
    {
      assert forall c | c in signalConnections :: old(ConnValid(signalConnections[c]));
      assert forall g | g in old(games) :: old(GameValid(games[g]));
      assert State().conns == old(State()).conns;
      assert State().games == old(State()).games[r.gameId := NEW_GAME];
    }

    /** Only connection x and its game have changed. */
    twostate lemma ConnAndGameChanged(x: Connection)
      requires old(Sound()) && old(IsOpen(x)) && unchanged(this)
      requires x.game != null && x.game.gameId in games && games[x.game.gameId] == x.game
      requires forall c | c in signalConnections && c != x.id :: unchanged(signalConnections[c])
      requires forall g | g in games && g != x.game.gameId :: unchanged(games[g])
      requires ConnValid(x) && GameValid(x.game)
      ensures Sound() && State() == WithConn(WithGame(old(State()), x.game.gameId, x.game.Value()), x.id, x.Value())
    {
      var game := x.game;
      assert forall c | c in signalConnections && c != x.id :: signalConnections[c] != x;
      assert State().conns == old(State()).conns[x.id := x.Value()];
      assert State().games == old(State()).games[game.gameId := game.Value()];
      assert forall c | c in signalConnections && c != x.id :: old(ConnValid(signalConnections[c]));
      assert forall g | g in games && g != game.gameId :: old(GameValid(games[g]));
    }

    ghost predicate AllKnown(xs: set<Connection>, peers: map<PeerId, Connection>)
      reads `all
    {
      (forall y | y in xs :: Known(y)) && (forall p | p in peers :: Known(peers[p]))
    }

    lemma RegistrationIsSound(x: Connection, game: GameRecord, peers: map<PeerId, Connection>)
      requires game.gameId in games && games[game.gameId] == game && x.game == game
      requires Known(x) && AllKnown(x.connectedPeers, peers) && AddsOnly(x, game.peers, peers)
      ensures ConnValid(x) && GameValid(game)
    {
    }

    lemma ValuesAreState(x: Connection, game: GameRecord)
      requires Sound() && IsOpen(x) && game.gameId in games && games[game.gameId] == game
      ensures Known(x) && AllKnown(x.connectedPeers, game.peers)
      ensures x.id in State().conns && State().conns[x.id] == x.Value()
      ensures game.gameId in State().games && State().games[game.gameId] == game.Value()
    {
      assert ConnValid(x) && GameValid(game);
    }

    /** The connection takes the next id of the game and is registered under it. */
    method Register(x: Connection, game: GameRecord, flags: Byte)
      requires Sound() && IsOpen(x) && game.gameId in games && games[game.gameId] == game
      modifies x`peerId, x`game, x`webRTCsupport, x`trickleICE, game
      ensures Sound() && State() == Entered(old(State()), x.id, game.gameId, flags)
      ensures x.peerId == old(game.nextPeerId)
    {
      hide Entered, IdsOf, NumbersOf, Known, AllKnown, State, Sound, ConnValid, GameValid;
      AreDistinct(x, game);
      ValuesAreState(x, game);
      ghost var s, was, had, peers := State(), x.Value(), game.Value(), game.peers;
      x.game := game;
      x.peerId := game.Enrol(x);
      x.webRTCsupport := true;
      x.trickleICE := (flags / 2) % 2 == 0;
      RegistrationIsSound(x, game, peers);
      ConnAndGameChanged(x);
      EnteredIs(s, x.id, game.gameId, flags, was, had, game.Value(), x.Value());
    }

    lemma AreDistinct(x: Connection, game: GameRecord)
      requires Sound() && IsOpen(x) && game.gameId in games && games[game.gameId] == game
      ensures forall c | c in signalConnections && c != x.id :: signalConnections[c] != x
      ensures forall g | g in games && g != game.gameId :: games[g] != game
    {
    }

    method ProcessHello(x: Connection, m: Msg) returns (ok: bool)
      requires Sound() && Consistent(State()) && IsOpen(x) && m.Hello?
      modifies this`games, signalConnections.Values, games.Values
      ensures forall g | g in games.Values :: g in old(games.Values) || fresh(g)
      ensures Sound() && x.id in old(State()).conns
      ensures var r := PeerProtocol.ProcessHello(wire, old(State()), x.id, m); State() == r.state && ok == r.keep
    {
      RegisteredHaveGames(x);
      hide Consistent, Sound, Send, Enter, Entered, WithGame;
      if x.peerId != 0 {
        return true;
      }
      if m.flags % 2 == 0 {
        return true;
      }
      if m.game.None? {
        return false;
      }
      var game := FindGame(m.game.value);
      Register(x, game, m.flags);
      SendMessage(x, Welcome(x.peerId));
      EnteredOnDemand(wire, old(State()), x.id, m.game.value, m.flags);
      ok := true;
    }

    /** The cases of processMsg for a connection that has said hello. */
    method ProcessPeerMsg(x: Connection, m: Msg)
      requires Sound() && Consistent(State()) && IsOpen(x) && x.peerId != 0 && !m.Hello?
      modifies signalConnections.Values, games.Values
      ensures Sound() && x.id in old(State()).conns
      ensures State() == Process(wire, old(State()), x.id, m).state
    {
      RegisteredHaveGames(x);
      hide Consistent, Sound, IsOpen, Process, PeerProtocol.ProcessOffer, PeerProtocol.ProcessAnswer,
        PeerProtocol.ProcessAlias, PeerProtocol.ProcessReject, PeerProtocol.Forward, State;
      ProcessCases(wire, State(), x.id, m);
      match m {
        case Offer(_, _, _) => ProcessOffer(x, m);
        case Answer(_, _) => ProcessAnswer(x, m);
        case Candidate(peer, text) => Forward(x, peer, CandidateFrom(x.peerId, text));
        case Reject(_, _) => ProcessReject(x, m);
        case RelayData(peer, data) => Forward(x, peer, DataFrom(x.peerId, Relayed(data)));
        case AliasRegister(_) => ProcessAlias(x, m);
        case AliasUnregister(_) => ProcessAlias(x, m);
        case AliasLookup(_) => ProcessAlias(x, m);
        case Other =>
      }
    }

    /** processMsg */
    method ProcessMsg(x: Connection, m: Msg) returns (ok: bool)
      requires Sound() && Consistent(State()) && IsOpen(x)
      modifies this`games, signalConnections.Values, games.Values
      ensures forall g | g in games.Values :: g in old(games.Values) || fresh(g)
      ensures Sound() && x.id in old(State()).conns
      ensures var r := Process(wire, old(State()), x.id, m); State() == r.state && ok == r.keep
    {
      RegisteredHaveGames(x);
      hide Consistent, Sound, IsOpen, PeerProtocol.ProcessHello, State;
      if x.peerId == 0 && !m.Hello? {
        return false;
      }
      if m.Hello? {
        ok := ProcessHello(x, m);
      } else {
        OthersAreNeverRefused(wire, State(), x.id, m);
        hide Process;
        ProcessPeerMsg(x, m);
        ok := true;
      }
    }

    /** One more event has led from where the trace was to the present state. */
    lemma TraceGrows(before: seq<Event>, s: State, e: Event)
      requires s == After(wire, before) && Consistent(s) && StepFits(wire, s, e)
      ensures After(wire, before + [e]) == Step(wire, s, e).state && Consistent(Step(wire, s, e).state)
    {
      hide After, Step, Consistent, StepFits;
      assert (before + [e])[..|before|] == before;
      LastStep(wire, before + [e]);
      StepKeeps(wire, s, e);
    }

    /** A new connection has been put into signalConnections. */
    twostate lemma ConnAdded(new x: Connection)
      requires old(Sound()) && x.id == old(nextWsi) && x.Value() == NEW_CONN && x.game == null && x.connectedPeers == {}
      requires nextWsi == old(nextWsi) + 1 && all == old(all) + [x] && games == old(games)
      requires signalConnections == old(signalConnections)[x.id := x]
      requires forall c | c in old(signalConnections) :: unchanged(old(signalConnections[c]))
      requires forall g | g in games :: unchanged(games[g])
      ensures Sound()
      ensures State() == PeerProtocol.State.State(old(State()).conns[x.id := NEW_CONN], old(State()).games, old(State()).count + 1)
    {
      assert forall c | c in old(signalConnections) :: old(ConnValid(signalConnections[c]));
      assert forall g | g in games :: old(GameValid(games[g]));
      assert State().conns == old(State()).conns[x.id := NEW_CONN];
      assert State().games == old(State()).games;
    }

    /** LWS_CALLBACK_ESTABLISHED */
    method Established() returns (c: ConnId)
      requires Valid()
      modifies this
      ensures Valid() && trace == old(trace) + [Open] && c == old(nextWsi) && c in signalConnections
    {
      hide After, Consistent, Sound, State;
      TraceGrows(trace, State(), Open);
      var x := new Connection(nextWsi);
      c := x.id;
      nextWsi := nextWsi + 1;
      all := all + [x];
      signalConnections := signalConnections[c := x];
      trace := trace + [Open];
      CountIsNext();
      ConnAdded(x);
    }

    twostate lemma CountIsNext()
      requires old(Sound())
      ensures old(State()).count == old(nextWsi)
    {
    }

    /** One turn of parseMessage; `more` says whether it calls itself again. */
    method ParseMessage(x: Connection) returns (ok: bool, more: bool)
      requires Sound() && Consistent(State()) && IsOpen(x)
      modifies this`games, signalConnections.Values, games.Values
      ensures forall g | g in games.Values :: g in old(games.Values) || fresh(g)
      ensures Sound() && x.id in old(State()).conns && x.recvBuf == BufferAfter(State(), x.id)
      ensures State() == StepHandle(wire, old(State()), x.id).state && ok == StepHandle(wire, old(State()), x.id).keep
      ensures more == (ok && !ParseOne(wire.inbound, old(x.recvBuf)).Partial?)
    {
      RegisteredHaveGames(x);
      hide Consistent, Sound, State, Process, ParseOne;
      match ParseOne(wire.inbound, x.recvBuf) {
        case Partial =>
          ok, more := true, false;
        case Bad =>
          ok, more := false, false;
          SetDoomed(x);
        case Message(m, size) =>
          ok := ProcessMsg(x, m);
          more := ok;
          if ok {
            Erase(x, size);
          } else {
            RefusalsChangeNothing(wire, old(State()), x.id, m);
            SetDoomed(x);
          }
      }
      ValueIsState(x);
    }

    lemma ValueIsState(x: Connection)
      requires Sound() && IsOpen(x)
      ensures x.id in State().conns && x.recvBuf == BufferAfter(State(), x.id) && State().conns[x.id] == x.Value()
    {
    }

    /** The callback is about to return -1. */
    ghost method SetDoomed(x: Connection)
      requires Sound() && IsOpen(x)
      modifies x`doomed
      ensures Sound() && x.id in old(State()).conns && State() == Doom(old(State()), x.id)
    {
      ValueIsState(x);
      assert ConnValid(x);
      x.doomed := true;
      OneConnChanged(x);
    }

    /** recvBuf.erase */
    method Erase(x: Connection, size: nat)
      requires Sound() && IsOpen(x)
      modifies x`recvBuf
      ensures Sound() && State() == Consume(old(State()), x.id, size)
    {
      ValueIsState(x);
      assert ConnValid(x);
      if size <= |x.recvBuf| {
        x.recvBuf := x.recvBuf[size..];
        OneConnChanged(x);
      }
    }

    /** Data has come in for connection x. */
    method Append(x: Connection, data: seq<Byte>)
      requires Sound() && IsOpen(x)
      modifies x`recvBuf
      ensures Sound() && x.id in old(State()).conns && State() == Step(wire, old(State()), Arrive(x.id, data)).state
    {
      ValueIsState(x);
      assert ConnValid(x);
      x.recvBuf := x.recvBuf + data;
      OneConnChanged(x);
    }

    /** The events of a RECEIVE callback: its data, and then one turn of parseMessage after the other. */
    ghost predicate IsReceive(before: seq<Event>, c: ConnId, data: seq<Byte>)
      reads `trace
    {
      && |before| < |trace| && trace[..|before|] == before && trace[|before|] == Arrive(c, data)
      && forall i | |before| < i < |trace| :: trace[i] == Handle(c)
    }

    /** What a RECEIVE callback needs: its turns register nobody under an id that has run out. */
    ghost predicate CanReceive(c: ConnId, data: seq<Byte>)
      reads `signalConnections, `games, `nextWsi, `all, signalConnections.Values, games.Values
      requires Sound()
    {
      var s := Step(wire, State(), Arrive(c, data)).state;
      c in s.conns ==> TurnsFit(wire, s, c)
    }

    /** LWS_CALLBACK_RECEIVE */
    method Receive(c: ConnId, data: seq<Byte>) returns (status: int)
      requires Valid() && CanReceive(c, data)
      modifies this`games, this`trace, signalConnections.Values, games.Values
      ensures Valid() && IsReceive(old(trace), c, data)
      ensures c in signalConnections ==>
                if status == 0 then ParseOne(wire.inbound, signalConnections[c].recvBuf).Partial?
                else status == -1 && signalConnections[c].doomed
      ensures c !in signalConnections ==> status == 0
    {
      ghost var before := trace;
      hide After, Consistent, Sound, State, TurnsFit, ParseOne, Step;
      ArriveFits(wire, State(), c, data);
      TraceGrows(trace, State(), Arrive(c, data));
      trace := trace + [Arrive(c, data)];
      if c !in signalConnections {
        ClosedGetNothing(c, data);
        return 0;
      }
      OpenByKey(c);
      var x := signalConnections[c];
      Append(x, data);
      ValueIsState(x);
      var ok, more := true, true;
      while more
        invariant Valid() && IsOpen(x) && x == signalConnections[c] && IsReceive(before, c, data)
        invariant x.id in State().conns && (more ==> TurnsFit(wire, State(), x.id))
        invariant !more ==> if ok then ParseOne(wire.inbound, x.recvBuf).Partial? else x.doomed
        invariant forall g | g in games.Values :: g in old(games.Values) || fresh(g)
        decreases |x.recvBuf|, more
      {
        ok, more := Turn(x);
      }
      status := if ok then 0 else -1;
    }

    /** One turn of parseMessage as an event of the trace. */
    method Turn(x: Connection) returns (ok: bool, more: bool)
      requires Valid() && IsOpen(x) && x.id in State().conns && TurnsFit(wire, State(), x.id)
      modifies this`games, this`trace, signalConnections.Values, games.Values
      ensures Valid() && x.id in State().conns && (more ==> TurnsFit(wire, State(), x.id))
      ensures trace == old(trace) + [Handle(x.id)]
      ensures |x.recvBuf| <= |old(x.recvBuf)| && (more ==> |x.recvBuf| < |old(x.recvBuf)|)
      ensures !more ==> if ok then ParseOne(wire.inbound, x.recvBuf).Partial? else x.doomed
      ensures forall g | g in games.Values :: g in old(games.Values) || fresh(g)
    {
      hide After, Consistent, Sound, State, ParseOne, Step, StepHandle;
      ValueIsState(x);
      TurnShrinks(wire, State(), x.id);
      TraceGrows(trace, State(), Handle(x.id));
      trace := trace + [Handle(x.id)];
      ok, more := ParseMessage(x);
      ValueIsState(x);
    }

    lemma OpenByKey(c: ConnId)
      requires Sound() && c in signalConnections
      ensures IsOpen(signalConnections[c]) && signalConnections[c].id == c && c in State().conns
    {
    }

    lemma ClosedGetNothing(c: ConnId, data: seq<Byte>)
      requires c !in signalConnections
      ensures Step(wire, State(), Arrive(c, data)).state == State()
    {
    }

    /** The write itself: `room` is what libwebsocket_write answers, at most the size of the buffer counting. */
    method Write(x: Connection, room: int) returns (status: int, written: seq<Byte>)
      requires Sound() && IsOpen(x)
      modifies x`sendBuf, x`pending, x`doomed
      ensures Sound() && x.id in old(State()).conns
      ensures var r := StepWritable(old(State()), x.id, room);
              State() == r.state && written == r.wrote && (status == if r.keep then 0 else -1)
    {
      ValueIsState(x);
      assert ConnValid(x);
      status, written := 0, [];
      x.pending := false;
      if x.sendBuf != [] {
        if room < 0 {
          x.doomed := true;
          status := -1;
        } else {
          var n := if room < |x.sendBuf| then room else |x.sendBuf|;
          written := x.sendBuf[..n];
          x.sendBuf := x.sendBuf[n..];
          if x.sendBuf != [] {
            x.pending := true;  // libwebsocket_callback_on_writable
          }
        }
      }
      OneConnChanged(x);
    }

    /** LWS_CALLBACK_SERVER_WRITEABLE */
    method ServerWriteable(c: ConnId, room: int) returns (status: int, written: seq<Byte>)
      requires Valid()
      modifies this`trace, signalConnections.Values
      ensures Valid() && trace == old(trace) + [Writable(c, room)]
      ensures var r := Step(wire, old(State()), Writable(c, room));
              written == r.wrote && (status == if r.keep then 0 else -1)
    {
      hide After, Consistent, Sound, State, StepWritable, StepFits;
      WritableFits(wire, State(), c, room);
      TraceGrows(trace, State(), Writable(c, room));
      trace := trace + [Writable(c, room)];
      KeysAreOpen(c);
      if c !in signalConnections {
        return -1, [];
      }
      OpenByKey(c);
      status, written := Write(signalConnections[c], room);
    }

    lemma KeysAreOpen(c: ConnId)
      ensures c in State().conns <==> c in signalConnections
    {
    }

    /** x has left signalConnections; its game, if it had one, is the only object that has changed. */
    twostate lemma ConnRemoved(x: Connection)
      requires old(Sound()) && old(IsOpen(x)) && unchanged(x)
      requires signalConnections == old(signalConnections) - {x.id}
      requires games == old(games) && all == old(all) && nextWsi == old(nextWsi)
      requires forall c | c in signalConnections :: unchanged(signalConnections[c])
      requires forall g | g in games && games[g] != x.game :: unchanged(games[g])
      requires x.game != null ==> GameValid(x.game)
      ensures Sound()
      ensures State() == PeerProtocol.State.State(
                old(State()).conns - {x.id},
                if x.game == null then old(State()).games else old(State()).games[x.game.gameId := x.game.Value()],
                old(State()).count)
    {
      assert old(ConnValid(x));
      assert forall c | c in signalConnections :: old(ConnValid(signalConnections[c]));
      assert forall g | g in games :: old(GameValid(games[g]));
      assert State().conns == old(State()).conns - {x.id};
      if x.game == null {
        assert State().games == old(State()).games;
      } else {
        assert State().games == old(State()).games[x.game.gameId := x.game.Value()];
      }
    }

    lemma OwnEntryExists(x: Connection)
      requires Sound() && Consistent(State()) && IsOpen(x) && x.game != null && x.peerId != 0
      ensures x.peerId in x.game.peers && x.game.peers[x.peerId] == x
      ensures GameValid(x.game)
    {
      RegisteredHaveGames(x);
      GameIsItsRecord(x);
      AliasOwnersArePeers(State(), x.id);
      PeerIsLive(x, x.peerId);
      assert GameValid(games[x.game.gameId]);
    }

    /** The registry entries of x go. */
    method LeaveGame(x: Connection)
      requires Sound() && Consistent(State()) && IsOpen(x) && x.peerId != 0
      modifies games.Values
      ensures x.game != null && x.game.gameId in games && games[x.game.gameId] == x.game && GameValid(x.game)
      ensures forall g | g in games && games[g] != x.game :: unchanged(games[g])
      ensures x.game.gameId in old(State()).games
      ensures x.game.Value() == (var had := old(State()).games[x.game.gameId];
                                 had.(peers := had.peers - {x.peerId}, aliases := WithoutValue(had.aliases, x.peerId)))
    {
      RegisteredHaveGames(x);
      StrangersHaveNoGame(State(), x.id);
      hide Consistent, Sound, WithoutValue, State, NumbersOf;
      assert x.game != null;  // as the source asserts
      GameIsItsRecord(x);
      OwnEntryExists(x);
      assert x.peerId in x.game.peers;  // as the source asserts
      assert x.game in games.Values;
      x.game.Forget(x.peerId);
    }

    /** The registry entries of x go, and x with them. */
    method Remove(x: Connection)
      requires Sound() && Consistent(State()) && IsOpen(x)
      modifies this`signalConnections, games.Values
      ensures Sound() && x.id in old(State()).conns && State() == StepClose(old(State()), x.id)
      ensures signalConnections == old(signalConnections) - {x.id}
    {
      RegisteredHaveGames(x);
      ValueIsState(x);
      StrangersHaveNoGame(State(), x.id);
      CloseIs(State(), x.id);
      hide Consistent, Sound, WithoutValue, State, NumbersOf, StepClose;
      if x.peerId != 0 {
        LeaveGame(x);
      }
      signalConnections := signalConnections - {x.id};
      ConnRemoved(x);
    }

    /** LWS_CALLBACK_CLOSED */
    method Closed(c: ConnId)
      requires Valid()
      modifies this`signalConnections, this`trace, games.Values
      ensures Valid() && trace == old(trace) + [Close(c)]
      ensures c !in signalConnections
    {
      hide After, Consistent, Sound, State, StepClose, StepFits;
      CloseFits(wire, State(), c);
      TraceGrows(trace, State(), Close(c));
      trace := trace + [Close(c)];
      KeysAreOpen(c);
      if c !in signalConnections {
        return;
      }
      OpenByKey(c);
      Remove(signalConnections[c]);
    }
  }
}
