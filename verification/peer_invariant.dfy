/**
  What every step of the signalling server keeps: the registry of each game and the set of open
  connections mirror each other, aliases name live peers, and a filled send buffer is always
  waiting for the socket.
 */
module PeerInvariant {
  import opened Bytes
  import opened Optional
  import opened PeerFrames
  import opened PeerProtocol

  predicate Registered(s: State, g: GameId, p: PeerId)
    requires g in s.games && p in s.games[g].peers
  {
    var c := s.games[g].peers[p];
    && c in s.conns && s.conns[c].peerId == p && s.conns[c].game == Some(g)
    && 0 < p < LIMIT32 && (s.games[g].next == 0 || p < s.games[g].next)
  }

  /** Every registered id is that of an open connection, and was issued; every alias is registered to someone. */
  ghost predicate GameOk(s: State, g: GameId)
    requires g in s.games
  {
    && s.games[g].next < LIMIT32
    && (forall p | p in s.games[g].peers :: Registered(s, g, p))
    && (forall a | a in s.games[g].aliases :: s.games[g].aliases[a] in s.games[g].peers)
  }

  /** A connection with an id is registered under it; bytes to send are never forgotten. */
  ghost predicate ConnOk(s: State, c: ConnId)
    requires c in s.conns
  {
    var x := s.conns[c];
    && c < s.count
    && (forall d | d in x.connected :: d < s.count)
    && (if x.peerId == 0 then x.game == None && !x.webRTC
        else
          && x.webRTC && x.game.Some? && x.game.value in s.games
          && x.peerId in s.games[x.game.value].peers && s.games[x.game.value].peers[x.peerId] == c)
    && (x.sendBuf != [] ==> x.pending || x.doomed)
  }

  ghost predicate Consistent(s: State) {
    && (forall g | g in s.games :: GameOk(s, g))
    && (forall c | c in s.conns :: ConnOk(s, c))
  }

  /** `peers[p] == c` exactly when c is an open connection of that game with id p. */
  lemma PeersAreOpenConnections(s: State, g: GameId, p: PeerId, c: ConnId)
    requires Consistent(s) && g in s.games && p != 0
    ensures p in s.games[g].peers && s.games[g].peers[p] == c
            <==> c in s.conns && s.conns[c].game == Some(g) && s.conns[c].peerId == p
    ensures c in s.conns && s.conns[c].peerId == p ==> s.conns[c].webRTC
  {
    assert GameOk(s, g);
    if p in s.games[g].peers {
      assert Registered(s, g, p);
    }
    if c in s.conns {
      assert ConnOk(s, c);
    }
  }

  /** A change of a connection that leaves its registration alone. */
  lemma ConnChangeKeeps(s: State, c: ConnId, x: Conn)
    requires Consistent(s) && c in s.conns
    requires x.peerId == s.conns[c].peerId && x.game == s.conns[c].game && x.webRTC == s.conns[c].webRTC
    requires forall d | d in x.connected :: d < s.count
    requires x.sendBuf != [] ==> x.pending || x.doomed
    ensures Consistent(WithConn(s, c, x))
  {
    var t := WithConn(s, c, x);
    assert ConnOk(s, c);
    forall g | g in t.games ensures GameOk(t, g) {
      assert GameOk(s, g);
      forall p | p in t.games[g].peers ensures Registered(t, g, p) {
        assert Registered(s, g, p);
      }
    }
    forall d | d in t.conns ensures ConnOk(t, d) {
      assert ConnOk(s, d);
    }
  }

  lemma SendKeeps(w: Wire, s: State, to: ConnId, out: Out)
    requires Consistent(s)
    ensures Consistent(Send(w, s, to, out))
  {
    if to in s.conns {
      var x := s.conns[to];
      assert ConnOk(s, to);
      ConnChangeKeeps(s, to, x.(sendBuf := x.sendBuf + Frame(w.outbound, out), pending := x.pending || x.sendBuf == []));
    }
  }

  lemma LinkKeeps(s: State, c: ConnId, other: ConnId)
    requires Consistent(s) && c in s.conns && other in s.conns
    ensures Consistent(Link(s, c, other))
  {
    assert ConnOk(s, c) && ConnOk(s, other);
    ConnChangeKeeps(s, c, s.conns[c].(connected := s.conns[c].connected + {other}));
  }

  lemma AliasChangeKeeps(s: State, c: ConnId, aliases: map<string, PeerId>)
    requires Consistent(s) && c in s.conns
    requires forall a | a in aliases :: aliases[a] in GameOf(s, c).peers
    ensures Consistent(WithAliases(s, c, aliases))
  {
    var t := WithAliases(s, c, aliases);
    forall g | g in t.games ensures GameOk(t, g) {
      assert GameOk(s, g);
      forall p | p in t.games[g].peers ensures Registered(t, g, p) {
        assert Registered(s, g, p);
      }
    }
    forall d | d in t.conns ensures ConnOk(t, d) {
      assert ConnOk(s, d);
    }
  }

  /** The id a HelloServer would take. */
  function NextId(s: State, g: GameId): PeerId { if g in s.games then s.games[g].next else 1 }

  /** The state between registering and the reply. */
  function Entered(s: State, c: ConnId, g: GameId, flags: Byte): State
    requires c in s.conns
  {
    var game := if g in s.games then s.games[g] else NEW_GAME;
    var id := game.next;
    var peers := if id in game.peers then game.peers else game.peers[id := c];
    WithConn(WithGame(s, g, game.(next := Wrap32(id + 1), peers := peers)), c,
             s.conns[c].(peerId := id, game := Some(g), webRTC := true, trickleICE := (flags / 2) % 2 == 0))
  }

  lemma IssuedIsFree(s: State, g: GameId)
    requires Consistent(s) && NextId(s, g) != 0 && g in s.games
    ensures NextId(s, g) !in s.games[g].peers
  {
    assert GameOk(s, g);
    assert NextId(s, g) in s.games[g].peers ==> Registered(s, g, NextId(s, g));
  }

  lemma EnteredGameOk(s: State, c: ConnId, g: GameId, flags: Byte, h: GameId)
    requires Consistent(s) && c in s.conns && s.conns[c].peerId == 0 && NextId(s, g) != 0
    requires h in Entered(s, c, g, flags).games
    ensures GameOk(Entered(s, c, g, flags), h)
  {
    var t := Entered(s, c, g, flags);
    if h in s.games {
      assert GameOk(s, h);
    }
    if g in s.games {
      IssuedIsFree(s, g);
    }
    forall p | p in t.games[h].peers ensures Registered(t, h, p) {
      if h in s.games && p in s.games[h].peers {
        EnteredRegistered(s, c, g, flags, h, p);
      }
    }
  }

  /** A peer that was registered before stays so. */
  lemma EnteredRegistered(s: State, c: ConnId, g: GameId, flags: Byte, h: GameId, p: PeerId)
    requires Consistent(s) && c in s.conns && s.conns[c].peerId == 0 && NextId(s, g) != 0
    requires h in s.games && p in s.games[h].peers
    ensures var t := Entered(s, c, g, flags); p in t.games[h].peers && Registered(t, h, p)
  {
    assert GameOk(s, h);
    assert Registered(s, h, p);
    hide Consistent, GameOk;
  }

  lemma EnteredKeeps(s: State, c: ConnId, g: GameId, flags: Byte)
    requires Consistent(s) && c in s.conns && s.conns[c].peerId == 0 && NextId(s, g) != 0
    ensures Consistent(Entered(s, c, g, flags))
  {
    hide GameOk;
    var t := Entered(s, c, g, flags);
    forall h | h in t.games ensures GameOk(t, h) {
      EnteredGameOk(s, c, g, flags, h);
    }
    if g in s.games {
      IssuedIsFree(s, g);
    }
    forall d | d in t.conns ensures ConnOk(t, d) {
      assert ConnOk(s, d);
    }
  }

  /** Once the 32-bit counter has come round to 0 the next Hello breaks the registry; before that none does. */
  lemma {:induction false} HelloKeepsIffIdsLeft(w: Wire, s: State, c: ConnId, g: GameId, flags: Byte)
    requires Consistent(s) && c in s.conns && s.conns[c].peerId == 0
    ensures Consistent(Enter(w, s, c, g, flags).state) <==> NextId(s, g) != 0
  {
    hide GameOk;
    var t := Entered(s, c, g, flags);
    assert Enter(w, s, c, g, flags).state == Send(w, t, c, Welcome(NextId(s, g)));
    if NextId(s, g) != 0 {
      EnteredKeeps(s, c, g, flags);
      SendKeeps(w, t, c, Welcome(NextId(s, g)));
    } else {
      var u := Enter(w, s, c, g, flags).state;
      assert u.conns[c].peerId == 0 && u.conns[c].game == Some(g);
      assert !ConnOk(u, c);
    }
  }

  lemma PeerIsOpen(s: State, c: ConnId, p: PeerId)
    requires Consistent(s) && c in s.conns && p in GameOf(s, c).peers
    ensures var d := GameOf(s, c).peers[p];
            && d in s.conns && s.conns[d].peerId == p && s.conns[d].game == s.conns[c].game && s.conns[d].webRTC
            && d < s.count && p != 0
  {
    var g := s.conns[c].game.value;
    assert GameOk(s, g) && Registered(s, g, p);
    assert ConnOk(s, GameOf(s, c).peers[p]);
  }

  lemma AliasOwnersArePeers(s: State, c: ConnId)
    requires Consistent(s) && c in s.conns
    ensures forall a | a in GameOf(s, c).aliases :: GameOf(s, c).aliases[a] in GameOf(s, c).peers
    ensures s.conns[c].peerId != 0 ==>
              s.conns[c].peerId in GameOf(s, c).peers && GameOf(s, c).peers[s.conns[c].peerId] == c
  {
    assert ConnOk(s, c);
    if s.conns[c].game.Some? && s.conns[c].game.value in s.games {
      assert GameOk(s, s.conns[c].game.value);
    }
  }

  /** Which Hellos the registry survives. */
  predicate Fits(s: State, c: ConnId, m: Msg) { Accepted(s, c, m) ==> NextId(s, m.game.value) != 0 }

  lemma RelayingKeeps(w: Wire, s: State, c: ConnId, m: Msg)
    requires Consistent(s) && c in s.conns && (m.Offer? || m.Answer?)
    ensures m.Offer? ==> Consistent(ProcessOffer(w, s, c, m).state)
    ensures m.Answer? ==> Consistent(ProcessAnswer(w, s, c, m).state)
  {
    hide Consistent;
    var peers := GameOf(s, c).peers;
    var me := s.conns[c].peerId;
    SendKeeps(w, s, c, NoSuchPeer(m.peer));
    SendKeeps(w, s, c, Refused(m.peer));
    if m.peer in peers {
      PeerIsOpen(s, c, m.peer);
      LinkKeeps(s, c, peers[m.peer]);
      SendKeeps(w, Link(s, c, peers[m.peer]), peers[m.peer],
                if m.Offer? then OfferFrom(me, m.flags, m.text) else AnswerFrom(me, m.text));
    }
  }

  lemma AliasKeeps(w: Wire, s: State, c: ConnId, m: Msg)
    requires Consistent(s) && c in s.conns && s.conns[c].peerId != 0
    requires m.AliasRegister? || m.AliasUnregister? || m.AliasLookup?
    ensures Consistent(ProcessAlias(w, s, c, m).state)
  {
    hide Consistent;
    var aliases := GameOf(s, c).aliases;
    var me := s.conns[c].peerId;
    AliasOwnersArePeers(s, c);
    match m
    case AliasRegister(a) => AliasChangeKeeps(s, c, aliases[a := me]);
    case AliasUnregister(Some(a)) => AliasChangeKeeps(s, c, aliases - {a});
    case AliasUnregister(None) => AliasChangeKeeps(s, c, WithoutValue(aliases, me));
    case AliasLookup(a) => SendKeeps(w, s, c, Resolved(a, if a in aliases then aliases[a] else 0));
  }

  lemma {:induction false} ProcessKeeps(w: Wire, s: State, c: ConnId, m: Msg)
    requires Consistent(s) && c in s.conns && Fits(s, c, m)
    ensures Consistent(Process(w, s, c, m).state)
  {
    hide Consistent, ProcessOffer, ProcessAnswer, ProcessAlias, Enter, Send;
    var peers := GameOf(s, c).peers;
    var me := s.conns[c].peerId;
    if me != 0 || m.Hello? {
      match m
      case Hello(g, flags) => if Accepted(s, c, m) { HelloKeepsIffIdsLeft(w, s, c, g.value, flags); }
      case Offer(_, _, _) => RelayingKeeps(w, s, c, m);
      case Answer(_, _) => RelayingKeeps(w, s, c, m);
      case Candidate(peer, text) => ForwardKeeps(w, s, c, peer, CandidateFrom(me, text));
      case Reject(peer, _) =>
        if peer in peers { SendKeeps(w, s, peers[peer], Refused(me)); }
      case RelayData(peer, data) => ForwardKeeps(w, s, c, peer, DataFrom(me, Relayed(data)));
      case AliasRegister(_) => AliasKeeps(w, s, c, m);
      case AliasUnregister(_) => AliasKeeps(w, s, c, m);
      case AliasLookup(_) => AliasKeeps(w, s, c, m);
      case Other =>
    }
  }

  lemma ForwardKeeps(w: Wire, s: State, c: ConnId, peer: PeerId, out: Out)
    requires Consistent(s)
    ensures Consistent(Forward(w, s, c, peer, out).state)
  {
    hide Consistent;
    var peers := GameOf(s, c).peers;
    SendKeeps(w, s, c, NoSuchPeer(peer));
    if peer in peers {
      SendKeeps(w, s, peers[peer], out);
    }
  }

  lemma CloseKeepsGame(s: State, c: ConnId, g: GameId)
    requires Consistent(s) && c in s.conns && g in s.games
    ensures g in StepClose(s, c).games && GameOk(StepClose(s, c), g)
  {
    var t := StepClose(s, c);
    assert GameOk(s, g) && ConnOk(s, c);
    forall p | p in t.games[g].peers ensures Registered(t, g, p) {
      assert Registered(s, g, p);
      assert s.games[g].peers[p] != c;
    }
  }

  lemma CloseKeepsConn(s: State, c: ConnId, d: ConnId)
    requires Consistent(s) && c in s.conns && d in s.conns && d != c
    ensures ConnOk(StepClose(s, c), d)
  {
    assert ConnOk(s, c) && ConnOk(s, d);
    hide Consistent;
    CloseKeepsOk(s, c, d);
  }

  lemma CloseKeepsOk(s: State, c: ConnId, d: ConnId)
    requires c in s.conns && d in s.conns && d != c && ConnOk(s, c) && ConnOk(s, d)
    ensures ConnOk(StepClose(s, c), d)
  {
    hide WithoutValue;
    var t := StepClose(s, c);
    var x := s.conns[d];
    assert t.conns[d] == x && t.count == s.count;
    if x.peerId != 0 {
      var g := x.game.value;
      assert g in t.games;
      if s.conns[c].peerId != 0 && s.conns[c].game == Some(g) {
        assert x.peerId != s.conns[c].peerId;
        assert t.games[g].peers == s.games[g].peers - {s.conns[c].peerId};
      } else {
        assert t.games[g] == s.games[g];
      }
    }
  }

  lemma {:induction false} CloseKeeps(s: State, c: ConnId)
    requires Consistent(s) && c in s.conns
    ensures Consistent(StepClose(s, c))
  {
    hide GameOk, ConnOk;
    var t := StepClose(s, c);
    forall g | g in t.games ensures GameOk(t, g) {
      CloseKeepsGame(s, c, g);
    }
    forall d | d in t.conns ensures ConnOk(t, d) {
      CloseKeepsConn(s, c, d);
    }
  }

  lemma OpenKeeps(s: State)
    requires Consistent(s)
    ensures s.count !in s.conns
    ensures Consistent(State(s.conns[s.count := NEW_CONN], s.games, s.count + 1))
  {
    var t := State(s.conns[s.count := NEW_CONN], s.games, s.count + 1);
    assert s.count in s.conns ==> ConnOk(s, s.count);
    forall g | g in t.games ensures GameOk(t, g) {
      assert GameOk(s, g);
      forall p | p in t.games[g].peers ensures Registered(t, g, p) {
        assert Registered(s, g, p);
      }
    }
    forall d | d in t.conns ensures ConnOk(t, d) {
      if d != s.count {
        assert ConnOk(s, d);
      }
    }
  }

  /** Only a Hello that finds no id left can break the invariant. */
  predicate StepFits(w: Wire, s: State, e: Event) {
    var m := Handled(w, s, e);
    m.Some? ==> Fits(s, e.conn, m.value)
  }

  lemma WritableKeeps(s: State, c: ConnId, room: int)
    requires Consistent(s) && c in s.conns
    ensures Consistent(StepWritable(s, c, room).state)
  {
    var x := s.conns[c];
    assert ConnOk(s, c);
    if x.sendBuf == [] {
      ConnChangeKeeps(s, c, x.(pending := false));
    } else if room < 0 {
      ConnChangeKeeps(s, c, x.(pending := false, doomed := true));
    } else {
      var n := if room < |x.sendBuf| then room else |x.sendBuf|;
      ConnChangeKeeps(s, c, x.(sendBuf := x.sendBuf[n..], pending := x.sendBuf[n..] != []));
    }
  }

  lemma ArriveKeeps(s: State, c: ConnId, data: seq<Byte>)
    requires Consistent(s) && c in s.conns
    ensures Consistent(WithConn(s, c, s.conns[c].(recvBuf := s.conns[c].recvBuf + data)))
  {
    assert ConnOk(s, c);
    ConnChangeKeeps(s, c, s.conns[c].(recvBuf := s.conns[c].recvBuf + data));
  }

  lemma HandleKeeps(w: Wire, s: State, c: ConnId)
    requires Consistent(s) && c in s.conns && StepFits(w, s, Handle(c))
    ensures Consistent(StepHandle(w, s, c).state)
  {
    hide ParseOne, Process;
    assert ConnOk(s, c);
    ConnChangeKeeps(s, c, s.conns[c].(doomed := true));
    match ParseOne(w.inbound, s.conns[c].recvBuf)
    case Partial =>
    case Bad =>
    case Message(m, size) =>
      ProcessKeeps(w, s, c, m);
      var t := Process(w, s, c, m).state;
      if c in t.conns && size <= |t.conns[c].recvBuf| {
        assert ConnOk(t, c);
        ConnChangeKeeps(t, c, t.conns[c].(recvBuf := t.conns[c].recvBuf[size..]));
      }
  }

  lemma {:induction false} StepKeeps(w: Wire, s: State, e: Event)
    requires Consistent(s) && StepFits(w, s, e)
    ensures Consistent(Step(w, s, e).state)
  {
    hide Consistent, StepHandle, StepWritable, StepClose, StepFits;
    match e
    case Open => OpenKeeps(s);
    case Arrive(c, data) =>
      if c in s.conns { ArriveKeeps(s, c, data); }
    case Handle(c) => if c in s.conns { HandleKeeps(w, s, c); }
    case Writable(c, room) => if c in s.conns { WritableKeeps(s, c, room); }
    case Close(c) => if c in s.conns { CloseKeeps(s, c); }
  }
}
