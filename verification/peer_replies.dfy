/**
  What the signalling server answers (P2PSignalConnection::processMsg in
  src/peer-server/p2p_connection.cpp), said by who is connected and who holds which alias.
 */
module PeerReplies {
  import opened Bytes
  import opened Optional
  import opened PeerFrames
  import opened PeerProtocol
  import opened PeerInvariant
  import opened PeerHistory

  /** Someone in game g is connected under id p. */
  ghost predicate Present(s: State, g: GameId, p: PeerId) {
    exists d :: d in s.conns && s.conns[d].game == Some(g) && s.conns[d].peerId == p
  }

  /** The answer to a question for the owner of an alias: his id, or 0 if there is none. */
  ghost predicate IsOwner(s: State, g: GameId, a: string, p: PeerId) {
    if p == 0 then forall q :: !HasAlias(s, g, a, q) else HasAlias(s, g, a, p) && Present(s, g, p)
  }

  /** Message m of a connection that has said hello is processed in step e. */
  predicate Asks(w: Wire, s: State, e: Event, m: Msg) {
    e.Handle? && e.conn in s.conns && s.conns[e.conn].peerId != 0 && Handled(w, s, e) == Some(m)
  }

  lemma HelloHasGame(s: State, c: ConnId)
    requires Consistent(s) && c in s.conns && s.conns[c].peerId != 0
    ensures s.conns[c].game.Some? && s.conns[c].game.value in s.games
    ensures GameOf(s, c) == s.games[s.conns[c].game.value]
  {
    assert ConnOk(s, c);
  }

  lemma OwnerIsPresent(s: State, g: GameId, a: string, p: PeerId)
    requires Consistent(s) && HasAlias(s, g, a, p)
    ensures p != 0 && Present(s, g, p)
  {
    assert GameOk(s, g);
    assert Registered(s, g, p);
  }

  /** Whoever asks for an alias is told who holds it in his own game. */
  lemma LookupTellsOwner(w: Wire, s: State, e: Event, a: string) returns (p: PeerId)
    requires Consistent(s) && Asks(w, s, e, AliasLookup(a))
    ensures s.conns[e.conn].game.Some? && IsOwner(s, s.conns[e.conn].game.value, a, p)
    ensures Step(w, s, e).sent == Some(Sent(e.conn, Resolved(a, p)))
  {
    HelloHasGame(s, e.conn);
    var g := s.conns[e.conn].game.value;
    var aliases := GameOf(s, e.conn).aliases;
    p := if a in aliases then aliases[a] else 0;
    ProcessIsAlias(w, s, e.conn, AliasLookup(a));
    hide Consistent, ParseOne, Process, Send, Present, WithoutValue, WithAliases;
    if a in aliases {
      OwnerIsPresent(s, g, a, p);
    }
  }

  /** At every point of every run: a lookup is answered with the id of the owner, if there is one. */
  lemma LookupsAreTrue(w: Wire, es: seq<Event>, k: nat, a: string) returns (p: PeerId)
    requires FewHellos(w, es) && k < |es| && Asks(w, After(w, es[..k]), es[k], AliasLookup(a))
    ensures var s := After(w, es[..k]);
            && s.conns[es[k].conn].game.Some? && IsOwner(s, s.conns[es[k].conn].game.value, a, p)
            && At(w, es, k).sent == Some(Sent(es[k].conn, Resolved(a, p)))
  {
    hide After, Step, FewHellos, Consistent, IsOwner;
    FewOnPrefix(w, es, k);
    ConsistentAlways(w, es[..k]);
    p := LookupTellsOwner(w, After(w, es[..k]), es[k], a);
  }

  /** A registration gives the alias to its sender if nobody holds it in his game, and to nobody else. */
  lemma RegistrationTakes(w: Wire, s: State, e: Event, a: string)
    requires Consistent(s) && Asks(w, s, e, AliasRegister(a))
    ensures s.conns[e.conn].game.Some?
    ensures var x, g := s.conns[e.conn], s.conns[e.conn].game.value;
            forall p :: HasAlias(Step(w, s, e).state, g, a, p)
                        <==> HasAlias(s, g, a, p) || (p == x.peerId && forall q :: !HasAlias(s, g, a, q))
  {
    var c := e.conn;
    HelloHasGame(s, c);
    var g, me := s.conns[c].game.value, s.conns[c].peerId;
    hide Consistent, ParseOne, Send, WithAliases, Consume;
    ProcessIsAlias(w, s, c, AliasRegister(a));
    var aliases := GameOf(s, c).aliases;
    var s1 := if a in aliases then s else WithAliases(s, c, aliases[a := me]);
    forall p ensures HasAlias(s1, g, a, p)
                     <==> HasAlias(s, g, a, p) || (p == me && forall q :: !HasAlias(s, g, a, q)) {
      if a !in aliases {
        AliasesAfter(s, c, aliases[a := me], g, a, p);
        assert forall q :: !HasAlias(s, g, a, q);
      } else {
        assert HasAlias(s, g, a, aliases[a]);
      }
    }
    ConsumeKeepsGames(w, s, e, AliasRegister(a));
  }

  lemma ConsumeKeepsGames(w: Wire, s: State, e: Event, m: Msg)
    requires Asks(w, s, e, m) && Process(w, s, e.conn, m).keep
    ensures Step(w, s, e).state.games == Process(w, s, e.conn, m).state.games
  {
    hide ParseOne, Process;
  }

  /** As long as its owner does not let it go, an alias stays with him. */
  lemma {:induction false} AliasStays(w: Wire, es: seq<Event>, i: nat, j: nat, g: GameId, a: string, p: PeerId)
    requires FewHellos(w, es) && i <= j <= |es| && HasAlias(After(w, es[..i]), g, a, p)
    requires forall k | i <= k < j :: !LetsGo(w, After(w, es[..k]), es[k], g, a, p)
    ensures HasAlias(After(w, es[..j]), g, a, p)
    decreases j - i
  {
    hide After, Step, LetsGo, HasAlias, FewHellos;
    if i < j {
      AliasStays(w, es, i, j - 1, g, a, p);
      FewOnPrefix(w, es, j - 1);
      ConsistentAlways(w, es[..j - 1]);
      AliasKeptIff(w, After(w, es[..j - 1]), es[j - 1], g, a, p);
      LastStep(w, es[..j]);
      assert es[..j][..j - 1] == es[..j - 1];
    }
  }

  /**
    Over every run: once a peer has registered an alias that was free in his game, everyone in that
    game who asks for it before he lets it go is told his id.
   */
  lemma RegisteredIsFound(w: Wire, es: seq<Event>, i: nat, j: nat, a: string, g: GameId, p: PeerId)
    requires FewHellos(w, es) && i < j < |es|
    requires Asks(w, After(w, es[..i]), es[i], AliasRegister(a)) && Asks(w, After(w, es[..j]), es[j], AliasLookup(a))
    requires var x := After(w, es[..i]).conns[es[i].conn];
             x.game == Some(g) && x.peerId == p && forall q :: !HasAlias(After(w, es[..i]), g, a, q)
    requires After(w, es[..j]).conns[es[j].conn].game == Some(g)
    requires forall k | i < k < j :: !LetsGo(w, After(w, es[..k]), es[k], g, a, p)
    ensures At(w, es, j).sent == Some(Sent(es[j].conn, Resolved(a, p)))
  {
    hide After, Step, LetsGo, FewHellos, Consistent;
    FewOnPrefix(w, es, i);
    ConsistentAlways(w, es[..i]);
    RegistrationTakes(w, After(w, es[..i]), es[i], a);
    LastStep(w, es[..i + 1]);
    assert es[..i + 1][..i] == es[..i];
    AliasStays(w, es, i + 1, j, g, a, p);
    var q := LookupsAreTrue(w, es, j, a);
    OneOwner(After(w, es[..j]), g, a, p, p);
  }

  // ---------------------------------------------------------------- messages to peers

  /**
    A message for a peer is passed on to the connection it is addressed to; if there is none, its
    sender is told that there is no such peer.  Nobody who is connected is ever reported as refusing.
   */
  lemma NoSuchPeerIff(w: Wire, s: State, c: ConnId, m: Msg)
    requires Consistent(s) && c in s.conns && s.conns[c].peerId != 0 && IsAddressed(m)
    ensures Process(w, s, c, m).keep
    ensures var sent := Process(w, s, c, m).sent;
            if exists d :: Addressed(s, c, m, d) then
              sent.Some? && IsRelay(sent.value.out) && Addressed(s, c, m, sent.value.to)
            else sent == Some(Sent(c, NoSuchPeer(m.peer)))
  {
    hide Consistent, Send, GameOf;
    ZeroIsNobody(s, c);
    var peers := GameOf(s, c).peers;
    if m.peer in peers {
      RegisteredIsAddressed(s, c, m.peer, peers[m.peer]);
      var met := (m.Offer? ==> m.flags % 2 == 0) && (m.Answer? ==> c in s.conns[peers[m.peer]].connected);
      assert Addressed(s, c, m, peers[m.peer]) == met;
    }
    forall d | Addressed(s, c, m, d) ensures m.peer in peers && peers[m.peer] == d {
      RegisteredIsAddressed(s, c, m.peer, d);
    }
  }

  /** A peer is told of a refusal exactly when a peer of his game names him in one, and by whom. */
  lemma RefusalReachesIff(w: Wire, s: State, c: ConnId, m: Msg, d: ConnId, out: Out)
    requires Consistent(s) && c in s.conns && s.conns[c].peerId != 0 && m.Reject?
    ensures Process(w, s, c, m).keep
    ensures Process(w, s, c, m).sent == Some(Sent(d, out))
            <==> && d in s.conns && s.conns[d].game == s.conns[c].game && s.conns[d].peerId == m.peer != 0
                 && (m.reason == PEER_REFUSED || m.reason == NOT_FOUND) && out == Refused(s.conns[c].peerId)
  {
    hide Consistent, Send, GameOf;
    ZeroIsNobody(s, c);
    if m.peer != 0 {
      RegisteredIsAddressed(s, c, m.peer, d);
    }
  }

  /**
    Exactly the first hello of a connection that names a verified game and supports WebRTC is welcomed,
    and the connection then belongs to that game under the id it is told.  One for a game that is not
    verified closes it, and any other hello changes nothing.
   */
  lemma HelloIsWelcomedIff(w: Wire, s: State, c: ConnId, m: Msg)
    requires Consistent(s) && c in s.conns && m.Hello?
    ensures var o := Process(w, s, c, m);
            var first := s.conns[c].peerId == 0 && m.flags % 2 == 1;
            && (o.keep <==> !(first && m.game.None?))
            && (if first && m.game.Some? then
                  && c in o.state.conns && o.state.conns[c].game == m.game && o.state.conns[c].webRTC
                  && o.state.conns[c].trickleICE == (m.flags / 2 % 2 == 0)
                  && o.sent == Some(Sent(c, Welcome(o.state.conns[c].peerId)))
                else o.state == s && o.sent == None)
            && forall d | d != c ::
                 && (d in o.state.conns <==> d in s.conns)
                 && (d in s.conns ==> o.state.conns[d] == s.conns[d])
  {
    hide Consistent, Frame;
  }

  /** Whoever has not said hello gets no answer to anything else, and is closed. */
  lemma StrangersAreClosed(w: Wire, s: State, e: Event, m: Msg)
    requires e.Handle? && e.conn in s.conns && Handled(w, s, e) == Some(m)
    requires s.conns[e.conn].peerId == 0 && !m.Hello?
    ensures var r := Step(w, s, e);
            !r.keep && r.sent == None && r.state.games == s.games && r.state.conns[e.conn].doomed
  {
    hide ParseOne;
    UnknownPeersGetNothing(w, s, e.conn, m);
  }
}
