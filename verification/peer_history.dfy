/**
  What holds over whole runs of the signalling server: ids are never given out twice, answers
  follow offers, relayed messages name their true sender and stay in his game, aliases change
  hands only when their owner lets go, and no byte of a reply is lost or reordered.
 */
module PeerHistory {
  import opened Bytes
  import opened Optional
  import opened PeerFrames
  import opened PeerProtocol
  import opened PeerInvariant

  /* ---- ids ---- */

  predicate HelloInto(w: Wire, s: State, e: Event, g: GameId) {
    var m := Handled(w, s, e);
    m.Some? && Accepted(s, e.conn, m.value) && m.value.game.value == g
  }

  /** How many Hellos a run has accepted into a game. */
  function Hellos(w: Wire, es: seq<Event>, g: GameId): nat {
    if es == [] then 0
    else
      var before := es[..|es| - 1];
      Hellos(w, before, g) + if HelloInto(w, After(w, before), es[|es| - 1], g) then 1 else 0
  }

  /** The ids of a game last for 2^32 - 1 Hellos. */
  ghost predicate FewHellos(w: Wire, es: seq<Event>) { forall g: GameId :: Hellos(w, es, g) < LIMIT32 }

  lemma SendLeavesGames(w: Wire, s: State, to: ConnId, out: Out)
    ensures Send(w, s, to, out).games == s.games && Send(w, s, to, out).count == s.count
  {
  }

  lemma {:induction false} ProcessCounts(w: Wire, s: State, c: ConnId, m: Msg, g: GameId)
    requires c in s.conns
    ensures var t := Process(w, s, c, m).state;
            if Accepted(s, c, m) && m.game.value == g
            then g in t.games && t.games[g].next == Wrap32(NextId(s, g) + 1)
            else NextId(t, g) == NextId(s, g) && (g in t.games <==> g in s.games)
  {
    hide Send, WithoutValue;
    forall s1: State, to, out ensures Send(w, s1, to, out).games == s1.games {
      SendLeavesGames(w, s1, to, out);
    }
  }

  lemma RefusalsChangeNothing(w: Wire, s: State, c: ConnId, m: Msg)
    requires c in s.conns && !Process(w, s, c, m).keep
    ensures Process(w, s, c, m) == Outcome(s, false, None, []) && !Accepted(s, c, m)
  {
    hide Send, GameOf, WithoutValue;
  }

  lemma {:induction false} StepCounts(w: Wire, s: State, e: Event, g: GameId)
    ensures var t := Step(w, s, e).state;
            if HelloInto(w, s, e, g)
            then g in t.games && t.games[g].next == Wrap32(NextId(s, g) + 1)
            else NextId(t, g) == NextId(s, g) && (g in t.games <==> g in s.games)
  {
    hide ParseOne, Process;
    var m := Handled(w, s, e);
    if m.Some? {
      ProcessCounts(w, s, e.conn, m.value, g);
      if !Process(w, s, e.conn, m.value).keep { RefusalsChangeNothing(w, s, e.conn, m.value); }
    }
  }

  lemma ModuloStep(n: nat)
    ensures Wrap32(Wrap32(1 + n) + 1) == Wrap32(1 + (n + 1))
  {
  }

  /** The counter of a game is the number of its Hellos, 32 bits wide. */
  lemma {:induction false} CounterCountsHellos(w: Wire, es: seq<Event>, g: GameId)
    ensures NextId(After(w, es), g) == Wrap32(1 + Hellos(w, es, g))
    ensures g in After(w, es).games || Hellos(w, es, g) == 0
  {
    if es == [] {
      StartOfRun(w);
    } else {
      hide Step, HelloInto, After, Hellos, Wrap32, NextId;
      var before := es[..|es| - 1];
      LastStep(w, es);
      HellosStep(w, es, g);
      CounterCountsHellos(w, before, g);
      StepCounts(w, After(w, before), es[|es| - 1], g);
      ModuloStep(Hellos(w, before, g));
    }
  }

  lemma HellosStep(w: Wire, es: seq<Event>, g: GameId)
    requires es != []
    ensures var before := es[..|es| - 1];
            Hellos(w, es, g)
            == Hellos(w, before, g) + if HelloInto(w, After(w, before), es[|es| - 1], g) then 1 else 0
  {
  }

  lemma StartOfRun(w: Wire)
    ensures After(w, []) == INIT
  {
  }

  lemma LastStep(w: Wire, es: seq<Event>)
    requires es != []
    ensures After(w, es) == Step(w, After(w, es[..|es| - 1]), es[|es| - 1]).state
  {
  }

  lemma InitIsConsistent()
    ensures Consistent(INIT)
  {
  }

  lemma FewBefore(w: Wire, es: seq<Event>)
    requires es != [] && FewHellos(w, es)
    ensures FewHellos(w, es[..|es| - 1])
  {
    var before := es[..|es| - 1];
    forall g: GameId ensures Hellos(w, before, g) < LIMIT32 {
      assert Hellos(w, es, g) < LIMIT32;
    }
  }

  lemma FewHellosFit(w: Wire, es: seq<Event>)
    requires es != [] && FewHellos(w, es)
    ensures StepFits(w, After(w, es[..|es| - 1]), es[|es| - 1])
  {
    hide After;
    var before, e := es[..|es| - 1], es[|es| - 1];
    var s := After(w, before);
    var m := Handled(w, s, e);
    if m.Some? && Accepted(s, e.conn, m.value) {
      var g := m.value.game.value;
      assert Hellos(w, es, g) == Hellos(w, before, g) + 1 < LIMIT32;
      CounterCountsHellos(w, before, g);
    }
  }

  /** The invariant holds in every state a run with ids to spare can reach. */
  lemma {:induction false} ConsistentAlways(w: Wire, es: seq<Event>)
    requires FewHellos(w, es)
    ensures Consistent(After(w, es))
  {
    if es == [] {
      InitIsConsistent();
    } else {
      FewBefore(w, es);
      FewHellosFit(w, es);
      LastStep(w, es);
      ConsistentAlways(w, es[..|es| - 1]);
      StepKeeps(w, After(w, es[..|es| - 1]), es[|es| - 1]);
    }
  }

  lemma {:induction false} BrokenByWrap(w: Wire, s: State, e: Event, g: GameId)
    requires Consistent(s) && HelloInto(w, s, e, g) && NextId(s, g) == 0
    ensures !Consistent(Step(w, s, e).state)
  {
    hide ParseOne, Send, Consistent;
    var m := Handled(w, s, e).value;
    var c := e.conn;
    HelloKeepsIffIdsLeft(w, s, c, g, m.flags);
    var t := Enter(w, s, c, g, m.flags).state;
    EnterLeavesMarks(w, s, c, g, m.flags);
    UnmarkedIsInconsistent(Step(w, s, e).state, c, g);
  }

  lemma EnterLeavesMarks(w: Wire, s: State, c: ConnId, g: GameId, flags: Byte)
    requires c in s.conns
    ensures var t := Enter(w, s, c, g, flags).state;
            c in t.conns && t.conns[c].peerId == NextId(s, g) && t.conns[c].game == Some(g)
            && t.conns[c].recvBuf == s.conns[c].recvBuf
  {
  }

  lemma UnmarkedIsInconsistent(s: State, c: ConnId, g: GameId)
    requires c in s.conns && s.conns[c].peerId == 0 && s.conns[c].game == Some(g)
    ensures !Consistent(s)
  {
    assert !ConnOk(s, c);
  }

  /** The registry is right all along a run exactly when no game runs out of ids. */
  lemma {:induction false} ConsistentThroughoutIff(w: Wire, es: seq<Event>)
    ensures (forall k | 0 <= k <= |es| :: Consistent(After(w, es[..k]))) <==> FewHellos(w, es)
  {
    hide After, Consistent, Hellos;
    if FewHellos(w, es) {
      forall k | 0 <= k <= |es| ensures Consistent(After(w, es[..k])) {
        FewOnPrefix(w, es, k);
        ConsistentAlways(w, es[..k]);
      }
    }
    if forall k | 0 <= k <= |es| :: Consistent(After(w, es[..k])) {
      ConsistentMeansFew(w, es);
    }
  }

  lemma {:induction false} FewOnPrefix(w: Wire, es: seq<Event>, k: nat)
    requires k <= |es| && FewHellos(w, es)
    ensures FewHellos(w, es[..k])
    decreases |es|
  {
    if k < |es| {
      FewBefore(w, es);
      FewOnPrefix(w, es[..|es| - 1], k);
      assert es[..|es| - 1][..k] == es[..k];
    } else {
      assert es[..k] == es;
    }
  }

  lemma {:induction false} ConsistentMeansFew(w: Wire, es: seq<Event>)
    requires forall k | 0 <= k <= |es| :: Consistent(After(w, es[..k]))
    ensures FewHellos(w, es)
    decreases |es|
  {
    hide After, Consistent, Step, HelloInto;
    if es != [] {
      var n := |es| - 1;
      var before := es[..n];
      forall k | 0 <= k <= n ensures Consistent(After(w, before[..k])) {
        assert before[..k] == es[..k];
      }
      ConsistentMeansFew(w, before);
      assert es[..|es|] == es;
      LastStep(w, es);
      forall g: GameId ensures Hellos(w, es, g) < LIMIT32 {
        assert Hellos(w, before, g) < LIMIT32;
        CounterCountsHellos(w, before, g);
        if HelloInto(w, After(w, before), es[n], g) && NextId(After(w, before), g) == 0 {
          BrokenByWrap(w, After(w, before), es[n], g);
        }
      }
    }
  }

  /** n clients say hello to game g, one after the other. */
  function HelloRun(w: Wire, g: GameId, n: nat): seq<Event> {
    if n == 0 then []
    else
      HelloRun(w, g, n - 1)
      + [Open, Arrive(n - 1, Frame(w.inbound, Hello(Some(g), 1))), Handle(n - 1)]
  }

  lemma Drop(es: seq<Event>, a: Event, b: Event, c: Event)
    ensures (es + [a, b, c])[..|es| + 2] == es + [a, b]
    ensures (es + [a, b])[..|es| + 1] == es + [a]
    ensures (es + [a])[..|es|] == es
  {
  }

  lemma {:induction false} HelloRunCounts(w: Wire, g: GameId, n: nat)
    requires RoundTrips(w.inbound, Hello(Some(g), 1))
    ensures Hellos(w, HelloRun(w, g, n), g) == n && After(w, HelloRun(w, g, n)).count == n
  {
    hide After, Hellos, Step, HelloInto, Frame, RoundTrips, ParseOne;
    if n == 0 {
      StartOfRun(w);
      HellosAtStart(w, g);
    } else {
      HelloRunCounts(w, g, n - 1);
      var es := HelloRun(w, g, n - 1);
      var frame := Frame(w.inbound, Hello(Some(g), 1));
      var a, b, c := Open, Arrive(n - 1, frame), Handle(n - 1);
      Drop(es, a, b, c);
      LastStep(w, es + [a]);
      LastStep(w, es + [a, b]);
      LastStep(w, es + [a, b, c]);
      HellosStep(w, es + [a], g);
      HellosStep(w, es + [a, b], g);
      HellosStep(w, es + [a, b, c], g);
      OneHello(w, After(w, es), n - 1, g);
    }
  }

  lemma HellosAtStart(w: Wire, g: GameId)
    ensures Hellos(w, [], g) == 0
  {
  }

  lemma OneHello(w: Wire, s: State, n: nat, g: GameId)
    requires RoundTrips(w.inbound, Hello(Some(g), 1)) && s.count == n
    ensures var frame := Frame(w.inbound, Hello(Some(g), 1));
            var s1 := Step(w, s, Open).state;
            var s2 := Step(w, s1, Arrive(n, frame)).state;
            var s3 := Step(w, s2, Handle(n)).state;
            && !HelloInto(w, s, Open, g) && !HelloInto(w, s1, Arrive(n, frame), g)
            && HelloInto(w, s2, Handle(n), g) && s3.count == n + 1
  {
    hide ParseOne, Frame, Process;
    var frame := Frame(w.inbound, Hello(Some(g), 1));
    FrameParses(w.inbound, Hello(Some(g), 1), []);
    assert frame + [] == frame && [] + frame == frame;
    var s2 := Step(w, Step(w, s, Open).state, Arrive(n, frame)).state;
    assert s2.conns[n].recvBuf == frame;
    CountGrows(w, s2, Handle(n));
  }

  /** There are runs that use a game's ids up, and after one more Hello than it has ids its registry is wrong. */
  lemma {:induction false} IdsCanRunOut(w: Wire, g: GameId)
    requires RoundTrips(w.inbound, Hello(Some(g), 1))
    ensures exists es: seq<Event> :: !Consistent(After(w, es))
  {
    hide After, Consistent, Hellos, HelloRun, RoundTrips;
    var es := HelloRun(w, g, LIMIT32);
    HelloRunCounts(w, g, LIMIT32);
    assert !FewHellos(w, es);
    ConsistentThroughoutIff(w, es);
  }

  /** The n-th Hello of a game is welcomed with id n. */
  lemma {:induction false} IdIsHelloNumber(w: Wire, es: seq<Event>, k: nat, g: GameId)
    requires k < |es| && HelloInto(w, After(w, es[..k]), es[k], g)
    ensures At(w, es, k).sent == Some(Sent(es[k].conn, Welcome(Wrap32(1 + Hellos(w, es[..k], g)))))
  {
    hide After, ParseOne, Send, Hellos;
    CounterCountsHellos(w, es[..k], g);
  }

  lemma {:induction false} HellosGrow(w: Wire, es: seq<Event>, i: nat, j: nat, g: GameId)
    requires i < j <= |es| && HelloInto(w, After(w, es[..i]), es[i], g)
    ensures Hellos(w, es[..i], g) < Hellos(w, es[..j], g)
    decreases j
  {
    hide After, HelloInto;
    assert es[..j][..j - 1] == es[..j - 1];
    if i < j - 1 {
      HellosGrow(w, es, i, j - 1, g);
    }
  }

  /** No id is ever issued twice in a game, not even after its first holder has left. */
  lemma {:induction false} IdsAreNeverReissued(w: Wire, es: seq<Event>, i: nat, j: nat, g: GameId)
    requires FewHellos(w, es) && i < j < |es|
    requires HelloInto(w, After(w, es[..i]), es[i], g) && HelloInto(w, After(w, es[..j]), es[j], g)
    ensures At(w, es, i).sent.Some? && At(w, es, j).sent.Some?
    ensures var a, b := At(w, es, i).sent.value.out, At(w, es, j).sent.value.out;
            a.Welcome? && b.Welcome? && 0 < a.id < b.id
  {
    hide After, HelloInto, At;
    IdIsHelloNumber(w, es, i, g);
    IdIsHelloNumber(w, es, j, g);
    HellosGrow(w, es, i, j, g);
    HellosGrow(w, es, j, |es|, g);
    assert es[..|es|] == es;
    assert Hellos(w, es, g) < LIMIT32;
  }

  /* ---- relaying ---- */

  /** `out` is what message m becomes on its way from the peer with id `sender`. */
  predicate Carries(m: Msg, out: Out, sender: PeerId) {
    match m
    case Offer(_, flags, text) => out == OfferFrom(sender, flags, text)
    case Answer(_, text) => out == AnswerFrom(sender, text)
    case Candidate(_, text) => out == CandidateFrom(sender, text)
    case RelayData(_, data) => out == DataFrom(sender, Relayed(data))
    case _ => false
  }

  predicate IsAddressed(m: Msg) { m.Offer? || m.Answer? || m.Candidate? || m.RelayData? }

  /** Connection d is the peer of c's game that message m is addressed to. */
  predicate Addressed(s: State, c: ConnId, m: Msg, d: ConnId)
    requires IsAddressed(m) && c in s.conns
  {
    && d in s.conns && s.conns[d].game == s.conns[c].game && s.conns[d].peerId == m.peer != 0
    && (m.Offer? ==> m.flags % 2 == 0)
    && (m.Answer? ==> c in s.conns[d].connected)
  }

  lemma RegisteredIsAddressed(s: State, c: ConnId, p: PeerId, d: ConnId)
    requires Consistent(s) && c in s.conns && s.conns[c].peerId != 0 && p != 0
    ensures p in GameOf(s, c).peers && GameOf(s, c).peers[p] == d
            <==> d in s.conns && s.conns[d].game == s.conns[c].game && s.conns[d].peerId == p
    ensures p in GameOf(s, c).peers ==> GameOf(s, c).peers[p] in s.conns && s.conns[GameOf(s, c).peers[p]].webRTC
  {
    assert ConnOk(s, c);
    var g := s.conns[c].game.value;
    PeersAreOpenConnections(s, g, p, d);
    if p in GameOf(s, c).peers {
      PeerIsOpen(s, c, p);
    }
  }

  lemma ZeroIsNobody(s: State, c: ConnId)
    requires Consistent(s) && c in s.conns
    ensures 0 !in GameOf(s, c).peers
  {
    if s.conns[c].game.Some? && s.conns[c].game.value in s.games {
      var g := s.conns[c].game.value;
      assert GameOk(s, g);
      assert forall p | p in s.games[g].peers :: Registered(s, g, p);
    }
  }

  /**
    A message is passed on to a connection exactly when that connection is the addressed peer of
    the sender's own game, and then it carries the sender's own id and contents.
   */
  lemma {:induction false} RelayedIffAddressed(w: Wire, s: State, c: ConnId, m: Msg, d: ConnId, out: Out)
    requires Consistent(s) && c in s.conns && s.conns[c].peerId != 0 && IsAddressed(m)
    ensures Process(w, s, c, m).sent == Some(Sent(d, out)) && IsRelay(out)
            <==> Addressed(s, c, m, d) && Carries(m, out, s.conns[c].peerId)
  {
    hide Consistent, Send, GameOf;
    ZeroIsNobody(s, c);
    if m.peer != 0 {
      RegisteredIsAddressed(s, c, m.peer, d);
      if m.peer in GameOf(s, c).peers {
        RegisteredIsAddressed(s, c, m.peer, GameOf(s, c).peers[m.peer]);
      }
    }
  }

  lemma OnlyAddressedIsRelayed(w: Wire, s: State, c: ConnId, m: Msg)
    requires c in s.conns && Process(w, s, c, m).sent.Some? && IsRelay(Process(w, s, c, m).sent.value.out)
    ensures IsAddressed(m) && s.conns[c].peerId != 0
  {
    hide Send, WithoutValue, GameOf;
  }

  lemma {:induction false} SentByProcess(w: Wire, s: State, e: Event)
    ensures var r := Step(w, s, e);
            r.sent.Some? ==>
              && Handled(w, s, e).Some? && e.conn in s.conns
              && r.sent == Process(w, s, e.conn, Handled(w, s, e).value).sent
  {
    hide ParseOne, Process;
  }

  /** Every relayed message of a run names its true sender and stays within the sender's game. */
  lemma {:induction false} RelaysAreTrue(w: Wire, es: seq<Event>, k: nat)
    requires FewHellos(w, es) && k < |es|
    requires At(w, es, k).sent.Some? && IsRelay(At(w, es, k).sent.value.out)
    ensures var s := After(w, es[..k]);
            var sent := At(w, es, k).sent.value;
            && es[k].Handle? && es[k].conn in s.conns && sent.to in s.conns
            && sent.out.sender == s.conns[es[k].conn].peerId != 0
            && s.conns[es[k].conn].game == s.conns[sent.to].game != None
            && Handled(w, s, es[k]).Some? && Carries(Handled(w, s, es[k]).value, sent.out, sent.out.sender)
  {
    hide After, Step, Process, FewHellos, ParseOne;
    FewOnPrefix(w, es, k);
    ConsistentAlways(w, es[..k]);
    var s := After(w, es[..k]);
    SentByProcess(w, s, es[k]);
    var c := es[k].conn;
    var m := Handled(w, s, es[k]).value;
    var sent := At(w, es, k).sent.value;
    OnlyAddressedIsRelayed(w, s, c, m);
    RelayedIffAddressed(w, s, c, m, sent.to, sent.out);
    assert ConnOk(s, c);
  }

  /* ---- answers follow offers ---- */

  /** Step k passed an offer of connection a on to connection b. */
  predicate OfferedAt(w: Wire, es: seq<Event>, k: nat, a: ConnId, b: ConnId) {
    && k < |es| && es[k].Handle? && es[k].conn == a
    && At(w, es, k).sent.Some? && At(w, es, k).sent.value.to == b && At(w, es, k).sent.value.out.OfferFrom?
  }

  ghost predicate Negotiated(w: Wire, es: seq<Event>, a: ConnId, b: ConnId) {
    exists k: nat :: OfferedAt(w, es, k, a, b) || OfferedAt(w, es, k, b, a)
  }

  lemma SendLeavesLinks(w: Wire)
    ensures forall s: State, to, out, x :: ConnectedOf(Send(w, s, to, out), x) == ConnectedOf(s, x)
    ensures forall s: State, to, out :: Send(w, s, to, out).conns.Keys == s.conns.Keys
  {
  }

  lemma {:induction false} ProcessLinks(w: Wire, s: State, c: ConnId, m: Msg, x: ConnId, y: ConnId)
    requires c in s.conns
    ensures var r := Process(w, s, c, m);
            y in ConnectedOf(r.state, x) && y !in ConnectedOf(s, x) ==>
              && x == c && r.keep && r.sent.Some? && r.sent.value.to == y
              && (r.sent.value.out.OfferFrom? || (r.sent.value.out.AnswerFrom? && x in ConnectedOf(s, y)))
  {
    hide Send, GameOf, WithoutValue;
    SendLeavesLinks(w);
  }

  lemma {:induction false} LinksComeFromOffers(w: Wire, s: State, e: Event, x: ConnId, y: ConnId)
    requires y in ConnectedOf(Step(w, s, e).state, x) && y !in ConnectedOf(s, x)
    ensures e == Handle(x) && Step(w, s, e).sent.Some? && Step(w, s, e).sent.value.to == y
    ensures Step(w, s, e).sent.value.out.OfferFrom?
            || (Step(w, s, e).sent.value.out.AnswerFrom? && x in ConnectedOf(s, y))
  {
    hide ParseOne, Process;
    var m := Handled(w, s, e);
    if m.Some? {
      ProcessLinks(w, s, e.conn, m.value, x, y);
    }
  }

  lemma {:induction false} AnswersNeedLinks(w: Wire, s: State, e: Event)
    requires Step(w, s, e).sent.Some? && Step(w, s, e).sent.value.out.AnswerFrom?
    ensures e.Handle? && e.conn in ConnectedOf(s, Step(w, s, e).sent.value.to)
  {
    hide ParseOne, GameOf, WithoutValue, Send;
    SentByProcess(w, s, e);
  }

  lemma EarlierStep(w: Wire, es: seq<Event>, k: nat)
    requires k + 1 < |es|
    ensures At(w, es, k) == At(w, es[..|es| - 1], k)
  {
    assert es[..|es| - 1][..k] == es[..k];
  }

  lemma NegotiatedBefore(w: Wire, es: seq<Event>, a: ConnId, b: ConnId)
    requires es != [] && Negotiated(w, es[..|es| - 1], a, b)
    ensures Negotiated(w, es, a, b)
  {
    hide At;
    var before := es[..|es| - 1];
    var k: nat :| OfferedAt(w, before, k, a, b) || OfferedAt(w, before, k, b, a);
    EarlierStep(w, es, k);
    assert OfferedAt(w, es, k, a, b) || OfferedAt(w, es, k, b, a);
  }

  /** Two connections are linked only if an offer was passed on between them, one way or the other. */
  lemma {:induction false} LinkedMeansNegotiated(w: Wire, es: seq<Event>, x: ConnId, y: ConnId)
    requires y in ConnectedOf(After(w, es), x)
    ensures Negotiated(w, es, x, y)
    decreases |es|
  {
    hide Step, After, Negotiated;
    if es == [] {
      StartOfRun(w);
    } else {
      var n := |es| - 1;
      var before := es[..n];
      var s := After(w, before);
      LastStep(w, es);
      if y in ConnectedOf(s, x) {
        LinkedMeansNegotiated(w, before, x, y);
        NegotiatedBefore(w, es, x, y);
      } else {
        LinksComeFromOffers(w, s, es[n], x, y);
        if At(w, es, n).sent.value.out.OfferFrom? {
          OfferWitness(w, es, n, x, y);
        } else {
          LinkedMeansNegotiated(w, before, y, x);
          NegotiatedBefore(w, es, y, x);
          NegotiatedEitherWay(w, es, y, x);
        }
      }
    }
  }

  lemma OfferWitness(w: Wire, es: seq<Event>, k: nat, a: ConnId, b: ConnId)
    requires OfferedAt(w, es, k, a, b)
    ensures Negotiated(w, es, a, b)
  {
  }

  lemma NegotiatedEitherWay(w: Wire, es: seq<Event>, a: ConnId, b: ConnId)
    requires Negotiated(w, es, a, b)
    ensures Negotiated(w, es, b, a)
  {
    var k: nat :| OfferedAt(w, es, k, a, b) || OfferedAt(w, es, k, b, a);
    assert OfferedAt(w, es, k, b, a) || OfferedAt(w, es, k, a, b);
  }

  /** An answer is passed on only after an accepted offer between the same two connections. */
  lemma {:induction false} AnswerFollowsOffer(w: Wire, es: seq<Event>, k: nat)
    requires k < |es| && At(w, es, k).sent.Some? && At(w, es, k).sent.value.out.AnswerFrom?
    ensures es[k].Handle? && Negotiated(w, es[..k], At(w, es, k).sent.value.to, es[k].conn)
  {
    hide Step, After, Negotiated;
    AnswersNeedLinks(w, After(w, es[..k]), es[k]);
    LinkedMeansNegotiated(w, es[..k], At(w, es, k).sent.value.to, es[k].conn);
  }

  /* ---- aliases ---- */

  predicate HasAlias(s: State, g: GameId, a: string, p: PeerId) {
    g in s.games && a in s.games[g].aliases && s.games[g].aliases[a] == p
  }

  /** In this step the connection with id p in game g gives alias a up: it unregisters it, or all, or closes. */
  predicate LetsGo(w: Wire, s: State, e: Event, g: GameId, a: string, p: PeerId) {
    && !e.Open? && e.conn in s.conns && s.conns[e.conn].peerId == p && s.conns[e.conn].game == Some(g)
    && (e.Close? || var m := Handled(w, s, e);
                    m == Some(AliasUnregister(Some(a))) || m == Some(AliasUnregister(None)))
  }

  lemma AliasesAfter(s: State, c: ConnId, aliases: map<string, PeerId>, g: GameId, a: string, p: PeerId)
    requires c in s.conns && s.conns[c].game.Some? && s.conns[c].game.value in s.games
    requires g in s.games
    ensures HasAlias(WithAliases(s, c, aliases), g, a, p)
            <==> if s.conns[c].game == Some(g) then a in aliases && aliases[a] == p else HasAlias(s, g, a, p)
  {
  }

  lemma {:induction false} AliasMessageKeepsIff(w: Wire, s: State, c: ConnId, m: Msg, g: GameId, a: string, p: PeerId)
    requires Consistent(s) && c in s.conns && s.conns[c].peerId != 0 && HasAlias(s, g, a, p)
    requires m.AliasRegister? || m.AliasUnregister? || m.AliasLookup?
    ensures HasAlias(ProcessAlias(w, s, c, m).state, g, a, p)
            <==> !(s.conns[c].peerId == p && s.conns[c].game == Some(g)
                   && (m == AliasUnregister(Some(a)) || m == AliasUnregister(None)))
  {
    assert ConnOk(s, c);
    hide Send, Consistent, ConnOk, WithAliases;
    SendIsQuiet(w);
    var aliases := GameOf(s, c).aliases;
    var me := s.conns[c].peerId;
    match m
    case AliasRegister(b) => AliasesAfter(s, c, aliases[b := me], g, a, p);
    case AliasUnregister(Some(b)) => AliasesAfter(s, c, aliases - {b}, g, a, p);
    case AliasUnregister(None) => AliasesAfter(s, c, WithoutValue(aliases, me), g, a, p);
    case AliasLookup(_) =>
  }

  lemma SendIsQuiet(w: Wire)
    ensures forall s: State, to, out :: Send(w, s, to, out).games == s.games
  {
  }

  lemma {:induction false} OtherMessagesKeepAliases(w: Wire, s: State, c: ConnId, m: Msg, g: GameId, a: string, p: PeerId)
    requires c in s.conns && HasAlias(s, g, a, p)
    requires !(m.AliasRegister? || m.AliasUnregister? || m.AliasLookup?)
    ensures HasAlias(Process(w, s, c, m).state, g, a, p)
  {
    hide Send, GameOf;
    SendIsQuiet(w);
  }

  lemma CloseKeepsAliasIff(s: State, c: ConnId, g: GameId, a: string, p: PeerId)
    requires Consistent(s) && c in s.conns && HasAlias(s, g, a, p)
    ensures HasAlias(StepClose(s, c), g, a, p) <==> !(s.conns[c].peerId == p && s.conns[c].game == Some(g))
  {
    assert ConnOk(s, c) && GameOk(s, g);
    assert Registered(s, g, p);
  }

  lemma {:induction false} HandleKeepsAliasIff(w: Wire, s: State, c: ConnId, g: GameId, a: string, p: PeerId)
    requires Consistent(s) && c in s.conns && HasAlias(s, g, a, p)
    ensures HasAlias(StepHandle(w, s, c).state, g, a, p) <==> !LetsGo(w, s, Handle(c), g, a, p)
  {
    hide Consistent, ParseOne, Process, ProcessAlias;
    var m := Handled(w, s, Handle(c));
    if m.Some? {
      if m.value.AliasRegister? || m.value.AliasUnregister? || m.value.AliasLookup? {
        if s.conns[c].peerId != 0 {
          AliasMessageKeepsIff(w, s, c, m.value, g, a, p);
          ProcessIsAlias(w, s, c, m.value);
        } else {
          UnknownPeersGetNothing(w, s, c, m.value);
          OwnerIsNotZero(s, g, a, p);
        }
      } else {
        OtherMessagesKeepAliases(w, s, c, m.value, g, a, p);
      }
    }
  }

  lemma ProcessIsAlias(w: Wire, s: State, c: ConnId, m: Msg)
    requires c in s.conns && s.conns[c].peerId != 0 && (m.AliasRegister? || m.AliasUnregister? || m.AliasLookup?)
    ensures Process(w, s, c, m) == ProcessAlias(w, s, c, m) && Process(w, s, c, m).keep
  {
    hide Send, GameOf;
  }

  lemma UnknownPeersGetNothing(w: Wire, s: State, c: ConnId, m: Msg)
    requires c in s.conns && s.conns[c].peerId == 0 && !m.Hello?
    ensures Process(w, s, c, m) == Outcome(s, false, None, [])
  {
  }

  lemma OwnerIsNotZero(s: State, g: GameId, a: string, p: PeerId)
    requires Consistent(s) && HasAlias(s, g, a, p)
    ensures p != 0
  {
    assert GameOk(s, g);
    assert Registered(s, g, p);
  }

  /** An alias stays with its owner through a step unless, and only unless, the owner lets it go. */
  lemma {:induction false} AliasKeptIff(w: Wire, s: State, e: Event, g: GameId, a: string, p: PeerId)
    requires Consistent(s) && HasAlias(s, g, a, p)
    ensures HasAlias(Step(w, s, e).state, g, a, p) <==> !LetsGo(w, s, e, g, a, p)
  {
    hide Consistent, StepHandle, StepClose;
    match e
    case Open =>
    case Arrive(_, _) =>
    case Handle(c) => if c in s.conns { HandleKeepsAliasIff(w, s, c, g, a, p); }
    case Writable(_, _) =>
    case Close(c) => if c in s.conns { CloseKeepsAliasIff(s, c, g, a, p); }
  }

  /** Whoever holds an alias later than p does, p has let go of it in between. */
  lemma {:induction false} AliasChangesHandsOnlyIfLetGo(w: Wire, es: seq<Event>, i: nat, j: nat, g: GameId, a: string, p: PeerId, q: PeerId)
    requires FewHellos(w, es) && i <= j <= |es| && p != q
    requires HasAlias(After(w, es[..i]), g, a, p) && HasAlias(After(w, es[..j]), g, a, q)
    ensures exists k :: i <= k < j && LetsGo(w, After(w, es[..k]), es[k], g, a, p)
    decreases j - i
  {
    hide After, Step, LetsGo, HasAlias, FewHellos;
    if i == j {
      OneOwner(After(w, es[..i]), g, a, p, q);
    } else {
      FewOnPrefix(w, es, i);
      ConsistentAlways(w, es[..i]);
      var s := After(w, es[..i]);
      AliasKeptIff(w, s, es[i], g, a, p);
      if !LetsGo(w, s, es[i], g, a, p) {
        LastStep(w, es[..i + 1]);
        assert es[..i + 1][..i] == es[..i];
        AliasChangesHandsOnlyIfLetGo(w, es, i + 1, j, g, a, p, q);
      }
    }
  }

  lemma OneOwner(s: State, g: GameId, a: string, p: PeerId, q: PeerId)
    requires HasAlias(s, g, a, p) && HasAlias(s, g, a, q)
    ensures p == q
  {
  }

  /* ---- the bytes on the wire ---- */

  /** Every message sendMessage was given for connection c, in order. */
  function SentTo(w: Wire, es: seq<Event>, c: ConnId): seq<Out> {
    if es == [] then []
    else
      var sent := At(w, es, |es| - 1).sent;
      SentTo(w, es[..|es| - 1], c) + if sent.Some? && sent.value.to == c then [sent.value.out] else []
  }

  /** Every byte the socket of connection c took, in order. */
  function WrittenTo(w: Wire, es: seq<Event>, c: ConnId): seq<Byte> {
    if es == [] then []
    else
      WrittenTo(w, es[..|es| - 1], c)
      + if es[|es| - 1].Writable? && es[|es| - 1].conn == c then At(w, es, |es| - 1).wrote else []
  }

  function BufOf(s: State, c: ConnId): seq<Byte> { if c in s.conns then s.conns[c].sendBuf else [] }

  function PayloadFor(w: Wire, sent: Option<Sent>, c: ConnId): seq<Byte> {
    if sent.Some? && sent.value.to == c then Frame(w.outbound, sent.value.out) else []
  }

  lemma {:induction false} SendAppends(w: Wire, s: State, to: ConnId, out: Out, c: ConnId)
    requires to in s.conns
    ensures var t := Send(w, s, to, out);
            && t.conns.Keys == s.conns.Keys
            && BufOf(t, c) == BufOf(s, c) + PayloadFor(w, Some(Sent(to, out)), c)
  {
  }

  lemma {:induction false} ReplyAppends(w: Wire, s: State, s1: State, to: ConnId, out: Out, c: ConnId)
    requires s1.conns.Keys == s.conns.Keys && to in s.conns && BufOf(s1, c) == BufOf(s, c)
    ensures var r := Reply(w, s1, to, out);
            && r.state.conns.Keys == s.conns.Keys
            && BufOf(r.state, c) == BufOf(s, c) + PayloadFor(w, r.sent, c)
  {
    SendAppends(w, s1, to, out, c);
  }

  /** A processed message adds its reply, framed, to the buffer of the addressee and nothing to any other. */
  lemma {:induction false} ProcessAppends(w: Wire, s: State, c: ConnId, m: Msg, d: ConnId)
    requires Consistent(s) && c in s.conns
    ensures var r := Process(w, s, c, m);
            && r.state.conns.Keys == s.conns.Keys
            && BufOf(r.state, d) == BufOf(s, d) + PayloadFor(w, r.sent, d)
            && (r.sent.Some? ==> r.sent.value.to in s.conns)
            && (!r.keep ==> r.sent == None)
  {
    hide Consistent, Send, Reply, PayloadFor, GameOf, Frame;
    forall p | p in GameOf(s, c).peers ensures GameOf(s, c).peers[p] in s.conns {
      PeerIsOpen(s, c, p);
    }
    forall s1: State, to, out | s1.conns.Keys == s.conns.Keys && to in s.conns && BufOf(s1, d) == BufOf(s, d)
      ensures var r := Reply(w, s1, to, out);
              && r.state.conns.Keys == s.conns.Keys
              && BufOf(r.state, d) == BufOf(s, d) + PayloadFor(w, r.sent, d)
              && r.sent == Some(Sent(to, out)) && r.keep
    {
      ReplyAppends(w, s, s1, to, out, d);
      ReplySends(w, s1, to, out);
    }
    NoPayload(w, d);
  }

  lemma ReplySends(w: Wire, s: State, to: ConnId, out: Out)
    ensures Reply(w, s, to, out).sent == Some(Sent(to, out)) && Reply(w, s, to, out).keep
  {
  }

  lemma NoPayload(w: Wire, c: ConnId)
    ensures PayloadFor(w, None, c) == []
  {
  }

  /** One step moves bytes from the buffer to the socket and appends replies; it loses nothing. */
  lemma {:induction false} StepConserves(w: Wire, s: State, e: Event, c: ConnId)
    requires Consistent(s) && c in Step(w, s, e).state.conns
    ensures var r := Step(w, s, e);
            (if e.Writable? && e.conn == c then r.wrote else []) + BufOf(r.state, c)
            == BufOf(s, c) + PayloadFor(w, r.sent, c)
  {
    hide Consistent, Process, ParseOne, PayloadFor;
    NoPayload(w, c);
    var m := Handled(w, s, e);
    if m.Some? {
      ProcessAppends(w, s, e.conn, m.value, c);
    } else if e.Open? {
      OpenKeeps(s);
    }
  }

  lemma StepPrefix(w: Wire, es: seq<Event>, c: ConnId)
    requires es != []
    ensures var last := At(w, es, |es| - 1);
            && SentTo(w, es, c) == SentTo(w, es[..|es| - 1], c)
                                   + (if last.sent.Some? && last.sent.value.to == c then [last.sent.value.out] else [])
            && WrittenTo(w, es, c) == WrittenTo(w, es[..|es| - 1], c)
                                      + (if es[|es| - 1].Writable? && es[|es| - 1].conn == c then last.wrote else [])
            && After(w, es) == last.state
  {
  }

  lemma FramesAppend(k: Codec<Out>, outs: seq<Out>, out: Out)
    ensures Frames(k, outs + [out]) == Frames(k, outs) + Frame(k, out)
  {
    hide Frame;
    assert (outs + [out])[..|outs|] == outs;
  }

  /** With x sent before, y to come, a written before, b now and c left, the balance moves on. */
  lemma Balance(a: seq<Byte>, b: seq<Byte>, left: seq<Byte>, buf: seq<Byte>, x: seq<Byte>, y: seq<Byte>)
    requires a + buf == x && b + left == buf + y
    ensures (a + b) + left == x + y
  {
    assert (a + b) + left == a + (b + left) == a + (buf + y) == (a + buf) + y;
  }

  lemma NothingBeforeOpen(w: Wire, es: seq<Event>, c: ConnId)
    requires FewHellos(w, es) && c >= After(w, es).count
    ensures SentTo(w, es, c) == [] && WrittenTo(w, es, c) == []
  {
    hide After, Step, SentTo, WrittenTo, FewHellos, Consistent, Process;
    if es == [] {
      NothingAtStart(w, c);
    } else {
      var n := |es| - 1;
      StepPrefix(w, es, c);
      LastStep(w, es);
      FewBefore(w, es);
      ConsistentAlways(w, es[..n]);
      var s := After(w, es[..n]);
      CountGrows(w, s, es[n]);
      NothingBeforeOpen(w, es[..n], c);
      FutureIsClosed(s, c);
      OnlyOpenAreServed(w, s, es[n], c);
    }
  }

  lemma FutureIsClosed(s: State, c: ConnId)
    requires Consistent(s) && c >= s.count
    ensures c !in s.conns
  {
    assert c in s.conns ==> ConnOk(s, c);
  }

  lemma NothingAtStart(w: Wire, c: ConnId)
    ensures SentTo(w, [], c) == [] && WrittenTo(w, [], c) == []
  {
  }

  lemma CountGrows(w: Wire, s: State, e: Event)
    ensures Step(w, s, e).state.count == s.count + if e.Open? then 1 else 0
  {
    hide ParseOne, Process;
    var m := Handled(w, s, e);
    if m.Some? {
      ProcessKeepsCount(w, s, e.conn, m.value);
    }
  }

  lemma ProcessKeepsCount(w: Wire, s: State, c: ConnId, m: Msg)
    requires c in s.conns
    ensures Process(w, s, c, m).state.count == s.count
  {
    hide Send, GameOf, WithoutValue;
    forall s1: State, to, out ensures Send(w, s1, to, out).count == s1.count {
      SendLeavesGames(w, s1, to, out);
    }
  }

  lemma OnlyOpenAreServed(w: Wire, s: State, e: Event, c: ConnId)
    requires Consistent(s) && c !in s.conns
    ensures var r := Step(w, s, e);
            && !(r.sent.Some? && r.sent.value.to == c)
            && (e.Writable? && e.conn == c ==> r.wrote == [])
  {
    hide Consistent, Process, ParseOne;
    var m := Handled(w, s, e);
    if m.Some? {
      ProcessAppends(w, s, e.conn, m.value, c);
      SentByProcess(w, s, e);
    }
  }

  /**
    What the socket of a connection has taken, followed by what waits in its buffer, is the
    concatenation of everything the server ever sent to it, partial writes and all.
   */
  lemma {:induction false} BytesAreConserved(w: Wire, es: seq<Event>, c: ConnId)
    requires FewHellos(w, es) && c in After(w, es).conns
    ensures WrittenTo(w, es, c) + BufOf(After(w, es), c) == Frames(w.outbound, SentTo(w, es, c))
    decreases |es|
  {
    hide After, Step, SentTo, WrittenTo, FewHellos, Consistent, BufOf, Frames;
    if es == [] {
      StartOfRun(w);
    } else {
      var n := |es| - 1;
      var before, e := es[..n], es[n];
      var s := After(w, before);
      FewBefore(w, es);
      ConsistentAlways(w, before);
      StepPrefix(w, es, c);
      LastStep(w, es);
      StepConserves(w, s, e, c);
      ConnsComeFromOpen(w, s, e, c);
      if c in s.conns {
        BytesAreConserved(w, before, c);
      } else {
        BufferedSoFar(w, before, c);
      }
      var r := Step(w, s, e);
      Balance(WrittenTo(w, before, c), if e.Writable? && e.conn == c then r.wrote else [],
              BufOf(r.state, c), BufOf(s, c), Frames(w.outbound, SentTo(w, before, c)), PayloadFor(w, r.sent, c));
      PayloadIsFrame(w, SentTo(w, before, c), r.sent, c);
    }
  }

  lemma PayloadIsFrame(w: Wire, outs: seq<Out>, sent: Option<Sent>, c: ConnId)
    ensures Frames(w.outbound, outs + if sent.Some? && sent.value.to == c then [sent.value.out] else [])
            == Frames(w.outbound, outs) + PayloadFor(w, sent, c)
  {
    if sent.Some? && sent.value.to == c {
      FramesAppend(w.outbound, outs, sent.value.out);
    } else {
      assert outs + [] == outs;
    }
  }

  /** A connection that is not open yet has neither bytes nor history. */
  lemma BufferedSoFar(w: Wire, es: seq<Event>, c: ConnId)
    requires FewHellos(w, es) && c == After(w, es).count
    ensures WrittenTo(w, es, c) + BufOf(After(w, es), c) == Frames(w.outbound, SentTo(w, es, c))
  {
    hide After, FewHellos;
    ConsistentAlways(w, es);
    OpenKeeps(After(w, es));
    NothingBeforeOpen(w, es, c);
  }

  lemma ConnsComeFromOpen(w: Wire, s: State, e: Event, c: ConnId)
    requires Consistent(s) && c in Step(w, s, e).state.conns
    ensures c in s.conns || (e.Open? && c == s.count)
  {
    hide Consistent, Process, ParseOne;
    var m := Handled(w, s, e);
    if m.Some? {
      ProcessAppends(w, s, e.conn, m.value, c);
    }
  }

  /**
    A client that reads what its socket delivered gets, frame by frame, a prefix of the messages
    the server sent to it, without error; and all of them once the send buffer is empty.
   */
  lemma {:induction false} ClientsGetWhatWasSent(w: Wire, es: seq<Event>, c: ConnId)
    requires FewHellos(w, es) && c in After(w, es).conns && AllRoundTrip(w.outbound, SentTo(w, es, c))
    ensures var got := ParseAll(w.outbound, WrittenTo(w, es, c));
            && !got.bad && got.messages <= SentTo(w, es, c)
            && (After(w, es).conns[c].sendBuf == [] ==> got.messages == SentTo(w, es, c) && got.rest == [])
  {
    hide After, SentTo, WrittenTo, FewHellos, AllRoundTrip, ParseAll, Frames;
    BytesAreConserved(w, es, c);
    var all := Frames(w.outbound, SentTo(w, es, c));
    var done := WrittenTo(w, es, c);
    assert all[..|done|] == done;
    ArrivedSoFar(w.outbound, SentTo(w, es, c), |done|);
    var got := ParseAll(w.outbound, done);
    if After(w, es).conns[c].sendBuf == [] {
      assert done == all;
    }
  }

  /** Bytes that wait in a send buffer have a writable callback coming, or their connection is being closed. */
  lemma {:induction false} NobodyIsForgotten(w: Wire, es: seq<Event>, c: ConnId)
    requires FewHellos(w, es) && c in After(w, es).conns
    ensures var x := After(w, es).conns[c]; x.sendBuf != [] ==> x.pending || x.doomed
  {
    hide After, FewHellos;
    ConsistentAlways(w, es);
    assert ConnOk(After(w, es), c);
  }
}
