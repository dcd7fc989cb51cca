/**
  Pass 2 repeats pass 1: whenever pass 1 accepts, pass 2 accepts too, and nothing it writes falls
  outside the buffers that pass 1 measured.
 */
module JsonSimulation {
  import opened Optional
  import opened JsonMachine
  import opened JsonInvariant

  // ---------------------------------------------------------------- pass 1 measures

  /** p is a proper ancestor of t. */
  ghost predicate Ancestor(nodes: seq<Node>, t: nat, p: nat)
    requires WFNodes(nodes) && t < |nodes|
    decreases t
  {
    && nodes[t].parent.Some?
    && (nodes[t].parent.value == p || Ancestor(nodes, nodes[t].parent.value, p))
  }

  lemma {:induction false} AncestorSame(a: seq<Node>, b: seq<Node>, t: nat, p: nat)
    requires WFNodes(a) && WFNodes(b) && t < |a| && t < |b|
    requires forall i | 0 <= i <= t :: a[i].parent == b[i].parent
    ensures Ancestor(a, t, p) == Ancestor(b, t, p)
    decreases t
  {
    if a[t].parent.Some? {
      AncestorSame(a, b, a[t].parent.value, p);
    }
  }

  lemma {:induction false} AncestorIsEarlier(nodes: seq<Node>, t: nat, p: nat)
    requires WFNodes(nodes) && t < |nodes| && Ancestor(nodes, t, p)
    ensures p < t && IsContainer(nodes[p].kind)
    decreases t
  {
    if nodes[t].parent.value != p {
      AncestorIsEarlier(nodes, nodes[t].parent.value, p);
    }
  }

  ghost predicate Placed(s: State) {
    WFNodes(s.nodes) && (s.top.Some? ==> s.top.value < |s.nodes|)
  }

  /** Node i is open and one of its slots is already spoken for. */
  ghost predicate Pending(s: State, i: nat)
    requires Placed(s) && i < |s.nodes|
  {
    && s.top.Some?
    && (Ancestor(s.nodes, s.top.value, i)
        || (s.top.value == i && s.nodes[i].kind.Object? && s.f.seek))
  }

  /** Node i is the one whose string or name is being read. */
  ghost predicate Reading(s: State, i: nat) { s.f.str && s.top == Some(i) }

  ghost predicate Owes(s: State, i: nat)
    requires Placed(s) && i < |s.nodes|
  {
    Pending(s, i) || (Reading(s, i) && s.nodes[i].kind.Object?)
  }

  /** No buffer yet: the state of a node that pass 1 has made. */
  ghost predicate Raw(n: Node) {
    n.cap == 0 && n.nameCap == 0 && n.cursor == 0 && n.slots == [] && n.entries == [] && n.mem == ""
  }

  /** The counters of node i have not yet passed their final values, held by n. */
  ghost predicate Fits(s: State, i: nat, n: Node)
    requires Placed(s) && i < |s.nodes|
  {
    var m := s.nodes[i];
    && n.parent == m.parent && SameKind(n.kind, m.kind)
    && (IsContainer(m.kind) ==> m.length + (if Owes(s, i) then 1 else 0) <= n.length)
    && (m.kind.Object? ==> m.names + (if Reading(s, i) then s.strLen + 1 else 0) <= n.names)
    && (m.kind.Str? ==> if Reading(s, i) then s.strLen <= n.length else m.length == n.length)
  }

  /** `final` is what the nodes of s may still become. */
  ghost predicate Leads(s: State, final: seq<Node>) {
    && Placed(s) && |s.nodes| <= |final|
    && forall i {:trigger final[i]} {:trigger s.nodes[i]} | 0 <= i < |s.nodes| :: Fits(s, i, final[i])
  }

  lemma NewLeadsBack(s: State, s1: State, k: Kind, final: seq<Node>)
    requires Placed(s) && s.top.None? == (|s.nodes| == 0) && !s.f.str
    requires s1.nodes == s.nodes + [Fresh(k, s.top)] && s1.top == Some(|s.nodes|)
    requires s.top.Some? ==> IsContainer(s.nodes[s.top.value].kind)
    requires Leads(s1, final)
    ensures Leads(s, final)
  {
    forall i | 0 <= i < |s.nodes| ensures Fits(s, i, final[i]) {
      AncestorSame(s.nodes, s1.nodes, s.top.value, i);
      assert Fits(s1, i, final[i]);
    }
  }

  /** The flags of the value that ends are f0: flag_next has already changed those of s. */
  lemma FinishLeadsBack(s: State, s1: State, f0: Flags, final: seq<Node>)
    requires Placed(s) && s.top.Some? && Finish(true, s) == More(s1) && !f0.str && !s1.f.str
    requires s.nodes[s.top.value].kind.Object? ==> !f0.seek
    requires Leads(s1, final)
    ensures Leads(s.(f := f0), final)
  {
    var t := s.top.value;
    forall i | 0 <= i < |s.nodes| ensures Fits(s.(f := f0), i, final[i]) {
      assert Fits(s1, i, final[i]);
      if s.nodes[t].parent.Some? {
        AncestorSame(s.nodes, s1.nodes, s1.top.value, i);
      }
    }
  }

  lemma TopLeadsBack(s: State, s1: State, final: seq<Node>)
    requires Placed(s) && Leads(s1, final) && s.top.Some? && s1.top == s.top
    requires s1.nodes == s.nodes[s.top.value := s1.nodes[s.top.value]]
    requires s1.nodes[s.top.value].parent == s.nodes[s.top.value].parent
    requires Fits(s1, s.top.value, final[s.top.value]) ==> Fits(s, s.top.value, final[s.top.value])
    ensures Leads(s, final)
  {
    var t := s.top.value;
    forall i | 0 <= i < |s.nodes| ensures Fits(s, i, final[i]) {
      assert Fits(s1, i, final[i]);
      if i != t {
        AncestorSame(s.nodes, s1.nodes, t, i);
      }
    }
  }

  lemma InPlaceLeadsBack(comments: bool, s: State, d: Decision, s1: State, final: seq<Node>)
    requires WF(true, comments, s) && d.Go? && Allowed(true, comments, ViewOf(s), d.f, d.act)
    requires !d.act.New? && !d.act.NewLeaf? && !d.act.Close? && !d.act.CloseText? && !d.act.NumEnd?
    requires Apply(true, s, d) == More(s1) && Placed(s1) && Leads(s1, final)
    ensures Leads(s, final)
  {
    if s.top.Some? {
      var t := s.top.value;
      assert s1.nodes == s.nodes[t := s1.nodes[t]];
      if Ancestor(s.nodes, t, t) {
        AncestorIsEarlier(s.nodes, t, t);
      }
      if Ancestor(s1.nodes, t, t) {
        AncestorIsEarlier(s1.nodes, t, t);
      }
      TopLeadsBack(s, s1, final);
    }
  }

  ghost predicate Ends(act: Action) { act.Close? || act.CloseText? || act.NumEnd? }

  /** A value of s ends with decision d: s after the last change to the value itself. */
  ghost function Ended(s: State, d: Decision): State
    requires d.Go? && s.top.Some? && s.top.value < |s.nodes|
  {
    var n := s.nodes[s.top.value];
    var m := match d.act
      case CloseText => n.(length := s.strLen)
      case NumEnd => Signed(n, d.num)
      case _ => n;
    s.(f := d.f, num := d.num, pos := d.pos, nodes := s.nodes[s.top.value := m])
  }

  lemma EndedThenFinish(comments: bool, s: State, d: Decision)
    requires WF(true, comments, s) && d.Go? && Allowed(true, comments, ViewOf(s), d.f, d.act) && Ends(d.act)
    ensures Apply(true, s, d) == Finish(true, Ended(s, d))
  {
    assert d.act.Close? ==> Ended(s, d).nodes == s.nodes;
  }

  /** Ending a value changes neither the shape of the tree nor a type, and leaves no string open. */
  lemma EndedStaysPut(comments: bool, s: State, d: Decision)
    requires WF(true, comments, s) && d.Go? && Allowed(true, comments, ViewOf(s), d.f, d.act) && Ends(d.act)
    ensures var mid := Ended(s, d);
            && Placed(mid) && mid.top == s.top && |mid.nodes| == |s.nodes| && mid.f == d.f && !d.f.str
            && mid.nodes == s.nodes[s.top.value := mid.nodes[s.top.value]]
            && mid.nodes[s.top.value].parent == s.nodes[s.top.value].parent
            && mid.nodes[s.top.value].kind == s.nodes[s.top.value].kind
            && (mid.nodes[s.top.value].kind.Object? ==> !s.f.seek)
  {
    var mid := Ended(s, d);
    assert forall i | 0 <= i < |s.nodes| ::
        mid.nodes[i].parent == s.nodes[i].parent && mid.nodes[i].kind == s.nodes[i].kind;
  }

  lemma EndedFits(comments: bool, s: State, d: Decision, n: Node)
    requires WF(true, comments, s) && d.Go? && Allowed(true, comments, ViewOf(s), d.f, d.act) && Ends(d.act)
    requires Placed(Ended(s, d)) && Fits(Ended(s, d).(f := s.f.(str := false)), s.top.value, n)
    ensures Fits(s, s.top.value, n)
  {
    AncestorSame(s.nodes, Ended(s, d).nodes, s.top.value, s.top.value);
  }

  lemma EndLeadsBack(comments: bool, s: State, d: Decision, s1: State, final: seq<Node>)
    requires WF(true, comments, s) && d.Go? && Allowed(true, comments, ViewOf(s), d.f, d.act) && Ends(d.act)
    requires Finish(true, Ended(s, d)) == More(s1) && Leads(s1, final)
    ensures Leads(s, final)
  {
    EndedStaysPut(comments, s, d);
    var mid, f0 := Ended(s, d), s.f.(str := false);
    hide Ended, Allowed, WF, Fits, Finish;
    EndIsQuiet(mid, s1);
    FinishLeadsBack(mid, s1, f0, final);
    if Fits(mid.(f := f0), s.top.value, final[s.top.value]) {
      EndedFits(comments, s, d, final[s.top.value]);
    }
    TopLeadsBack(s, mid.(f := f0), final);
  }

  lemma EndIsQuiet(s: State, s1: State)
    requires s.top.Some? && Finish(true, s) == More(s1)
    ensures s1.f == s.f
  {
  }

  lemma LeafLeadsBack(comments: bool, s: State, d: Decision, s1: State, final: seq<Node>)
    requires WF(true, comments, s) && d.Go? && Allowed(true, comments, ViewOf(s), d.f, d.act) && d.act.NewLeaf?
    requires Apply(true, s, d) == More(s1) && Leads(s1, final)
    ensures Leads(s, final)
  {
    var mid := NewValue(true, s.(f := d.f, num := d.num, pos := d.pos), d.act.kind, s.pos).s;
    assert forall i | 0 <= i < |s.nodes| :: mid.nodes[i] == s.nodes[i];
    FinishLeadsBack(mid, s1, mid.f, final);
    NewLeadsBack(s, mid, d.act.kind, final);
  }

  lemma StepLeadsBack(comments: bool, json: string, s: State, s1: State, final: seq<Node>)
    requires WF(true, comments, s) && s.pos <= |json|
    requires Step(true, comments, json, s) == More(s1) && Leads(s1, final)
    ensures Leads(s, final)
  {
    var d := Decide(true, comments, json, ViewOf(s));
    DecideIsSound(true, comments, json, ViewOf(s));
    ApplyLeadsBack(comments, s, d, s1, final);
  }

  lemma ApplyLeadsBack(comments: bool, s: State, d: Decision, s1: State, final: seq<Node>)
    requires WF(true, comments, s) && d.Go? && Allowed(true, comments, ViewOf(s), d.f, d.act)
    requires Apply(true, s, d) == More(s1) && Leads(s1, final)
    ensures Leads(s, final)
  {
    if d.act.New? {
      NewLeadsBack(s, s1, d.act.kind, final);
    } else if d.act.NewLeaf? {
      LeafLeadsBack(comments, s, d, s1, final);
    } else if Ends(d.act) {
      EndedThenFinish(comments, s, d);
      EndLeadsBack(comments, s, d, s1, final);
    } else {
      InPlaceLeadsBack(comments, s, d, s1, final);
    }
  }

  /** The counters of any state of an accepted pass 1 are bounded by those it ends with. */
  lemma {:induction false} RunLeads(comments: bool, json: string, s: State)
    requires WF(true, comments, s) && s.pos <= |json|
    requires Run(true, comments, json, s).Accept?
    ensures Leads(s, Run(true, comments, json, s).s.nodes)
    decreases |json| - s.pos, Rank(json, s)
  {
    StepKeepsWF(true, comments, json, s);
    var o := Step(true, comments, json, s);
    if o.More? {
      RunLeads(comments, json, o.s);
      StepLeadsBack(comments, json, s, o.s, Run(true, comments, json, s).s.nodes);
    }
  }

  ghost predicate AllRaw(nodes: seq<Node>) { forall i | 0 <= i < |nodes| :: Raw(nodes[i]) }

  lemma StepStaysRaw(comments: bool, json: string, s: State, s1: State)
    requires s.pos <= |json| && AllRaw(s.nodes)
    requires Step(true, comments, json, s) == More(s1)
    ensures AllRaw(s1.nodes)
  {
    var d := Decide(true, comments, json, ViewOf(s));
    ApplyStaysRaw(s, d, s1);
  }

  lemma FinishStaysRaw(s: State)
    requires AllRaw(s.nodes)
    ensures Finish(true, s).More? ==> AllRaw(Finish(true, s).s.nodes)
  {
  }

  lemma ApplyStaysRaw(s: State, d: Decision, s1: State)
    requires AllRaw(s.nodes) && Apply(true, s, d) == More(s1)
    ensures AllRaw(s1.nodes)
  {
    if Ends(d.act) {
      if s.top.Some? && s.top.value < |s.nodes| {
        FinishStaysRaw(Ended(s, d));
        assert d.act.Close? ==> Ended(s, d).nodes == s.nodes;
      }
    } else if d.act.NewLeaf? {
      FinishStaysRaw(NewValue(true, s.(f := d.f, num := d.num, pos := d.pos), d.act.kind, s.pos).s);
    }
  }

  lemma {:induction false} RunStaysRaw(comments: bool, json: string, s: State)
    requires WF(true, comments, s) && s.pos <= |json| && AllRaw(s.nodes)
    ensures var o := Run(true, comments, json, s); o.Accept? ==> AllRaw(o.s.nodes)
    decreases |json| - s.pos, Rank(json, s)
  {
    StepKeepsWF(true, comments, json, s);
    var o := Step(true, comments, json, s);
    if o.More? {
      StepStaysRaw(comments, json, s, o.s);
      RunStaysRaw(comments, json, o.s);
    }
  }

  // ---------------------------------------------------------------- pass 2 repeats

  /** Node m2 of pass 2 against node i of pass 1 at the same point, n being its final form. */
  ghost predicate Mirrors(s: State, i: nat, m2: Node, n: Node)
    requires Placed(s) && i < |s.nodes|
  {
    var m := s.nodes[i];
    && m2.kind == n.kind && m2.parent == n.parent && m2.integer == n.integer && m2.dbl == n.dbl && m2.length == m.length
    && (IsContainer(n.kind) ==> m2.cap == n.length && |m2.slots| == m.length)
    && (n.kind.Object? ==>
          && m2.nameCap == (if n.length == 0 then 0 else n.names) && m2.cursor == m.names
          && |m2.mem| == m.names + (if Reading(s, i) then s.strLen else 0)
          && |m2.entries| == m.length + (if Pending(s, i) then 1 else 0))
    && (n.kind.Str? ==>
          && m2.cap == n.length + 1
          && |m2.mem| == if Reading(s, i) then s.strLen else m.length + 1)
  }

  /** State s2 of pass 2 stands where state s of pass 1 stood; pass 1 ended with the nodes `final`. */
  ghost predicate Related(s: State, s2: State, final: seq<Node>) {
    && Placed(s) && |s.nodes| <= |final| == |s2.nodes|
    && s2.f == s.f && s2.pos == s.pos && s2.strLen == s.strLen && s2.top == s.top && s2.calls == s.calls
    && s2.visited == |s.nodes|
    && (forall i {:trigger s.nodes[i]} {:trigger s2.nodes[i]} | 0 <= i < |s.nodes| ::
          Mirrors(s, i, s2.nodes[i], final[i]))
    && (forall i {:trigger s2.nodes[i]} | |s.nodes| <= i < |final| :: s2.nodes[i] == final[i])
  }

  /** s1 is s with one more node, on top: a value of type k whose number, if any, may be read already. */
  ghost predicate Opens(s: State, s1: State, k: Kind, at: nat) {
    var v := |s.nodes|;
    && |s1.nodes| == v + 1 && s1.nodes[..v] == s.nodes
    && s1.nodes[v] == Fresh(k, s.top).(kind := s1.nodes[v].kind, integer := s1.nodes[v].integer, dbl := s1.nodes[v].dbl)
    && SameKind(s1.nodes[v].kind, k)
    && s1 == s.(nodes := s1.nodes, num := s1.num, top := Some(v), visited := s.visited + 1,
                calls := s.calls + [Call(at, s.top, k)])
  }

  /** The node pass 2 hands out mirrors the fresh one of pass 1. */
  lemma FreshMirrors(s: State, s1: State, s2: State, k: Kind, at: nat, f0: Flags, final: seq<Node>)
    requires Related(s.(f := f0), s2.(f := f0), final) && s2.f == s.f && AllRaw(final)
    requires s.visited == |s.nodes|
    requires Opens(s, s1, k, at) && Leads(s1, final)
    requires k.Str? ==> s.f.str && s.strLen == 0
    requires k.Object? ==> !s.f.seek && !s.f.str
    ensures var o := NewValue(false, s2, k, at);
            && o.More? && |o.s.nodes| == |s2.nodes| && Mirrors(s1, |s.nodes|, o.s.nodes[|s.nodes|], final[|s.nodes|])
            && o.s == s2.(nodes := o.s.nodes, visited := s2.visited + 1, top := Some(s2.visited),
                          calls := s2.calls + [Call(at, s2.top, k)])
            && o.s.nodes == s2.nodes[|s.nodes| := o.s.nodes[|s.nodes|]]
  {
    var v := |s.nodes|;
    assert Fits(s1, v, final[v]) && Raw(final[v]);
    NotOwnAncestor(s1);
  }

  lemma NewRelates(s: State, s1: State, s2: State, k: Kind, at: nat, f0: Flags, final: seq<Node>)
    requires Related(s.(f := f0), s2.(f := f0), final) && s2.f == s.f && AllRaw(final)
    requires s.top.None? == (|s.nodes| == 0) && !f0.str && f0.seek && s.visited == |s.nodes|
    requires s.top.Some? ==> IsContainer(s.nodes[s.top.value].kind)
    requires Opens(s, s1, k, at) && Leads(s1, final)
    requires k.Str? ==> s.f.str && s.strLen == 0
    requires k.Object? ==> !s.f.seek && !s.f.str
    ensures var o := NewValue(false, s2, k, at); o.More? && Related(s1, o.s, final)
  {
    var v := |s.nodes|;
    FreshMirrors(s, s1, s2, k, at, f0, final);
    hide NewValue, AllRaw;
    assert forall i | 0 <= i < v :: s1.nodes[i] == s.nodes[i];
    var s3 := NewValue(false, s2, k, at).s;
    forall i | 0 <= i < v ensures Mirrors(s1, i, s3.nodes[i], final[i]) {
      assert Mirrors(s.(f := f0), i, s2.nodes[i], final[i]);
      assert Fits(s1, i, final[i]);
      AncestorSame(s.nodes, s1.nodes, s.top.value, i);
    }
  }

  /** flag_next: what Finish changes in both passes, when `top` has a parent p. */
  ghost predicate Attaches(s: State, s1: State, f0: Flags, p: nat) {
    && Placed(s) && Placed(s1) && s.top.Some? && s.nodes[s.top.value].parent == Some(p)
    && !f0.str && !s.f.str
    && (s.nodes[s.top.value].kind.Object? ==> !f0.seek)
    && s.f == NextFlags(f0.(seek := false), Some(s.nodes[p].kind))
    && s1 == s.(nodes := s.nodes[p := s.nodes[p].(length := s.nodes[p].length + 1)], top := Some(p))
  }

  lemma PendingAfterFinish(s: State, s1: State, f0: Flags, p: nat, i: nat)
    requires Attaches(s, s1, f0, p) && i < |s.nodes|
    ensures Pending(s.(f := f0), i) == (i == p || Ancestor(s1.nodes, p, i))
    ensures s.nodes[i].kind.Object? ==> Pending(s1, i) == Ancestor(s1.nodes, p, i)
    ensures !Ancestor(s1.nodes, p, p)
  {
    AncestorSame(s.nodes, s1.nodes, p, i);
    if Ancestor(s1.nodes, p, p) {
      AncestorIsEarlier(s1.nodes, p, p);
    }
  }

  lemma FinishMirrors(s: State, s1: State, f0: Flags, p: nat, i: nat, m2: Node, m3: Node, n: Node)
    requires Attaches(s, s1, f0, p) && i < |s.nodes|
    requires Mirrors(s.(f := f0), i, m2, n) && SameKind(n.kind, s.nodes[i].kind)
    requires if i == p then Some(m3) == AddChild(m2, false, s.top.value) else m3 == m2
    ensures Mirrors(s1, i, m3, n)
  {
    PendingAfterFinish(s, s1, f0, p, i);
  }

  lemma AttachRelates(s: State, s1: State, s2: State, f0: Flags, final: seq<Node>, p: nat, n: Node)
    requires Related(s.(f := f0), s2.(f := f0), final) && s2.f == s.f
    requires Attaches(s, s1, f0, p) && p < |s.nodes| && AddChild(s2.nodes[p], false, s.top.value) == Some(n)
    requires forall i | 0 <= i < |s.nodes| :: SameKind(final[i].kind, s.nodes[i].kind)
    ensures Related(s1, s2.(nodes := s2.nodes[p := n], top := Some(p)), final)
  {
    hide Mirrors, AddChild, NextFlags, SameKind;
    forall i | 0 <= i < |s.nodes| ensures Mirrors(s1, i, s2.nodes[p := n][i], final[i]) {
      assert Mirrors(s.(f := f0), i, s2.nodes[i], final[i]);
      FinishMirrors(s, s1, f0, p, i, s2.nodes[i], s2.nodes[p := n][i], final[i]);
    }
  }

  lemma KindsFit(s: State, final: seq<Node>)
    requires Leads(s, final)
    ensures forall i | 0 <= i < |s.nodes| :: SameKind(final[i].kind, s.nodes[i].kind)
  {
    forall i | 0 <= i < |s.nodes| ensures SameKind(final[i].kind, s.nodes[i].kind) {
      assert Fits(s, i, final[i]);
    }
  }

  lemma RootRelates(s: State, s2: State, f0: Flags, final: seq<Node>)
    requires Related(s.(f := f0), s2.(f := f0), final) && s2.f == s.f && !f0.str && !s.f.str
    requires s.top.Some? && s.nodes[s.top.value].parent == None
    requires s.nodes[s.top.value].kind.Object? ==> !f0.seek && !s.f.seek
    ensures Related(s, s2, final)
  {
    forall i | 0 <= i < |s.nodes| ensures Mirrors(s, i, s2.nodes[i], final[i]) {
      assert Mirrors(s.(f := f0), i, s2.nodes[i], final[i]);
    }
  }

  lemma FinishAtRoot(s: State, s2: State)
    requires s.top.Some? && s.top.value < |s.nodes| && s.nodes[s.top.value].parent == None
    requires s2.top == s.top && s.top.value < |s2.nodes| && s2.nodes[s.top.value].parent == None
    ensures Finish(true, s) == More(s) && Finish(false, s2) == More(s2)
  {
  }

  /** Pass 2 finds room for the child that pass 1 has counted. */
  lemma RoomForChild(s: State, s1: State, s2: State, f0: Flags, final: seq<Node>, p: nat) returns (n: Node)
    requires Related(s.(f := f0), s2.(f := f0), final) && s2.f == s.f
    requires s.top.Some? && !f0.str && !s.f.str
    requires s.nodes[s.top.value].kind.Object? ==> !f0.seek
    requires s.nodes[s.top.value].parent == Some(p)
    requires s.f == NextFlags(f0.(seek := false), KindAt(s.nodes, s.nodes[s.top.value].parent))
    requires Finish(true, s) == More(s1) && Leads(s1, final)
    ensures p < |s.nodes| <= |s2.nodes| && Attaches(s, s1, f0, p)
    ensures AddChild(s2.nodes[p], false, s.top.value) == Some(n)
    ensures Finish(false, s2) == More(s2.(nodes := s2.nodes[p := n], top := Some(p)))
  {
    var t := s.top.value;
    assert Mirrors(s.(f := f0), t, s2.nodes[t], final[t]) && Fits(s1, t, final[t]);
    assert Mirrors(s.(f := f0), p, s2.nodes[p], final[p]) && Fits(s1, p, final[p]);
    n := AddChild(s2.nodes[p], false, t).value;
  }

  lemma KindsUnchanged(s: State, s1: State, f0: Flags, p: nat, final: seq<Node>)
    requires p < |s.nodes| && Attaches(s, s1, f0, p) && Leads(s1, final)
    ensures forall i | 0 <= i < |s.nodes| :: SameKind(final[i].kind, s.nodes[i].kind)
  {
    KindsFit(s1, final);
    hide Leads, SameKind;
    assert forall i | 0 <= i < |s.nodes| :: s1.nodes[i].kind == s.nodes[i].kind;
  }

  lemma TopMirrored(s: State, s2: State, f0: Flags, final: seq<Node>)
    requires Related(s.(f := f0), s2.(f := f0), final) && s.top.Some?
    ensures s2.top == s.top && s.top.value < |s.nodes| <= |s2.nodes| == |final|
    ensures s2.nodes[s.top.value].parent == final[s.top.value].parent
  {
    assert Mirrors(s.(f := f0), s.top.value, s2.nodes[s.top.value], final[s.top.value]);
  }

  lemma FinishRelates(s: State, s1: State, s2: State, f0: Flags, final: seq<Node>)
    requires Related(s.(f := f0), s2.(f := f0), final) && s2.f == s.f
    requires s.top.Some? && !f0.str && !s.f.str
    requires s.nodes[s.top.value].kind.Object? ==> !f0.seek
    requires s.f == NextFlags(f0.(seek := false), KindAt(s.nodes, s.nodes[s.top.value].parent))
    requires Finish(true, s) == More(s1) && Leads(s1, final)
    ensures var o := Finish(false, s2); o.More? && Related(s1, o.s, final)
  {
    TopMirrored(s, s2, f0, final);
    match s.nodes[s.top.value].parent
    case Some(p) =>
      hide *;
      var n := RoomForChild(s, s1, s2, f0, final, p);
      KindsUnchanged(s, s1, f0, p, final);
      AttachRelates(s, s1, s2, f0, final, p, n);
    case None =>
      assert Fits(s1, s.top.value, final[s.top.value]);
      FinishAtRoot(s, s2);
      RootRelates(s, s2, f0, final);
  }

  lemma TopRelates(s: State, s1: State, s2: State, s3: State, final: seq<Node>)
    requires Related(s, s2, final) && Placed(s1) && s.top.Some? && s1.top == s.top
    requires s3.f == s1.f && s3.pos == s1.pos && s3.strLen == s1.strLen && s3.top == s1.top
    requires s3.calls == s1.calls && s3.visited == s2.visited
    requires s1.nodes == s.nodes[s.top.value := s1.nodes[s.top.value]]
    requires |s3.nodes| == |s2.nodes| && s3.nodes == s2.nodes[s.top.value := s3.nodes[s.top.value]]
    requires s1.nodes[s.top.value].parent == s.nodes[s.top.value].parent
    requires Mirrors(s1, s.top.value, s3.nodes[s.top.value], final[s.top.value])
    ensures Related(s1, s3, final)
  {
    var t := s.top.value;
    forall i | 0 <= i < |s.nodes| ensures Mirrors(s1, i, s3.nodes[i], final[i]) {
      assert Mirrors(s, i, s2.nodes[i], final[i]);
      AncestorSame(s.nodes, s1.nodes, t, i);
    }
  }

  lemma NotOwnAncestor(s: State)
    requires Placed(s) && s.top.Some?
    ensures !Ancestor(s.nodes, s.top.value, s.top.value)
  {
    if Ancestor(s.nodes, s.top.value, s.top.value) {
      AncestorIsEarlier(s.nodes, s.top.value, s.top.value);
    }
  }

  /** The two passes decide alike; only the number machine may differ. */
  ghost predicate SameStep(comments: bool, s: State, d: Decision, d2: Decision) {
    d.Go? && d2.Go? && d2 == d.(num := d2.num) && Allowed(true, comments, ViewOf(s), d.f, d.act)
  }

  lemma PutRelates(comments: bool, s: State, s2: State, d: Decision, d2: Decision, s1: State, final: seq<Node>)
    requires WF(true, comments, s) && Related(s, s2, final) && Leads(s, final) && Leads(s1, final)
    requires SameStep(comments, s, d, d2) && d.act.Put?
    requires Apply(true, s, d) == More(s1)
    ensures var o := Apply(false, s2, d2); o.More? && Related(s1, o.s, final)
  {
    var t := s.top.value;
    assert Mirrors(s, t, s2.nodes[t], final[t]);
    assert Fits(s1, t, final[t]) && Fits(s, t, final[t]);
    hide Leads, Ancestor;
    NotOwnAncestor(s);
    NotOwnAncestor(s1);
    TopRelates(s, s1, s2, Apply(false, s2, d2).s, final);
  }

  lemma OpenNameRelates(comments: bool, s: State, s2: State, d: Decision, d2: Decision, s1: State, final: seq<Node>)
    requires WF(true, comments, s) && Related(s, s2, final) && Leads(s, final) && Leads(s1, final)
    requires SameStep(comments, s, d, d2) && d.act.OpenName?
    requires Apply(true, s, d) == More(s1)
    ensures var o := Apply(false, s2, d2); o.More? && Related(s1, o.s, final)
  {
    var t := s.top.value;
    assert Mirrors(s, t, s2.nodes[t], final[t]);
    assert Fits(s1, t, final[t]) && Fits(s, t, final[t]);
    hide Leads, Ancestor;
    NotOwnAncestor(s);
    NotOwnAncestor(s1);
    TopRelates(s, s1, s2, Apply(false, s2, d2).s, final);
  }

  lemma CloseNameRelates(comments: bool, s: State, s2: State, d: Decision, d2: Decision, s1: State, final: seq<Node>)
    requires WF(true, comments, s) && Related(s, s2, final) && Leads(s, final) && Leads(s1, final)
    requires SameStep(comments, s, d, d2) && d.act.CloseName?
    requires Apply(true, s, d) == More(s1)
    ensures var o := Apply(false, s2, d2); o.More? && Related(s1, o.s, final)
  {
    var t := s.top.value;
    assert Mirrors(s, t, s2.nodes[t], final[t]);
    assert Fits(s1, t, final[t]) && Fits(s, t, final[t]);
    hide Leads, Ancestor;
    NotOwnAncestor(s);
    NotOwnAncestor(s1);
    TopRelates(s, s1, s2, Apply(false, s2, d2).s, final);
  }

  lemma SkipRelates(comments: bool, s: State, s2: State, d: Decision, d2: Decision, s1: State, final: seq<Node>)
    requires WF(true, comments, s) && Related(s, s2, final)
    requires SameStep(comments, s, d, d2) && d.act.Skip?
    requires Apply(true, s, d) == More(s1)
    ensures var o := Apply(false, s2, d2); o.More? && Related(s1, o.s, final)
  {
    var s3 := Apply(false, s2, d2).s;
    forall i | 0 <= i < |s.nodes| ensures Mirrors(s1, i, s3.nodes[i], final[i]) {
      assert Mirrors(s, i, s2.nodes[i], final[i]);
    }
  }

  lemma CloseRelates(comments: bool, s: State, s2: State, d: Decision, d2: Decision, s1: State, final: seq<Node>)
    requires WF(true, comments, s) && Related(s, s2, final) && Leads(s1, final)
    requires SameStep(comments, s, d, d2) && d.act.Close?
    requires Apply(true, s, d) == More(s1)
    ensures var o := Apply(false, s2, d2); o.More? && Related(s1, o.s, final)
  {
    var moved, moved2 := s.(f := d.f, num := d.num, pos := d.pos), s2.(f := d.f, num := d2.num, pos := d.pos);
    var f0 := s.f.(needComma := false);
    assert Related(moved.(f := f0), moved2.(f := f0), final) by {
      forall i | 0 <= i < |s.nodes| ensures Mirrors(moved.(f := f0), i, s2.nodes[i], final[i]) {
        assert Mirrors(s, i, s2.nodes[i], final[i]);
      }
    }
    FinishRelates(moved, s1, moved2, f0, final);
  }

  /** s with the length of its string stored, before flag_next. */
  function TextEnded(s: State, d: Decision, num: Num, n: Node): State
    requires d.Go? && s.top.Some? && s.top.value < |s.nodes|
  {
    s.(f := d.f, num := num, pos := d.pos, nodes := s.nodes[s.top.value := n])
  }

  lemma TextEndRelates(comments: bool, s: State, s2: State, d: Decision, d2: Decision, s1: State, final: seq<Node>)
    returns (m: Node, m2: Node)
    requires WF(true, comments, s) && Related(s, s2, final) && Leads(s, final)
    requires SameStep(comments, s, d, d2) && d.act.CloseText?
    requires Apply(true, s, d) == More(s1)
    ensures s.top.Some? && s.top.value < |s.nodes| && s2.top == s.top && s.top.value < |s2.nodes|
    ensures m.kind == s.nodes[s.top.value].kind && !m.kind.Object? && m.parent == s.nodes[s.top.value].parent
    ensures var mid, mid2 := TextEnded(s, d, d.num, m), TextEnded(s2, d2, d2.num, m2);
            && Finish(true, mid) == More(s1) && Finish(false, mid2) == Apply(false, s2, d2)
            && Related(mid.(f := s.f.(str := false)), mid2.(f := s.f.(str := false)), final)
  {
    var t := s.top.value;
    assert Mirrors(s, t, s2.nodes[t], final[t]) && Fits(s, t, final[t]);
    m := s.nodes[t].(length := s.strLen);
    m2 := CloseTextOf(s2.nodes[t], false, s.strLen).value;
    var f0 := s.f.(str := false);
    var mid := TextEnded(s, d, d.num, m);
    NotOwnAncestor(s);
    NotOwnAncestor(mid);
    TopRelates(s, mid.(f := f0), s2, TextEnded(s2, d2, d2.num, m2).(f := f0), final);
  }

  lemma EndFlags(comments: bool, s: State, d: Decision, d2: Decision)
    requires WF(true, comments, s) && SameStep(comments, s, d, d2) && d.act.CloseText?
    ensures s.top.Some? && s.top.value < |s.nodes| && !d.f.str && !s.f.seek
    ensures d.f == NextFlags(s.f.(str := false, seek := false), KindAt(s.nodes, s.nodes[s.top.value].parent))
  {
  }

  lemma CloseTextRelates(comments: bool, s: State, s2: State, d: Decision, d2: Decision, s1: State, final: seq<Node>)
    requires WF(true, comments, s) && Related(s, s2, final) && Leads(s, final) && Leads(s1, final)
    requires SameStep(comments, s, d, d2) && d.act.CloseText?
    requires Apply(true, s, d) == More(s1)
    ensures var o := Apply(false, s2, d2); o.More? && Related(s1, o.s, final)
  {
    EndFlags(comments, s, d, d2);
    var m, m2 := TextEndRelates(comments, s, s2, d, d2, s1, final);
    hide Related, Leads, WF, Apply, Finish, NextFlags;
    FinishRelates(TextEnded(s, d, d.num, m), s1, TextEnded(s2, d2, d2.num, m2), s.f.(str := false), final);
  }

  /** Moving on, with flags that flag_next may already have changed, relates as before. */
  lemma MovedRelates(s: State, s2: State, moved: State, moved2: State, final: seq<Node>)
    requires Related(s, s2, final) && !s.f.str
    requires moved == s.(f := moved.f, num := moved.num, pos := moved.pos, strLen := moved.strLen)
    requires moved2 == s2.(f := moved.f, num := moved2.num, pos := moved.pos, strLen := moved.strLen)
    ensures Related(moved.(f := s.f), moved2.(f := s.f), final)
  {
    forall i | 0 <= i < |s.nodes| ensures Mirrors(moved.(f := s.f), i, s2.nodes[i], final[i]) {
      assert Mirrors(s, i, s2.nodes[i], final[i]);
    }
  }

  /** Pass 2 hands the value without contents out as pass 1 made it. */
  lemma LeafOpens(comments: bool, s: State, s2: State, k: Kind, mid: State, f: Flags, pos: nat, num2: Num, final: seq<Node>)
    requires WF(true, comments, s) && Related(s, s2, final) && AllRaw(final) && Leads(mid, final)
    requires s.f.seek && !s.f.str && !s.f.done && !IsContainer(k) && !k.Str?
    requires Opens(s.(f := f, pos := pos), mid, k, s.pos)
    ensures var o := NewValue(false, s2.(f := f, num := num2, pos := pos), k, s.pos);
            o.More? && Related(mid, o.s, final) && o.s.f == f
  {
    var moved, moved2 := s.(f := f, pos := pos), s2.(f := f, num := num2, pos := pos);
    MovedRelates(s, s2, moved, moved2, final);
    hide Leads, AllRaw;
    NewRelates(moved, mid, moved2, k, s.pos, s.f, final);
  }

  lemma LeafApplies(s2: State, k: Kind, f: Flags, num: Num, pos: nat)
    requires NewValue(false, s2.(f := f, num := num, pos := pos), k, s2.pos).More?
    ensures Apply(false, s2, Go(f, num, pos, NewLeaf(k)))
            == Finish(false, NewValue(false, s2.(f := f, num := num, pos := pos), k, s2.pos).s)
  {
    hide NewValue, Finish;
  }

  /** What is on top once a value without contents has been opened. */
  lemma LeafOnTop(comments: bool, s: State, k: Kind, mid: State, f: Flags, pos: nat)
    requires WF(true, comments, s) && s.f.seek && !s.f.str && !s.f.done && !IsContainer(k) && !k.Str?
    requires Opens(s.(f := f, pos := pos), mid, k, s.pos) && f == NextFlags(s.f.(seek := false), KindAt(s.nodes, s.top))
    ensures Placed(mid) && mid.top.Some? && mid.f == f && !f.str
    ensures !mid.nodes[mid.top.value].kind.Object?
    ensures f.(seek := false) == mid.f.(seek := false)
    ensures mid.f == NextFlags(f.(seek := false), KindAt(mid.nodes, mid.nodes[mid.top.value].parent))
  {
    var v := |s.nodes|;
    assert forall i | 0 <= i < v :: mid.nodes[i] == mid.nodes[..v][i];
    assert mid.nodes[v].parent == s.top && KindAt(mid.nodes, s.top) == KindAt(s.nodes, s.top);
    hide KindAt;
  }

  /** A value without contents, begun in s and hung up in p, takes pass 2 one step. */
  lemma LeafRelates(comments: bool, s: State, s2: State, k: Kind, mid: State, p: State, num2: Num, final: seq<Node>)
    requires WF(true, comments, s) && Related(s, s2, final) && AllRaw(final) && Leads(p, final)
    requires s.f.seek && !s.f.str && !s.f.done && !IsContainer(k) && !k.Str?
    requires var f := NextFlags(s.f.(seek := false), KindAt(s.nodes, s.top));
             Opens(s.(f := f, pos := p.pos), mid, k, s.pos) && Finish(true, mid) == More(p)
    ensures var f := NextFlags(s.f.(seek := false), KindAt(s.nodes, s.top));
            var o := Apply(false, s2, Go(f, num2, p.pos, NewLeaf(k))); o.More? && Related(p, o.s, final)
  {
    var f := NextFlags(s.f.(seek := false), KindAt(s.nodes, s.top));
    assert s2.pos == s.pos;
    LeafOnTop(comments, s, k, mid, f, p.pos);
    hide *;
    EndIsQuiet(mid, p);
    FinishLeadsBack(mid, p, mid.f, final);
    assert mid.(f := mid.f) == mid;
    LeafOpens(comments, s, s2, k, mid, f, p.pos, num2, final);
    LeafApplies(s2, k, f, num2, p.pos);
    var leaf := NewValue(false, s2.(f := f, num := num2, pos := p.pos), k, s2.pos).s;
    assert leaf.(f := mid.f) == leaf;
    FinishRelates(mid, p, leaf, mid.f, final);
  }

  lemma NewRelatesToo(comments: bool, s: State, s2: State, d: Decision, d2: Decision, s1: State, final: seq<Node>)
    requires WF(true, comments, s) && Related(s, s2, final) && AllRaw(final) && Leads(s1, final)
    requires SameStep(comments, s, d, d2) && d.act.New? && !d.act.kind.Integer?
    requires Apply(true, s, d) == More(s1)
    ensures var o := Apply(false, s2, d2); o.More? && Related(s1, o.s, final)
  {
    var k := d.act.kind;
    var len := if k.Str? then 0 else s.strLen;
    var moved := s.(f := d.f, num := d.num, pos := d.pos, strLen := len);
    var moved2 := s2.(f := d.f, num := d2.num, pos := d.pos, strLen := len);
    OnlyWhenSeeking(comments, s, d, d2);
    assert s2.f == s.f && s2.pos == s.pos && s2.strLen == s.strLen;
    MovedRelates(s, s2, moved, moved2, final);
    NewRelates(moved, s1, moved2, k, s.pos, s.f, final);
  }

  lemma OnlyWhenSeeking(comments: bool, s: State, d: Decision, d2: Decision)
    requires SameStep(comments, s, d, d2) && (d.act.New? || d.act.NewLeaf?)
    ensures s.f.seek && !s.f.str && !s.f.done
    ensures d.act.NewLeaf? ==> !IsContainer(d.act.kind) && !d.act.kind.Str?
    ensures d.act.NewLeaf? ==> d.f == NextFlags(s.f.(seek := false), KindAt(s.nodes, s.top))
  {
  }

  lemma LeafRelatesToo(comments: bool, s: State, s2: State, d: Decision, d2: Decision, s1: State, final: seq<Node>)
    requires WF(true, comments, s) && Related(s, s2, final) && AllRaw(final) && Leads(s1, final)
    requires SameStep(comments, s, d, d2) && d.act.NewLeaf?
    requires Apply(true, s, d) == More(s1)
    ensures var o := Apply(false, s2, d2); o.More? && Related(s1, o.s, final)
  {
    OnlyWhenSeeking(comments, s, d, d2);
    hide Related, AllRaw, Leads, Finish, SameStep, NextFlags;
    var k := d.act.kind;
    var mid := NewValue(true, s.(f := d.f, num := d.num, pos := d.pos), k, s.pos).s;
    LeafRelates(comments, s, s2, k, mid, s1, d2.num, final);
  }

  lemma ApplyRelates(comments: bool, s: State, s2: State, d: Decision, d2: Decision, s1: State, final: seq<Node>)
    requires WF(true, comments, s) && Related(s, s2, final) && AllRaw(final)
    requires Leads(s, final) && Leads(s1, final)
    requires SameStep(comments, s, d, d2) && d.act != New(Integer) && !NumberPhase(ViewOf(s))
    requires Apply(true, s, d) == More(s1)
    ensures var o := Apply(false, s2, d2); o.More? && Related(s1, o.s, final)
  {
    NoNumberActions(comments, s, d, d2);
    hide *;
    match d.act
    case Skip => SkipRelates(comments, s, s2, d, d2, s1, final);
    case New(_) => NewRelatesToo(comments, s, s2, d, d2, s1, final);
    case NewLeaf(_) => LeafRelatesToo(comments, s, s2, d, d2, s1, final);
    case Close => CloseRelates(comments, s, s2, d, d2, s1, final);
    case CloseText => CloseTextRelates(comments, s, s2, d, d2, s1, final);
    case Put(_) => PutRelates(comments, s, s2, d, d2, s1, final);
    case OpenName => OpenNameRelates(comments, s, s2, d, d2, s1, final);
    case CloseName => CloseNameRelates(comments, s, s2, d, d2, s1, final);
  }

  lemma NoNumberActions(comments: bool, s: State, d: Decision, d2: Decision)
    requires SameStep(comments, s, d, d2) && !NumberPhase(ViewOf(s)) && d.act != New(Integer)
    ensures !d.act.Digit? && !d.act.ToDouble? && !d.act.NumEnd? && (d.act.New? ==> !d.act.kind.Integer?)
    ensures d.act.New? ==> !d.act.kind.Double?
  {
  }

  ghost predicate SameButNum(v: View, v2: View) { v2 == v.(num := v2.num) }

  /** Decision d of pass 1 becomes d2 in pass 2: a number is skipped whole instead of begun. */
  ghost predicate Agrees(json: string, v: View, v2: View, d: Decision, d2: Decision)
    requires v.pos <= |json|
  {
    if d.Go? && d.act == New(Integer) then
      d2 == Go(NextFlags(v.f.(seek := false), v.top), v2.num, SkipNumber(json, v.pos), NewLeaf(Integer))
    else if d.Go? then d2 == d.(num := v2.num)
    else d2 == d
  }

  lemma StringAgrees(json: string, v: View, v2: View, b: char)
    requires v.pos <= |json| && SameButNum(v, v2)
    ensures Agrees(json, v, v2, DecideString(json, v, b), DecideString(json, v2, b))
  {
    EscapeAgrees(json, v, v2, b);
    hide DecideEscape;
  }

  lemma EscapeAgrees(json: string, v: View, v2: View, b: char)
    requires v.pos <= |json| && SameButNum(v, v2)
    ensures Agrees(json, v, v2, DecideEscape(json, v, b), DecideEscape(json, v2, b))
  {
    hide Hex4, Utf8, Combine, IsSurrogate;
  }

  lemma SeekAgrees(json: string, v: View, v2: View, b: char)
    requires v.pos <= |json| && SameButNum(v, v2)
    ensures Agrees(json, v, v2, DecideSeek(true, json, v, b), DecideSeek(false, json, v2, b))
  {
  }

  /** Outside the number machine the control part does not care which pass is running. */
  lemma DecideAgrees(comments: bool, json: string, v: View, v2: View)
    requires v.pos <= |json| && WFView(comments, v) && !NumberPhase(v)
    requires SameButNum(v, v2.(top := v.top))
    requires v2.top == v.top || (v.f.done && v.top.Some? && v2.top.Some?)
    ensures Agrees(json, v, v2, Decide(true, comments, json, v), Decide(false, comments, json, v2))
  {
    var b := At(json, v.pos);
    if v.f.str {
      StringAgrees(json, v, v2, b);
    } else if v.f.seek && !v.f.done {
      SeekAgrees(json, v, v2, b);
    }
  }

  lemma ViewsAgree(comments: bool, s: State, s2: State, final: seq<Node>)
    requires WF(true, comments, s) && Related(s, s2, final) && Leads(s, final) && !NumberPhase(ViewOf(s))
    ensures var v, v2 := ViewOf(s), ViewOf(s2);
            && SameButNum(v, v2.(top := v.top))
            && (v2.top == v.top || (v.f.done && v.top.Some? && v2.top.Some?))
  {
    if s.top.Some? {
      var t := s.top.value;
      assert Mirrors(s, t, s2.nodes[t], final[t]) && Fits(s, t, final[t]);
      if s.nodes[t].parent.Some? {
        var p := s.nodes[t].parent.value;
        assert Mirrors(s, p, s2.nodes[p], final[p]) && Fits(s, p, final[p]);
      }
    }
  }

  // ---------------------------------------------------------------- numbers

  /** x is inside the number that began in s. */
  ghost predicate InNumberOf(s: State, x: State) {
    Opens(s.(f := s.f.(seek := false), pos := x.pos), x, Integer, s.pos)
  }

  lemma NumberTailRefused(comments: bool, json: string, v: View)
    requires v.pos <= |json| && WFView(comments, v) && v.top.Some?
    requires v.f.needComma && !v.f.str && NoComment(v.f) && !NumberPhase(v)
    requires InNumber(At(json, v.pos)) && !IsDigit(At(json, v.pos))
    ensures Decide(true, comments, json, v) == Refuse(Syntax)
  {
    if v.f.done {
      assert DecideDone(v, At(json, v.pos)) == Refuse(Syntax);
    } else if v.f.seek {
      assert DecideSeek(true, json, v, At(json, v.pos)) == Refuse(Syntax);
    } else {
      assert v.top == Some(Object);
      assert DecideObject(v, At(json, v.pos)) == Refuse(Syntax);
    }
  }

  /** A number that ends before one of the characters pass 2 would skip is never accepted. */
  lemma NumberMustEnd(comments: bool, json: string, p: State)
    requires WF(true, comments, p) && p.pos <= |json| && p.top.Some?
    requires p.f.needComma && !p.f.str && NoComment(p.f) && !NumberPhase(ViewOf(p))
    requires InNumber(At(json, p.pos)) && !IsDigit(At(json, p.pos))
    ensures !Run(true, comments, json, p).Accept?
  {
    NumberTailRefused(comments, json, ViewOf(p));
    assert Step(true, comments, json, p) == Reject(Syntax);
  }

  /** What the number machine decides: go on over a number character, or end the value. */
  lemma NumberDecision(comments: bool, json: string, v: View)
    requires WFView(comments, v) && NumberPhase(v) && v.pos <= |json|
    ensures var d := Decide(true, comments, json, v);
            d.Go? ==>
              && (d.act.Skip? || d.act.Digit? || d.act.ToDouble? || d.act.NumEnd?)
              && (d.act.NumEnd? ==> d.pos == v.pos && !IsDigit(At(json, v.pos)) && d.f == NextFlags(v.f, v.parent))
              && (!d.act.NumEnd? ==> d.pos == v.pos + 1 && InNumber(At(json, v.pos)) && d.f == v.f)
  {
  }

  lemma NumberGoesOn(s: State, x: State, d: Decision, x1: State)
    requires InNumberOf(s, x) && d.Go? && (d.act.Skip? || d.act.Digit? || d.act.ToDouble?) && d.f == x.f
    requires Apply(true, x, d) == More(x1)
    ensures InNumberOf(s, x1)
  {
  }

  lemma NumberIsOver(s: State, x: State, d: Decision, p: State)
    requires Placed(s) && (s.top.None? ==> |s.nodes| == 0) && InNumberOf(s, x)
    requires d.Go? && d.act.NumEnd? && d.f == NextFlags(x.f, KindAt(s.nodes, s.top))
    requires Apply(true, x, d) == More(p)
    ensures NumberEnded(s, p)
  {
    var v := |s.nodes|;
    var m := Signed(x.nodes[v], d.num);
    var mid := x.(f := d.f, num := d.num, pos := d.pos, nodes := x.nodes[v := m]);
    assert mid.nodes[..v] == s.nodes;
    assert NumberEndedAs(s, mid, p);
  }

  /** Pass 1 right after the number that began in s: flag_next has hung `mid`'s top under its parent. */
  ghost predicate NumberEnded(s: State, p: State) {
    exists mid: State :: NumberEndedAs(s, mid, p)
  }

  ghost predicate NumberEndedAs(s: State, mid: State, p: State) {
    var f := NextFlags(s.f.(seek := false), KindAt(s.nodes, s.top));
    Opens(s.(f := f, pos := p.pos), mid, Integer, s.pos) && Finish(true, mid) == More(p)
  }

  lemma NumberStep(comments: bool, json: string, s: State, x: State, x1: State)
    requires WF(true, comments, s) && WF(true, comments, x) && x.pos <= |json|
    requires InNumberOf(s, x) && NumberPhase(ViewOf(x))
    requires Step(true, comments, json, x) == More(x1)
    ensures if x1.pos == x.pos then !IsDigit(At(json, x.pos)) && NumberEnded(s, x1)
            else x1.pos == x.pos + 1 && InNumber(At(json, x.pos)) && InNumberOf(s, x1)
  {
    var v := ViewOf(x);
    var d := Decide(true, comments, json, v);
    NumberDecision(comments, json, v);
    assert v.parent == KindAt(s.nodes, s.top);
    if d.act.NumEnd? {
      NumberIsOver(s, x, d, x1);
    } else {
      NumberGoesOn(s, x, d, x1);
    }
  }

  lemma NumberEndedFlags(comments: bool, s: State, p: State)
    requires WF(true, comments, s) && WF(true, comments, p) && NumberEnded(s, p)
    requires s.f.seek && NoComment(s.f)
    ensures p.f.needComma && !p.f.str && NoComment(p.f) && !NumberPhase(ViewOf(p))
  {
    var mid :| NumberEndedAs(s, mid, p);
    if s.top.Some? {
      assert ViewOf(p).top == Some(s.nodes[s.top.value].kind);
    }
  }

  lemma SkipOne(json: string, p: nat)
    requires p <= |json|
    ensures if InNumber(At(json, p)) then p < |json| && SkipNumber(json, p) == SkipNumber(json, p + 1)
            else SkipNumber(json, p) == p
  {
  }

  lemma NumberStops(comments: bool, json: string, s: State, p: State)
    requires WF(true, comments, s) && WF(true, comments, p) && p.pos <= |json|
    requires s.f.seek && NoComment(s.f) && NumberEnded(s, p) && !IsDigit(At(json, p.pos))
    requires Run(true, comments, json, p).Accept?
    ensures SkipNumber(json, p.pos) == p.pos
  {
    NumberEndedFlags(comments, s, p);
    if InNumber(At(json, p.pos)) {
      NumberMustEnd(comments, json, p);
    }
    SkipOne(json, p.pos);
  }

  /** Inside a number a run that will be accepted goes on. */
  lemma RunGoesOn(comments: bool, json: string, x: State)
    requires WF(true, comments, x) && x.pos <= |json| && NumberPhase(ViewOf(x))
    requires Run(true, comments, json, x).Accept?
    ensures var o := Step(true, comments, json, x);
            && o.More? && WF(true, comments, o.s) && o.s.pos <= |json|
            && Run(true, comments, json, o.s) == Run(true, comments, json, x)
  {
    StepKeepsWF(true, comments, json, x);
    assert !x.f.done;
    hide Step, WF, NumberPhase;
  }

  /** From inside a number, an accepted pass 1 gets to exactly where pass 2 will skip to. */
  lemma {:induction false} NumberRuns(comments: bool, json: string, s: State, x: State) returns (p: State)
    requires WF(true, comments, s) && WF(true, comments, x) && x.pos <= |json|
    requires s.f.seek && NoComment(s.f)
    requires InNumberOf(s, x) && NumberPhase(ViewOf(x))
    requires Run(true, comments, json, x).Accept?
    ensures WF(true, comments, p) && NumberEnded(s, p) && p.pos == SkipNumber(json, x.pos)
    ensures Run(true, comments, json, p) == Run(true, comments, json, x)
    decreases |json| - x.pos
  {
    hide *;
    RunGoesOn(comments, json, x);
    p := Step(true, comments, json, x).s;
    NumberStep(comments, json, s, x, p);
    if p.pos == x.pos {
      NumberStops(comments, json, s, p);
    } else {
      SkipOne(json, x.pos);
      StillInNumber(comments, s, p);
      p := NumberRuns(comments, json, s, p);
    }
  }

  lemma StillInNumber(comments: bool, s: State, x: State)
    requires WF(true, comments, s) && s.f.seek && InNumberOf(s, x)
    ensures NumberPhase(ViewOf(x))
  {
  }

  // ---------------------------------------------------------------- the whole of pass 2

  /** Pass 1 begins a number in s; pass 2 skips it in one step, to where pass 1 leaves it. */
  lemma NumberRelates(comments: bool, json: string, s: State, s2: State, final: seq<Node>) returns (p: State)
    requires WF(true, comments, s) && s.pos <= |json| && Related(s, s2, final) && AllRaw(final)
    requires Run(true, comments, json, s).Accept? && Run(true, comments, json, s).s.nodes == final
    requires !NumberPhase(ViewOf(s))
    requires var d := Decide(true, comments, json, ViewOf(s)); d.Go? && d.act == New(Integer)
    ensures WF(true, comments, p) && s.pos < p.pos <= |json| && !NumberPhase(ViewOf(p))
    ensures Run(true, comments, json, p) == Run(true, comments, json, s)
    ensures var o := Step(false, comments, json, s2); o.More? && Related(p, o.s, final)
  {
    NumberBegins(comments, json, s);
    StepKeepsWF(true, comments, json, s);
    var x := Step(true, comments, json, s).s;
    p := NumberRuns(comments, json, s, x);
    NumberEndedFlags(comments, s, p);
    RunLeads(comments, json, p);
    RunLeads(comments, json, s);
    ViewsAgree(comments, s, s2, final);
    DecideAgrees(comments, json, ViewOf(s), ViewOf(s2));
    var mid :| NumberEndedAs(s, mid, p);
    LeafRelates(comments, s, s2, Integer, mid, p, s2.num, final);
  }

  /** Pass 1 begins a number: one node more, of type Integer, on top. */
  lemma NumberOpens(comments: bool, s: State, d: Decision)
    requires WF(true, comments, s) && d.Go? && d.act == New(Integer) && d.f == s.f.(seek := false)
    requires s.f.seek && !s.f.done
    ensures var o := Apply(true, s, d);
            && o.More? && InNumberOf(s, o.s) && NumberPhase(ViewOf(o.s)) && o.s.pos == d.pos
  {
  }

  lemma NumberBegins(comments: bool, json: string, s: State)
    requires WF(true, comments, s) && s.pos <= |json| && !NumberPhase(ViewOf(s))
    requires var d := Decide(true, comments, json, ViewOf(s)); d.Go? && d.act == New(Integer)
    ensures s.f.seek && !s.f.str && !s.f.done && NoComment(s.f) && InNumber(At(json, s.pos))
    ensures var o := Step(true, comments, json, s);
            && o.More? && InNumberOf(s, o.s) && NumberPhase(ViewOf(o.s))
            && s.pos <= o.s.pos <= |json| && SkipNumber(json, o.s.pos) == SkipNumber(json, s.pos) > s.pos
  {
    hide Decide, Apply, SkipNumber;
    var d := Decide(true, comments, json, ViewOf(s));
    NumberSeen(comments, json, s);
    StepIsApply(comments, json, s);
    hide *;
    NumberOpens(comments, s, d);
    SkipOne(json, s.pos);
  }

  lemma StepIsApply(comments: bool, json: string, s: State)
    requires s.pos <= |json|
    ensures Step(true, comments, json, s) == Apply(true, s, Decide(true, comments, json, ViewOf(s)))
  {
    hide Apply, Decide;
  }

  lemma NumberSeen(comments: bool, json: string, s: State)
    requires WF(true, comments, s) && s.pos <= |json|
    requires var d := Decide(true, comments, json, ViewOf(s)); d.Go? && d.act == New(Integer)
    ensures s.f.seek && !s.f.str && !s.f.done && NoComment(s.f) && InNumber(At(json, s.pos)) && s.pos < |json|
    ensures var d := Decide(true, comments, json, ViewOf(s));
            d.f == s.f.(seek := false) && d.pos == s.pos + (if At(json, s.pos) == '-' then 1 else 0)
  {
    DecideIsSound(true, comments, json, ViewOf(s));
    NumberSource(comments, json, ViewOf(s));
    hide Decide;
  }

  lemma NumberSource(comments: bool, json: string, v: View)
    requires v.pos <= |json| && WFView(comments, v)
    requires var d := Decide(true, comments, json, v); d.Go? && d.act == New(Integer)
    ensures var b := At(json, v.pos);
            var d := Decide(true, comments, json, v);
            InNumber(b) && d.pos == v.pos + (if b == '-' then 1 else 0)
  {
  }

  /** From related states an accepted pass 1 makes pass 2 accept, in a related state. */
  lemma {:induction false} Simulation(comments: bool, json: string, s: State, s2: State, final: seq<Node>)
    requires WF(true, comments, s) && WF(false, comments, s2) && s.pos <= |json| && s2.pos <= |json|
    requires Related(s, s2, final) && AllRaw(final) && !NumberPhase(ViewOf(s))
    requires Run(true, comments, json, s).Accept? && Run(true, comments, json, s).s.nodes == final
    ensures var o, o2 := Run(true, comments, json, s), Run(false, comments, json, s2);
            o2.Accept? && Related(o.s, o2.s, final)
    decreases |json| - s.pos, Rank(json, s)
  {
    StepKeepsWF(true, comments, json, s);
    StepKeepsWF(false, comments, json, s2);
    var d := Decide(true, comments, json, ViewOf(s));
    if d.Go? && d.act == New(Integer) {
      var p := NumberRelates(comments, json, s, s2, final);
      Simulation(comments, json, p, Step(false, comments, json, s2).s, final);
    } else {
      StepRelates(comments, json, s, s2, final);
      var o := Step(true, comments, json, s);
      if o.More? {
        Simulation(comments, json, o.s, Step(false, comments, json, s2).s, final);
      }
    }
  }

  lemma StepRelates(comments: bool, json: string, s: State, s2: State, final: seq<Node>)
    requires WF(true, comments, s) && s.pos <= |json| && Related(s, s2, final) && AllRaw(final)
    requires Run(true, comments, json, s).Accept? && Run(true, comments, json, s).s.nodes == final
    requires !NumberPhase(ViewOf(s))
    requires var d := Decide(true, comments, json, ViewOf(s)); d.Go? ==> d.act != New(Integer)
    ensures var o, o2 := Step(true, comments, json, s), Step(false, comments, json, s2);
            && (o.More? ==> o2.More? && Related(o.s, o2.s, final) && !NumberPhase(ViewOf(o.s)))
            && (o.Accept? ==> o2 == Accept(s2))
  {
    var d, d2 := Decide(true, comments, json, ViewOf(s)), Decide(false, comments, json, ViewOf(s2));
    DecideIsSound(true, comments, json, ViewOf(s));
    RunLeads(comments, json, s);
    ViewsAgree(comments, s, s2, final);
    DecideAgrees(comments, json, ViewOf(s), ViewOf(s2));
    StepKeepsWF(true, comments, json, s);
    var o := Step(true, comments, json, s);
    if o.More? {
      RunLeads(comments, json, o.s);
      ApplyRelates(comments, s, s2, d, d2, o.s, final);
      NotANumber(comments, s, d, o.s);
    }
  }

  lemma NotANumber(comments: bool, s: State, d: Decision, s1: State)
    requires WF(true, comments, s) && WF(true, comments, s1) && !NumberPhase(ViewOf(s))
    requires d.Go? && d.act != New(Integer) && Allowed(true, comments, ViewOf(s), d.f, d.act)
    requires Apply(true, s, d) == More(s1)
    ensures !NumberPhase(ViewOf(s1))
  {
  }
}
