/**
  The tree pass 2 builds: every value hangs exactly once under its parent, in source order, and
  the buffers hold what their entries say.
 */
module JsonTree {
  import opened Optional
  import opened JsonMachine
  import opened JsonInvariant
  import opened JsonSimulation

  /** c is `top` or encloses it. */
  ghost predicate Open(s: State, c: nat)
    requires Placed(s)
  {
    s.top.Some? && (s.top.value == c || Ancestor(s.nodes, s.top.value, c))
  }

  ghost predicate Increasing(slots: seq<nat>) {
    forall j, k | 0 <= j < k < |slots| :: slots[j] < slots[k]
  }

  /** The names of an object lie one after the other, each with its NUL, from 0 to end. */
  ghost predicate Chained(entries: seq<Entry>, mem: string, end: nat) {
    if entries == [] then end == 0
    else
      var last := entries[|entries| - 1];
      && last.off + last.len + 1 == end <= |mem| && mem[end - 1] == '\0'
      && Chained(entries[..|entries| - 1], mem, last.off)
  }

  lemma {:induction false} ChainedStays(entries: seq<Entry>, mem: string, more: string, end: nat)
    requires Chained(entries, mem, end)
    ensures Chained(entries, mem + more, end)
  {
    if entries != [] {
      ChainedStays(entries[..|entries| - 1], mem, more, entries[|entries| - 1].off);
    }
  }

  /** Child k of p is finished. */
  ghost predicate Closed(s: State, p: nat, c: nat)
    requires Placed(s)
  {
    c < |s.nodes| && c < s.visited && s.nodes[c].parent == Some(p) && !Open(s, c)
  }

  /** The slots of p hold finished children of p, in order, before the unfinished one. */
  ghost predicate SlotsOf(s: State, p: nat)
    requires Placed(s) && p < |s.nodes|
  {
    var slots := s.nodes[p].slots;
    && Increasing(slots)
    && (forall k {:trigger slots[k]} | 0 <= k < |slots| :: Closed(s, p, slots[k]))
    && (forall c: nat {:trigger Open(s, c)} | c < |s.nodes| && Open(s, c) ::
          s.nodes[c].parent == Some(p) && |slots| > 0 ==> slots[|slots| - 1] < c)
  }

  ghost predicate Hung(s: State, c: nat)
    requires WFNodes(s.nodes) && Placed(s) && c < |s.nodes|
  {
    !Open(s, c) && s.nodes[c].parent.Some? ==> c in s.nodes[s.nodes[c].parent.value].slots
  }

  ghost predicate BytesOf(n: Node, reading: bool) {
    && (n.kind.Object? ==> Chained(n.entries, n.mem, n.cursor))
    && (n.kind.Str? && !reading ==> n.length < |n.mem| && n.mem[n.length] == '\0')
  }

  /** What pass 2 keeps while it builds. */
  ghost predicate Building(s: State) {
    && Placed(s) && s.visited <= |s.nodes| && (s.top.Some? ==> s.top.value < s.visited)
    && (forall p {:trigger SlotsOf(s, p)} | 0 <= p < s.visited :: SlotsOf(s, p))
    && (forall c {:trigger Hung(s, c)} | 0 <= c < s.visited :: Hung(s, c))
    && (forall i {:trigger s.nodes[i]} | 0 <= i < s.visited :: BytesOf(s.nodes[i], Reading(s, i)))
    && (forall i {:trigger s.nodes[i]} | s.visited <= i < |s.nodes| :: Raw(s.nodes[i]))
  }

  /** A step that opens or closes nothing and touches no slots. */
  lemma InPlaceBuilds(s: State, s1: State)
    requires Building(s) && Placed(s1) && s1.top == s.top && s1.visited == s.visited
    requires |s1.nodes| == |s.nodes|
    requires forall i {:trigger s1.nodes[i]} | 0 <= i < |s.nodes| ::
        && s1.nodes[i].parent == s.nodes[i].parent && s1.nodes[i].slots == s.nodes[i].slots
        && (i >= s.visited ==> s1.nodes[i] == s.nodes[i])
        && (i < s.visited ==> BytesOf(s1.nodes[i], Reading(s1, i)))
    ensures Building(s1)
  {
    forall c: nat | c < |s.nodes| ensures Open(s1, c) == Open(s, c) {
      if s.top.Some? {
        AncestorSame(s.nodes, s1.nodes, s.top.value, c);
      }
    }
    hide Open, BytesOf;
    forall p | 0 <= p < s.visited ensures SlotsOf(s1, p) {
      SameSlots(s, s1, p);
    }
    forall c | 0 <= c < s.visited ensures Hung(s1, c) {
      assert Hung(s, c);
    }
  }

  lemma SameSlots(s: State, s1: State, p: nat)
    requires Placed(s) && Placed(s1) && p < |s.nodes| == |s1.nodes| && s1.visited == s.visited && SlotsOf(s, p)
    requires forall i {:trigger s1.nodes[i]} | 0 <= i < |s.nodes| ::
        s1.nodes[i].parent == s.nodes[i].parent && s1.nodes[i].slots == s.nodes[i].slots
    requires forall c: nat | c < |s.nodes| :: Open(s1, c) == Open(s, c)
    ensures SlotsOf(s1, p)
  {
    hide Open, Increasing;
    assert forall k | 0 <= k < |s.nodes[p].slots| :: Closed(s, p, s.nodes[p].slots[k]);
  }

  /** s1 is s with node v = s.visited handed out. */
  ghost predicate Grown(s: State, s1: State) {
    && Placed(s) && Placed(s1) && s.visited < |s.nodes| && s1.top == Some(s.visited) && s1.visited == s.visited + 1
    && s.nodes[s.visited].parent == s.top
    && |s1.nodes| == |s.nodes|
    && (forall i {:trigger s1.nodes[i]} | 0 <= i < |s.nodes| ::
          && s1.nodes[i].parent == s.nodes[i].parent && s1.nodes[i].slots == s.nodes[i].slots
          && (i != s.visited ==> s1.nodes[i] == s.nodes[i]))
  }

  lemma GrownOpens(s: State, s1: State, c: nat)
    requires Grown(s, s1) && c < |s.nodes|
    ensures Open(s1, c) == (Open(s, c) || c == s.visited)
  {
    if s.top.Some? {
      AncestorSame(s.nodes, s1.nodes, s.top.value, c);
    }
  }

  lemma GrownSlots(s: State, s1: State, p: nat)
    requires Grown(s, s1) && p <= s.visited
    requires p < s.visited ==> SlotsOf(s, p)
    requires p == s.visited ==> s.nodes[p].slots == []
    ensures SlotsOf(s1, p)
  {
    var slots := s.nodes[p].slots;
    forall k | 0 <= k < |slots| ensures Closed(s1, p, slots[k]) {
      GrownOpens(s, s1, slots[k]);
    }
    forall c: nat | c < |s.nodes| && Open(s1, c)
      ensures s1.nodes[c].parent == Some(p) && |slots| > 0 ==> slots[|slots| - 1] < c
    {
      GrownOpens(s, s1, c);
      if |slots| > 0 {
        assert Closed(s, p, slots[|slots| - 1]);
      }
    }
  }

  lemma GrownHung(s: State, s1: State, c: nat)
    requires Grown(s, s1) && c <= s.visited
    requires c < s.visited ==> Hung(s, c)
    ensures Hung(s1, c)
  {
    GrownOpens(s, s1, c);
  }

  lemma NewBuilds(s: State, s1: State, k: Kind, at: nat, f0: Flags)
    requires Building(s.(f := f0)) && !f0.str && NewValue(false, s, k, at) == More(s1)
    requires Placed(s1) && (k.Str? ==> s.f.str)
    ensures Building(s1)
  {
    var s0 := s.(f := f0);
    assert Raw(s.nodes[s.visited]);
    forall p | 0 <= p < s1.visited ensures SlotsOf(s1, p) {
      GrownSlots(s0, s1, p);
    }
    forall c | 0 <= c < s1.visited ensures Hung(s1, c) {
      GrownHung(s0, s1, c);
    }
    assert forall i | 0 <= i < s.visited :: BytesOf(s1.nodes[i], Reading(s0, i));
  }

  /** s1 is s with `top`, a finished child of p, hung under p. */
  ghost predicate Shut(s: State, s1: State, p: nat) {
    && Placed(s) && Placed(s1) && s.top.Some? && s1.top == Some(p) && s.nodes[s.top.value].parent == Some(p)
    && s.top.value < s.visited == s1.visited <= |s.nodes| == |s1.nodes|
    && (forall i {:trigger s1.nodes[i]} | 0 <= i < |s.nodes| ::
          && s1.nodes[i].parent == s.nodes[i].parent
          && s1.nodes[i].slots == if i == p then s.nodes[p].slots + [s.top.value] else s.nodes[i].slots)
  }

  lemma ShutOpens(s: State, s1: State, p: nat, c: nat)
    requires Shut(s, s1, p)
    ensures Open(s1, c) == (Open(s, c) && c != s.top.value)
    ensures Open(s1, c) ==> c <= p
  {
    AncestorSame(s.nodes, s1.nodes, p, c);
    if Ancestor(s1.nodes, p, c) {
      AncestorIsEarlier(s1.nodes, p, c);
    }
  }

  lemma SlotAt(s: State, p: nat, k: nat)
    requires Placed(s) && p < |s.nodes| && SlotsOf(s, p) && k < |s.nodes[p].slots|
    ensures Closed(s, p, s.nodes[p].slots[k])
  {
  }

  lemma LastSlot(s: State, p: nat, c: nat)
    requires Placed(s) && p < |s.nodes| && SlotsOf(s, p) && c < |s.nodes| && Open(s, c)
    requires s.nodes[c].parent == Some(p) && |s.nodes[p].slots| > 0
    ensures s.nodes[p].slots[|s.nodes[p].slots| - 1] < c
  {
  }

  lemma SlotsRise(s: State, p: nat)
    requires Placed(s) && p < |s.nodes| && SlotsOf(s, p)
    ensures Increasing(s.nodes[p].slots)
  {
  }

  lemma AppendRises(slots: seq<nat>, t: nat)
    requires Increasing(slots) && (|slots| > 0 ==> slots[|slots| - 1] < t)
    ensures Increasing(slots + [t])
  {
  }

  lemma SlotsAre(s: State, p: nat)
    requires Placed(s) && p < |s.nodes| && Increasing(s.nodes[p].slots)
    requires forall k | 0 <= k < |s.nodes[p].slots| :: Closed(s, p, s.nodes[p].slots[k])
    requires forall c: nat {:trigger Open(s, c)} | c < |s.nodes| && Open(s, c) ::
        s.nodes[c].parent == Some(p) && |s.nodes[p].slots| > 0 ==> s.nodes[p].slots[|s.nodes[p].slots| - 1] < c
    ensures SlotsOf(s, p)
  {
  }

  lemma ShutSlots(s: State, s1: State, p: nat, q: nat)
    requires Shut(s, s1, p) && q < s.visited && SlotsOf(s, q)
    ensures SlotsOf(s1, q)
  {
    ShutIncreasing(s, s1, p, q);
    ShutAllClosed(s, s1, p, q);
    ShutAllOpenKids(s, s1, p, q);
    hide Open, Closed, Increasing, Shut;
    SlotsAre(s1, q);
  }

  lemma ShutAllClosed(s: State, s1: State, p: nat, q: nat)
    requires Shut(s, s1, p) && q < s.visited && SlotsOf(s, q)
    ensures forall k | 0 <= k < |s1.nodes[q].slots| :: Closed(s1, q, s1.nodes[q].slots[k])
  {
    hide Closed, SlotsOf;
    forall k | 0 <= k < |s1.nodes[q].slots| ensures Closed(s1, q, s1.nodes[q].slots[k]) {
      ShutClosed(s, s1, p, q, k);
    }
  }

  lemma ShutAllOpenKids(s: State, s1: State, p: nat, q: nat)
    requires Shut(s, s1, p) && q < s.visited && SlotsOf(s, q)
    ensures forall c: nat {:trigger Open(s1, c)} | c < |s1.nodes| && Open(s1, c) ::
        s1.nodes[c].parent == Some(q) && |s1.nodes[q].slots| > 0 ==> s1.nodes[q].slots[|s1.nodes[q].slots| - 1] < c
  {
    hide Open, SlotsOf;
    forall c: nat | c < |s1.nodes| && Open(s1, c)
      ensures s1.nodes[c].parent == Some(q) && |s1.nodes[q].slots| > 0 ==> s1.nodes[q].slots[|s1.nodes[q].slots| - 1] < c
    {
      ShutOpenKids(s, s1, p, q, c);
    }
  }

  lemma ShutIncreasing(s: State, s1: State, p: nat, q: nat)
    requires Shut(s, s1, p) && q < s.visited && SlotsOf(s, q)
    ensures Increasing(s1.nodes[q].slots)
  {
    var t, slots := s.top.value, s.nodes[q].slots;
    assert Open(s, t);
    hide Open, Increasing, SlotsOf;
    SlotsRise(s, q);
    if q == p {
      if |slots| > 0 {
        LastSlot(s, p, t);
      }
      AppendRises(slots, t);
    }
  }

  lemma ShutOpenKids(s: State, s1: State, p: nat, q: nat, c: nat)
    requires Shut(s, s1, p) && q < s.visited && SlotsOf(s, q) && c < |s.nodes| && Open(s1, c)
    ensures var slots1 := s1.nodes[q].slots;
            s1.nodes[c].parent == Some(q) && |slots1| > 0 ==> slots1[|slots1| - 1] < c
  {
    ShutOpens(s, s1, p, c);
    hide Open, SlotsOf;
    if s1.nodes[c].parent == Some(q) && |s1.nodes[q].slots| > 0 {
      assert q < c && q != p;
      LastSlot(s, q, c);
    }
  }

  lemma ShutClosed(s: State, s1: State, p: nat, q: nat, k: nat)
    requires Shut(s, s1, p) && q < s.visited && SlotsOf(s, q) && k < |s1.nodes[q].slots|
    ensures Closed(s1, q, s1.nodes[q].slots[k])
  {
    var slots := s.nodes[q].slots;
    ShutOpens(s, s1, p, s1.nodes[q].slots[k]);
    hide Open, SlotsOf;
    if k < |slots| {
      SlotAt(s, q, k);
    }
  }

  lemma ShutHung(s: State, s1: State, p: nat, c: nat)
    requires Shut(s, s1, p) && c < s.visited && Hung(s, c)
    ensures Hung(s1, c)
  {
    ShutOpens(s, s1, p, c);
    if c == s.top.value {
      assert s1.nodes[p].slots[|s.nodes[p].slots|] == c;
    }
  }

  lemma FinishBuilds(s: State, s1: State, f0: Flags)
    requires Building(s.(f := f0)) && !f0.str && !s.f.str && Finish(false, s) == More(s1) && Placed(s1)
    ensures Building(s1)
  {
    var s0 := s.(f := f0);
    match s.nodes[s.top.value].parent
    case None =>
      InPlaceBuilds(s0, s1);
    case Some(p) =>
      assert Shut(s0, s1, p);
      forall q | 0 <= q < s1.visited ensures SlotsOf(s1, q) {
        ShutSlots(s0, s1, p, q);
      }
      forall c | 0 <= c < s1.visited ensures Hung(s1, c) {
        ShutHung(s0, s1, p, c);
      }
      assert forall i | 0 <= i < s.visited :: BytesOf(s.nodes[i], Reading(s0, i));
  }

  lemma PutBuilds(n: Node, strLen: nat, bytes: string)
    requires BytesOf(n, true) && Write(n, strLen, bytes).Some?
    ensures BytesOf(Write(n, strLen, bytes).value, true)
  {
    if n.kind.Object? {
      ChainedStays(n.entries, n.mem, bytes, n.cursor);
    }
  }

  lemma CloseNameBuilds(n: Node, strLen: nat)
    requires BytesOf(n, true) && n.kind.Object? && CloseNameOf(n, false, strLen).Some?
    ensures BytesOf(CloseNameOf(n, false, strLen).value, false)
  {
    ChainedStays(n.entries, n.mem, "\0", n.cursor);
    assert (n.entries + [Entry(n.cursor, strLen)])[..|n.entries|] == n.entries;
  }

  lemma TopBuilds(comments: bool, s: State, d: Decision, s1: State)
    requires WF(false, comments, s) && Building(s) && d.Go? && Allowed(false, comments, ViewOf(s), d.f, d.act)
    requires Apply(false, s, d) == More(s1) && Placed(s1)
    requires d.act.Put? || d.act.OpenName? || d.act.CloseName? || d.act.Digit? || d.act.ToDouble?
    ensures Building(s1)
  {
    var t := s.top.value;
    var n := s.nodes[t];
    assert BytesOf(n, Reading(s, t));
    match d.act {
      case Put(bytes) => PutBuilds(n, s.strLen, bytes);
      case CloseName => CloseNameBuilds(n, s.strLen);
      case _ =>
    }
    assert s1.nodes == s.nodes[t := s1.nodes[t]];
    assert BytesOf(s1.nodes[t], Reading(s1, t));
    assert forall i | 0 <= i < s.visited && i != t :: BytesOf(s.nodes[i], Reading(s, i));
    InPlaceBuilds(s, s1);
  }

  /** What the action that ends `top` makes of it before flag_next. */
  function EndNode(n: Node, act: Action, num: Num, strLen: nat): Node {
    match act
    case CloseText => if CloseTextOf(n, false, strLen).Some? then CloseTextOf(n, false, strLen).value else n
    case NumEnd => Signed(n, num)
    case _ => n
  }

  lemma EndSplits(comments: bool, s: State, d: Decision, s1: State)
    requires WF(false, comments, s) && Building(s) && d.Go? && Allowed(false, comments, ViewOf(s), d.f, d.act)
    requires Apply(false, s, d) == More(s1) && Ends(d.act)
    ensures s.top.Some? && s.top.value < s.visited <= |s.nodes|
    ensures var n := s.nodes[s.top.value];
            var m := EndNode(n, d.act, d.num, s.strLen);
            && m.parent == n.parent && m.kind == n.kind && m.slots == n.slots && BytesOf(m, false)
            && Finish(false, s.(f := d.f, num := d.num, pos := d.pos, nodes := s.nodes[s.top.value := m])) == More(s1)
    ensures !d.f.str
  {
    var t := s.top.value;
    assert BytesOf(s.nodes[t], Reading(s, t));
    assert s.nodes[t := s.nodes[t]] == s.nodes;
    hide Finish;
  }

  lemma EndBuilds(comments: bool, s: State, d: Decision, s1: State)
    requires WF(false, comments, s) && Building(s) && d.Go? && Allowed(false, comments, ViewOf(s), d.f, d.act)
    requires Apply(false, s, d) == More(s1) && Placed(s1) && Ends(d.act)
    ensures Building(s1)
  {
    EndSplits(comments, s, d, s1);
    hide WF, Allowed, Apply, EndNode, Finish, BytesOf;
    var t := s.top.value;
    var m := EndNode(s.nodes[t], d.act, d.num, s.strLen);
    var mid := s.(f := d.f, num := d.num, pos := d.pos, nodes := s.nodes[t := m]);
    var f0 := s.f.(str := false);
    assert forall i | 0 <= i < s.visited && i != t :: BytesOf(s.nodes[i], Reading(s, i));
    InPlaceBuilds(s, mid.(f := f0));
    FinishBuilds(mid, s1, f0);
  }

  lemma StepBuilds(comments: bool, json: string, s: State, s1: State)
    requires WF(false, comments, s) && s.pos <= |json| && Building(s)
    requires Step(false, comments, json, s) == More(s1)
    ensures Building(s1)
  {
    var d := Decide(false, comments, json, ViewOf(s));
    DecideIsSound(false, comments, json, ViewOf(s));
    StepKeepsWF(false, comments, json, s);
    ApplyBuilds(comments, s, d, s1);
  }

  lemma MovedBuilds(comments: bool, s: State, d: Decision, len: nat)
    requires WF(false, comments, s) && Building(s) && d.Go? && !s.f.str
    ensures Building(s.(num := d.num, pos := d.pos, strLen := len))
  {
    assert forall i | 0 <= i < s.visited :: BytesOf(s.nodes[i], Reading(s, i));
    hide BytesOf;
    InPlaceBuilds(s, s.(num := d.num, pos := d.pos, strLen := len));
  }

  lemma LeafFinishes(comments: bool, s: State, d: Decision, s1: State)
    requires WF(false, comments, s) && d.Go? && Allowed(false, comments, ViewOf(s), d.f, d.act)
    requires Apply(false, s, d) == More(s1) && d.act.NewLeaf?
    ensures var o := NewValue(false, s.(f := d.f, num := d.num, pos := d.pos), d.act.kind, s.pos);
            o.More? && Finish(false, o.s) == More(s1) && Placed(o.s) && !d.f.str && o.s.f == d.f && o.s.top.Some?
    ensures s.f.seek && !s.f.str && !s.f.done && !IsContainer(d.act.kind) && !d.act.kind.Str?
  {
    var mid := NewValue(false, s.(f := d.f, num := d.num, pos := d.pos), d.act.kind, s.pos).s;
    assert forall i | 0 <= i < |s.nodes| ::
        mid.nodes[i].parent == s.nodes[i].parent && mid.nodes[i].kind == s.nodes[i].kind;
    hide Finish;
  }

  lemma LeafBuilds(comments: bool, s: State, d: Decision, s1: State)
    requires WF(false, comments, s) && WF(false, comments, s1) && Building(s)
    requires d.Go? && Allowed(false, comments, ViewOf(s), d.f, d.act) && Apply(false, s, d) == More(s1)
    requires d.act.NewLeaf?
    ensures Building(s1)
  {
    LeafFinishes(comments, s, d, s1);
    MovedBuilds(comments, s, d, s.strLen);
    var moved := s.(f := d.f, num := d.num, pos := d.pos);
    var mid := NewValue(false, moved, d.act.kind, s.pos).s;
    assert moved.(f := s.f) == s.(num := d.num, pos := d.pos, strLen := s.strLen);
    hide Building, BytesOf, Apply, Allowed, Finish;
    NewBuilds(moved, mid, d.act.kind, s.pos, s.f);
    FinishBuilds(mid, s1, mid.f);
  }

  lemma ApplyBuilds(comments: bool, s: State, d: Decision, s1: State)
    requires WF(false, comments, s) && WF(false, comments, s1) && Building(s)
    requires d.Go? && Allowed(false, comments, ViewOf(s), d.f, d.act) && Apply(false, s, d) == More(s1)
    ensures Building(s1)
  {
    if d.act.Skip? {
      assert forall i | 0 <= i < s.visited :: BytesOf(s.nodes[i], Reading(s, i));
      InPlaceBuilds(s, s1);
    } else if d.act.New? {
      var len := if d.act.kind.Str? then 0 else s.strLen;
      var moved := s.(f := d.f, num := d.num, pos := d.pos, strLen := len);
      assert forall i | 0 <= i < s.visited :: BytesOf(s.nodes[i], Reading(s, i));
      InPlaceBuilds(s, moved.(f := s.f));
      NewBuilds(moved, s1, d.act.kind, s.pos, s.f);
    } else if d.act.NewLeaf? {
      LeafBuilds(comments, s, d, s1);
    } else if Ends(d.act) {
      EndBuilds(comments, s, d, s1);
    } else {
      TopBuilds(comments, s, d, s1);
    }
  }

  /** Pass 2, started on the nodes of pass 1, keeps the tree and the buffers in order to its end. */
  lemma {:induction false} RunBuilds(comments: bool, json: string, s: State)
    requires WF(false, comments, s) && s.pos <= |json| && Building(s)
    ensures var o := Run(false, comments, json, s); o.Accept? ==> Building(o.s)
    decreases |json| - s.pos, Rank(json, s)
  {
    StepKeepsWF(false, comments, json, s);
    var o := Step(false, comments, json, s);
    if o.More? {
      StepBuilds(comments, json, s, o.s);
      RunBuilds(comments, json, o.s);
    }
  }
}
