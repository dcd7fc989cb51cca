/**
  json_parse_ex as a whole: pass 1 measures, pass 2 fills.  The theorems say what a successful
  pass 1 promises about pass 2; the class below is the parser itself, with the fields the C code
  updates, proved to run exactly the machine the theorems are about.
 */
module JsonParse {
  import opened Optional
  import opened JsonMachine
  import opened JsonInvariant
  import opened JsonSimulation
  import opened JsonTree

  /** The value of every length and buffer after pass 2, against the counts of pass 1. */
  ghost predicate FilledExactly(n2: Node, n: Node) {
    && n2.kind == n.kind && n2.parent == n.parent && n2.length == n.length && n2.integer == n.integer && n2.dbl == n.dbl
    && (IsContainer(n.kind) ==> |n2.slots| == n2.cap == n.length)
    && (n.kind.Object? ==>
          && |n2.entries| == n.length && |n2.mem| == n.names && Chained(n2.entries, n2.mem, n.names)
          && (n.length > 0 ==> n2.nameCap == n.names))
    && (n.kind.Str? ==> |n2.mem| == n2.cap == n.length + 1 && n2.mem[n.length] == '\0')
  }

  /** The child pointers of p: values whose parent is p, in source order. */
  ghost predicate KidsOf(nodes: seq<Node>, p: nat)
    requires p < |nodes|
  {
    var slots := nodes[p].slots;
    && Increasing(slots)
    && (IsContainer(nodes[p].kind) ==> nodes[p].length == |slots|)
    && forall k {:trigger slots[k]} | 0 <= k < |slots| ::
         p < slots[k] < |nodes| && nodes[slots[k]].parent == Some(p)
  }

  /** Value c is among the children of its parent. */
  ghost predicate HungUp(nodes: seq<Node>, c: nat)
    requires WFNodes(nodes) && 0 < c < |nodes|
  {
    c in nodes[nodes[c].parent.value].slots
  }

  /** The child pointers of every value are exactly the values whose parent it is, in source order. */
  ghost predicate IsTree(nodes: seq<Node>) {
    && nodes != [] && WFNodes(nodes)
    && (forall p {:trigger KidsOf(nodes, p)} | 0 <= p < |nodes| :: KidsOf(nodes, p))
    && (forall c {:trigger HungUp(nodes, c)} | 0 < c < |nodes| :: HungUp(nodes, c))
  }

  lemma StartIsWF(first: bool, comments: bool, nodes: seq<Node>)
    requires WFNodes(nodes) && (first ==> nodes == [])
    ensures WF(first, comments, Start(nodes))
  {
  }

  /** The whole of pass 2 on the nodes of pass 1. */
  ghost function SecondPass(comments: bool, json: string, nodes: seq<Node>): Outcome
    requires WFNodes(nodes)
  {
    StartIsWF(false, comments, nodes);
    Run(false, comments, json, Start(nodes))
  }

  ghost function FirstPass(comments: bool, json: string): Outcome {
    StartIsWF(true, comments, []);
    Run(true, comments, json, Start([]))
  }

  /**
    Whatever pass 1 accepts, pass 2 accepts too; it calls new_value in the same order, at the same
    positions, under the same parents, for the same types.
   */
  lemma SecondPassRepeatsFirst(comments: bool, json: string)
    requires FirstPass(comments, json).Accept?
    ensures var s := FirstPass(comments, json).s;
            var o2 := SecondPass(comments, json, s.nodes);
            o2.Accept? && o2.s.calls == s.calls && Related(s, o2.s, s.nodes)
  {
    StartIsWF(true, comments, []);
    var s := FirstPass(comments, json).s;
    StartIsWF(false, comments, s.nodes);
    RunStaysRaw(comments, json, Start([]));
    Simulation(comments, json, Start([]), Start(s.nodes), s.nodes);
  }

  /** On acceptance every buffer of pass 2 is full to the last byte, and the values form a tree. */
  lemma SecondPassFillsExactly(comments: bool, json: string)
    requires FirstPass(comments, json).Accept?
    ensures var nodes := FirstPass(comments, json).s.nodes;
            var o2 := SecondPass(comments, json, nodes);
            && o2.Accept? && |o2.s.nodes| == |nodes|
            && (forall i | 0 <= i < |nodes| :: FilledExactly(o2.s.nodes[i], nodes[i]))
            && IsTree(o2.s.nodes)
  {
    var s := FirstPass(comments, json).s;
    SecondPassRepeatsFirst(comments, json);
    var s2 := SecondPass(comments, json, s.nodes).s;
    StartIsWF(true, comments, []);
    StartIsWF(false, comments, s.nodes);
    RunStaysRaw(comments, json, Start([]));
    RunBuilds(comments, json, Start(s.nodes));
    RootIsOpenOnly(comments, s);
    FinalTree(comments, s, s2);
    forall i | 0 <= i < |s.nodes| ensures FilledExactly(s2.nodes[i], s.nodes[i]) {
      FinalNode(comments, s, s2, i);
    }
  }

  lemma RootIsOpenOnly(comments: bool, s: State)
    requires WF(true, comments, s) && s.f.done
    ensures s.top == Some(0) && forall i: nat :: !Ancestor(s.nodes, 0, i)
  {
    assert ViewOf(s).top.Some?;
    assert s.top.Some? && s.nodes[s.top.value].parent.None?;
  }

  lemma FinalNode(comments: bool, s: State, s2: State, i: nat)
    requires WF(true, comments, s) && s.f.done && Related(s, s2, s.nodes) && Building(s2) && i < |s.nodes|
    requires s.top == Some(0) && forall c: nat :: !Ancestor(s.nodes, 0, c)
    ensures FilledExactly(s2.nodes[i], s.nodes[i])
  {
    assert Mirrors(s, i, s2.nodes[i], s.nodes[i]);
    assert BytesOf(s2.nodes[i], Reading(s2, i));
  }

  lemma FinalTree(comments: bool, s: State, s2: State)
    requires WF(true, comments, s) && s.f.done && Related(s, s2, s.nodes) && Building(s2)
    requires s.top == Some(0) && forall c: nat :: !Ancestor(s.nodes, 0, c)
    ensures IsTree(s2.nodes)
  {
    var nodes := s2.nodes;
    forall i: nat | i < |nodes| ensures Open(s2, i) == (i == 0) {
      AncestorSame(s.nodes, nodes, 0, i);
    }
    forall p | 0 <= p < |nodes| ensures KidsOf(nodes, p) {
      assert SlotsOf(s2, p);
      assert Mirrors(s, p, nodes[p], s.nodes[p]);
      var slots := nodes[p].slots;
      forall k | 0 <= k < |slots| ensures p < slots[k] < |nodes| && nodes[slots[k]].parent == Some(p) {
        assert Closed(s2, p, slots[k]);
      }
    }
    forall c | 0 < c < |nodes| ensures HungUp(nodes, c) {
      assert Hung(s2, c);
    }
  }

  // ---------------------------------------------------------------- the parser itself

  /** How one call of a parser method ends: go on, stop at the end, report an error, or (never) go wild. */
  datatype Verdict = Next | Finished | Failed(e: Error) | Wild

  ghost function Ending(v: Verdict, s: State): Outcome {
    match v
    case Next => More(s)
    case Finished => Accept(s)
    case Failed(e) => Reject(e)
    case Wild => Fault
  }

  /** The local variables of json_parse_ex and the json_state it hands around. */
  class Parser {
    const comments: bool
    var f: Flags
    var num: Num
    var pos: nat
    var strLen: nat
    var top: Option<nat>
    var alloc: nat
    var nodes: seq<Node>
    ghost var calls: seq<Call>

    ghost function Snapshot(): State
      reads this
    {
      State(f, num, pos, strLen, top, alloc, nodes, calls)
    }

    constructor (comments: bool)
      ensures this.comments == comments
      ensures Snapshot() == Start([])
    {
      this.comments := comments;
      f, num := INITIAL_FLAGS, NO_NUM;
      pos, strLen, top, alloc, nodes, calls := 0, 0, None, 0, [], [];
    }

    method NewValue(first: bool, kind: Kind, at: nat) returns (v: Verdict)
      modifies this
      ensures v == Next || v == Wild
      ensures JsonMachine.NewValue(first, old(Snapshot()), kind, at) == Ending(v, Snapshot())
    {
      if !first && (alloc >= |nodes| || !SameKind(nodes[alloc].kind, kind) || nodes[alloc].parent != top) {
        return Wild;
      }
      calls := calls + [Call(at, top, kind)];
      if first {
        nodes, top := nodes + [Fresh(kind, top)], Some(|nodes|);
      } else {
        nodes, top := nodes[alloc := Allocate(nodes[alloc])], Some(alloc);
      }
      alloc := alloc + 1;
      v := Next;
    }

    /** The flag_next block at the bottom of the loop. */
    method HangUnderParent(first: bool) returns (v: Verdict)
      modifies this`nodes, this`top
      ensures v != Finished
      ensures Finish(first, old(Snapshot())) == Ending(v, Snapshot())
    {
      if top.None? || top.value >= |nodes| {
        return Wild;
      }
      var parent := nodes[top.value].parent;
      if parent.None? {
        return Next;
      }
      if parent.value >= |nodes| {
        return Wild;
      }
      var n := AddChild(nodes[parent.value], first, top.value);
      if n.None? {
        return Wild;
      }
      if n.value.length > UINT_LIMIT {
        return Failed(TooLong);
      }
      nodes, top := nodes[parent.value := n.value], parent;
      v := Next;
    }

    method Store(n: Option<Node>) returns (v: Verdict)
      requires top.Some? && top.value < |nodes|
      modifies this`nodes
      ensures v == Next || v == Wild
      ensures OnTop(old(Snapshot()), n) == Ending(v, Snapshot())
    {
      if n.None? {
        return Wild;
      }
      nodes := nodes[top.value := n.value];
      v := Next;
    }

    method StringAdd(first: bool, bytes: string) returns (v: Verdict)
      requires top.Some? && top.value < |nodes|
      modifies this`nodes, this`strLen
      ensures v == Next || v == Wild
      ensures PutBytes(first, old(Snapshot()), top.value, bytes) == Ending(v, Snapshot())
    {
      if !first {
        var n := Write(nodes[top.value], strLen, bytes);
        if n.None? {
          return Wild;
        }
        nodes := nodes[top.value := n.value];
      }
      strLen := strLen + |bytes|;
      v := Next;
    }

    method Act(first: bool, act: Action, at: nat) returns (v: Verdict)
      requires top.Some? && top.value < |nodes|
      modifies this
      ensures v != Finished
      ensures PerformOnTop(first, old(Snapshot()), act) == Ending(v, Snapshot())
    {
      var n := nodes[top.value];
      match act {
        case Put(bytes) => v := StringAdd(first, bytes);
        case OpenName => strLen, v := 0, Next;
        case CloseName => v := Store(CloseNameOf(n, first, strLen));
        case CloseText =>
          v := Store(CloseTextOf(n, first, strLen));
          if v == Next {
            v := HangUnderParent(first);
          }
        case Close => v := HangUnderParent(first);
        case Digit(d) => v := Store(Some(n.(integer := n.integer * 10 + d)));
        case ToDouble => v := Store(Some(n.(kind := Double)));
        case NumEnd =>
          v := Store(Some(Signed(n, num)));
          if v == Next {
            v := HangUnderParent(first);
          }
        case _ => v := Next;
      }
    }

    /** One turn of the loop. */
    method Turn(first: bool, json: string) returns (v: Verdict)
      requires pos <= |json|
      modifies this
      ensures Step(first, comments, json, old(Snapshot())) == Ending(v, Snapshot())
    {
      var parent := ParentOf(nodes, top);
      var view := View(f, num, pos, strLen, KindAt(nodes, top), KindAt(nodes, parent));
      var d := Decide(first, comments, json, view);
      var at := pos;
      match d {
        case Stop => return Finished;
        case Refuse(e) => return Failed(e);
        case Crash => return Wild;
        case Go(f1, num1, pos1, act) =>
          f, num, pos := f1, num1, pos1;
          if act.Skip? {
            v := Next;
          } else if act.New? {
            strLen := if act.kind.Str? then 0 else strLen;
            v := NewValue(first, act.kind, at);
          } else if act.NewLeaf? {
            v := NewValue(first, act.kind, at);
            if v == Next {
              v := HangUnderParent(first);
            }
          } else if top.None? || top.value >= |nodes| {
            v := Wild;
          } else {
            v := Act(first, act, at);
          }
      }
    }

    /** The inner loop of json_parse_ex: it ends, and pass 1 never dereferences a null pointer. */
    method Pass(first: bool, json: string) returns (v: Verdict)
      requires pos <= |json| && WF(first, comments, Snapshot())
      modifies this
      ensures v != Next && (first ==> v != Wild)
      ensures Run(first, comments, json, old(Snapshot())) == Ending(v, Snapshot())
    {
      v := Next;
      while true
        invariant pos <= |json| && WF(first, comments, Snapshot())
        invariant Run(first, comments, json, Snapshot()) == Run(first, comments, json, old(Snapshot()))
        decreases |json| - pos, Rank(json, Snapshot())
      {
        StepKeepsWF(first, comments, json, Snapshot());
        v := Turn(first, json);
        if v != Next {
          return;
        }
      }
    }

    /** The top of the outer loop. */
    method Rewind(first: bool)
      modifies this
      ensures Snapshot() == Start(if first then [] else old(nodes))
    {
      if first {
        nodes := [];
      }
      f, num := INITIAL_FLAGS, NO_NUM;
      pos, strLen, top, alloc, calls := 0, 0, None, 0, [];
    }

    /**
      json_parse_ex: it succeeds exactly when pass 1 does, and then the nodes form a tree; otherwise
      its error is that of pass 1.
     */
    method Parse(json: string) returns (v: Verdict)
      modifies this
      ensures v == Finished || v.Failed?
      ensures v == Finished <==> FirstPass(comments, AfterBom(json)).Accept?
      ensures v.Failed? ==> FirstPass(comments, AfterBom(json)) == Reject(v.e)
      ensures v == Finished ==>
                var o2 := SecondPass(comments, AfterBom(json), FirstPass(comments, AfterBom(json)).s.nodes);
                o2.Accept? && nodes == o2.s.nodes && IsTree(nodes)
    {
      var body := AfterBom(json);
      Rewind(true);
      StartIsWF(true, comments, []);
      v := Pass(true, body);
      if v != Finished {
        return;
      }
      StartIsWF(false, comments, nodes);
      SecondPassRepeatsFirst(comments, body);
      SecondPassFillsExactly(comments, body);
      Rewind(false);
      v := Pass(false, body);
    }
  }

  /** The text without a UTF-8 byte order mark. */
  function AfterBom(json: string): string {
    if |json| >= 3 && json[0] == '\U{EF}' && json[1] == '\U{BB}' && json[2] == '\U{BF}' then json[3..] else json
  }
}
