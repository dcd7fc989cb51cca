/**
  What every state of either pass satisfies, that no step of pass 1 dereferences a null pointer,
  and why both loops end.
 */
module JsonInvariant {
  import opened Optional
  import opened JsonMachine

  /** The number machine of pass 1 is running. */
  ghost predicate NumberPhase(v: View) {
    v.top.Some? && IsNumber(v.top.value) && !v.f.done
  }

  ghost predicate NoComment(f: Flags) { !f.line && !f.block }

  /** How the flags fit the type of `top`. */
  ghost predicate WFView(comments: bool, v: View) {
    && (v.top.None? ==> v.f.seek && !v.f.str && !v.f.done && v.parent.None?)
    && (v.f.str ==> !v.f.seek && !v.f.done && NoComment(v.f) && (v.top == Some(Str) || v.top == Some(Object)))
    && (v.f.escaped ==> v.f.str)
    && (v.f.done ==> !v.f.seek && v.parent.None?)
    && (v.f.needColon ==> v.f.seek && v.top == Some(Object))
    && (v.top == Some(Boolean(true)) || v.top == Some(Boolean(false)) || v.top == Some(Null) ==> v.f.done)
    && (v.top == Some(Str) ==> v.f.done || v.f.str)
    && (v.top == Some(Array) ==> v.f.done || v.f.seek)
    && (NumberPhase(v) ==> !v.f.seek && NoComment(v.f))
    && (!comments ==> NoComment(v.f))
    && (v.parent.Some? ==> IsContainer(v.parent.value))
  }

  /** Every node but the first hangs under an earlier array or object. */
  ghost predicate WFNodes(nodes: seq<Node>) {
    forall i {:trigger nodes[i]} | 0 <= i < |nodes| ::
      if i == 0 then nodes[i].parent.None?
      else nodes[i].parent.Some? && nodes[i].parent.value < i
           && IsContainer(nodes[nodes[i].parent.value].kind)
  }

  ghost predicate WF(first: bool, comments: bool, s: State) {
    && WFNodes(s.nodes)
    && (if first then s.visited == |s.nodes| else s.visited <= |s.nodes|)
    && (s.top.None? <==> s.visited == 0)
    && (s.top.Some? ==> s.top.value < s.visited)
    && WFView(comments, ViewOf(s))
  }

  /** The flag changes each action may come with. */
  ghost predicate Allowed(first: bool, comments: bool, v: View, f: Flags, act: Action) {
    match act
    case Skip =>
      && f.str == v.f.str && f.seek == v.f.seek && f.done == v.f.done
      && (f.escaped ==> f.str) && (f.needColon ==> v.f.needColon)
      && (!NoComment(f) ==> comments && !f.str && !NumberPhase(v))
    case Put(bytes) => v.f.str && f == v.f.(escaped := false) && |bytes| > 0
    case New(k) =>
      && v.f.seek && !v.f.str && !v.f.done && !v.f.needColon && NoComment(v.f)
      && f == v.f.(seek := k.Array?, str := k.Str?)
      && (IsContainer(k) || k.Str? || (first && k.Integer?))
    case NewLeaf(k) =>
      && v.f.seek && !v.f.str && !v.f.done && !v.f.needColon && NoComment(v.f)
      && f == NextFlags(v.f.(seek := false), v.top)
      && (k.Boolean? || k.Null? || (!first && k.Integer?))
    case OpenName =>
      && v.top == Some(Object) && !v.f.seek && !v.f.str && !v.f.done && NoComment(v.f)
      && f == v.f.(str := true)
    case CloseName =>
      && v.top == Some(Object) && v.f.str && !v.f.escaped
      && f == v.f.(str := false, seek := true, needColon := true)
    case CloseText =>
      && v.top == Some(Str) && v.f.str && !v.f.escaped
      && f == NextFlags(v.f.(str := false), v.parent)
    case Close =>
      && ((v.top == Some(Array) && v.f.seek) || (v.top == Some(Object) && !v.f.seek))
      && !v.f.str && !v.f.done && NoComment(v.f)
      && f == NextFlags(v.f.(needComma := false, seek := false), v.parent)
    case Digit(_) => NumberPhase(v) && f == v.f && v.top == Some(Integer)
    case ToDouble => NumberPhase(v) && f == v.f
    case NumEnd => NumberPhase(v) && f == NextFlags(v.f, v.parent)
  }

  /** Only three kinds of step leave the position where it is. */
  ghost predicate Moves(json: string, v: View, f: Flags, pos: nat, act: Action) {
    && v.pos <= pos <= |json|
    && (v.pos == pos ==>
          || (act.Skip? && v.f.line && !f.line && !f.str)
          || (act == New(Integer) && IsDigit(At(json, v.pos)))
          || (act.NumEnd? && !IsDigit(At(json, v.pos))))
  }

  ghost predicate Sound(first: bool, comments: bool, json: string, v: View, d: Decision) {
    && !d.Crash?
    && (d.Go? ==> Allowed(first, comments, v, d.f, d.act) && Moves(json, v, d.f, d.pos, d.act))
  }

  lemma StringIsSound(first: bool, comments: bool, json: string, v: View)
    requires v.pos <= |json| && WFView(comments, v) && v.f.str
    ensures Sound(first, comments, json, v, Decide(first, comments, json, v))
  {
    var b := At(json, v.pos);
    if b != '\0' {
      assert v.pos < |json|;
    }
  }

  lemma SeekIsSound(first: bool, comments: bool, json: string, v: View)
    requires v.pos <= |json| && WFView(comments, v) && v.f.seek && NoComment(v.f)
    ensures Sound(first, comments, json, v, DecideSeek(first, json, v, At(json, v.pos)))
  {
    assert InNumber(At(json, v.pos)) ==> v.pos < |json|;
  }

  lemma NumberIsSound(first: bool, comments: bool, json: string, v: View)
    requires v.pos <= |json| && WFView(comments, v) && NumberPhase(v)
    ensures Sound(first, comments, json, v, DecideNumber(v, At(json, v.pos)))
  {
  }

  lemma DecideIsSound(first: bool, comments: bool, json: string, v: View)
    requires v.pos <= |json| && WFView(comments, v)
    ensures Sound(first, comments, json, v, Decide(first, comments, json, v))
  {
    if v.f.str {
      StringIsSound(first, comments, json, v);
    } else if NoComment(v.f) && v.f.seek {
      SeekIsSound(first, comments, json, v);
    } else if NoComment(v.f) && NumberPhase(v) {
      NumberIsSound(first, comments, json, v);
    }
  }

  // ---------------------------------------------------------------- steps keep WF

  ghost function Rank(json: string, s: State): nat {
    if s.f.line then 3
    else if NumberPhase(ViewOf(s)) then (if IsDigit(At(json, s.pos)) then 0 else 2)
    else 1
  }

  lemma NewViewIsWF(first: bool, comments: bool, v: View, v1: View, k: Kind)
    requires WFView(comments, v) && Allowed(first, comments, v, v1.f, New(k))
    requires v1.top.Some? && SameKind(v1.top.value, k) && (k.Integer? || v1.top.value == k)
    requires v1.parent == v.top && (v.top.Some? ==> IsContainer(v.top.value))
    ensures WFView(comments, v1) && NumberPhase(v1) == k.Integer?
  {
  }

  lemma NewKeepsWF(first: bool, comments: bool, s: State, s1: State, k: Kind)
    requires WF(first, comments, s) && Allowed(first, comments, ViewOf(s), s1.f, New(k))
    requires s1.nodes == s.nodes && s1.top == s.top && s1.visited == s.visited
    ensures var o := NewValue(first, s1, k, s.pos);
            && (o.More? ==> WF(first, comments, o.s) && o.s.f == s1.f && o.s.pos == s1.pos)
            && !o.Accept? && (o.Fault? ==> !first)
            && (o.More? ==> NumberPhase(ViewOf(o.s)) == k.Integer?)
  {
    var o := NewValue(first, s1, k, s.pos);
    if o.More? {
      assert forall i | 0 <= i < |s.nodes| ::
          o.s.nodes[i].parent == s.nodes[i].parent && o.s.nodes[i].kind == s.nodes[i].kind;
      NewViewIsWF(first, comments, ViewOf(s), ViewOf(o.s), k);
    }
  }

  /** The flags of a value that has just ended, before flag_next. */
  ghost predicate Idle(f: Flags) {
    !f.seek && !f.str && !f.done && !f.escaped && !f.needColon && NoComment(f)
  }

  lemma FinishKeepsWF(first: bool, comments: bool, s: State, f0: Flags)
    requires WFNodes(s.nodes)
    requires if first then s.visited == |s.nodes| else s.visited <= |s.nodes|
    requires s.top.Some? && s.top.value < s.visited
    requires Idle(f0) && s.f == NextFlags(f0, KindAt(s.nodes, s.nodes[s.top.value].parent))
    ensures var o := Finish(first, s);
            && (o.More? ==> WF(first, comments, o.s) && o.s.f == s.f && o.s.pos == s.pos)
            && !o.Accept? && (o.Fault? ==> !first)
            && (o.More? ==> !NumberPhase(ViewOf(o.s)))
  {
    var o := Finish(first, s);
    if o.More? {
      assert forall i | 0 <= i < |s.nodes| ::
          o.s.nodes[i].parent == s.nodes[i].parent && o.s.nodes[i].kind == s.nodes[i].kind;
    }
  }

  /** What a step must establish: the invariant again, and progress. */
  ghost predicate StepOk(first: bool, comments: bool, json: string, s: State, o: Outcome)
    requires s.pos <= |json|
  {
    && (o.More? ==>
          && WF(first, comments, o.s) && o.s.pos <= |json|
          && (|json| - o.s.pos < |json| - s.pos
              || (o.s.pos == s.pos && Rank(json, o.s) < Rank(json, s))))
    && (o.Fault? ==> !first)
    && (o.Accept? ==> s.f.done && o.s == s)
  }

  lemma NewLeafKeepsWF(first: bool, comments: bool, json: string, s: State, d: Decision)
    requires WF(first, comments, s) && s.pos <= |json| && d.Go? && d.act.NewLeaf?
    requires Sound(first, comments, json, ViewOf(s), d)
    ensures StepOk(first, comments, json, s, Apply(first, s, d))
  {
    var s1 := s.(f := d.f, num := d.num, pos := d.pos);
    var o := NewValue(first, s1, d.act.kind, s.pos);
    if o.More? {
      assert forall i | 0 <= i < |s.nodes| ::
          o.s.nodes[i].parent == s.nodes[i].parent && o.s.nodes[i].kind == s.nodes[i].kind;
      FinishKeepsWF(first, comments, o.s, s.f.(seek := false));
    }
  }

  lemma EndKeepsWF(first: bool, comments: bool, json: string, s: State, d: Decision)
    requires WF(first, comments, s) && s.pos <= |json| && d.Go?
    requires d.act.Close? || d.act.CloseText? || d.act.NumEnd?
    requires Sound(first, comments, json, ViewOf(s), d)
    ensures StepOk(first, comments, json, s, Apply(first, s, d))
  {
    var v, t := ViewOf(s), s.top.value;
    var s1 := s.(f := d.f, num := d.num, pos := d.pos);
    var n := s.nodes[t];
    match d.act
    case Close =>
      FinishKeepsWF(first, comments, s1, s.f.(needComma := false, seek := false));
    case CloseText =>
      var n1 := CloseTextOf(n, first, s.strLen);
      if n1.Some? {
        FinishKeepsWF(first, comments, s1.(nodes := s.nodes[t := n1.value]), s.f.(str := false));
      }
    case NumEnd =>
      FinishKeepsWF(first, comments, s1.(nodes := s.nodes[t := Signed(n, d.num)]), s.f);
  }

  lemma SkipKeepsWF(first: bool, comments: bool, json: string, s: State, d: Decision)
    requires WF(first, comments, s) && s.pos <= |json| && d.Go? && d.act.Skip?
    requires Sound(first, comments, json, ViewOf(s), d)
    ensures StepOk(first, comments, json, s, Apply(first, s, d))
  {
  }

  lemma InPlaceViewIsWF(first: bool, comments: bool, json: string, v: View, v1: View, d: Decision)
    requires WFView(comments, v) && d.Go? && Sound(first, comments, json, v, d) && v.top.Some?
    requires d.act.Put? || d.act.OpenName? || d.act.CloseName? || d.act.Digit? || d.act.ToDouble?
    requires v1.f == d.f && v1.parent == v.parent && v1.top == if d.act.ToDouble? then Some(Double) else v.top
    ensures WFView(comments, v1)
  {
  }

  /** Any action that changes only `top`, and its type at most from Integer to Double. */
  lemma InPlaceKeepsWF(first: bool, comments: bool, json: string, s: State, d: Decision, n: Node, len: nat)
    requires WF(first, comments, s) && s.pos <= |json| && d.Go? && s.top.Some?
    requires d.act.Put? || d.act.OpenName? || d.act.CloseName? || d.act.Digit? || d.act.ToDouble?
    requires Sound(first, comments, json, ViewOf(s), d)
    requires n.parent == s.nodes[s.top.value].parent
    requires n.kind == if d.act.ToDouble? then Double else s.nodes[s.top.value].kind
    ensures var s1 := s.(f := d.f, num := d.num, pos := d.pos, strLen := len,
                         nodes := s.nodes[s.top.value := n]);
            WF(first, comments, s1)
  {
    var s1 := s.(f := d.f, num := d.num, pos := d.pos, strLen := len, nodes := s.nodes[s.top.value := n]);
    if d.act.ToDouble? {
      assert IsNumber(s.nodes[s.top.value].kind);
    }
    hide WFView, Allowed, Moves;
    assert forall i | 0 <= i < |s.nodes| ::
        s1.nodes[i].parent == s.nodes[i].parent && SameKind(s1.nodes[i].kind, s.nodes[i].kind);
    assert KindAt(s1.nodes, ParentOf(s1.nodes, s1.top)) == KindAt(s.nodes, ParentOf(s.nodes, s.top));
    InPlaceViewIsWF(first, comments, json, ViewOf(s), ViewOf(s1), d);
  }

  lemma OnTopKeepsWF(first: bool, comments: bool, json: string, s: State, d: Decision)
    requires WF(first, comments, s) && s.pos <= |json| && d.Go?
    requires d.act.Put? || d.act.OpenName? || d.act.CloseName? || d.act.Digit? || d.act.ToDouble?
    requires Sound(first, comments, json, ViewOf(s), d)
    ensures StepOk(first, comments, json, s, Apply(first, s, d))
  {
    var o := Apply(first, s, d);
    if o.More? {
      var n := o.s.nodes[s.top.value];
      assert o.s.nodes == s.nodes[s.top.value := n];
      InPlaceKeepsWF(first, comments, json, s, d, n, o.s.strLen);
    }
  }

  lemma StepKeepsWF(first: bool, comments: bool, json: string, s: State)
    requires WF(first, comments, s) && s.pos <= |json|
    ensures StepOk(first, comments, json, s, Step(first, comments, json, s))
  {
    var d := Decide(first, comments, json, ViewOf(s));
    DecideIsSound(first, comments, json, ViewOf(s));
    if d.Go? {
      if d.act.New? {
        NewKeepsWF(first, comments, s,
                   s.(f := d.f, num := d.num, pos := d.pos,
                      strLen := if d.act.kind.Str? then 0 else s.strLen), d.act.kind);
      } else if d.act.NewLeaf? {
        NewLeafKeepsWF(first, comments, json, s, d);
      } else if d.act.Close? || d.act.CloseText? || d.act.NumEnd? {
        EndKeepsWF(first, comments, json, s, d);
      } else if d.act.Skip? {
        SkipKeepsWF(first, comments, json, s, d);
      } else {
        OnTopKeepsWF(first, comments, json, s, d);
      }
    } else if d.Stop? {
      StopOnlyWhenDone(first, comments, json, ViewOf(s));
    }
  }

  lemma StopOnlyWhenDone(first: bool, comments: bool, json: string, v: View)
    requires v.pos <= |json|
    ensures Decide(first, comments, json, v).Stop? ==> v.f.done && At(json, v.pos) == '\0'
  {
  }

  // ---------------------------------------------------------------- a whole pass

  /** The rest of a pass, from a state at the head of the loop. */
  function Run(first: bool, comments: bool, json: string, s: State): (o: Outcome)
    requires WF(first, comments, s) && s.pos <= |json|
    ensures !o.More?
    ensures o.Fault? ==> !first
    ensures o.Accept? ==> WF(first, comments, o.s) && o.s.f.done
    decreases |json| - s.pos, Rank(json, s)
  {
    StepKeepsWF(first, comments, json, s);
    match Step(first, comments, json, s)
    case More(s1) => Run(first, comments, json, s1)
    case Accept(s1) => Accept(s1)
    case Reject(e) => Reject(e)
    case Fault => Fault
  }
}
