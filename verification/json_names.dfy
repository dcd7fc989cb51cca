/**
  Which value a name belongs to: the name of child k of an object is the one that stands, with a
  colon, right before the text of child k.
 */
module JsonNames {
  import opened Optional
  import opened JsonMachine
  import opened JsonInvariant
  import opened JsonSimulation
  import opened JsonTree
  import opened JsonParse
  import opened JsonContent

  // ---------------------------------------------------------------- reading the text

  /** The position behind the closing quote of the text from p on. */
  function TextEnd(json: string, p: nat, escaped: bool): nat
    decreases |json| - p
  {
    if p >= |json| then p
    else if escaped then
      match EscapeAt(json, p)
      case None => p
      case Some(e) => TextEnd(json, e.1, false)
    else if json[p] == '"' then p + 1
    else TextEnd(json, p + 1, json[p] == '\\')
  }

  /** What may stand between a name and its value. */
  datatype Gap = Gap(colon: bool, line: bool, block: bool)

  const NAME_READ := Gap(true, false, false)  // the colon is still to come

  /** Where the value stands that follows at p: behind blanks, comments and, if it is due, a colon. */
  function ValueFrom(comments: bool, json: string, p: nat, g: Gap): Option<nat>
    decreases |json| - p, if g.line then 1 else 0
  {
    var b := At(json, p);
    if comments && g.line then
      if b == '\r' || b == '\n' || b == '\0' then ValueFrom(comments, json, p, g.(line := false))
      else ValueFrom(comments, json, p + 1, g)
    else if comments && g.block then
      if b == '\0' then None
      else if b == '*' && At(json, p + 1) == '/' then ValueFrom(comments, json, p + 2, g.(block := false))
      else ValueFrom(comments, json, p + 1, g)
    else if comments && b == '/' then
      if At(json, p + 1) == '/' then ValueFrom(comments, json, p + 2, g.(line := true))
      else if At(json, p + 1) == '*' then ValueFrom(comments, json, p + 2, g.(block := true))
      else None
    else if IsSpace(b) then ValueFrom(comments, json, p + 1, g)
    else if !g.colon then Some(p)
    else if b == ':' then ValueFrom(comments, json, p + 1, g.(colon := false))
    else None
  }

  /** The value that the name with its opening quote at q belongs to. */
  function ValueOfName(comments: bool, json: string, q: nat): Option<nat> {
    ValueFrom(comments, json, TextEnd(json, q + 1, false), NAME_READ)
  }

  /** t, with its NUL, is the name of the value at `at`. */
  predicate IsNameOf(comments: bool, json: string, q: nat, t: string, at: nat) {
    IsName(json, q, t) && ValueOfName(comments, json, q) == Some(at)
  }

  /** Name k of an object, the one opened at opens[k], belongs to the value at `at`. */
  ghost predicate Belongs(comments: bool, json: string, n: Node, opens: seq<nat>, k: nat, at: nat) {
    && k < |n.entries| && k < |opens| && InMem(n.mem, n.entries[k])
    && IsNameOf(comments, json, opens[k], Text(n.mem, n.entries[k]), at)
  }

  predicate InMem(mem: string, e: Entry) { e.off + e.len + 1 <= |mem| }

  function Text(mem: string, e: Entry): string
    requires InMem(mem, e)
  {
    mem[e.off..e.off + e.len + 1]
  }

  // ---------------------------------------------------------------- one decision

  /** In a string every decision keeps the place where it will end, and its closing quote is there. */
  lemma EndStep(comments: bool, json: string, v: View)
    requires v.pos <= |json| && v.f.str
    ensures var d := Decide(false, comments, json, v);
            var end := TextEnd(json, v.pos, v.f.escaped);
            d.Go? ==>
              && (d.act.Put? || d.act.Skip? ==>
                    TextEnd(json, d.pos, d.f.escaped) == end && d.f.needComma == v.f.needComma)
              && (d.act.CloseName? ==> d.pos == end)
  {
    var b := At(json, v.pos);
    hide Hex4, Utf8, Combine, IsSurrogate;
    if b != '\0' && v.f.escaped {
      EscapeStep(json, v, b);
    }
  }

  predicate GapOf(v: View, g: Gap) { g == Gap(v.f.needColon, v.f.line, v.f.block) }

  /** After a name, every decision moves towards the value the name belongs to. */
  lemma GapStep(comments: bool, json: string, v: View, g: Gap)
    requires v.pos <= |json| && WFView(comments, v) && v.top == Some(Object) && v.f.seek && !v.f.needComma && GapOf(v, g)
    ensures var d := Decide(false, comments, json, v);
            d.Go? ==>
              && (d.act.Skip? || d.act.New? || d.act.NewLeaf?)
              && (d.act.Skip? ==>
                    d.f.seek && !d.f.needComma
                    && ValueFrom(comments, json, d.pos, Gap(d.f.needColon, d.f.line, d.f.block))
                       == ValueFrom(comments, json, v.pos, g))
              && (d.act.New? || d.act.NewLeaf? ==> ValueFrom(comments, json, v.pos, g) == Some(v.pos))
  {
    hide SkipNumber, NextFlags, Follows;
  }

  // ---------------------------------------------------------------- where names are opened

  /** The opening quotes of the names of every object, in the order in which they are read. */
  type Names = map<nat, seq<nat>>

  function Opened(names: Names, i: nat): seq<nat> { if i in names then names[i] else [] }

  /** OpenName is recorded, as new_value is in `calls`. */
  function Record(names: Names, s: State, d: Decision): Names {
    if d.Go? && d.act.OpenName? && s.top.Some?
    then names[s.top.value := Opened(names, s.top.value) + [s.pos]]
    else names
  }

  /** What has been recorded at the end of pass 2. */
  ghost function NamesRead(comments: bool, json: string, s: State, names: Names): Names
    requires WF(false, comments, s) && s.pos <= |json|
    decreases |json| - s.pos, Rank(json, s)
  {
    StepKeepsWF(false, comments, json, s);
    match Step(false, comments, json, s)
    case More(s1) => NamesRead(comments, json, s1, Record(names, s, Decide(false, comments, json, ViewOf(s))))
    case _ => names
  }

  // ---------------------------------------------------------------- what pass 2 keeps

  /** The finished children of object i have the names before their texts, and so has the open one. */
  ghost predicate Settled(comments: bool, json: string, s: State, names: Names, i: nat)
    requires Placed(s) && i < |s.nodes|
  {
    var n, opens := s.nodes[i], Opened(names, i);
    && (forall k {:trigger n.slots[k]} | 0 <= k < |n.slots| ::
          n.slots[k] < |s.calls| && Belongs(comments, json, n, opens, k, s.calls[n.slots[k]].at))
    && (forall c: nat {:trigger Open(s, c)} | c < s.visited && c < |s.nodes| && Open(s, c) && s.nodes[c].parent == Some(i) ::
          c < |s.calls| && NameIsAt(comments, json, n, opens, s.calls[c].at))
  }

  /** The last name of the object, which has no finished child yet, belongs to the value at `at`. */
  ghost predicate NameIsAt(comments: bool, json: string, n: Node, opens: seq<nat>, at: nat) {
    && |opens| == |n.entries| == |n.slots| + 1 && |n.mem| == n.cursor
    && Belongs(comments, json, n, opens, |n.slots|, at)
  }

  predicate ReadingName(json: string, s: State, q: nat, t: string) {
    && IsNameSoFar(json, s, q, t)
    && TextEnd(json, s.pos, s.f.escaped) == TextEnd(json, q + 1, false)
  }

  predicate NameWaits(comments: bool, json: string, s: State, q: nat, t: string) {
    && IsName(json, q, t)
    && ValueFrom(comments, json, s.pos, Gap(s.f.needColon, s.f.line, s.f.block)) == ValueOfName(comments, json, q)
  }

  /** The object on top: between two members, in a name, or behind a name. */
  ghost predicate AtTop(comments: bool, json: string, s: State, n: Node, opens: seq<nat>) {
    if s.f.str then
      && |n.entries| == |n.slots| && n.cursor <= |n.mem| && !s.f.needComma
      && |opens| == |n.slots| + 1 && ReadingName(json, s, opens[|n.slots|], n.mem[n.cursor..])
    else if s.f.seek then
      && |opens| == |n.entries| == |n.slots| + 1 && |n.mem| == n.cursor && !s.f.needComma
      && InMem(n.mem, n.entries[|n.slots|])
      && NameWaits(comments, json, s, opens[|n.slots|], Text(n.mem, n.entries[|n.slots|]))
    else |opens| == |n.entries| == |n.slots| && |n.mem| == n.cursor
  }

  ghost predicate AllSettled(comments: bool, json: string, s: State, names: Names) {
    && Placed(s) && |s.calls| == s.visited <= |s.nodes| && (forall i | i in names :: i < s.visited)
    && forall i {:trigger s.nodes[i]} | 0 <= i < s.visited && s.nodes[i].kind.Object? ::
         Settled(comments, json, s, names, i)
  }

  ghost predicate TopSettled(comments: bool, json: string, s: State, names: Names) {
    s.top.Some? && s.top.value < |s.nodes| && s.nodes[s.top.value].kind.Object? && !s.f.done ==>
      AtTop(comments, json, s, s.nodes[s.top.value], Opened(names, s.top.value))
  }

  lemma BelongsStays(comments: bool, json: string, n: Node, m: Node, opens: seq<nat>, opens1: seq<nat>, k: nat, at: nat)
    requires Belongs(comments, json, n, opens, k, at) && n.mem <= m.mem && n.entries <= m.entries && opens <= opens1
    ensures Belongs(comments, json, m, opens1, k, at)
  {
    hide IsNameOf;
    assert Text(m.mem, n.entries[k]) == Text(n.mem, n.entries[k]);
  }

  /** Nothing has happened to the children of object i. */
  lemma SettledStays(comments: bool, json: string, s: State, s1: State, names: Names, names1: Names, i: nat)
    requires Placed(s) && Placed(s1) && i < |s.nodes| && i < |s1.nodes| && Settled(comments, json, s, names, i)
    requires var n, m, opens, opens1 := s.nodes[i], s1.nodes[i], Opened(names, i), Opened(names1, i);
             && n.slots == m.slots && n.mem <= m.mem && n.entries <= m.entries && opens <= opens1
             && ((n.entries == m.entries && n.mem == m.mem && n.cursor == m.cursor && opens == opens1)
                 || forall c: nat {:trigger Open(s, c)} | c < |s.nodes| && Open(s, c) :: s.nodes[c].parent != Some(i))
    requires s.calls <= s1.calls
    requires forall c: nat {:trigger Open(s1, c)} | c < s1.visited && c < |s1.nodes| && Open(s1, c) && s1.nodes[c].parent == Some(i) ::
               c < s.visited && c < |s.nodes| && Open(s, c) && s.nodes[c].parent == Some(i)
    ensures Settled(comments, json, s1, names1, i)
  {
    hide Open, Belongs, Opened;
    var n, m, opens, opens1 := s.nodes[i], s1.nodes[i], Opened(names, i), Opened(names1, i);
    forall k | 0 <= k < |m.slots|
      ensures m.slots[k] < |s1.calls| && Belongs(comments, json, m, opens1, k, s1.calls[m.slots[k]].at)
    {
      BelongsStays(comments, json, n, m, opens, opens1, k, s.calls[n.slots[k]].at);
    }
    forall c: nat | c < s1.visited && c < |s1.nodes| && Open(s1, c) && s1.nodes[c].parent == Some(i)
      ensures c < |s1.calls| && NameIsAt(comments, json, m, opens1, s1.calls[c].at)
    {
      assert Open(s, c);
      BelongsStays(comments, json, n, m, opens, opens1, |n.slots|, s.calls[c].at);
    }
  }

  lemma TopHasNoOpenChild(s: State, c: nat)
    requires Placed(s) && s.top.Some? && c < |s.nodes| && Open(s, c)
    ensures s.nodes[c].parent != s.top && c <= s.top.value
  {
    if Ancestor(s.nodes, s.top.value, c) {
      AncestorIsEarlier(s.nodes, s.top.value, c);
    }
  }

  /** A step that opens and closes nothing: only the object on top has to be looked at. */
  lemma InPlaceSettles(comments: bool, json: string, s: State, s1: State, names: Names, names1: Names)
    requires AllSettled(comments, json, s, names) && Placed(s1) && s.top.Some?
    requires s1.top == s.top && s1.visited == s.visited && s1.calls == s.calls && |s1.nodes| == |s.nodes|
    requires forall i {:trigger s1.nodes[i]} | 0 <= i < |s.nodes| ::
        && s1.nodes[i].parent == s.nodes[i].parent && (s1.nodes[i].kind.Object? <==> s.nodes[i].kind.Object?)
        && s1.nodes[i].slots == s.nodes[i].slots && s.nodes[i].mem <= s1.nodes[i].mem && s.nodes[i].entries <= s1.nodes[i].entries
        && (i != s.top.value ==> s1.nodes[i] == s.nodes[i])
    requires forall i: nat {:trigger Opened(names1, i)} ::
        Opened(names, i) <= Opened(names1, i) && (i != s.top.value ==> Opened(names1, i) == Opened(names, i))
    requires forall i | i in names1 :: i < s.visited
    ensures AllSettled(comments, json, s1, names1)
  {
    hide Settled, Opened;
    forall i | 0 <= i < s1.visited && s1.nodes[i].kind.Object? ensures Settled(comments, json, s1, names1, i) {
      forall c: nat | c < |s.nodes| ensures Open(s1, c) == Open(s, c) {
        AncestorSame(s.nodes, s1.nodes, s.top.value, c);
      }
      forall c: nat | c < |s.nodes| && Open(s, c) && i == s.top.value ensures s.nodes[c].parent != Some(i) {
        TopHasNoOpenChild(s, c);
      }
      hide Open;
      assert Settled(comments, json, s, names, i);
      SettledStays(comments, json, s, s1, names, names1, i);
    }
  }

  /** A value is called for: if its parent is an object, the name that waits there is its name. */
  lemma GrownSettles(comments: bool, json: string, s: State, s1: State, names: Names, at: nat)
    requires AllSettled(comments, json, s, names) && Grown(s, s1)
    requires s.calls <= s1.calls && |s1.calls| == s1.visited && s1.calls[s.visited].at == at
    requires forall i | 0 <= i < s.visited :: s1.nodes[i] == s.nodes[i]
    requires s1.nodes[s.visited].slots == []
    requires s.top.Some? && s.top.value < s.visited && s.nodes[s.top.value].kind.Object? ==>
               NameIsAt(comments, json, s.nodes[s.top.value], Opened(names, s.top.value), at)
    ensures AllSettled(comments, json, s1, names)
  {
    var v := s.visited;
    hide Settled;
    forall i | 0 <= i < s1.visited && s1.nodes[i].kind.Object? ensures Settled(comments, json, s1, names, i) {
      forall c: nat | c < |s.nodes| ensures Open(s1, c) == (Open(s, c) || c == v) {
        GrownOpens(s, s1, c);
      }
      if i == v {
        NewIsSettled(comments, json, s1, names);
      } else if s.top == Some(i) {
        ParentIsSettled(comments, json, s, s1, names, at, i);
      } else {
        hide Open;
        assert Settled(comments, json, s, names, i);
        SettledStays(comments, json, s, s1, names, names, i);
      }
    }
  }

  lemma NewIsSettled(comments: bool, json: string, s1: State, names: Names)
    requires Placed(s1) && s1.visited > 0 && s1.top == Some(s1.visited - 1) && s1.nodes[s1.visited - 1].slots == []
    ensures Settled(comments, json, s1, names, s1.visited - 1)
  {
    forall c: nat | c < |s1.nodes| && Open(s1, c) ensures s1.nodes[c].parent != Some(s1.visited - 1) {
      TopHasNoOpenChild(s1, c);
    }
  }

  lemma ParentIsSettled(comments: bool, json: string, s: State, s1: State, names: Names, at: nat, i: nat)
    requires AllSettled(comments, json, s, names) && Grown(s, s1) && s.top == Some(i) && i < s.visited && s.nodes[i].kind.Object?
    requires s.calls <= s1.calls && |s1.calls| == s1.visited && s1.calls[s.visited].at == at && s1.nodes[i] == s.nodes[i]
    requires NameIsAt(comments, json, s.nodes[i], Opened(names, i), at)
    ensures Settled(comments, json, s1, names, i)
  {
    assert Settled(comments, json, s, names, i);
    hide Belongs;
    forall c: nat | c < s1.visited && Open(s1, c) && s1.nodes[c].parent == Some(i) ensures c == s.visited {
      GrownOpens(s, s1, c);
      if Open(s, c) {
        TopHasNoOpenChild(s, c);
      }
    }
  }

  /** A value ends and hangs under its parent, and so does the name that was its. */
  lemma ShutSettles(comments: bool, json: string, s: State, s1: State, names: Names, p: nat)
    requires AllSettled(comments, json, s, names) && Shut(s, s1, p) && s1.calls == s.calls
    requires forall i {:trigger s1.nodes[i]} | 0 <= i < |s.nodes| ::
        && s1.nodes[i].kind == s.nodes[i].kind && s1.nodes[i].entries == s.nodes[i].entries
        && s1.nodes[i].mem == s.nodes[i].mem && s1.nodes[i].cursor == s.nodes[i].cursor
    ensures AllSettled(comments, json, s1, names)
    ensures var n := s1.nodes[p];
            n.kind.Object? ==> |Opened(names, p)| == |n.entries| == |n.slots| && |n.mem| == n.cursor
  {
    hide Settled;
    var t := s.top.value;
    forall c: nat | c < |s.nodes| ensures Open(s1, c) == (Open(s, c) && c != t) {
      ShutOpens(s, s1, p, c);
    }
    if s.nodes[p].kind.Object? {
      ParentTakesName(comments, json, s, s1, names, p);
    }
    forall i | 0 <= i < s1.visited && s1.nodes[i].kind.Object? && i != p ensures Settled(comments, json, s1, names, i) {
      hide Open;
      assert Settled(comments, json, s, names, i);
      SettledStays(comments, json, s, s1, names, names, i);
    }
  }

  lemma ParentTakesName(comments: bool, json: string, s: State, s1: State, names: Names, p: nat)
    requires AllSettled(comments, json, s, names) && Shut(s, s1, p) && s1.calls == s.calls && p < s.visited && s.nodes[p].kind.Object?
    requires var n, m := s.nodes[p], s1.nodes[p]; m.entries == n.entries && m.mem == n.mem && m.cursor == n.cursor
    ensures Settled(comments, json, s1, names, p)
    ensures var n := s1.nodes[p]; |Opened(names, p)| == |n.entries| == |n.slots| && |n.mem| == n.cursor
  {
    var t := s.top.value;
    var n, m, opens := s.nodes[p], s1.nodes[p], Opened(names, p);
    assert Settled(comments, json, s, names, p) && Open(s, t);
    forall c: nat | c < |s.nodes| && Open(s1, c) ensures s1.nodes[c].parent != Some(p) {
      TopHasNoOpenChild(s1, c);
    }
    hide Open;
    forall k | 0 <= k < |m.slots|
      ensures m.slots[k] < |s1.calls| && Belongs(comments, json, m, opens, k, s1.calls[m.slots[k]].at)
    {
      if k < |n.slots| {
        BelongsStays(comments, json, n, m, opens, opens, k, s.calls[n.slots[k]].at);
      } else {
        BelongsStays(comments, json, n, m, opens, opens, k, s.calls[t].at);
      }
    }
  }

  // ---------------------------------------------------------------- the actions one by one

  lemma FinishSettles(comments: bool, json: string, names: Names, s: State, s1: State)
    requires AllSettled(comments, json, s, names) && Finish(false, s) == More(s1) && Placed(s1) && !s.f.str
    requires s.top.Some? && s.top.value < s.visited
    requires var p := s.nodes[s.top.value].parent;
             if p.None? then s.f.done
             else p.value < |s.nodes| && (s.nodes[p.value].kind.Object? ==> !s.f.seek)
    ensures AllSettled(comments, json, s1, names) && TopSettled(comments, json, s1, names)
  {
    hide Settled;
    if s.nodes[s.top.value].parent.Some? {
      ShutSettles(comments, json, s, s1, names, s.nodes[s.top.value].parent.value);
    }
  }

  /** A string or name goes on. */
  lemma TextSettles(comments: bool, json: string, names: Names, s: State, d: Decision, s1: State)
    requires WF(false, comments, s) && s.pos <= |json| && s.f.str && Placed(s1)
    requires AllSettled(comments, json, s, names) && TopSettled(comments, json, s, names)
    requires d == Decide(false, comments, json, ViewOf(s)) && d.Go? && (d.act.Put? || d.act.Skip?)
    requires Allowed(false, comments, ViewOf(s), d.f, d.act) && Apply(false, s, d) == More(s1)
    ensures AllSettled(comments, json, s1, names) && TopSettled(comments, json, s1, names)
  {
    TextStep(false, comments, json, ViewOf(s));
    EndStep(comments, json, ViewOf(s));
    var t := s.top.value;
    var bytes := PutChanges(false, comments, json, s, d, s1);
    var n, m := s.nodes[t], s1.nodes[t];
    assert s1.nodes == s.nodes[t := m] && m.slots == n.slots && s1.calls == s.calls && s1.top == s.top;
    assert s1.f.str && s1.f.needComma == s.f.needComma && s1.f.done == s.f.done;
    hide Decide, Apply, Allowed, AllSettled, TextFrom, TextEnd;
    InPlaceSettles(comments, json, s, s1, names, names);
    if n.kind.Object? && !s.f.done {
      NameGoesOn(json, s, s1, n, m, bytes, Opened(names, t)[|n.slots|]);
    }
  }

  lemma NameGoesOn(json: string, s: State, s1: State, n: Node, m: Node, bytes: string, q: nat)
    requires n.cursor <= |n.mem| && m.mem == n.mem + bytes && m.cursor == n.cursor
    requires TextFrom(json, s.pos, s.f.escaped) == bytes + TextFrom(json, s1.pos, s1.f.escaped)
    requires TextEnd(json, s1.pos, s1.f.escaped) == TextEnd(json, s.pos, s.f.escaped)
    requires ReadingName(json, s, q, n.mem[n.cursor..])
    ensures ReadingName(json, s1, q, m.mem[m.cursor..])
  {
    hide TextFrom, TextEnd, TextAt;
    var left := TextFrom(json, s1.pos, s1.f.escaped);
    assert m.mem[n.cursor..] + left == n.mem[n.cursor..] + (bytes + left);
  }

  /** Blanks, commas, colons and comments. */
  lemma BlankSettles(comments: bool, json: string, names: Names, s: State, d: Decision, s1: State)
    requires WF(false, comments, s) && s.pos <= |json| && !s.f.str && Placed(s1)
    requires AllSettled(comments, json, s, names) && TopSettled(comments, json, s, names)
    requires d == Decide(false, comments, json, ViewOf(s)) && d.Go? && d.act.Skip?
    requires Allowed(false, comments, ViewOf(s), d.f, d.act) && Apply(false, s, d) == More(s1)
    ensures AllSettled(comments, json, s1, names) && TopSettled(comments, json, s1, names)
  {
    assert s1 == s.(f := d.f, num := d.num, pos := d.pos);
    assert s1.f.str == s.f.str && s1.f.done == s.f.done && s1.f.seek == s.f.seek;
    if s.top.Some? && s.nodes[s.top.value].kind.Object? && !s.f.done && s.f.seek {
      GapStep(comments, json, ViewOf(s), Gap(s.f.needColon, s.f.line, s.f.block));
      NameStillWaits(comments, json, s, s1, s.nodes[s.top.value], Opened(names, s.top.value));
    }
    hide Decide, Apply, Allowed, Settled, ValueFrom;
    if s.top.Some? {
      InPlaceSettles(comments, json, s, s1, names, names);
    }
  }

  lemma NameStillWaits(comments: bool, json: string, s: State, s1: State, n: Node, opens: seq<nat>)
    requires !s.f.str && s.f.seek && !s1.f.str && s1.f.seek && AtTop(comments, json, s, n, opens) && !s1.f.needComma
    requires ValueFrom(comments, json, s1.pos, Gap(s1.f.needColon, s1.f.line, s1.f.block))
             == ValueFrom(comments, json, s.pos, Gap(s.f.needColon, s.f.line, s.f.block))
    ensures AtTop(comments, json, s1, n, opens)
  {
    hide ValueFrom, ValueOfName, IsName;
  }

  lemma NameWhenFree(comments: bool, json: string, v: View)
    requires v.pos <= |json| && !v.f.str && !v.f.seek
    ensures var d := Decide(false, comments, json, v); d.Go? && d.act.OpenName? ==> !v.f.needComma
  {
    hide DecideString, DecideSeek;
  }

  lemma OpenNameSettles(comments: bool, json: string, names: Names, s: State, d: Decision, s1: State)
    requires WF(false, comments, s) && s.pos <= |json| && Placed(s1)
    requires AllSettled(comments, json, s, names) && TopSettled(comments, json, s, names)
    requires d == Decide(false, comments, json, ViewOf(s)) && d.Go? && d.act.OpenName?
    requires Allowed(false, comments, ViewOf(s), d.f, d.act) && Apply(false, s, d) == More(s1)
    ensures var names1 := Record(names, s, d);
            AllSettled(comments, json, s1, names1) && TopSettled(comments, json, s1, names1)
  {
    BeginStep(false, comments, json, ViewOf(s));
    NameWhenFree(comments, json, ViewOf(s));
    var n, opens := s.nodes[s.top.value], Opened(names, s.top.value);
    assert s1.nodes == s.nodes && s1.calls == s.calls && s1.visited == s.visited && s1.top == s.top;
    assert s1.f == d.f && s1.f.str && !s1.f.escaped && s1.pos == s.pos + 1 && n.kind.Object? && !s1.f.needComma;
    assert AtTop(comments, json, s, n, opens) && s.pos < |json| && json[s.pos] == '"';
    var names1 := Record(names, s, d);
    assert names1 == names[s.top.value := opens + [s.pos]];
    hide *;
    NameOpens(comments, json, s, s1, n, opens);
    SameNodes(comments, json, names, s, s1, n);
  }

  lemma SameNodes(comments: bool, json: string, names: Names, s: State, s1: State, n: Node)
    requires AllSettled(comments, json, s, names) && s.top.Some? && s.top.value < s.visited && s.top.value < |s.nodes|
    requires n == s.nodes[s.top.value]
    requires s1.nodes == s.nodes && s1.calls == s.calls && s1.visited == s.visited && s1.top == s.top
    requires AtTop(comments, json, s1, n, Opened(names, s.top.value) + [s.pos])
    ensures var names1 := names[s.top.value := Opened(names, s.top.value) + [s.pos]];
            AllSettled(comments, json, s1, names1) && TopSettled(comments, json, s1, names1)
  {
    hide Settled, AtTop;
    InPlaceSettles(comments, json, s, s1, names, names[s.top.value := Opened(names, s.top.value) + [s.pos]]);
  }

  lemma NameOpens(comments: bool, json: string, s: State, s1: State, n: Node, opens: seq<nat>)
    requires AtTop(comments, json, s, n, opens) && !s.f.str && !s.f.seek && s.pos < |json| && json[s.pos] == '"'
    requires s1.f.str && !s1.f.escaped && !s1.f.needComma && s1.pos == s.pos + 1
    ensures AtTop(comments, json, s1, n, opens + [s.pos])
  {
    hide TextFrom, TextEnd;
    assert n.mem[n.cursor..] == "" && "" + TextFrom(json, s.pos + 1, false) == TextFrom(json, s.pos + 1, false);
  }

  lemma CloseNameSettles(comments: bool, json: string, names: Names, s: State, d: Decision, s1: State)
    requires WF(false, comments, s) && s.pos <= |json| && Placed(s1)
    requires AllSettled(comments, json, s, names) && TopSettled(comments, json, s, names)
    requires d == Decide(false, comments, json, ViewOf(s)) && d.Go? && d.act.CloseName?
    requires Allowed(false, comments, ViewOf(s), d.f, d.act) && Apply(false, s, d) == More(s1)
    ensures AllSettled(comments, json, s1, names) && TopSettled(comments, json, s1, names)
  {
    TextStep(false, comments, json, ViewOf(s));
    EndStep(comments, json, ViewOf(s));
    var t := s.top.value;
    var n, m := s.nodes[t], s1.nodes[t];
    assert s1.nodes == s.nodes[t := m] && s1.calls == s.calls && s1.visited == s.visited && s1.top == s.top;
    assert m.kind == n.kind == Object && m.parent == n.parent && m.slots == n.slots && !s.f.done && s1.pos == d.pos;
    assert s1.f == s.f.(str := false, seek := true, needColon := true) && NoComment(s1.f);
    assert m.mem == n.mem + "\0" && m.entries == n.entries + [Entry(n.cursor, s.strLen)]
           && m.cursor == n.cursor + s.strLen + 1 && |n.mem| == n.cursor + s.strLen;
    hide Decide, Apply, Allowed, AllSettled, TextFrom, TextEnd, WF;
    InPlaceSettles(comments, json, s, s1, names, names);
    NameCloses(comments, json, s, s1, n, m, Opened(names, t));
  }

  lemma NameCloses(comments: bool, json: string, s: State, s1: State, n: Node, m: Node, opens: seq<nat>)
    requires s.f.str && AtTop(comments, json, s, n, opens) && TextFrom(json, s.pos, s.f.escaped) == ""
    requires s1.pos == TextEnd(json, s.pos, s.f.escaped) && NoComment(s1.f)
    requires s1.f == s.f.(str := false, seek := true, needColon := true) && m.slots == n.slots
    requires |n.mem| == n.cursor + s.strLen && m.mem == n.mem + "\0"
    requires m.entries == n.entries + [Entry(n.cursor, s.strLen)] && m.cursor == n.cursor + s.strLen + 1
    ensures AtTop(comments, json, s1, m, opens)
  {
    hide TextFrom, TextEnd, TextAt, ValueFrom;
    assert n.mem[n.cursor..] + "" == n.mem[n.cursor..];
    assert m.mem[n.cursor..n.cursor + s.strLen + 1] == n.mem[n.cursor..] + "\0";
  }

  /** The name that waits is that of the value which is called for here. */
  lemma NameFindsValue(comments: bool, json: string, s: State, n: Node, opens: seq<nat>)
    requires !s.f.str && s.f.seek && AtTop(comments, json, s, n, opens)
    requires ValueFrom(comments, json, s.pos, Gap(s.f.needColon, s.f.line, s.f.block)) == Some(s.pos)
    ensures NameIsAt(comments, json, n, opens, s.pos)
  {
    hide ValueFrom, ValueOfName, IsName;
  }

  lemma CalledSettles(comments: bool, json: string, names: Names, s: State, d: Decision, moved: State, s1: State)
    requires WF(false, comments, s) && s.pos <= |json| && Building(s)
    requires AllSettled(comments, json, s, names) && TopSettled(comments, json, s, names)
    requires d == Decide(false, comments, json, ViewOf(s)) && d.Go? && (d.act.New? || d.act.NewLeaf?)
    requires Allowed(false, comments, ViewOf(s), d.f, d.act)
    requires moved == s.(f := moved.f, num := moved.num, pos := moved.pos, strLen := moved.strLen)
    requires NewValue(false, moved, d.act.kind, s.pos) == More(s1) && Placed(s1)
    ensures AllSettled(comments, json, s1, names) && s1.top == Some(s.visited) && s1.f == moved.f && s1.visited == s.visited + 1
    ensures var m := s1.nodes[s.visited];
            m.slots == [] && m.entries == [] && m.mem == "" && m.cursor == 0 && m.parent == s.top
            && SameKind(m.kind, d.act.kind)
    ensures |s1.nodes| == |s.nodes| && forall i | 0 <= i < s.visited :: s1.nodes[i] == s.nodes[i]
  {
    assert !s.f.str && s.f.seek && !s.f.done;
    NextOfBuilding(s);
    assert Grown(s, s1);
    if s.top.Some? && s.nodes[s.top.value].kind.Object? {
      GapStep(comments, json, ViewOf(s), Gap(s.f.needColon, s.f.line, s.f.block));
      NameFindsValue(comments, json, s, s.nodes[s.top.value], Opened(names, s.top.value));
    }
    hide Decide, Allowed, Building, Settled, AtTop, NameIsAt;
    GrownSettles(comments, json, s, s1, names, s.pos);
  }

  lemma NewSettles(comments: bool, json: string, names: Names, s: State, d: Decision, s1: State)
    requires WF(false, comments, s) && s.pos <= |json| && Building(s) && Placed(s1)
    requires AllSettled(comments, json, s, names) && TopSettled(comments, json, s, names)
    requires d == Decide(false, comments, json, ViewOf(s)) && d.Go? && d.act.New?
    requires Allowed(false, comments, ViewOf(s), d.f, d.act) && Apply(false, s, d) == More(s1)
    ensures AllSettled(comments, json, s1, names) && TopSettled(comments, json, s1, names)
  {
    var k := d.act.kind;
    var moved := s.(f := d.f, num := d.num, pos := d.pos, strLen := if k.Str? then 0 else s.strLen);
    assert NewValue(false, moved, k, s.pos) == More(s1);
    assert d.f.str == k.Str? && d.f.seek == k.Array?;
    hide Decide, Apply, Building, NewValue, AllSettled;
    CalledSettles(comments, json, names, s, d, moved, s1);
  }

  lemma LeafSettles(comments: bool, json: string, names: Names, s: State, d: Decision, s1: State)
    requires WF(false, comments, s) && s.pos <= |json| && Building(s) && Placed(s1)
    requires AllSettled(comments, json, s, names) && TopSettled(comments, json, s, names)
    requires d == Decide(false, comments, json, ViewOf(s)) && d.Go? && d.act.NewLeaf?
    requires Allowed(false, comments, ViewOf(s), d.f, d.act) && Apply(false, s, d) == More(s1)
    ensures AllSettled(comments, json, s1, names) && TopSettled(comments, json, s1, names)
  {
    LeafFinishes(comments, s, d, s1);
    var moved := s.(f := d.f, num := d.num, pos := d.pos);
    var mid := NewValue(false, moved, d.act.kind, s.pos).s;
    assert s.top.None? ==> d.f.done;
    assert s.top.Some? && s.nodes[s.top.value].kind.Object? ==> !d.f.seek;
    hide Decide, Apply, Building, NewValue, AllSettled, Finish, Allowed;
    CalledSettles(comments, json, names, s, d, moved, mid);
    FinishSettles(comments, json, names, mid, s1);
  }

  lemma EndSettles(comments: bool, json: string, names: Names, s: State, d: Decision, s1: State)
    requires WF(false, comments, s) && s.pos <= |json| && Building(s) && Placed(s1)
    requires AllSettled(comments, json, s, names)
    requires d.Go? && Ends(d.act)
    requires Allowed(false, comments, ViewOf(s), d.f, d.act) && Apply(false, s, d) == More(s1)
    ensures AllSettled(comments, json, s1, names) && TopSettled(comments, json, s1, names)
  {
    EndSplits(comments, s, d, s1);
    var t := s.top.value;
    var n := s.nodes[t];
    var m := EndNode(n, d.act, d.num, s.strLen);
    EndNodeKeeps(n, d.act, d.num, s.strLen);
    var mid := s.(f := d.f, num := d.num, pos := d.pos, nodes := s.nodes[t := m]);
    EndFlags(comments, s, d);
    hide WF, Apply, Building, AllSettled, Finish, Allowed, EndNode, BytesOf;
    InPlaceSettles(comments, json, s, mid, names, names);
    FinishSettles(comments, json, names, mid, s1);
  }

  lemma EndNodeKeeps(n: Node, act: Action, num: Num, strLen: nat)
    ensures var m := EndNode(n, act, num, strLen);
            n.mem <= m.mem && m.entries == n.entries && m.slots == n.slots && m.cursor == n.cursor
  {
  }

  lemma EndFlags(comments: bool, s: State, d: Decision)
    requires WF(false, comments, s) && d.Go? && Ends(d.act) && Allowed(false, comments, ViewOf(s), d.f, d.act)
    requires s.top.Some?
    ensures var p := s.nodes[s.top.value].parent;
            if p.None? then d.f.done else s.nodes[p.value].kind.Object? ==> !d.f.seek
  {
  }

  lemma StepSettles(comments: bool, json: string, names: Names, s: State, s1: State)
    requires WF(false, comments, s) && WF(false, comments, s1) && s.pos <= |json| && Building(s)
    requires AllSettled(comments, json, s, names) && TopSettled(comments, json, s, names)
    requires Step(false, comments, json, s) == More(s1)
    ensures var names1 := Record(names, s, Decide(false, comments, json, ViewOf(s)));
            AllSettled(comments, json, s1, names1) && TopSettled(comments, json, s1, names1)
  {
    var d := Decide(false, comments, json, ViewOf(s));
    DecideIsSound(false, comments, json, ViewOf(s));
    hide Decide, Apply, Allowed, AllSettled, TopSettled, Building;
    match d.act
    case Skip =>
      if s.f.str {
        TextSettles(comments, json, names, s, d, s1);
      } else {
        BlankSettles(comments, json, names, s, d, s1);
      }
    case Put(_) =>
      TextOnTop(false, comments, s, d);
      TextSettles(comments, json, names, s, d, s1);
    case New(_) => NewSettles(comments, json, names, s, d, s1);
    case NewLeaf(_) => LeafSettles(comments, json, names, s, d, s1);
    case OpenName => OpenNameSettles(comments, json, names, s, d, s1);
    case CloseName => CloseNameSettles(comments, json, names, s, d, s1);
    case Digit(_) => DigitSettles(comments, json, names, s, d, s1);
    case ToDouble => DigitSettles(comments, json, names, s, d, s1);
    case _ => EndSettles(comments, json, names, s, d, s1);
  }

  lemma DigitSettles(comments: bool, json: string, names: Names, s: State, d: Decision, s1: State)
    requires WF(false, comments, s) && Placed(s1) && AllSettled(comments, json, s, names)
    requires d.Go? && (d.act.Digit? || d.act.ToDouble?)
    requires Allowed(false, comments, ViewOf(s), d.f, d.act) && Apply(false, s, d) == More(s1)
    ensures AllSettled(comments, json, s1, names) && TopSettled(comments, json, s1, names)
  {
    hide Settled;
    InPlaceSettles(comments, json, s, s1, names, names);
  }

  /** Pass 2 keeps every name with its value to the end. */
  lemma {:induction false} RunSettles(comments: bool, json: string, names: Names, s: State)
    requires WF(false, comments, s) && s.pos <= |json| && Building(s)
    requires AllSettled(comments, json, s, names) && TopSettled(comments, json, s, names)
    ensures var o := Run(false, comments, json, s);
            o.Accept? ==> AllSettled(comments, json, o.s, NamesRead(comments, json, s, names))
    decreases |json| - s.pos, Rank(json, s)
  {
    StepKeepsWF(false, comments, json, s);
    hide AllSettled, TopSettled, Building, WF, Record;
    var o := Step(false, comments, json, s);
    if o.More? {
      StepSettles(comments, json, names, s, o.s);
      StepBuilds(comments, json, s, o.s);
      RunSettles(comments, json, Record(names, s, Decide(false, comments, json, ViewOf(s))), o.s);
    } else if o.Accept? {
      StopChangesNothing(false, comments, json, s);
    }
  }

  // ---------------------------------------------------------------- the theorem

  /** Where pass 2 on these nodes opens names. */
  ghost function NamesOf(comments: bool, json: string, nodes: seq<Node>): Names
    requires WFNodes(nodes)
  {
    StartIsWF(false, comments, nodes);
    NamesRead(comments, json, Start(nodes), map[])
  }

  /** Name k of an object is the k-th that has been opened in it, and the one whose value is child k. */
  ghost predicate NamesFit(comments: bool, json: string, n: Node, opens: seq<nat>, calls: seq<Call>) {
    && |n.entries| == |n.slots|
    && forall k {:trigger n.slots[k]} | 0 <= k < |n.slots| ::
         n.slots[k] < |calls| && Belongs(comments, json, n, opens, k, calls[n.slots[k]].at)
  }

  /** After a successful parse every member of every object has the name that stands before its value. */
  lemma NamesBelongToTheirValues(comments: bool, json: string)
    requires FirstPass(comments, json).Accept?
    ensures var nodes := FirstPass(comments, json).s.nodes;
            var o := SecondPass(comments, json, nodes);
            && o.Accept?
            && forall i {:trigger o.s.nodes[i]} | 0 <= i < |o.s.nodes| && o.s.nodes[i].kind.Object? ::
                 NamesFit(comments, json, o.s.nodes[i], Opened(NamesOf(comments, json, nodes), i), o.s.calls)
  {
    var s := FirstPass(comments, json).s;
    SecondPassFillsExactly(comments, json);
    SecondPassSettles(comments, json);
    var s2, names := SecondPass(comments, json, s.nodes).s, NamesOf(comments, json, s.nodes);
    hide FirstPass, SecondPass, IsTree, Settled, NamesFit, FilledExactly, NamesOf;
    forall i | 0 <= i < |s2.nodes| && s2.nodes[i].kind.Object?
      ensures NamesFit(comments, json, s2.nodes[i], Opened(names, i), s2.calls)
    {
      assert FilledExactly(s2.nodes[i], s.nodes[i]);
      SettledFits(comments, json, s2, names, s.nodes[i], i);
    }
  }

  lemma SettledFits(comments: bool, json: string, s2: State, names: Names, n: Node, i: nat)
    requires Placed(s2) && i < |s2.nodes| && s2.nodes[i].kind.Object?
    requires Settled(comments, json, s2, names, i) && FilledExactly(s2.nodes[i], n)
    ensures NamesFit(comments, json, s2.nodes[i], Opened(names, i), s2.calls)
  {
    hide Belongs;
  }

  lemma SecondPassSettles(comments: bool, json: string)
    requires FirstPass(comments, json).Accept?
    requires SecondPass(comments, json, FirstPass(comments, json).s.nodes).Accept?
    ensures var s := FirstPass(comments, json).s;
            var s2 := SecondPass(comments, json, s.nodes).s;
            AllSettled(comments, json, s2, NamesOf(comments, json, s.nodes)) && s2.visited == |s2.nodes|
  {
    var s := FirstPass(comments, json).s;
    StartIsWF(true, comments, []);
    StartIsWF(false, comments, s.nodes);
    RunStaysRaw(comments, json, Start([]));
    RunSettles(comments, json, map[], Start(s.nodes));
    SecondPassRepeatsFirst(comments, json);
    hide Run, NamesRead;
  }
}
