/**
  The texts that json_parse_ex accepts are exactly those of JsonForms: whatever pass 1 accepts has such
  a form, which is found along the run, and every text of such a form is accepted.
 */
module JsonLanguage {
  import opened Optional
  import opened JsonMachine
  import opened JsonInvariant
  import opened JsonParse
  import opened JsonReading
  import opened JsonShapes
  import opened JsonNumbers
  import opened JsonValues
  import opened JsonRoundTrip
  import opened JsonFinding
  import F = JsonForms

  // ---------------------------------------------------------------- full containers

  /** Node i hangs somewhere under node t. */
  ghost predicate Under(nodes: seq<Node>, i: nat, t: nat)
    decreases i
  {
    && i < |nodes| && nodes[i].parent.Some? && nodes[i].parent.value < i
    && (nodes[i].parent.value == t || Under(nodes, nodes[i].parent.value, t))
  }

  lemma {:induction false} UnderIsBehind(nodes: seq<Node>, i: nat, t: nat)
    requires Under(nodes, i, t)
    ensures t < i
    decreases i
  {
    if nodes[i].parent.value != t {
      UnderIsBehind(nodes, nodes[i].parent.value, t);
    }
  }

  predicate SameParents(a: seq<Node>, b: seq<Node>) {
    |a| <= |b| && forall i | 0 <= i < |a| :: b[i].parent == a[i].parent
  }

  lemma {:induction false} UnderStays(a: seq<Node>, b: seq<Node>, i: nat, t: nat)
    requires Under(a, i, t) && SameParents(a, b)
    ensures Under(b, i, t)
    decreases i
  {
    if a[i].parent.value != t {
      UnderStays(a, b, a[i].parent.value, t);
    }
  }

  /** A value is being read under container t, which has uint_max children already. */
  ghost predicate Choked(s: State, t: nat) {
    t < |s.nodes| && s.nodes[t].length >= UINT_LIMIT && s.top.Some? && Under(s.nodes, s.top.value, t)
  }

  /** A value that ends hangs under its parent: under t it does not fit, and under another one t stays full. */
  lemma FinishChokes(s: State, t: nat)
    requires Choked(s, t)
    ensures var o := Finish(true, s);
            !o.Accept? && (o.More? ==> Choked(o.s, t))
  {
    hide Under;
    UnderIsBehind(s.nodes, s.top.value, t);
    var o := Finish(true, s);
    UnderHasParent(s.nodes, s.top.value, t);
    if o.More? {
      UnderStays(s.nodes, o.s.nodes, o.s.top.value, t);
    }
  }

  lemma UnderHasParent(nodes: seq<Node>, i: nat, t: nat)
    requires Under(nodes, i, t)
    ensures i < |nodes| && nodes[i].parent.Some?
    ensures nodes[i].parent == Some(t) || Under(nodes, nodes[i].parent.value, t)
  {
  }

  lemma NewChokes(s: State, kind: Kind, at: nat, t: nat)
    requires t < |s.nodes| && s.nodes[t].length >= UINT_LIMIT && s.top.Some? && s.top.value < |s.nodes|
    requires s.top.value == t || Under(s.nodes, s.top.value, t)
    ensures NewValue(true, s, kind, at).More? && Choked(NewValue(true, s, kind, at).s, t)
  {
    var s1 := NewValue(true, s, kind, at).s;
    if s.top.value != t {
      UnderStays(s.nodes, s1.nodes, s.top.value, t);
    }
  }

  /** An action that changes `top` only. */
  lemma ChangeChokes(s: State, s1: State, t: nat, n: Node)
    requires Choked(s, t) && s1.top == s.top && s1.nodes == s.nodes[s.top.value := n]
    requires n.parent == s.nodes[s.top.value].parent
    ensures Choked(s1, t)
  {
    UnderIsBehind(s.nodes, s.top.value, t);
    UnderStays(s.nodes, s1.nodes, s.top.value, t);
  }

  lemma PerformChokes(s: State, act: Action, at: nat, t: nat)
    requires Choked(s, t)
    ensures var o := Perform(true, s, act, at);
            !o.Accept? && (o.More? ==> Choked(o.s, t))
  {
    hide Choked, Finish, NewValue, Under;
    ChokedHere(s, t);
    if act.New? {
      StringStarts(s, act.kind, t);
      NewChokes(s.(strLen := if act.kind.Str? then 0 else s.strLen), act.kind, at, t);
    } else if act.NewLeaf? {
      NewChokes(s, act.kind, at, t);
      FinishChokes(NewValue(true, s, act.kind, at).s, t);
    } else if !act.Skip? {
      OnTopChokes(s, act, t);
    }
  }

  lemma ChokedHere(s: State, t: nat)
    requires Choked(s, t)
    ensures t < |s.nodes| && s.nodes[t].length >= UINT_LIMIT && s.top.Some? && s.top.value < |s.nodes|
    ensures Under(s.nodes, s.top.value, t)
  {
  }

  lemma StringStarts(s: State, kind: Kind, t: nat)
    requires Choked(s, t)
    ensures Choked(s.(strLen := if kind.Str? then 0 else s.strLen), t)
  {
  }

  lemma OnTopChokes(s: State, act: Action, t: nat)
    requires Choked(s, t) && s.top.value < |s.nodes|
    ensures var o := PerformOnTop(true, s, act);
            !o.Accept? && (o.More? ==> Choked(o.s, t))
  {
    hide Choked, Finish, Under;
    ChokedHere(s, t);
    var k := s.top.value;
    var n := s.nodes[k];
    assert s.nodes[k := n] == s.nodes;
    match act
    case Put(bytes) => ChangeChokes(s, s.(strLen := s.strLen + |bytes|), t, n);
    case OpenName => ChangeChokes(s, s.(strLen := 0), t, n);
    case CloseName =>
      var m := n.(names := n.names + s.strLen + 1);
      ChangeChokes(s, s.(nodes := s.nodes[k := m]), t, m);
    case CloseText =>
      var m := n.(length := s.strLen);
      ChangeChokes(s, s.(nodes := s.nodes[k := m]), t, m);
      FinishChokes(s.(nodes := s.nodes[k := m]), t);
    case Close => FinishChokes(s, t);
    case Digit(d) =>
      var m := n.(integer := n.integer * 10 + d);
      ChangeChokes(s, s.(nodes := s.nodes[k := m]), t, m);
    case ToDouble => ChangeChokes(s, s.(nodes := s.nodes[k := n.(kind := Double)]), t, n.(kind := Double));
    case NumEnd =>
      var m := Signed(n, s.num);
      SignedKeeps(n, s.num);
      ChangeChokes(s, s.(nodes := s.nodes[k := m]), t, m);
      FinishChokes(s.(nodes := s.nodes[k := m]), t);
    case _ =>
  }

  /** While a value is read that will not fit, pass 1 cannot come to an accepting end. */
  lemma {:induction false} FullRefuses(comments: bool, json: string, s: State, t: nat)
    requires Live(true, comments, json, s) && Choked(s, t)
    ensures !Run(true, comments, json, s).Accept?
    decreases |json| - s.pos, Rank(json, s)
  {
    hide Decide, Choked, Perform, WF;
    StepKeepsWF(true, comments, json, s);
    NotDoneUnder(comments, s, t);
    var d := Decide(true, comments, json, ViewOf(s));
    if d.Go? {
      var s1 := s.(f := d.f, num := d.num, pos := d.pos);
      ChokedAnyhow(s, s1, t);
      PerformChokes(s1, d.act, s.pos, t);
      var o := Perform(true, s1, d.act, s.pos);
      if o.More? {
        FullRefuses(comments, json, o.s, t);
      }
    }
  }

  lemma NotDoneUnder(comments: bool, s: State, t: nat)
    requires WF(true, comments, s) && Choked(s, t)
    ensures !s.f.done
  {
    UnderHasParent(s.nodes, s.top.value, t);
    hide Under;
  }

  lemma ChokedAnyhow(s: State, s1: State, t: nat)
    requires Choked(s, t) && s1.nodes == s.nodes && s1.top == s.top
    ensures Choked(s1, t)
  {
  }

  /** Neither a gap nor the end of an array. */
  predicate AtValue(comments: bool, json: string, p: nat) { Behind(comments, json, p) && At(json, p) != ']' }

  lemma ValueBegins(comments: bool, json: string, v: View)
    requires v.pos <= |json| && v.f == READY && AtValue(comments, json, v.pos)
    ensures var d := Decide(true, comments, json, v);
            d.Refuse? || (d.Go? && (d.act.New? || d.act.NewLeaf?))
  {
  }

  /** Where a value begins and pass 1 will accept, its container has room for it. */
  lemma RoomForChild(comments: bool, json: string, s: State)
    requires Accepted(comments, json, s) && s.f == READY && AtValue(comments, json, s.pos)
    requires s.top.Some? && s.top.value < |s.nodes|
    ensures s.nodes[s.top.value].length < UINT_LIMIT
  {
    hide WF, Run, Decide, AtValue, Choked, Under, Finish;
    NotRefused(comments, json, s);
    ValueBegins(comments, json, ViewOf(s));
    var d := Decide(true, comments, json, ViewOf(s));
    var t := s.top.value;
    if s.nodes[t].length >= UINT_LIMIT {
      var s1 := s.(f := d.f, num := d.num, pos := d.pos);
      var s2 := s1.(strLen := if d.act.New? && d.act.kind.Str? then 0 else s1.strLen);
      NewChokes(s2, d.act.kind, s.pos, t);
      var s3 := NewValue(true, s2, d.act.kind, s.pos).s;
      if d.act.New? {
        FullRefuses(comments, json, s3, t);
      } else {
        FinishChokes(s3, t);
        FullRefuses(comments, json, Finish(true, s3).s, t);
      }
    }
  }

  // ---------------------------------------------------------------- values

  /** new_value of a value that stays open. */
  function Opened(s: State, kind: Kind, f: Flags): State {
    s.(f := f, pos := s.pos + 1, strLen := if kind.Str? then 0 else s.strLen,
       calls := s.calls + [Call(s.pos, s.top, kind)], visited := s.visited + 1, top := Some(|s.nodes|),
       nodes := s.nodes + [Fresh(kind, s.top)])
  }

  lemma Opening(comments: bool, json: string, s: State, kind: Kind, f: Flags)
    requires Accepted(comments, json, s)
    requires Decide(true, comments, json, ViewOf(s)) == Go(f, s.num, s.pos + 1, New(kind))
    ensures Accepted(comments, json, Opened(s, kind, f))
  {
    hide WF, Run, Decide;
    OneStep(true, comments, json, s, Opened(s, kind, f));
  }

  lemma ApartIfStops(comments: bool, json: string, p: nat, gap: seq<F.Space>)
    requires F.ValidGap(comments, gap) && Here(json, p, F.PrintGap(gap)) && Stops(json, p)
    ensures F.Apart(gap)
  {
    if gap != [] {
      HereFirst(json, p, F.PrintGap(gap));
    }
  }

  /** A value begins here, in the place of a container or at the top. */
  ghost predicate AtStart(comments: bool, json: string, s: State) {
    && Accepted(comments, json, s) && s.f == READY && AtValue(comments, json, s.pos) && s.visited == |s.nodes|
    && (s.top.Some? ==> s.top.value < |s.nodes| && IsContainer(s.nodes[s.top.value].kind))
  }

  lemma NothingElse(comments: bool, json: string, s: State)
    requires Accepted(comments, json, s) && s.f == READY && AtValue(comments, json, s.pos)
    ensures var c := At(json, s.pos);
            c in {'{', '[', '"', 't', 'f', 'n', '-'} || IsDigit(c)
  {
    NotRefused(comments, json, s);
  }

  lemma StartsHere(comments: bool, json: string, s: State, w: F.Form)
    requires AtStart(comments, json, s) && F.Valid(comments, w) && Fits(w)
    requires Here(json, s.pos, F.Print(w)) && (F.IsNumeral(w) ==> Stops(json, s.pos + |F.Print(w)|))
    ensures Starts(true, comments, json, s, w, s.nodes, [])
  {
    hide WF, Run, F.Valid, Fits, F.Print, Stops, Made, AtValue;
    assert s.nodes + [] + [] == s.nodes;
    if s.top.Some? {
      RoomForChild(comments, json, s);
    }
  }

  /** The value that stands here. */
  lemma {:induction false} FindValue(comments: bool, json: string, s: State) returns (w: F.Form)
    requires AtStart(comments, json, s)
    ensures Starts(true, comments, json, s, w, s.nodes, [])
    decreases |json| - s.pos, 1
  {
    hide WF, Run, Decide, AtValue, Here, Stops, F.ValidText, F.Says, F.PrintText, F.ValidDigits, F.ValidExponent, Starts,
      Leading;
    NothingElse(comments, json, s);
    var c := At(json, s.pos);
    if c == '"' {
      w := FindString(comments, json, s);
    } else if c == '[' {
      w := FindList(comments, json, s);
    } else if c == '{' {
      w := FindTable(comments, json, s);
    } else if c == '-' || IsDigit(c) {
      w := FindNumber(comments, json, s);
    } else {
      w := FindWord(comments, json, s);
    }
    StartsHere(comments, json, s, w);
  }

  lemma FindString(comments: bool, json: string, s: State) returns (w: F.Form)
    requires AtStart(comments, json, s) && At(json, s.pos) == '"'
    ensures F.Valid(comments, w) && Fits(w) && !F.IsNumeral(w) && Here(json, s.pos, F.Print(w))
  {
    hide WF, Run, Decide, AtValue, Here, F.ValidText, F.Says, F.PrintText;
    QuoteOpens(true, comments, json, ViewOf(s));
    Opening(comments, json, s, Str, INSIDE);
    var gs := FindText(comments, json, Opened(s, Str, INSIDE), |s.nodes|);
    w := F.Text(gs);
    HereOne(json, s.pos, '"');
    HereJoins(json, s.pos, "\"", F.PrintText(gs) + "\"");
    assert F.Print(w) == "\"" + (F.PrintText(gs) + "\"");
  }

  lemma FindList(comments: bool, json: string, s: State) returns (w: F.Form)
    requires AtStart(comments, json, s) && At(json, s.pos) == '['
    ensures F.Valid(comments, w) && Fits(w) && !F.IsNumeral(w) && Here(json, s.pos, F.Print(w))
    decreases |json| - s.pos, 0
  {
    hide WF, Run, Decide, AtValue, Here, F.ValidItems, F.PrintItems, FitItems;
    BracketOpens(true, comments, json, ViewOf(s));
    Opening(comments, json, s, Array, READY);
    var items := FindItems(comments, json, Opened(s, Array, READY), |s.nodes|);
    w := F.List(items);
    HereOne(json, s.pos, '[');
    HereJoins(json, s.pos, "[", F.PrintItems(items) + "]");
    assert F.Print(w) == "[" + (F.PrintItems(items) + "]");
  }

  lemma FindTable(comments: bool, json: string, s: State) returns (w: F.Form)
    requires AtStart(comments, json, s) && At(json, s.pos) == '{'
    ensures F.Valid(comments, w) && Fits(w) && !F.IsNumeral(w) && Here(json, s.pos, F.Print(w))
    decreases |json| - s.pos, 0
  {
    hide WF, Run, Decide, AtValue, Here, F.ValidMembers, F.PrintMembers, FitMembers;
    BraceOpens(true, comments, json, ViewOf(s));
    Opening(comments, json, s, Object, CLEAR);
    var members := FindMembers(comments, json, Opened(s, Object, CLEAR), |s.nodes|);
    w := F.Table(members);
    HereOne(json, s.pos, '{');
    HereJoins(json, s.pos, "{", F.PrintMembers(members) + "}");
    assert F.Print(w) == "{" + (F.PrintMembers(members) + "}");
  }

  // ---------------------------------------------------------------- items and members

  /** Within container b of this kind, which has n children. */
  ghost predicate Inside(comments: bool, json: string, s: State, kind: Kind, f: Flags, b: nat, n: nat) {
    && Accepted(comments, json, s) && s.f == f && s.top == Some(b) && b < |s.nodes| && s.visited == |s.nodes|
    && s.nodes[b].kind == kind && IsContainer(kind) && s.nodes[b].length == n <= UINT_LIMIT
  }

  function ValueText(w: F.Form, after: seq<F.Space>): string { F.Print(w) + F.PrintGap(after) }

  /** A value and the gap behind it. */
  lemma PassValue(comments: bool, json: string, s: State, kind: Kind, b: nat, n: nat)
    returns (w: F.Form, after: seq<F.Space>, s1: State)
    requires Inside(comments, json, s, kind, READY, b, n) && AtValue(comments, json, s.pos)
    ensures F.Valid(comments, w) && Fits(w) && F.ValidGap(comments, after) && (F.IsNumeral(w) ==> F.Apart(after))
    ensures Here(json, s.pos, ValueText(w, after)) && s1.pos == s.pos + |ValueText(w, after)|
    ensures Inside(comments, json, s1, kind, NextFlags(CLEAR, Some(kind)), b, n + 1) && Behind(comments, json, s1.pos)
    ensures s.pos < s1.pos
    decreases |json| - s.pos, 2
  {
    hide WF, Run, Decide, AtValue, Here, F.Valid, Fits, Stops, F.Print, Made, F.ValidGap, F.PrintGap, F.Apart, IsLast;
    w := FindValue(comments, json, s);
    var s2 := ReadValue(true, comments, json, s, w, s.nodes, []);
    ChildAdded(s, s2, w, b);
    var last;
    after, last, s1 := FindGap(comments, json, s2);
    if F.IsNumeral(w) {
      ApartIfStops(comments, json, s2.pos, after);
    }
    HereJoins(json, s.pos, F.Print(w), F.PrintGap(after));
    SomethingPrinted(comments, w);
  }

  lemma SomethingPrinted(comments: bool, w: F.Form)
    requires F.Valid(comments, w)
    ensures |F.Print(w)| > 0
  {
  }

  lemma ChildAdded(s: State, s2: State, w: F.Form, b: nat)
    requires b < |s.nodes| && s.top == Some(b) && CanTake(true, s.nodes, s.top)
    requires s2.nodes == Grown(true, s.nodes, s.top, |s.nodes|) + Made(true, w, s.top, |s.nodes|) + []
    ensures |s2.nodes| == |s.nodes| + SizeOf(w) && s2.nodes[b] == s.nodes[b].(length := s.nodes[b].length + 1)
  {
    hide Made, SizeOf;
  }

  lemma CommaOrBracket(comments: bool, json: string, s: State)
    requires Accepted(comments, json, s) && s.f == READY.(needComma := true) && Behind(comments, json, s.pos)
    ensures s.pos < |json| && (json[s.pos] == ',' || json[s.pos] == ']')
  {
    NotRefused(comments, json, s);
  }

  lemma ItemsInParts(items: F.Items)
    requires items.Item?
    ensures F.PrintItems(items)
            == F.PrintGap(items.before) + ValueText(items.value, items.after) + ItemTail(items)
  {
    hide F.Print, F.PrintGap;
    PrintedItem(items);
    var a, b, c, d := F.PrintGap(items.before), F.Print(items.value), F.PrintGap(items.after), ItemTail(items);
    assert a + (b + (c + d)) == a + (b + c) + d;
  }

  lemma ItemGapPrinted(gap: seq<F.Space>)
    ensures F.PrintItems(F.ItemGap(gap)) == F.PrintGap(gap)
  {
  }

  /** The items from here to the closing bracket. */
  lemma {:induction false} FindItems(comments: bool, json: string, s: State, b: nat) returns (items: F.Items)
    requires b < |s.nodes| && Inside(comments, json, s, Array, READY, b, s.nodes[b].length)
    ensures F.ValidItems(comments, items) && FitItems(items) && !items.NoItems?
    ensures s.nodes[b].length + F.ItemCount(items) <= UINT_LIMIT && Here(json, s.pos, F.PrintItems(items) + "]")
    decreases |json| - s.pos, 3
  {
    hide WF, Run, Decide, Here, F.Valid, Fits, F.Print, F.ValidGap, F.PrintGap, F.Apart, IsLast, Behind, F.PrintItems,
      ValueText;
    var gap, last, s0 := FindGap(comments, json, s);
    if At(json, s0.pos) == ']' {
      items := F.ItemGap(gap);
      HereOne(json, s0.pos, ']');
      HereJoins(json, s.pos, F.PrintGap(gap), "]");
      ItemGapPrinted(gap);
    } else {
      var w, after, s1 := PassValue(comments, json, s0, Array, b, s.nodes[b].length);
      CommaOrBracket(comments, json, s1);
      var head := F.PrintGap(gap) + ValueText(w, after);
      HereJoins(json, s.pos, F.PrintGap(gap), ValueText(w, after));
      HereOne(json, s1.pos, json[s1.pos]);
      if json[s1.pos] == ']' {
        items := F.Item(gap, w, after, F.NoItems);
        HereJoins(json, s.pos, head, "]");
        ItemsInParts(items);
        assert F.PrintItems(items) == head;
      } else {
        PassComma(true, comments, json, s1);
        var rest := FindItems(comments, json, s1.(f := READY, pos := s1.pos + 1), b);
        items := F.Item(gap, w, after, rest);
        HereJoins(json, s1.pos, ",", F.PrintItems(rest) + "]");
        HereJoins(json, s.pos, head, "," + (F.PrintItems(rest) + "]"));
        ItemsInParts(items);
        assert F.PrintItems(items) + "]" == head + ("," + (F.PrintItems(rest) + "]"));
      }
    }
  }

  lemma MemberCharacter(comments: bool, json: string, s: State)
    requires Accepted(comments, json, s) && KindAt(s.nodes, s.top) == Some(Object) && Behind(comments, json, s.pos)
    ensures s.f == CLEAR ==> s.pos < |json| && (json[s.pos] == '"' || json[s.pos] == '}')
    ensures s.f == CLEAR.(needComma := true) ==> s.pos < |json| && (json[s.pos] == ',' || json[s.pos] == '}')
    ensures s.f == NAMED ==> s.pos < |json| && json[s.pos] == ':'
    ensures s.f == READY ==> At(json, s.pos) != ']'
  {
    NotRefused(comments, json, s);
  }

  /** A name, the colon and the gaps around it. */
  lemma FindHead(comments: bool, json: string, s: State, b: nat, n: nat)
    returns (name: seq<F.Glyph>, before: seq<F.Space>, behind: seq<F.Space>, s1: State)
    requires Inside(comments, json, s, Object, CLEAR, b, n) && At(json, s.pos) == '"'
    ensures F.ValidText(name) && |F.Says(name)| <= UINT_LIMIT
    ensures F.ValidGap(comments, before) && F.ValidGap(comments, behind)
    ensures var t := F.Quoted(name) + (F.PrintGap(before) + (":" + F.PrintGap(behind)));
            Here(json, s.pos, t) && s1.pos == s.pos + |t|
    ensures Inside(comments, json, s1, Object, READY, b, n) && AtValue(comments, json, s1.pos)
  {
    hide WF, Run, Decide, Here, F.ValidText, F.Says, F.PrintText, F.ValidGap, F.PrintGap, IsLast, Behind;
    var c;
    name, c := FindName(comments, json, s, b, n);
    var last, d;
    before, last, d := FindGap(comments, json, c);
    MemberCharacter(comments, json, d);
    PassColon(true, comments, json, d);
    HereOne(json, d.pos, ':');
    var e := d.(f := READY, pos := d.pos + 1);
    behind, last, s1 := FindGap(comments, json, e);
    MemberCharacter(comments, json, s1);
    HereJoins(json, d.pos, ":", F.PrintGap(behind));
    HereJoins(json, c.pos, F.PrintGap(before), ":" + F.PrintGap(behind));
    HereJoins(json, s.pos, F.Quoted(name), F.PrintGap(before) + (":" + F.PrintGap(behind)));
  }

  lemma FindName(comments: bool, json: string, s: State, b: nat, n: nat) returns (name: seq<F.Glyph>, s1: State)
    requires Inside(comments, json, s, Object, CLEAR, b, n) && At(json, s.pos) == '"'
    ensures F.ValidText(name) && |F.Says(name)| <= UINT_LIMIT && Here(json, s.pos, F.Quoted(name))
    ensures s1.pos == s.pos + |F.Quoted(name)| && Inside(comments, json, s1, Object, NAMED, b, n)
  {
    hide WF, Run, Decide, Here, F.ValidText, F.Says, F.PrintText;
    OpenQuote(true, comments, json, s, b);
    var a := s.(f := INSIDE, pos := s.pos + 1, strLen := 0);
    name := FindText(comments, json, a, b);
    var text := F.PrintText(name);
    HereOne(json, s.pos, '"');
    HereJoins(json, s.pos, "\"", text + "\"");
    assert F.Quoted(name) == "\"" + (text + "\"");
    HereParts(json, a.pos, text, "\"");
    HereFirst(json, a.pos + |text|, "\"");
    ReadText(true, comments, json, a, b, name);
    var d := Took(true, a, b, |text|, F.Says(name));
    var m := d.nodes[b].(names := d.nodes[b].names + d.strLen + 1);
    CloseQuote(true, comments, json, d, b, m);
    s1 := d.(f := NAMED, pos := d.pos + 1, nodes := d.nodes[b := m]);
  }

  /** A member with the gaps within and behind it; `members` is that member alone. */
  lemma FindMember(comments: bool, json: string, s: State, gap: seq<F.Space>, b: nat, n: nat)
    returns (members: F.Members, s1: State)
    requires Inside(comments, json, s, Object, CLEAR, b, n) && At(json, s.pos) == '"' && F.ValidGap(comments, gap)
    ensures members.Member? && members.rest.NoMembers? && members.before == gap
    ensures F.ValidMembers(comments, members) && FitMembers(members)
    ensures Here(json, s.pos, MemberRest(members)) && s1.pos == s.pos + |MemberRest(members)| && s.pos < s1.pos
    ensures Inside(comments, json, s1, Object, CLEAR.(needComma := true), b, n + 1) && Behind(comments, json, s1.pos)
    decreases |json| - s.pos, 3
  {
    hide WF, Run, Decide, Here, F.Valid, Fits, F.Print, F.ValidGap, F.PrintGap, F.Apart, Behind, F.ValidText, F.Says, F.Quoted,
      AtValue, ValueText;
    var name, before, behind, a := FindHead(comments, json, s, b, n);
    var w, after;
    w, after, s1 := PassValue(comments, json, a, Object, b, n);
    members := F.Member(gap, name, before, behind, w, after, F.NoMembers);
    HereJoins(json, s.pos, F.Quoted(name) + (F.PrintGap(before) + (":" + F.PrintGap(behind))), ValueText(w, after));
  }

  /** The text of a member behind its first gap. */
  function MemberRest(members: F.Members): string
    requires members.Member?
  {
    F.Quoted(members.name) + (F.PrintGap(members.beforeColon) + (":" + F.PrintGap(members.afterColon)))
    + ValueText(members.value, members.after)
  }

  lemma MemberInParts(members: F.Members)
    requires members.Member?
    ensures F.PrintMembers(members) == F.PrintGap(members.before) + MemberRest(members) + MemberTail(members)
  {
    hide F.Print, F.Quoted, F.PrintGap;
    PrintedMember(members);
    var a, n, b, c := F.PrintGap(members.before), F.Quoted(members.name), F.PrintGap(members.beforeColon),
                      F.PrintGap(members.afterColon);
    var d, e, f := F.Print(members.value), F.PrintGap(members.after), MemberTail(members);
    SixParts(a, n + (b + (":" + c)), d, e, f);
  }

  lemma SixParts(a: string, b: string, c: string, d: string, e: string)
    ensures (a + b) + (c + (d + e)) == a + (b + (c + d)) + e
  {
  }

  /** The members from here to the closing brace. */
  lemma {:induction false} FindMembers(comments: bool, json: string, s: State, b: nat) returns (members: F.Members)
    requires b < |s.nodes| && Inside(comments, json, s, Object, CLEAR, b, s.nodes[b].length)
    ensures F.ValidMembers(comments, members) && FitMembers(members) && !members.NoMembers?
    ensures s.nodes[b].length + F.MemberCount(members) <= UINT_LIMIT && Here(json, s.pos, F.PrintMembers(members) + "}")
    decreases |json| - s.pos, 4
  {
    hide WF, Run, Decide, Here, F.Valid, Fits, F.Print, F.ValidGap, F.PrintGap, F.Apart, IsLast, Behind, F.ValidText, F.Says,
      F.Quoted, AtValue, MemberRest, F.PrintMembers;
    var gap, last, s0 := FindGap(comments, json, s);
    MemberCharacter(comments, json, s0);
    if json[s0.pos] == '}' {
      members := F.MemberGap(gap);
      HereOne(json, s0.pos, '}');
      HereJoins(json, s.pos, F.PrintGap(gap), "}");
      GapPrinted(gap);
    } else {
      var s2;
      members, s2 := FindMember(comments, json, s0, gap, b, s.nodes[b].length);
      MemberCharacter(comments, json, s2);
      var head := F.PrintGap(gap) + MemberRest(members);
      HereJoins(json, s.pos, F.PrintGap(gap), MemberRest(members));
      HereOne(json, s2.pos, json[s2.pos]);
      if json[s2.pos] == '}' {
        HereJoins(json, s.pos, head, "}");
        MemberInParts(members);
        assert F.PrintMembers(members) == head;
      } else {
        PassMemberComma(true, comments, json, s2);
        var rest := FindMembers(comments, json, s2.(f := CLEAR, pos := s2.pos + 1), b);
        var all := members.(rest := rest);
        SameRest(members, all);
        HereJoins(json, s2.pos, ",", F.PrintMembers(rest) + "}");
        HereJoins(json, s.pos, head, "," + (F.PrintMembers(rest) + "}"));
        MemberInParts(all);
        assert F.PrintMembers(all) + "}" == head + ("," + (F.PrintMembers(rest) + "}"));
        members := all;
      }
    }
  }

  lemma GapPrinted(gap: seq<F.Space>)
    ensures F.PrintMembers(F.MemberGap(gap)) == F.PrintGap(gap)
  {
  }

  lemma SameRest(members: F.Members, all: F.Members)
    requires members.Member? && all.Member? && all == members.(rest := all.rest)
    ensures MemberRest(all) == MemberRest(members)
  {
  }

  // ---------------------------------------------------------------- texts

  lemma TopIsReady(comments: bool, json: string)
    requires Accepted(comments, json, Start([]))
    ensures Patient(Start([])) && Start([]).f == READY
  {
  }

  lemma NoBracketAtTop(comments: bool, json: string, s: State)
    requires Accepted(comments, json, s) && s.f == READY && s.top.None? && Behind(comments, json, s.pos)
    ensures AtValue(comments, json, s.pos)
  {
    NotRefused(comments, json, s);
  }

  lemma EndsWithNul(comments: bool, json: string, s: State)
    requires Accepted(comments, json, s) && s.f == NextFlags(CLEAR, None) && Behind(comments, json, s.pos)
    ensures At(json, s.pos) == '\0'
  {
    NotRefused(comments, json, s);
  }

  /** What pass 1 accepts is the text of a document. */
  lemma FindDocument(comments: bool, json: string) returns (d: Document)
    requires FirstPass(comments, json).Accept?
    ensures ValidDocument(comments, d) && Fits(d.value) && IsText(json, d)
  {
    hide WF, Run, Decide, Here, F.Valid, Fits, F.Print, F.ValidGap, F.PrintGap, F.Apart, Behind, AtValue, Made, Stops,
      F.InOneLine;
    var s := Start([]);
    StartIsWF(true, comments, []);
    TopIsReady(comments, json);
    var before, last0, s0 := FindGap(comments, json, s);
    NoBracketAtTop(comments, json, s0);
    var w := FindValue(comments, json, s0);
    var s1 := ReadValue(true, comments, json, s0, w, s0.nodes, []);
    var after, last, s2 := FindGap(comments, json, s1);
    d := Document(before, w, after, last);
    if F.IsNumeral(w) {
      ApartIfStops(comments, json, s1.pos, after);
      NoSlash(json, s1.pos);
      NoGap();
    }
    if last.None? {
      EndsWithNul(comments, json, s2);
      HereNothing(json, s2.pos);
    }
    var end := LastLine(d);
    HereJoins(json, s1.pos, F.PrintGap(after), end);
    HereJoins(json, s0.pos, F.Print(w), F.PrintGap(after) + end);
    HereJoins(json, 0, F.PrintGap(before), F.Print(w) + (F.PrintGap(after) + end));
    TextEnds(json, d);
  }

  lemma NoSlash(json: string, p: nat)
    requires Stops(json, p)
    ensures forall t: string :: !Here(json, p, "//" + t)
  {
    forall t: string ensures !Here(json, p, "//" + t) {
      if Here(json, p, "//" + t) {
        HereFirst(json, p, "//" + t);
      }
    }
  }

  lemma TextEnds(json: string, d: Document)
    requires Here(json, 0, Written(d)) && At(json, |Written(d)|) == '\0'
    ensures IsText(json, d)
  {
    hide Written;
  }

  /** json_parse_ex accepts exactly the texts of documents whose counts do not pass uint_max. */
  lemma AcceptedIffText(comments: bool, json: string)
    ensures FirstPass(comments, json).Accept?
            <==> exists d :: ValidDocument(comments, d) && Fits(d.value) && IsText(json, d)
  {
    hide Fits, IsText, ValidDocument;
    if FirstPass(comments, json).Accept? {
      var d := FindDocument(comments, json);
    }
    forall d | ValidDocument(comments, d) && Fits(d.value) && IsText(json, d)
      ensures FirstPass(comments, json).Accept?
    {
      TextIsRead(comments, json, d);
    }
  }

  /** Every text of the grammar is accepted, and means what it says. */
  lemma GrammarIsAccepted(comments: bool, d: Document)
    requires F.ValidGap(false, d.before) && F.Strict(d.value) && F.ValidGap(false, d.after) && d.last.None?
    requires Fits(d.value)
    ensures var o := FirstPass(comments, Written(d));
            && o.Accept? && SecondPass(comments, Written(d), o.s.nodes).Accept?
            && Is(SecondPass(comments, Written(d), o.s.nodes).s.nodes, 0, Meaning(d.value))
  {
    hide Fits, F.Strict, F.Valid, F.ValidGap, F.Apart, Is, Meaning, FirstPass, SecondPass, Written;
    F.BlanksAreValid(comments, d.before);
    F.BlanksAreValid(comments, d.after);
    F.StrictIsValid(comments, d.value);
    ParsingGivesMeaning(comments, Written(d), d);
  }

  /** But not only those: a minus without digits is accepted, too, which no text of the grammar is. */
  lemma MinusIsAccepted(comments: bool)
    ensures FirstPass(comments, "-").Accept?
    ensures forall d: Document :: F.ValidGap(false, d.before) && F.Strict(d.value) ==> Written(d) != "-"
  {
    var d := Document([], F.Whole(true, ""), [], None);
    assert Written(d) == "-";
    hide FirstPass, Written;
    TextIsRead(comments, "-", d);
    forall d: Document | F.ValidGap(false, d.before) && F.Strict(d.value) ensures Written(d) != "-" {
      MinusIsNotStrict(d);
    }
  }

  lemma MinusIsNotStrict(d: Document)
    requires F.ValidGap(false, d.before) && F.Strict(d.value)
    ensures Written(d) != "-"
  {
    hide F.StrictItems, F.StrictMembers, F.PrintItems, F.PrintMembers, F.AllDigits, F.StrictText, F.PrintText;
    var t := F.Print(d.value);
    StrictPrint(d.value);
    if d.before != [] {
      assert F.IsBlank(Written(d)[0]) by {
        assert F.ValidSpace(false, d.before[0]);
        assert F.PrintGap(d.before)[0] == F.PrintSpace(d.before[0])[0];
      }
    } else {
      assert Written(d)[..|t|] == t;
    }
  }

  lemma StrictPrint(w: F.Form)
    requires F.Strict(w)
    ensures |F.Print(w)| > 0 && (F.Print(w)[0] == '-' ==> |F.Print(w)| > 1)
  {
    hide F.StrictItems, F.StrictMembers, F.PrintItems, F.PrintMembers, F.StrictText, F.PrintText;
    if F.IsNumeral(w) {
      DecimalIs(w.digits[0]);
    }
  }

  /** The parser itself: which inputs it accepts, and what it makes of them. */
  method ParseText(comments: bool, json: string) returns (parser: Parser, v: Verdict)
    ensures v == Finished
            <==> exists d :: ValidDocument(comments, d) && Fits(d.value) && IsText(AfterBom(json), d)
    ensures fresh(parser)
    ensures v == Finished ==>
              forall d | ValidDocument(comments, d) && Fits(d.value) && IsText(AfterBom(json), d) ::
                Is(parser.nodes, 0, Meaning(d.value))
  {
    hide FirstPass, SecondPass, Is, Meaning, Fits, ValidDocument, IsText, IsTree;
    AcceptedIffText(comments, AfterBom(json));
    parser := new Parser(comments);
    v := parser.Parse(json);
    forall d | v == Finished && ValidDocument(comments, d) && Fits(d.value) && IsText(AfterBom(json), d)
      ensures Is(parser.nodes, 0, Meaning(d.value))
    {
      ParsingGivesMeaning(comments, AfterBom(json), d);
    }
  }
}
