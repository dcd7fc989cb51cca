/**
  Every value that the grammar of JSON allows is read, in either pass, by the machine: it ends behind
  the value, and the nodes it leaves are the nodes of that value.
 */
module JsonValues {
  import opened Optional
  import opened JsonMachine
  import opened JsonInvariant
  import opened JsonReading
  import opened JsonShapes
  import opened JsonNumbers
  import F = JsonForms

  // ---------------------------------------------------------------- strings

  lemma QuoteOpens(first: bool, comments: bool, json: string, v: View)
    requires v.f == READY && v.pos < |json| && json[v.pos] == '"'
    ensures Decide(first, comments, json, v) == Go(INSIDE, v.num, v.pos + 1, New(Str))
  {
  }

  lemma QuoteCloses(first: bool, comments: bool, json: string, v: View)
    requires v.f == INSIDE && v.top == Some(Str) && v.strLen <= UINT_LIMIT && v.pos < |json| && json[v.pos] == '"'
    ensures Decide(first, comments, json, v) == Go(NextFlags(CLEAR, v.parent), v.num, v.pos + 1, CloseText)
  {
  }

  lemma QuotedParts(json: string, p: nat, gs: seq<F.Glyph>)
    requires Here(json, p, F.Quoted(gs))
    ensures var q := p + 1 + |F.PrintText(gs)|;
            p < q < |json| && json[p] == '"' && Here(json, p + 1, F.PrintText(gs)) && json[q] == '"'
  {
    hide Here, F.PrintText;
    var t := F.PrintText(gs);
    assert F.Quoted(gs) == "\"" + (t + "\"");
    HereFirst(json, p, F.Quoted(gs));
    HereParts(json, p, "\"", t + "\"");
    HereParts(json, p + 1, t, "\"");
    HereFirst(json, p + 1 + |t|, "\"");
  }

  /** A string node as new_value hands it out, and with some text. */
  function Reader(first: bool, parent: Option<nat>, total: nat, bytes: string): Node {
    if first then Fresh(Str, parent) else Fresh(Str, parent).(cap := total + 1, mem := bytes)
  }

  lemma BeginText(first: bool, comments: bool, json: string, s: State, w: F.Form, done: seq<Node>, raw: seq<Node>)
    returns (s1: State)
    requires Starts(first, comments, json, s, w, done, raw) && w.Text?
    ensures Leads(first, comments, json, s, s1) && s1.pos == s.pos + 1 && Within(s1, |done|) && s1.strLen == 0
    ensures s1.visited == |done| + 1
    ensures s1.nodes == done + [Reader(first, s.top, |F.Says(w.glyphs)|, "")] + raw
  {
    hide Decide, WF, Run, Here, NewValue, Finish, Stops, CanTake, F.Says, F.PrintText;
    QuotedParts(json, s.pos, w.glyphs);
    QuoteOpens(first, comments, json, ViewOf(s));
    var n := TextNode(true, s.top, F.Says(w.glyphs));
    var ahead := Ahead(first, [n]) + raw;
    assert s.nodes == done + ahead;
    var moved := s.(f := INSIDE, pos := s.pos + 1, strLen := 0);
    var r := Reader(first, s.top, |F.Says(w.glyphs)|, "");
    NewNode(first, moved, Str, s.pos, done, ahead, r);
    s1 := NewValue(first, moved, Str, s.pos).s;
    assert s1.nodes == done + [r] + raw;
    OneStep(first, comments, json, s, s1);
  }

  lemma EndText(first: bool, comments: bool, json: string, s: State, top: Option<nat>, done: seq<Node>, raw: seq<Node>,
                  bytes: string)
    returns (s1: State)
    requires Live(first, comments, json, s) && s.f == INSIDE && s.top == Some(|done|) && CanTake(first, done, top)
    requires s.strLen == |bytes| <= UINT_LIMIT && s.pos < |json| && json[s.pos] == '"'
    requires s.nodes == done + [Reader(first, top, |bytes|, bytes)] + raw
    ensures Leads(first, comments, json, s, s1) && s1.pos == s.pos + 1 && s1.f == NextFlags(CLEAR, KindAt(done, top))
    ensures s1.top == (if top.None? then Some(|done|) else top) && s1.visited == s.visited
    ensures s1.nodes == Grown(first, done, top, |done|) + [TextNode(first, top, bytes)] + raw
  {
    hide Decide, WF, Run, Finish, Grown;
    assert s.nodes[|done|] == Reader(first, top, |bytes|, bytes);
    assert KindAt(s.nodes, top) == KindAt(done, top);
    QuoteCloses(first, comments, json, ViewOf(s));
    var n := TextNode(first, top, bytes);
    assert CloseTextOf(s.nodes[|done|], first, s.strLen) == Some(n);
    var c := s.(f := NextFlags(CLEAR, KindAt(done, top)), pos := s.pos + 1, nodes := s.nodes[|done| := n]);
    assert c.nodes == done + [n] + raw;
    HangUp(first, c, done, [n], raw, top);
    s1 := Finish(first, c).s;
    OneStep(first, comments, json, s, s1);
  }

  lemma ReadQuoted(first: bool, comments: bool, json: string, s: State, w: F.Form, done: seq<Node>, raw: seq<Node>)
    returns (s1: State)
    requires Starts(first, comments, json, s, w, done, raw) && w.Text?
    ensures Arrives(first, comments, json, s, s1, w, done, raw)
  {
    hide Decide, WF, Run, Here, Stops, F.Says, F.PrintText, Grown, CanTake;
    QuotedParts(json, s.pos, w.glyphs);
    var t, bytes, text := |done|, F.Says(w.glyphs), F.PrintText(w.glyphs);
    var a := BeginText(first, comments, json, s, w, done, raw);
    assert a.nodes[t] == Reader(first, s.top, |bytes|, "");
    ReadText(first, comments, json, a, t, w.glyphs);
    var b := Took(first, a, t, |text|, bytes);
    assert "" + bytes == bytes;
    assert b.nodes == done + [Reader(first, s.top, |bytes|, bytes)] + raw;
    s1 := EndText(first, comments, json, b, s.top, done, raw, bytes);
  }

  // ---------------------------------------------------------------- arrays

  lemma BracketOpens(first: bool, comments: bool, json: string, v: View)
    requires v.f == READY && v.pos < |json| && json[v.pos] == '['
    ensures Decide(first, comments, json, v) == Go(READY, v.num, v.pos + 1, New(Array))
  {
  }

  lemma BracketCloses(first: bool, comments: bool, json: string, v: View)
    requires (v.f == READY || v.f == READY.(needComma := true)) && v.top == Some(Array)
    requires v.pos < |json| && json[v.pos] == ']'
    ensures Decide(first, comments, json, v) == Go(NextFlags(CLEAR, v.parent), v.num, v.pos + 1, Close)
  {
  }

  lemma CommaPasses(first: bool, comments: bool, json: string, v: View)
    requires v.f == READY.(needComma := true) && v.pos < |json| && json[v.pos] == ','
    ensures Decide(first, comments, json, v) == Go(READY, v.num, v.pos + 1, Skip)
  {
  }

  /** The container node of a value w, with nothing in it yet. */
  lemma BeginContainer(first: bool, s: State, kind: Kind, at: nat, done: seq<Node>, made: seq<Node>, raw: seq<Node>, n: Node)
    requires s.visited == |done| && (first ==> raw == []) && made != []
    requires s.nodes == done + Ahead(first, made) + raw && made[0].parent == s.top
    requires if first then n == Fresh(kind, s.top) else made[0].kind == kind && n == Allocate(made[0])
    ensures NewValue(first, s, kind, at).More?
    ensures var s1 := NewValue(first, s, kind, at).s;
            && s1.f == s.f && s1.pos == s.pos && s1.top == Some(|done|) && s1.visited == |done| + 1
            && s1.nodes == done + [n] + Ahead(first, made[1..]) + raw
  {
    var ahead := Ahead(first, made) + raw;
    assert s.nodes == done + ahead;
    NewNode(first, s, kind, at, done, ahead, n);
    if !first {
      assert ahead[1..] == made[1..] + raw;
      assert done + [n] + (made[1..] + raw) == done + [n] + made[1..] + raw;
    }
  }

  lemma BeginList(first: bool, comments: bool, json: string, s: State, w: F.Form, done: seq<Node>, raw: seq<Node>)
    returns (s1: State)
    requires Starts(first, comments, json, s, w, done, raw) && w.List? && s.pos < |json| && json[s.pos] == '['
    ensures Leads(first, comments, json, s, s1) && s1.pos == s.pos + 1 && s1.f == READY
    ensures s1.top == Some(|done|) && s1.visited == |done| + 1
    ensures s1.nodes == done + [ListNode(first, s.top, F.ItemCount(w.items), [])]
                        + Ahead(first, MadeItems(true, w.items, |done|, |done| + 1)) + raw
  {
    hide Decide, WF, Run, Here, NewValue, Finish, Stops, CanTake, MadeItems, F.ItemCount, ItemSlots, F.Print, Fits;
    BracketOpens(first, comments, json, ViewOf(s));
    var made := Made(true, w, s.top, |done|);
    var n := ListNode(first, s.top, F.ItemCount(w.items), []);
    var moved := s.(f := READY, pos := s.pos + 1);
    assert made[1..] == MadeItems(true, w.items, |done|, |done| + 1);
    BeginContainer(first, moved, Array, s.pos, done, made, raw, n);
    s1 := NewValue(first, moved, Array, s.pos).s;
    OneStep(first, comments, json, s, s1);
  }

  /** The bracket that closes an array whose nodes are complete. */
  lemma EndList(first: bool, comments: bool, json: string, s: State, w: F.Form, top: Option<nat>, done: seq<Node>, raw: seq<Node>)
    returns (s1: State)
    requires Live(first, comments, json, s) && w.List? && CanTake(first, done, top)
    requires (s.f == READY || s.f == READY.(needComma := true)) && s.pos < |json| && json[s.pos] == ']'
    requires s.top == Some(|done|) && s.nodes == done + Made(first, w, top, |done|) + raw
    ensures Leads(first, comments, json, s, s1) && s1.pos == s.pos + 1 && s1.f == NextFlags(CLEAR, KindAt(done, top))
    ensures s1.top == (if top.None? then Some(|done|) else top) && s1.visited == s.visited
    ensures s1.nodes == Grown(first, done, top, |done|) + Made(first, w, top, |done|) + raw
  {
    hide Decide, WF, Run, Finish, Grown, MadeItems, F.ItemCount, ItemSlots;
    var made := Made(first, w, top, |done|);
    assert s.nodes[|done|] == made[0];
    assert KindAt(s.nodes, top) == KindAt(done, top);
    BracketCloses(first, comments, json, ViewOf(s));
    var c := s.(f := NextFlags(CLEAR, KindAt(done, top)), pos := s.pos + 1);
    HangUp(first, c, done, made, raw, top);
    s1 := Finish(first, c).s;
    OneStep(first, comments, json, s, s1);
  }

  /** A gap that begins with a blank, or something that is not part of a number. */
  lemma GapStops(comments: bool, json: string, p: nat, gap: seq<F.Space>)
    requires Here(json, p, F.PrintGap(gap)) && F.ValidGap(comments, gap) && F.Apart(gap) && (gap == [] ==> Stops(json, p))
    ensures Stops(json, p)
  {
    if gap != [] {
      HereFirst(json, p, F.PrintGap(gap));
    }
  }

  /** Within array node b: `slots` items have been read, their nodes are `kids`. */
  ghost predicate InList(first: bool, s: State, b: nat, pre: seq<Node>, p: Option<nat>, total: nat, slots: seq<nat>,
                         kids: seq<Node>, ahead: seq<Node>)
  {
    && s.top == Some(b) && b == |pre| && s.visited == b + 1 + |kids|
    && s.nodes == pre + [ListNode(first, p, total, slots)] + kids + ahead
  }

  lemma GrownInList(first: bool, b: nat, pre: seq<Node>, p: Option<nat>, total: nat, slots: seq<nat>, kids: seq<Node>)
    requires b == |pre| && |slots| < total <= UINT_LIMIT
    ensures var done := pre + [ListNode(first, p, total, slots)] + kids;
            && CanTake(first, done, Some(b)) && KindAt(done, Some(b)) == Some(Array)
            && Grown(first, done, Some(b), |done|) == pre + [ListNode(first, p, total, slots + [|done|])] + kids
  {
    var done := pre + [ListNode(first, p, total, slots)] + kids;
    assert done[b] == ListNode(first, p, total, slots);
    assert Added(first, done[b], |done|) == ListNode(first, p, total, slots + [|done|]);
  }

  function ItemTail(items: F.Items): string
    requires items.Item?
  {
    if items.rest.NoItems? then "" else "," + F.PrintItems(items.rest)
  }

  lemma PrintedItem(items: F.Items)
    requires items.Item?
    ensures F.PrintItems(items)
            == F.PrintGap(items.before) + (F.Print(items.value) + (F.PrintGap(items.after) + ItemTail(items)))
  {
    hide F.Print, F.PrintGap;
    FourParts(F.PrintGap(items.before), F.Print(items.value), F.PrintGap(items.after), ItemTail(items));
  }

  lemma FourParts(a: string, b: string, c: string, d: string)
    ensures a + b + c + d == a + (b + (c + d))
  {
  }

  /** The text of an item, and what follows it. */
  lemma ItemParts(comments: bool, json: string, p: nat, items: F.Items)
    requires items.Item? && F.ValidItems(comments, items) && Here(json, p, F.PrintItems(items))
    requires Stops(json, p + |F.PrintItems(items)|)
    ensures var a, c := F.PrintGap(items.before), F.PrintGap(items.after);
            var q := p + |a|;
            var r := q + |F.Print(items.value)| + |c|;
            && Here(json, p, a) && Here(json, q, F.Print(items.value)) && Here(json, r - |c|, c)
            && (F.IsNumeral(items.value) ==> Stops(json, r - |c|))
            && (if items.rest.NoItems? then r == p + |F.PrintItems(items)|
                else && r < |json| && json[r] == ',' && Here(json, r + 1, F.PrintItems(items.rest))
                     && r + 1 + |F.PrintItems(items.rest)| == p + |F.PrintItems(items)|)
  {
    hide Here, F.Print, F.PrintItems, Stops, F.Valid, F.PrintGap, F.ValidGap, F.Apart;
    PrintedItem(items);
    var a, text, c := F.PrintGap(items.before), F.Print(items.value), F.PrintGap(items.after);
    var tail := ItemTail(items);
    HereParts(json, p, a, text + (c + tail));
    HereParts(json, p + |a|, text, c + tail);
    HereParts(json, p + |a| + |text|, c, tail);
    var r := p + |a| + |text| + |c|;
    if !items.rest.NoItems? {
      HereParts(json, r, ",", F.PrintItems(items.rest));
      HereFirst(json, r, ",");
      CommaStops(json, r);
    }
    NoGap();
    if F.IsNumeral(items.value) {
      GapStops(comments, json, r - |c|, items.after);
    }
  }

  lemma NothingPrinted()
    ensures F.PrintItems(F.NoItems) == "" && F.PrintMembers(F.NoMembers) == ""
  {
  }

  lemma NoGap()
    ensures F.PrintGap([]) == ""
  {
  }

  lemma CommaStops(json: string, p: nat)
    requires p < |json| && json[p] == ','
    ensures Stops(json, p)
  {
  }

  /** One item more has been read. */
  lemma NextInList(first: bool, s1: State, b: nat, pre: seq<Node>, p: Option<nat>, total: nat, slots: seq<nat>,
                   kids: seq<Node>, made: seq<Node>, ahead: seq<Node>)
    requires |slots| < total <= UINT_LIMIT && b == |pre| && s1.top == Some(b) && s1.visited == b + 1 + |kids| + |made|
    requires var done := pre + [ListNode(first, p, total, slots)] + kids;
             CanTake(first, done, Some(b)) && s1.nodes == Grown(first, done, Some(b), |done|) + made + ahead
    ensures InList(first, s1, b, pre, p, total, slots + [b + 1 + |kids|], kids + made, ahead)
  {
    GrownInList(first, b, pre, p, total, slots, kids);
    var x := [ListNode(first, p, total, slots + [b + 1 + |kids|])];
    assert pre + x + kids + made + ahead == pre + x + (kids + made) + ahead;
  }

  /** The nodes of some items are those of the first and those of the rest. */
  lemma ItemsUnfold(first: bool, items: F.Items, b: nat, c: nat, slots: seq<nat>, kids: seq<Node>, raw: seq<Node>)
    requires items.Item?
    ensures var w, d := items.value, c + SizeOf(items.value);
            && slots + ItemSlots(items, c) == slots + [c] + ItemSlots(items.rest, d)
            && kids + MadeItems(first, items, b, c) == kids + Made(first, w, Some(b), c) + MadeItems(first, items.rest, b, d)
            && Ahead(first, MadeItems(true, items, b, c)) + raw
               == Ahead(first, Made(true, w, Some(b), c)) + (Ahead(first, MadeItems(true, items.rest, b, d)) + raw)
  {
    hide Made, F.Valid;
  }

  /** One item, with the blanks around it. */
  lemma ReadItem(first: bool, comments: bool, json: string, s: State, items: F.Items, b: nat,
                 pre: seq<Node>, p: Option<nat>, total: nat, slots: seq<nat>, kids: seq<Node>, ahead: seq<Node>)
    returns (s1: State)
    requires Live(first, comments, json, s) && s.f == READY && (first ==> ahead == [])
    requires items.Item? && F.ValidItems(comments, items) && FitItems(items) && |slots| < total <= UINT_LIMIT
    requires InList(first, s, b, pre, p, total, slots, kids,
                    Ahead(first, Made(true, items.value, Some(b), b + 1 + |kids|)) + ahead)
    requires Here(json, s.pos, F.PrintItems(items)) && Stops(json, s.pos + |F.PrintItems(items)|)
    ensures Leads(first, comments, json, s, s1)
    ensures s1.f == READY.(needComma := true)
    ensures s1.pos == s.pos + |F.PrintGap(items.before)| + |F.Print(items.value)| + |F.PrintGap(items.after)|
    ensures InList(first, s1, b, pre, p, total, slots + [b + 1 + |kids|],
                   kids + Made(first, items.value, Some(b), b + 1 + |kids|), ahead)
    decreases items, 0
  {
    hide WF, Run, Decide, Here, Stops, F.Print, F.PrintItems, Made, Fits, F.Valid, ListNode, CanTake, Grown, MadeItems;
    ItemParts(comments, json, s.pos, items);
    var w, c := items.value, b + 1 + |kids|;
    SkipGap(first, comments, json, s, items.before);
    var s0 := s.(pos := s.pos + |F.PrintGap(items.before)|);
    var done := pre + [ListNode(first, p, total, slots)] + kids;
    GrownInList(first, b, pre, p, total, slots, kids);
    assert s0.nodes == done + Ahead(first, Made(true, w, Some(b), c)) + ahead;
    var s2 := ReadValue(first, comments, json, s0, w, done, ahead);
    NextInList(first, s2, b, pre, p, total, slots, kids, Made(first, w, Some(b), c), ahead);
    SkipGap(first, comments, json, s2, items.after);
    s1 := s2.(pos := s2.pos + |F.PrintGap(items.after)|);
  }

  lemma {:induction false} ReadItems(first: bool, comments: bool, json: string, s: State, items: F.Items, b: nat,
                                     pre: seq<Node>, p: Option<nat>, total: nat, slots: seq<nat>, kids: seq<Node>,
                                     raw: seq<Node>)
    returns (s1: State)
    requires Live(first, comments, json, s) && s.f == READY && (first ==> raw == []) && !items.NoItems?
    requires F.ValidItems(comments, items) && FitItems(items) && |slots| + F.ItemCount(items) <= total <= UINT_LIMIT
    requires InList(first, s, b, pre, p, total, slots, kids,
                    Ahead(first, MadeItems(true, items, b, b + 1 + |kids|)) + raw)
    requires Here(json, s.pos, F.PrintItems(items)) && Stops(json, s.pos + |F.PrintItems(items)|)
    ensures Leads(first, comments, json, s, s1) && (s1.f == READY || s1.f == READY.(needComma := true))
    ensures s1.pos == s.pos + |F.PrintItems(items)|
    ensures InList(first, s1, b, pre, p, total, slots + ItemSlots(items, b + 1 + |kids|),
                   kids + MadeItems(first, items, b, b + 1 + |kids|), raw)
    decreases items, 1
  {
    hide Live, Run, Here, Stops, F.Print, F.PrintItems, Made, Fits, F.Valid, MadeItems, ItemSlots, ListNode, F.ValidGap,
      F.PrintGap, F.Apart;
    if items.ItemGap? {
      s1 := ReadItemGap(first, comments, json, s, items, b, pre, p, total, slots, kids, raw);
    } else {
      var c, d := b + 1 + |kids|, b + 1 + |kids| + SizeOf(items.value);
      var ahead := Ahead(first, MadeItems(true, items.rest, b, d)) + raw;
      ItemsUnfold(first, items, b, c, slots, kids, raw);
      ItemParts(comments, json, s.pos, items);
      var s2 := ReadItem(first, comments, json, s, items, b, pre, p, total, slots, kids, ahead);
      var made := Made(first, items.value, Some(b), c);
      if items.rest.NoItems? {
        NoItemsLeft(first, items.rest, b, d, slots + [c], kids + made, raw);
        s1 := s2;
      } else {
        PassComma(first, comments, json, s2);
        s1 := ReadItems(first, comments, json, s2.(f := READY, pos := s2.pos + 1), items.rest, b, pre, p, total,
                        slots + [c], kids + made, raw);
      }
    }
  }

  lemma ReadItemGap(first: bool, comments: bool, json: string, s: State, items: F.Items, b: nat, pre: seq<Node>,
                    p: Option<nat>, total: nat, slots: seq<nat>, kids: seq<Node>, raw: seq<Node>)
    returns (s1: State)
    requires Live(first, comments, json, s) && s.f == READY && items.ItemGap? && F.ValidItems(comments, items)
    requires InList(first, s, b, pre, p, total, slots, kids,
                    Ahead(first, MadeItems(true, items, b, b + 1 + |kids|)) + raw)
    requires Here(json, s.pos, F.PrintItems(items))
    ensures Leads(first, comments, json, s, s1) && s1.f == READY && s1.pos == s.pos + |F.PrintItems(items)|
    ensures InList(first, s1, b, pre, p, total, slots + ItemSlots(items, b + 1 + |kids|),
                   kids + MadeItems(first, items, b, b + 1 + |kids|), raw)
  {
    hide WF, Run, Here, MadeItems, ItemSlots, ListNode, F.ValidGap, F.PrintGap;
    NoItemsLeft(first, items, b, b + 1 + |kids|, slots, kids, raw);
    SkipGap(first, comments, json, s, items.gap);
    s1 := s.(pos := s.pos + |F.PrintGap(items.gap)|);
  }

  lemma NoItemsLeft(first: bool, items: F.Items, b: nat, c: nat, slots: seq<nat>, kids: seq<Node>, raw: seq<Node>)
    requires !items.Item?
    ensures slots + ItemSlots(items, c) == slots && kids + MadeItems(first, items, b, c) == kids
    ensures Ahead(first, MadeItems(true, items, b, c)) + raw == raw
  {
  }

  lemma PassComma(first: bool, comments: bool, json: string, s: State)
    requires Live(first, comments, json, s) && s.f == READY.(needComma := true) && s.pos < |json| && json[s.pos] == ','
    ensures Leads(first, comments, json, s, s.(f := READY, pos := s.pos + 1))
  {
    hide Decide, WF, Run;
    CommaPasses(first, comments, json, ViewOf(s));
    OneStep(first, comments, json, s, s.(f := READY, pos := s.pos + 1));
  }

  lemma ClosingStops(json: string, p: nat)
    requires p < |json| && (json[p] == ']' || json[p] == '}')
    ensures Stops(json, p)
  {
  }

  /** Brackets and what is between them. */
  lemma Bracketed(json: string, p: nat, open: char, body: string, close: char)
    requires Here(json, p, [open] + body + [close])
    ensures var q := p + 1 + |body|;
            p < q < |json| && json[p] == open && Here(json, p + 1, body) && json[q] == close
  {
    hide Here;
    assert [open] + body + [close] == [open] + (body + [close]);
    HereFirst(json, p, [open] + body + [close]);
    HereParts(json, p, [open], body + [close]);
    HereParts(json, p + 1, body, [close]);
    HereFirst(json, p + 1 + |body|, [close]);
  }

  /** What is between the brackets. */
  lemma ReadListBody(first: bool, comments: bool, json: string, a: State, w: F.Form, top: Option<nat>, done: seq<Node>,
                     raw: seq<Node>)
    returns (z: State)
    requires Live(first, comments, json, a) && w.List? && F.Valid(comments, w) && Fits(w)
    requires a.f == READY && (first ==> raw == [])
    requires a.top == Some(|done|) && a.visited == |done| + 1
    requires a.nodes == done + [ListNode(first, top, F.ItemCount(w.items), [])]
                        + Ahead(first, MadeItems(true, w.items, |done|, |done| + 1)) + raw
    requires Here(json, a.pos, F.PrintItems(w.items)) && Stops(json, a.pos + |F.PrintItems(w.items)|)
    ensures Leads(first, comments, json, a, z) && (z.f == READY || z.f == READY.(needComma := true))
    ensures z.pos == a.pos + |F.PrintItems(w.items)|
    ensures InList(first, z, |done|, done, top, F.ItemCount(w.items), [] + ItemSlots(w.items, |done| + 1),
                   [] + MadeItems(first, w.items, |done|, |done| + 1), raw)
    decreases w, 0
  {
    hide WF, Run, Decide, Here, Stops, F.PrintItems, ListNode, MadeItems, ItemSlots;
    var b, total := |done|, F.ItemCount(w.items);
    var ahead := Ahead(first, MadeItems(true, w.items, b, b + 1)) + raw;
    assert a.nodes == done + [ListNode(first, top, total, [])] + [] + ahead;
    if w.items.NoItems? {
      z := a;
      assert F.PrintItems(F.NoItems) == "" by { NothingPrinted(); }
      NoItemsLeft(first, w.items, b, b + 1, [], [], raw);
    } else {
      z := ReadItems(first, comments, json, a, w.items, b, done, top, total, [], [], raw);
    }
  }

  lemma ReadList(first: bool, comments: bool, json: string, s: State, w: F.Form, done: seq<Node>, raw: seq<Node>)
    returns (s1: State)
    requires Starts(first, comments, json, s, w, done, raw) && w.List?
    ensures Arrives(first, comments, json, s, s1, w, done, raw)
    decreases w, 1
  {
    hide WF, Run, Decide, Here, Stops, F.PrintItems, Grown, CanTake, ListNode, MadeItems, ItemSlots, F.ItemCount;
    var body := F.PrintItems(w.items);
    assert F.Print(w) == "[" + body + "]";
    Bracketed(json, s.pos, '[', body, ']');
    ClosingStops(json, s.pos + 1 + |body|);
    var a := BeginList(first, comments, json, s, w, done, raw);
    var z := ReadListBody(first, comments, json, a, w, s.top, done, raw);
    ListIsMade(first, w, s.top, |done|);
    hide Made, SizeOf;
    s1 := EndListAt(first, comments, json, z, w, s.top, done, raw);
  }

  lemma EndListAt(first: bool, comments: bool, json: string, z: State, w: F.Form, top: Option<nat>, done: seq<Node>,
                  raw: seq<Node>)
    returns (s1: State)
    requires Live(first, comments, json, z) && w.List? && CanTake(first, done, top)
    requires (z.f == READY || z.f == READY.(needComma := true)) && z.pos < |json| && json[z.pos] == ']'
    requires InList(first, z, |done|, done, top, F.ItemCount(w.items), [] + ItemSlots(w.items, |done| + 1),
                    [] + MadeItems(first, w.items, |done|, |done| + 1), raw)
    ensures Leads(first, comments, json, z, s1) && s1.pos == z.pos + 1 && s1.f == NextFlags(CLEAR, KindAt(done, top))
    ensures s1.top == (if top.None? then Some(|done|) else top) && s1.visited == |done| + SizeOf(w)
    ensures s1.nodes == Grown(first, done, top, |done|) + Made(first, w, top, |done|) + raw
  {
    hide WF, Run, Decide, Grown, CanTake, ListNode, MadeItems, ItemSlots, F.ItemCount;
    ListIsMade(first, w, top, |done|);
    var n := [ListNode(first, top, F.ItemCount(w.items), [] + ItemSlots(w.items, |done| + 1))];
    var kids := [] + MadeItems(first, w.items, |done|, |done| + 1);
    assert done + n + kids + raw == done + (n + kids) + raw;
    s1 := EndList(first, comments, json, z, w, top, done, raw);
  }

  lemma ListIsMade(first: bool, w: F.Form, top: Option<nat>, b: nat)
    requires w.List?
    ensures Made(first, w, top, b)
            == [ListNode(first, top, F.ItemCount(w.items), [] + ItemSlots(w.items, b + 1))]
               + ([] + MadeItems(first, w.items, b, b + 1))
  {
    hide ListNode, MadeItems, ItemSlots;
    assert [] + ItemSlots(w.items, b + 1) == ItemSlots(w.items, b + 1);
    assert [] + MadeItems(first, w.items, b, b + 1) == MadeItems(first, w.items, b, b + 1);
  }

  // ---------------------------------------------------------------- objects

  lemma BraceOpens(first: bool, comments: bool, json: string, v: View)
    requires v.f == READY && v.pos < |json| && json[v.pos] == '{'
    ensures Decide(first, comments, json, v) == Go(CLEAR, v.num, v.pos + 1, New(Object))
  {
  }

  lemma BraceCloses(first: bool, comments: bool, json: string, v: View)
    requires (v.f == CLEAR || v.f == CLEAR.(needComma := true)) && v.top == Some(Object)
    requires v.pos < |json| && json[v.pos] == '}'
    ensures Decide(first, comments, json, v) == Go(NextFlags(CLEAR, v.parent), v.num, v.pos + 1, Close)
  {
  }

  lemma MemberCommaPasses(first: bool, comments: bool, json: string, v: View)
    requires v.f == CLEAR.(needComma := true) && v.top == Some(Object) && v.pos < |json| && json[v.pos] == ','
    ensures Decide(first, comments, json, v) == Go(CLEAR, v.num, v.pos + 1, Skip)
  {
  }

  const NAMED := READY.(needColon := true)  // behind a name

  lemma ColonPasses(first: bool, comments: bool, json: string, v: View)
    requires v.f == NAMED && v.pos < |json| && json[v.pos] == ':'
    ensures Decide(first, comments, json, v) == Go(READY, v.num, v.pos + 1, Skip)
  {
  }

  lemma NameOpens(first: bool, comments: bool, json: string, v: View)
    requires v.f == CLEAR && v.top == Some(Object) && v.pos < |json| && json[v.pos] == '"'
    ensures Decide(first, comments, json, v) == Go(INSIDE, v.num, v.pos + 1, OpenName)
  {
  }

  lemma NameCloses(first: bool, comments: bool, json: string, v: View)
    requires v.f == INSIDE && v.top == Some(Object) && v.strLen <= UINT_LIMIT && v.pos < |json| && json[v.pos] == '"'
    ensures Decide(first, comments, json, v) == Go(NAMED, v.num, v.pos + 1, CloseName)
  {
  }

  /** What an object node has so far: its children, its names and their bytes. */
  datatype Filled = Filled(slots: seq<nat>, entries: seq<Entry>, mem: string)

  function NodeOf(first: bool, p: Option<nat>, total: nat, room: nat, x: Filled): Node {
    TableNode(first, p, total, room, x.slots, x.entries, x.mem)
  }

  /** Within object node b, which holds x; the nodes of its members so far are `kids`. */
  ghost predicate InTable(first: bool, s: State, b: nat, pre: seq<Node>, p: Option<nat>, total: nat, room: nat, x: Filled,
                          kids: seq<Node>, ahead: seq<Node>)
  {
    && s.top == Some(b) && b == |pre| && s.visited == b + 1 + |kids|
    && s.nodes == pre + [NodeOf(first, p, total, room, x)] + kids + ahead
  }

  lemma TopOfTable(first: bool, s: State, b: nat, pre: seq<Node>, p: Option<nat>, total: nat, room: nat, x: Filled,
                   kids: seq<Node>, ahead: seq<Node>)
    requires InTable(first, s, b, pre, p, total, room, x, kids, ahead)
    ensures b < |s.nodes| && s.nodes[b] == NodeOf(first, p, total, room, x) && KindAt(s.nodes, s.top) == Some(Object)
    ensures forall n :: s.nodes[b := n] == pre + [n] + kids + ahead
  {
  }

  /** A name is read: its bytes are stored, and its entry is made. */
  function WithName(x: Filled, name: string): Filled {
    x.(entries := x.entries + [Entry(|x.mem|, |name|)], mem := x.mem + (name + "\0"))
  }

  lemma OpenQuote(first: bool, comments: bool, json: string, s: State, b: nat)
    requires Live(first, comments, json, s) && s.f == CLEAR && s.top == Some(b) && KindAt(s.nodes, s.top) == Some(Object)
    requires s.pos < |json| && json[s.pos] == '"'
    ensures Leads(first, comments, json, s, s.(f := INSIDE, pos := s.pos + 1, strLen := 0))
  {
    hide Decide, WF, Run;
    NameOpens(first, comments, json, ViewOf(s));
    OneStep(first, comments, json, s, s.(f := INSIDE, pos := s.pos + 1, strLen := 0));
  }

  lemma CloseQuote(first: bool, comments: bool, json: string, s: State, b: nat, n: Node)
    requires Live(first, comments, json, s) && s.f == INSIDE && s.top == Some(b) && KindAt(s.nodes, s.top) == Some(Object)
    requires s.pos < |json| && json[s.pos] == '"' && s.strLen <= UINT_LIMIT && b < |s.nodes|
    requires CloseNameOf(s.nodes[b], first, s.strLen) == Some(n)
    ensures Leads(first, comments, json, s, s.(f := NAMED, pos := s.pos + 1, nodes := s.nodes[b := n]))
  {
    hide Decide, WF, Run, CloseNameOf;
    NameCloses(first, comments, json, ViewOf(s));
    OneStep(first, comments, json, s, s.(f := NAMED, pos := s.pos + 1, nodes := s.nodes[b := n]));
  }

  /** The node of an object within a name of which `name` has been read. */
  function Naming(first: bool, n: Node, name: string): Node { if first then n else n.(mem := n.mem + name) }

  lemma NameIsClosed(first: bool, p: Option<nat>, total: nat, room: nat, x: Filled, name: string)
    requires |x.entries| == |x.slots| < total && |x.mem| + |name| + 1 <= room
    ensures CloseNameOf(Naming(first, NodeOf(first, p, total, room, x), name), first, |name|)
            == Some(NodeOf(first, p, total, room, WithName(x, name)))
  {
    assert x.mem + name + "\0" == x.mem + (name + "\0");
  }

  lemma ReadName(first: bool, comments: bool, json: string, s: State, gs: seq<F.Glyph>, b: nat, pre: seq<Node>,
                 p: Option<nat>, total: nat, room: nat, x: Filled, kids: seq<Node>, ahead: seq<Node>)
    returns (s1: State)
    requires Live(first, comments, json, s) && s.f == CLEAR && F.ValidText(gs) && |F.Says(gs)| <= UINT_LIMIT
    requires InTable(first, s, b, pre, p, total, room, x, kids, ahead)
    requires |x.entries| == |x.slots| < total && |x.mem| + |F.Says(gs)| + 1 <= room
    requires Here(json, s.pos, F.Quoted(gs))
    ensures Leads(first, comments, json, s, s1) && s1.f == NAMED && s1.pos == s.pos + |F.Quoted(gs)|
    ensures InTable(first, s1, b, pre, p, total, room, WithName(x, F.Says(gs)), kids, ahead)
  {
    hide WF, Run, Decide, Here, F.PrintText, F.Says, CloseNameOf, WithName;
    var n, name, text := NodeOf(first, p, total, room, x), F.Says(gs), F.PrintText(gs);
    QuotedParts(json, s.pos, gs);
    TopOfTable(first, s, b, pre, p, total, room, x, kids, ahead);
    OpenQuote(first, comments, json, s, b);
    var a := s.(f := INSIDE, pos := s.pos + 1, strLen := 0);
    ReadText(first, comments, json, a, b, gs);
    var c := Took(first, a, b, |text|, name);
    assert c.nodes[b] == Naming(first, n, name);
    NameIsClosed(first, p, total, room, x, name);
    var m := NodeOf(first, p, total, room, WithName(x, name));
    CloseQuote(first, comments, json, c, b, m);
    s1 := c.(f := NAMED, pos := c.pos + 1, nodes := c.nodes[b := m]);
    assert s1.nodes == s.nodes[b := m];
  }

  function MemberTail(members: F.Members): string
    requires members.Member?
  {
    if members.rest.NoMembers? then "" else "," + F.PrintMembers(members.rest)
  }

  /** A name with what stands before its value. */
  function MemberHead(members: F.Members): string
    requires members.Member?
  {
    F.PrintGap(members.before)
    + (F.Quoted(members.name) + (F.PrintGap(members.beforeColon) + (":" + F.PrintGap(members.afterColon))))
  }

  lemma PrintedMember(members: F.Members)
    requires members.Member?
    ensures F.PrintMembers(members)
            == MemberHead(members) + (F.Print(members.value) + (F.PrintGap(members.after) + MemberTail(members)))
  {
    hide F.Print, F.Quoted, F.PrintGap;
    var a, n := F.PrintGap(members.before), F.Quoted(members.name);
    var b, c := F.PrintGap(members.beforeColon), F.PrintGap(members.afterColon);
    assert a + n + b + ":" + c == a + (n + (b + (":" + c)));
    FourParts(a + n + b + ":" + c, F.Print(members.value), F.PrintGap(members.after), MemberTail(members));
  }

  /** The text of a member, and what follows it. */
  lemma MemberParts(comments: bool, json: string, p: nat, members: F.Members)
    requires members.Member? && F.ValidMembers(comments, members) && Here(json, p, F.PrintMembers(members))
    requires Stops(json, p + |F.PrintMembers(members)|)
    ensures var c := F.PrintGap(members.after);
            var q := p + |MemberHead(members)|;
            var r := q + |F.Print(members.value)| + |c|;
            && Here(json, p, MemberHead(members)) && Here(json, q, F.Print(members.value)) && Here(json, r - |c|, c)
            && (F.IsNumeral(members.value) ==> Stops(json, r - |c|))
            && (if members.rest.NoMembers? then r == p + |F.PrintMembers(members)|
                else && r < |json| && json[r] == ',' && Here(json, r + 1, F.PrintMembers(members.rest))
                     && r + 1 + |F.PrintMembers(members.rest)| == p + |F.PrintMembers(members)|)
  {
    hide Here, F.Print, F.PrintMembers, Stops, F.Valid, MemberHead, F.PrintGap, F.ValidGap, F.Apart, F.ValidText;
    PrintedMember(members);
    var a, text, c := MemberHead(members), F.Print(members.value), F.PrintGap(members.after);
    var tail := MemberTail(members);
    HereParts(json, p, a, text + (c + tail));
    HereParts(json, p + |a|, text, c + tail);
    HereParts(json, p + |a| + |text|, c, tail);
    var r := p + |a| + |text| + |c|;
    if !members.rest.NoMembers? {
      HereParts(json, r, ",", F.PrintMembers(members.rest));
      HereFirst(json, r, ",");
      CommaStops(json, r);
    }
    NoGap();
    if F.IsNumeral(members.value) {
      GapStops(comments, json, r - |c|, members.after);
    }
  }

  lemma HeadParts(json: string, p: nat, members: F.Members)
    requires members.Member? && Here(json, p, MemberHead(members))
    ensures var a, b, c := F.PrintGap(members.before), F.PrintGap(members.beforeColon), F.PrintGap(members.afterColon);
            var q := p + |a|;
            var r := q + |F.Quoted(members.name)| + |b|;
            && Here(json, p, a) && Here(json, q, F.Quoted(members.name)) && Here(json, r - |b|, b)
            && r < |json| && json[r] == ':' && Here(json, r + 1, c) && r + 1 + |c| == p + |MemberHead(members)|
  {
    hide Here, F.Quoted, F.PrintGap;
    var a, n := F.PrintGap(members.before), F.Quoted(members.name);
    var b, c := F.PrintGap(members.beforeColon), F.PrintGap(members.afterColon);
    HereParts(json, p, a, n + (b + (":" + c)));
    HereParts(json, p + |a|, n, b + (":" + c));
    HereParts(json, p + |a| + |n|, b, ":" + c);
    HereParts(json, p + |a| + |n| + |b|, ":", c);
    HereFirst(json, p + |a| + |n| + |b|, ":");
  }

  lemma PassColon(first: bool, comments: bool, json: string, s: State)
    requires Live(first, comments, json, s) && s.f == NAMED && s.pos < |json| && json[s.pos] == ':'
    ensures Leads(first, comments, json, s, s.(f := READY, pos := s.pos + 1))
  {
    hide Decide, WF, Run;
    ColonPasses(first, comments, json, ViewOf(s));
    OneStep(first, comments, json, s, s.(f := READY, pos := s.pos + 1));
  }

  lemma PassMemberComma(first: bool, comments: bool, json: string, s: State)
    requires Live(first, comments, json, s) && s.f == CLEAR.(needComma := true)
    requires KindAt(s.nodes, s.top) == Some(Object) && s.pos < |json| && json[s.pos] == ','
    ensures Leads(first, comments, json, s, s.(f := CLEAR, pos := s.pos + 1))
  {
    hide Decide, WF, Run;
    MemberCommaPasses(first, comments, json, ViewOf(s));
    OneStep(first, comments, json, s, s.(f := CLEAR, pos := s.pos + 1));
  }

  /** From the place before a name to the place of its value. */
  lemma ReadHead(first: bool, comments: bool, json: string, s: State, members: F.Members, b: nat, pre: seq<Node>,
                 p: Option<nat>, total: nat, room: nat, x: Filled, kids: seq<Node>, ahead: seq<Node>)
    returns (s1: State)
    requires Live(first, comments, json, s) && s.f == CLEAR && members.Member? && F.ValidMembers(comments, members)
    requires |F.Says(members.name)| <= UINT_LIMIT
    requires InTable(first, s, b, pre, p, total, room, x, kids, ahead)
    requires |x.entries| == |x.slots| < total && |x.mem| + |F.Says(members.name)| + 1 <= room
    requires Here(json, s.pos, MemberHead(members))
    ensures Leads(first, comments, json, s, s1) && s1.f == READY && s1.pos == s.pos + |MemberHead(members)|
    ensures InTable(first, s1, b, pre, p, total, room, WithName(x, F.Says(members.name)), kids, ahead)
  {
    hide WF, Run, Decide, Here, F.Says, F.Quoted, F.Valid, WithName, NodeOf, MemberHead;
    HeadParts(json, s.pos, members);
    TopOfTable(first, s, b, pre, p, total, room, x, kids, ahead);
    SkipGap(first, comments, json, s, members.before);
    var a := s.(pos := s.pos + |F.PrintGap(members.before)|);
    var c := ReadName(first, comments, json, a, members.name, b, pre, p, total, room, x, kids, ahead);
    SkipGap(first, comments, json, c, members.beforeColon);
    var d := c.(pos := c.pos + |F.PrintGap(members.beforeColon)|);
    PassColon(first, comments, json, d);
    var e := d.(f := READY, pos := d.pos + 1);
    SkipGap(first, comments, json, e, members.afterColon);
    s1 := e.(pos := e.pos + |F.PrintGap(members.afterColon)|);
  }

  function WithChild(x: Filled, c: nat): Filled { x.(slots := x.slots + [c]) }

  lemma GrownInTable(first: bool, b: nat, pre: seq<Node>, p: Option<nat>, total: nat, room: nat, x: Filled, kids: seq<Node>)
    requires b == |pre| && |x.slots| < total <= UINT_LIMIT
    ensures var done := pre + [NodeOf(first, p, total, room, x)] + kids;
            && CanTake(first, done, Some(b)) && KindAt(done, Some(b)) == Some(Object)
            && Grown(first, done, Some(b), |done|) == pre + [NodeOf(first, p, total, room, WithChild(x, |done|))] + kids
  {
    var done := pre + [NodeOf(first, p, total, room, x)] + kids;
    assert done[b] == NodeOf(first, p, total, room, x);
    assert Added(first, done[b], |done|) == NodeOf(first, p, total, room, WithChild(x, |done|));
  }

  lemma NextInTable(first: bool, s1: State, b: nat, pre: seq<Node>, p: Option<nat>, total: nat, room: nat, x: Filled,
                    kids: seq<Node>, made: seq<Node>, ahead: seq<Node>)
    requires |x.slots| < total <= UINT_LIMIT && b == |pre| && s1.top == Some(b) && s1.visited == b + 1 + |kids| + |made|
    requires var done := pre + [NodeOf(first, p, total, room, x)] + kids;
             CanTake(first, done, Some(b)) && s1.nodes == Grown(first, done, Some(b), |done|) + made + ahead
    ensures InTable(first, s1, b, pre, p, total, room, WithChild(x, b + 1 + |kids|), kids + made, ahead)
  {
    GrownInTable(first, b, pre, p, total, room, x, kids);
    var n := [NodeOf(first, p, total, room, WithChild(x, b + 1 + |kids|))];
    assert pre + n + kids + made + ahead == pre + n + (kids + made) + ahead;
  }

  /** What the object holds when a member is read whose value is node c. */
  function WithMember(x: Filled, members: F.Members, c: nat): Filled
    requires members.Member?
  {
    WithChild(WithName(x, F.Says(members.name)), c)
  }

  /** One member, with the blanks around it. */
  lemma ReadMember(first: bool, comments: bool, json: string, s: State, members: F.Members, b: nat, pre: seq<Node>,
                   p: Option<nat>, total: nat, room: nat, x: Filled, kids: seq<Node>, ahead: seq<Node>)
    returns (s1: State)
    requires Live(first, comments, json, s) && s.f == CLEAR && (first ==> ahead == [])
    requires members.Member? && F.ValidMembers(comments, members) && FitMembers(members)
    requires |x.entries| == |x.slots| < total <= UINT_LIMIT && |x.mem| + |F.Says(members.name)| + 1 <= room
    requires InTable(first, s, b, pre, p, total, room, x, kids,
                     Ahead(first, Made(true, members.value, Some(b), b + 1 + |kids|)) + ahead)
    requires Here(json, s.pos, F.PrintMembers(members)) && Stops(json, s.pos + |F.PrintMembers(members)|)
    ensures Leads(first, comments, json, s, s1) && s1.f == CLEAR.(needComma := true)
    ensures s1.pos == s.pos + |MemberHead(members)| + |F.Print(members.value)| + |F.PrintGap(members.after)|
    ensures InTable(first, s1, b, pre, p, total, room, WithMember(x, members, b + 1 + |kids|),
                    kids + Made(first, members.value, Some(b), b + 1 + |kids|), ahead)
    decreases members, 0
  {
    hide WF, Run, Decide, Here, Stops, F.Print, F.PrintMembers, Made, Fits, F.Valid, CanTake, Grown, MadeMembers, NodeOf,
      MemberHead, F.Says;
    MemberParts(comments, json, s.pos, members);
    var w, c := members.value, b + 1 + |kids|;
    var before := Ahead(first, Made(true, w, Some(b), c)) + ahead;
    var a := ReadHead(first, comments, json, s, members, b, pre, p, total, room, x, kids, before);
    var y := WithName(x, F.Says(members.name));
    var done := pre + [NodeOf(first, p, total, room, y)] + kids;
    GrownInTable(first, b, pre, p, total, room, y, kids);
    assert a.nodes == done + Ahead(first, Made(true, w, Some(b), c)) + ahead;
    var d := ReadValue(first, comments, json, a, w, done, ahead);
    NextInTable(first, d, b, pre, p, total, room, y, kids, Made(first, w, Some(b), c), ahead);
    TopOfTable(first, d, b, pre, p, total, room, WithChild(y, c), kids + Made(first, w, Some(b), c), ahead);
    SkipGap(first, comments, json, d, members.after);
    s1 := d.(pos := d.pos + |F.PrintGap(members.after)|);
  }

  function WithMembers(x: Filled, members: F.Members, c: nat): Filled
    decreases members
  {
    if members.Member? then WithMembers(WithMember(x, members, c), members.rest, c + SizeOf(members.value)) else x
  }

  lemma MembersUnfold(first: bool, members: F.Members, b: nat, c: nat, kids: seq<Node>, raw: seq<Node>)
    requires members.Member?
    ensures var w, d := members.value, c + SizeOf(members.value);
            && kids + MadeMembers(first, members, b, c)
               == kids + Made(first, w, Some(b), c) + MadeMembers(first, members.rest, b, d)
            && Ahead(first, MadeMembers(true, members, b, c)) + raw
               == Ahead(first, Made(true, w, Some(b), c)) + (Ahead(first, MadeMembers(true, members.rest, b, d)) + raw)
            && |NameBytes(members)| == |F.Says(members.name)| + 1 + |NameBytes(members.rest)|
  {
    hide Made, F.Valid, F.Says;
  }

  lemma NoMembersLeft(first: bool, members: F.Members, b: nat, c: nat, kids: seq<Node>, raw: seq<Node>)
    requires !members.Member?
    ensures kids + MadeMembers(first, members, b, c) == kids
    ensures Ahead(first, MadeMembers(true, members, b, c)) + raw == raw
  {
  }

  lemma {:induction false} ReadMembers(first: bool, comments: bool, json: string, s: State, members: F.Members, b: nat,
                                       pre: seq<Node>, p: Option<nat>, total: nat, room: nat, x: Filled,
                                       kids: seq<Node>, raw: seq<Node>)
    returns (s1: State)
    requires Live(first, comments, json, s) && s.f == CLEAR && (first ==> raw == []) && !members.NoMembers?
    requires F.ValidMembers(comments, members) && FitMembers(members)
    requires |x.entries| == |x.slots| && |x.slots| + F.MemberCount(members) <= total <= UINT_LIMIT
    requires |x.mem| + |NameBytes(members)| <= room
    requires InTable(first, s, b, pre, p, total, room, x, kids,
                     Ahead(first, MadeMembers(true, members, b, b + 1 + |kids|)) + raw)
    requires Here(json, s.pos, F.PrintMembers(members)) && Stops(json, s.pos + |F.PrintMembers(members)|)
    ensures Leads(first, comments, json, s, s1) && (s1.f == CLEAR || s1.f == CLEAR.(needComma := true))
    ensures s1.pos == s.pos + |F.PrintMembers(members)|
    ensures InTable(first, s1, b, pre, p, total, room, WithMembers(x, members, b + 1 + |kids|),
                    kids + MadeMembers(first, members, b, b + 1 + |kids|), raw)
    decreases members, 1
  {
    hide Live, Run, Here, Stops, F.Print, F.PrintMembers, Made, Fits, F.Valid, MadeMembers, NodeOf, MemberHead, F.Says,
      NameBytes, F.PrintGap, F.ValidGap, F.Apart, F.ValidText;
    if members.MemberGap? {
      s1 := ReadMemberGap(first, comments, json, s, members, b, pre, p, total, room, x, kids, raw);
    } else {
      var c, d := b + 1 + |kids|, b + 1 + |kids| + SizeOf(members.value);
      var ahead := Ahead(first, MadeMembers(true, members.rest, b, d)) + raw;
      MembersUnfold(first, members, b, c, kids, raw);
      MemberParts(comments, json, s.pos, members);
      var s2 := ReadMember(first, comments, json, s, members, b, pre, p, total, room, x, kids, ahead);
      var made, y := Made(first, members.value, Some(b), c), WithMember(x, members, c);
      if members.rest.NoMembers? {
        NoMembersLeft(first, members.rest, b, d, kids + made, raw);
        s1 := s2;
      } else {
        TopOfTable(first, s2, b, pre, p, total, room, y, kids + made, ahead);
        PassMemberComma(first, comments, json, s2);
        s1 := ReadMembers(first, comments, json, s2.(f := CLEAR, pos := s2.pos + 1), members.rest, b, pre, p, total,
                          room, y, kids + made, raw);
      }
    }
  }

  lemma ReadMemberGap(first: bool, comments: bool, json: string, s: State, members: F.Members, b: nat, pre: seq<Node>,
                      p: Option<nat>, total: nat, room: nat, x: Filled, kids: seq<Node>, raw: seq<Node>)
    returns (s1: State)
    requires Live(first, comments, json, s) && s.f == CLEAR && members.MemberGap? && F.ValidMembers(comments, members)
    requires InTable(first, s, b, pre, p, total, room, x, kids,
                     Ahead(first, MadeMembers(true, members, b, b + 1 + |kids|)) + raw)
    requires Here(json, s.pos, F.PrintMembers(members))
    ensures Leads(first, comments, json, s, s1) && s1.f == CLEAR && s1.pos == s.pos + |F.PrintMembers(members)|
    ensures InTable(first, s1, b, pre, p, total, room, WithMembers(x, members, b + 1 + |kids|),
                    kids + MadeMembers(first, members, b, b + 1 + |kids|), raw)
  {
    hide WF, Run, Here, NodeOf, MadeMembers, F.ValidGap, F.PrintGap;
    var ahead := Ahead(first, MadeMembers(true, members, b, b + 1 + |kids|)) + raw;
    TopOfTable(first, s, b, pre, p, total, room, x, kids, ahead);
    NoMembersLeft(first, members, b, b + 1 + |kids|, kids, raw);
    SkipGap(first, comments, json, s, members.gap);
    s1 := s.(pos := s.pos + |F.PrintGap(members.gap)|);
  }

  const EMPTY_TABLE := Filled([], [], "")

  lemma {:induction false} MembersFill(x: Filled, members: F.Members, c: nat)
    ensures WithMembers(x, members, c)
            == Filled(x.slots + MemberSlots(members, c), x.entries + NameEntries(members, |x.mem|),
                      x.mem + NameBytes(members))
    decreases members
  {
    hide F.Says, F.Valid;
    if members.Member? {
      var y, d := WithMember(x, members, c), c + SizeOf(members.value);
      MembersFill(y, members.rest, d);
      assert y.slots + MemberSlots(members.rest, d) == x.slots + MemberSlots(members, c);
      assert y.entries + NameEntries(members.rest, |y.mem|) == x.entries + NameEntries(members, |x.mem|);
      assert y.mem + NameBytes(members.rest) == x.mem + NameBytes(members);
    }
  }

  lemma TableIsMade(first: bool, w: F.Form, top: Option<nat>, b: nat)
    requires w.Table?
    ensures var n := NodeOf(first, top, F.MemberCount(w.members), |NameBytes(w.members)|,
                            WithMembers(EMPTY_TABLE, w.members, b + 1));
            Made(first, w, top, b) == [n] + ([] + MadeMembers(first, w.members, b, b + 1))
  {
    hide MadeMembers, MemberSlots, NameEntries, NameBytes, WithMembers, F.ValidMembers;
    MembersFill(EMPTY_TABLE, w.members, b + 1);
    assert [] + MadeMembers(first, w.members, b, b + 1) == MadeMembers(first, w.members, b, b + 1);
    assert [] + MemberSlots(w.members, b + 1) == MemberSlots(w.members, b + 1);
    assert [] + NameEntries(w.members, 0) == NameEntries(w.members, 0);
    assert "" + NameBytes(w.members) == NameBytes(w.members);
  }

  lemma BeginTable(first: bool, comments: bool, json: string, s: State, w: F.Form, done: seq<Node>, raw: seq<Node>)
    returns (s1: State)
    requires Starts(first, comments, json, s, w, done, raw) && w.Table? && s.pos < |json| && json[s.pos] == '{'
    ensures Leads(first, comments, json, s, s1) && s1.pos == s.pos + 1 && s1.f == CLEAR
    ensures InTable(first, s1, |done|, done, s.top, F.MemberCount(w.members), |NameBytes(w.members)|, EMPTY_TABLE, [],
                    Ahead(first, MadeMembers(true, w.members, |done|, |done| + 1)) + raw)
  {
    hide Decide, WF, Run, Here, NewValue, Finish, Stops, CanTake, MadeMembers, F.MemberCount, MemberSlots, F.Print, Fits,
      NameBytes, NameEntries;
    BraceOpens(first, comments, json, ViewOf(s));
    var made := Made(true, w, s.top, |done|);
    var n := NodeOf(first, s.top, F.MemberCount(w.members), |NameBytes(w.members)|, EMPTY_TABLE);
    var moved := s.(f := CLEAR, pos := s.pos + 1);
    var rest := MadeMembers(true, w.members, |done|, |done| + 1);
    assert made[1..] == rest;
    NoNamesNoBytes(w.members);
    BeginContainer(first, moved, Object, s.pos, done, made, raw, n);
    s1 := NewValue(first, moved, Object, s.pos).s;
    assert done + [n] + Ahead(first, rest) + raw == done + [n] + [] + (Ahead(first, rest) + raw);
    OneStep(first, comments, json, s, s1);
  }

  lemma NoNamesNoBytes(members: F.Members)
    ensures F.MemberCount(members) == 0 ==> NameBytes(members) == ""
  {
  }

  lemma NoMembersFill(first: bool, members: F.Members, b: nat, c: nat, raw: seq<Node>)
    requires members.NoMembers?
    ensures WithMembers(EMPTY_TABLE, members, c) == EMPTY_TABLE && [] + MadeMembers(first, members, b, c) == []
    ensures Ahead(first, MadeMembers(true, members, b, c)) + raw == raw
  {
  }

  /** What is between the braces. */
  lemma ReadTableBody(first: bool, comments: bool, json: string, a: State, w: F.Form, top: Option<nat>, done: seq<Node>,
                      raw: seq<Node>)
    returns (z: State)
    requires Live(first, comments, json, a) && w.Table? && F.Valid(comments, w) && Fits(w)
    requires a.f == CLEAR && (first ==> raw == [])
    requires InTable(first, a, |done|, done, top, F.MemberCount(w.members), |NameBytes(w.members)|, EMPTY_TABLE, [],
                     Ahead(first, MadeMembers(true, w.members, |done|, |done| + 1)) + raw)
    requires Here(json, a.pos, F.PrintMembers(w.members)) && Stops(json, a.pos + |F.PrintMembers(w.members)|)
    ensures Leads(first, comments, json, a, z) && (z.f == CLEAR || z.f == CLEAR.(needComma := true))
    ensures z.pos == a.pos + |F.PrintMembers(w.members)|
    ensures InTable(first, z, |done|, done, top, F.MemberCount(w.members), |NameBytes(w.members)|,
                    WithMembers(EMPTY_TABLE, w.members, |done| + 1),
                    [] + MadeMembers(first, w.members, |done|, |done| + 1), raw)
    decreases w, 0
  {
    hide WF, Run, Decide, Here, Stops, F.PrintMembers, MadeMembers, NameBytes, F.MemberCount, InTable, F.ValidGap, Live,
      F.ValidMembers, FitMembers, WithMembers;
    var b, total, room := |done|, F.MemberCount(w.members), |NameBytes(w.members)|;
    if w.members.NoMembers? {
      z := a;
      assert F.PrintMembers(F.NoMembers) == "" by { NothingPrinted(); }
      NoMembersFill(first, w.members, b, b + 1, raw);
    } else {
      var none: seq<Node> := [];
      assert b + 1 + |none| == b + 1;
      z := ReadMembers(first, comments, json, a, w.members, b, done, top, total, room, EMPTY_TABLE, [], raw);
    }
  }

  lemma EndTable(first: bool, comments: bool, json: string, z: State, w: F.Form, top: Option<nat>, done: seq<Node>,
                 raw: seq<Node>)
    returns (s1: State)
    requires Live(first, comments, json, z) && w.Table? && CanTake(first, done, top)
    requires (z.f == CLEAR || z.f == CLEAR.(needComma := true)) && z.pos < |json| && json[z.pos] == '}'
    requires InTable(first, z, |done|, done, top, F.MemberCount(w.members), |NameBytes(w.members)|,
                     WithMembers(EMPTY_TABLE, w.members, |done| + 1),
                     [] + MadeMembers(first, w.members, |done|, |done| + 1), raw)
    ensures Leads(first, comments, json, z, s1) && s1.pos == z.pos + 1 && s1.f == NextFlags(CLEAR, KindAt(done, top))
    ensures s1.top == (if top.None? then Some(|done|) else top) && s1.visited == |done| + SizeOf(w)
    ensures s1.nodes == Grown(first, done, top, |done|) + Made(first, w, top, |done|) + raw
  {
    hide WF, Run, Decide, Grown, Finish, MadeMembers, F.MemberCount, WithMembers, NameBytes, MemberSlots, NameEntries;
    var b, total, room := |done|, F.MemberCount(w.members), |NameBytes(w.members)|;
    var x, kids := WithMembers(EMPTY_TABLE, w.members, b + 1), [] + MadeMembers(first, w.members, b, b + 1);
    TableIsMade(first, w, top, b);
    TopOfTable(first, z, b, done, top, total, room, x, kids, raw);
    var made := Made(first, w, top, b);
    assert done + [NodeOf(first, top, total, room, x)] + kids + raw == done + made + raw;
    assert KindAt(z.nodes, top) == KindAt(done, top);
    BraceCloses(first, comments, json, ViewOf(z));
    var c := z.(f := NextFlags(CLEAR, KindAt(done, top)), pos := z.pos + 1);
    HangUp(first, c, done, made, raw, top);
    s1 := Finish(first, c).s;
    OneStep(first, comments, json, z, s1);
  }

  lemma TablePrinted(w: F.Form)
    requires w.Table?
    ensures F.Print(w) == ['{'] + F.PrintMembers(w.members) + ['}']
  {
    hide F.PrintMembers;
  }

  lemma ReadTable(first: bool, comments: bool, json: string, s: State, w: F.Form, done: seq<Node>, raw: seq<Node>)
    returns (s1: State)
    requires Starts(first, comments, json, s, w, done, raw) && w.Table?
    ensures Arrives(first, comments, json, s, s1, w, done, raw)
    decreases w, 1
  {
    hide WF, Run, Decide, Here, Stops, F.Print, Grown, CanTake, NodeOf, MadeMembers, F.MemberCount, NameBytes, WithMembers,
      Made, SizeOf, Fits, F.Valid, F.PrintMembers;
    var body := F.PrintMembers(w.members);
    TablePrinted(w);
    Bracketed(json, s.pos, '{', body, '}');
    ClosingStops(json, s.pos + 1 + |body|);
    var a := BeginTable(first, comments, json, s, w, done, raw);
    var z := ReadTableBody(first, comments, json, a, w, s.top, done, raw);
    s1 := EndTable(first, comments, json, z, w, s.top, done, raw);
  }

  lemma {:induction false} ReadValue(first: bool, comments: bool, json: string, s: State, w: F.Form, done: seq<Node>,
                                     raw: seq<Node>)
    returns (s1: State)
    requires Starts(first, comments, json, s, w, done, raw)
    ensures Arrives(first, comments, json, s, s1, w, done, raw)
    decreases w, 2
  {
    if w.Null? || w.Truth? {
      s1 := ReadWord(first, comments, json, s, w, done, raw);
    } else if w.Whole? {
      s1 := ReadWhole(first, comments, json, s, w, done, raw);
    } else if w.Real? {
      s1 := ReadReal(first, comments, json, s, w, done, raw);
    } else if w.Text? {
      s1 := ReadQuoted(first, comments, json, s, w, done, raw);
    } else if w.List? {
      s1 := ReadList(first, comments, json, s, w, done, raw);
    } else {
      s1 := ReadTable(first, comments, json, s, w, done, raw);
    }
  }
}
