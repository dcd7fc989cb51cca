/**
  What the parsed values say, against the text they come from: a reading of the text on its own
  (integers by their digits, strings and names by their characters and escapes) and the proof that
  the two passes of the machine arrive at exactly that.
 */
module JsonContent {
  import opened Optional
  import opened JsonMachine
  import opened JsonInvariant
  import opened JsonSimulation
  import opened JsonTree
  import opened JsonParse

  // ---------------------------------------------------------------- reading the text

  /** The value of the digits from p on, after digits worth acc. */
  function DigitsFrom(json: string, p: nat, acc: int): int
    decreases |json| - p
  {
    if p < |json| && IsDigit(json[p]) then DigitsFrom(json, p + 1, acc * 10 + HexValue(json[p])) else acc
  }

  function DigitStart(json: string, p: nat): nat { if At(json, p) == '-' then p + 1 else p }

  /** The integer written at p. */
  function IntegerAt(json: string, p: nat): int {
    var n := DigitsFrom(json, DigitStart(json, p), 0);
    if At(json, p) == '-' then -n else n
  }

  /** The bytes of the \\u escape whose u stands at p, and where it ends. */
  function UnicodeAt(json: string, p: nat): (r: Option<(string, nat)>)
    ensures r.Some? ==> p < r.value.1
  {
    match Hex4(json, p)
    case None => None
    case Some(u) =>
      if !IsSurrogate(u) then Some((Utf8(u), p + 5))
      else if At(json, p + 5) == '\\' && At(json, p + 6) == 'u' then
        match Hex4(json, p + 6)
        case None => None
        case Some(lo) => Some((Utf8(Combine(u, lo)), p + 11))
      else None
  }

  /** The bytes of the escape whose letter stands at p, and where it ends. */
  function EscapeAt(json: string, p: nat): (r: Option<(string, nat)>)
    requires p < |json|
    ensures r.Some? ==> p < r.value.1
  {
    var c := json[p];
    if c == 'u' then UnicodeAt(json, p)
    else if c == 'b' then Some(("\U{8}", p + 1))
    else if c == 'f' then Some(("\U{C}", p + 1))
    else if c == 'n' then Some(("\n", p + 1))
    else if c == 'r' then Some(("\r", p + 1))
    else if c == 't' then Some(("\t", p + 1))
    else Some(([c], p + 1))
  }

  /** The text from p to the closing quote; `escaped` when a backslash has just been read. */
  function TextFrom(json: string, p: nat, escaped: bool): string
    decreases |json| - p
  {
    if p >= |json| then ""
    else if escaped then
      match EscapeAt(json, p)
      case None => ""
      case Some(e) => e.0 + TextFrom(json, e.1, false)
    else if json[p] == '"' then ""
    else if json[p] == '\\' then TextFrom(json, p + 1, true)
    else [json[p]] + TextFrom(json, p + 1, false)
  }

  /** The string whose opening quote stands at p. */
  function TextAt(json: string, p: nat): string { TextFrom(json, p + 1, false) }

  /** The text at p announces a value of type k. */
  predicate Names(json: string, p: nat, k: Kind) {
    && p < |json|
    && match k
       case Object => json[p] == '{'
       case Array => json[p] == '['
       case Str => json[p] == '"'
       case Boolean(b) => Word(json, p, if b then "true" else "false")
       case Null => Word(json, p, "null")
       case Integer => IsDigit(json[p]) || json[p] == '-'
       case Double => IsDigit(json[p]) || json[p] == '-'
  }

  predicate Word(json: string, p: nat, w: string) { p + |w| <= |json| && json[p..p + |w|] == w }

  // ---------------------------------------------------------------- what a value says

  /** A number of pass 1 that is still being read. */
  predicate Measuring(s: State, i: nat) { s.top == Some(i) && !s.f.done }

  predicate SaysInteger(json: string, s: State, i: nat)
    requires i < |s.nodes| && i < |s.calls|
  {
    var at, n := s.calls[i].at, s.nodes[i].integer;
    if Measuring(s, i) then
      && !s.num.exp && s.num.negative == (At(json, at) == '-')
      && DigitsFrom(json, s.pos, n) == DigitsFrom(json, DigitStart(json, at), 0)
    else n == IntegerAt(json, at)
  }

  ghost predicate SaysText(json: string, s: State, i: nat)
    requires i < |s.nodes| && i < |s.calls|
  {
    var text := TextAt(json, s.calls[i].at);
    if Reading(s, i) then s.nodes[i].mem + TextFrom(json, s.pos, s.f.escaped) == text
    else s.nodes[i].mem == text + "\0"
  }

  /** t, with its NUL, is the name whose opening quote stands at q. */
  predicate IsName(json: string, q: nat, t: string) { q < |json| && json[q] == '"' && t == TextAt(json, q) + "\0" }

  ghost predicate IsSomeName(json: string, t: string) { exists q: nat :: IsName(json, q, t) }

  ghost predicate SaysName(json: string, mem: string, e: Entry) {
    e.off + e.len + 1 <= |mem| && IsSomeName(json, mem[e.off..e.off + e.len + 1])
  }

  predicate IsNameSoFar(json: string, s: State, q: nat, t: string) {
    q < |json| && json[q] == '"' && t + TextFrom(json, s.pos, s.f.escaped) == TextAt(json, q)
  }

  ghost predicate IsSomeNameSoFar(json: string, s: State, t: string) { exists q: nat :: IsNameSoFar(json, s, q, t) }

  ghost predicate SaysNames(json: string, s: State, i: nat)
    requires i < |s.nodes|
  {
    var n := s.nodes[i];
    && (forall k | 0 <= k < |n.entries| :: SaysName(json, n.mem, n.entries[k]))
    && (if Reading(s, i) then n.cursor <= |n.mem| && IsSomeNameSoFar(json, s, n.mem[n.cursor..])
        else |n.mem| == n.cursor)
  }

  /** Value i says what the text at the place where it was called for says. */
  ghost predicate Says(first: bool, json: string, s: State, i: nat)
    requires i < |s.nodes| && i < |s.calls|
  {
    var n, c := s.nodes[i], s.calls[i];
    && SameKind(n.kind, c.kind) && n.parent == c.parent && Names(json, c.at, c.kind)
    && (first && n.kind.Integer? ==> SaysInteger(json, s, i))
    && (!first && n.kind.Str? ==> SaysText(json, s, i))
    && (!first && n.kind.Object? ==> SaysNames(json, s, i))
  }

  ghost predicate AllSay(first: bool, json: string, s: State) {
    |s.calls| == s.visited <= |s.nodes| && forall i | 0 <= i < s.visited :: Says(first, json, s, i)
  }

  // ---------------------------------------------------------------- one decision and its text

  /** In a string every decision takes the bytes off the front of the text that is left. */
  lemma TextStep(first: bool, comments: bool, json: string, v: View)
    requires v.pos <= |json| && v.f.str
    ensures var d := Decide(first, comments, json, v);
            var left := TextFrom(json, v.pos, v.f.escaped);
            d.Go? ==>
              && (d.act.Put? || d.act.Skip? || d.act.CloseName? || d.act.CloseText?)
              && (d.act.Put? ==> left == d.act.bytes + TextFrom(json, d.pos, false) && !d.f.escaped)
              && (d.act.Skip? ==> left == TextFrom(json, d.pos, d.f.escaped))
              && (d.act.CloseName? || d.act.CloseText? ==> left == "")
  {
    var b := At(json, v.pos);
    hide Hex4, Utf8, Combine, IsSurrogate;
    if b != '\0' && v.f.escaped {
      EscapeStep(json, v, b);
    }
  }

  lemma EscapeStep(json: string, v: View, b: char)
    requires v.pos < |json| && b == json[v.pos]
    ensures var d := DecideEscape(json, v, b);
            d.Go? ==> d.act.Put? && !d.f.escaped && d.f == v.f.(escaped := false)
                      && EscapeAt(json, v.pos) == Some((d.act.bytes, d.pos))
  {
    hide Hex4, Utf8, Combine, IsSurrogate;
  }

  /** Decision d, if it begins a value or a name, begins it where the text announces one. */
  predicate Begins(json: string, v: View, d: Decision) {
    && (d.Go? && (d.act.New? || d.act.NewLeaf?) ==> !v.f.str && Names(json, v.pos, d.act.kind))
    && (d.Go? && d.act == New(Str) ==> d.pos == v.pos + 1)
    && (d.Go? && d.act == New(Integer) ==>
          d.pos == DigitStart(json, v.pos) && !d.num.exp && d.num.negative == (At(json, v.pos) == '-'))
    && (d.Go? && d.act.OpenName? ==> v.pos < |json| && json[v.pos] == '"' && d.pos == v.pos + 1 && !v.f.str)
  }

  lemma SeekBegins(first: bool, json: string, v: View)
    requires v.pos <= |json| && !v.f.str
    ensures Begins(json, v, DecideSeek(first, json, v, At(json, v.pos)))
  {
    hide SkipNumber, NextFlags, Follows, Word;
    WordStep(json, v.pos, "rue", "true");
    WordStep(json, v.pos, "alse", "false");
    WordStep(json, v.pos, "ull", "null");
  }

  lemma BeginStep(first: bool, comments: bool, json: string, v: View)
    requires v.pos <= |json| && WFView(comments, v)
    ensures Begins(json, v, Decide(first, comments, json, v))
  {
    hide DecideString, DecideSeek, Names;
    if v.f.str {
      TextStep(first, comments, json, v);
    } else {
      SeekBegins(first, json, v);
    }
  }

  lemma WordStep(json: string, p: nat, tail: string, w: string)
    requires p <= |json| && w != [] && tail == w[1..]
    ensures Follows(json, p, tail) && At(json, p) == w[0] ==> Word(json, p, w)
  {
    if Follows(json, p, tail) && At(json, p) == w[0] {
      assert json[p..p + |w|] == [json[p]] + json[p + 1..p + 1 + |tail|];
      assert w == [w[0]] + tail;
    }
  }

  /** While an integer is read, every decision takes one digit off the front of the digits that are left. */
  lemma DigitStep(first: bool, comments: bool, json: string, v: View)
    requires v.pos <= |json| && WFView(comments, v) && v.top == Some(Integer) && !v.f.done && !v.num.exp
    ensures var d := Decide(first, comments, json, v);
            d.Go? ==>
              && (d.act.Digit? || d.act.ToDouble? || d.act.NumEnd?)
              && (d.act.Digit? ==>
                    && !d.num.exp && d.num.negative == v.num.negative
                    && forall acc: int :: DigitsFrom(json, v.pos, acc) == DigitsFrom(json, d.pos, acc * 10 + d.act.d))
              && (d.act.NumEnd? ==>
                    d.num.negative == v.num.negative && forall acc: int :: DigitsFrom(json, v.pos, acc) == acc)
  {
  }

  // ---------------------------------------------------------------- one step and what is said

  /** A value that is neither being read nor changed goes on saying what it says. */
  lemma Untouched(first: bool, json: string, s: State, s1: State, i: nat)
    requires i < |s.nodes| && i < |s.calls| && i < |s1.nodes| && i < |s1.calls|
    requires Says(first, json, s, i) && s1.calls[i] == s.calls[i]
    requires var n, m := s.nodes[i], s1.nodes[i];
             m.kind == n.kind && m.parent == n.parent && m.integer == n.integer && m.mem == n.mem && m.entries == n.entries && m.cursor == n.cursor
    requires !Reading(s, i) && !Reading(s1, i)
    requires first && s.nodes[i].kind.Integer? ==> !Measuring(s, i) && !Measuring(s1, i)
    ensures Says(first, json, s1, i)
  {
    hide SaysName, IntegerAt, TextAt, Names;
  }

  /** s1 is s after an action that changes at most node t of those handed out before. */
  ghost predicate OnlyChanges(first: bool, s: State, s1: State, t: nat) {
    && s.visited <= s1.visited && |s.calls| == s.visited <= |s.nodes| <= |s1.nodes|
    && s.calls <= s1.calls && |s1.calls| == s1.visited <= |s1.nodes|
    && (forall i {:trigger s1.nodes[i]} | 0 <= i < s.visited && i != t ::
          var n, m := s.nodes[i], s1.nodes[i];
          && m.kind == n.kind && m.parent == n.parent && m.integer == n.integer && m.mem == n.mem && m.entries == n.entries && m.cursor == n.cursor
          && !Reading(s, i) && !Reading(s1, i)
          && (first && n.kind.Integer? ==> !Measuring(s, i) && !Measuring(s1, i)))
  }

  lemma OthersSay(first: bool, json: string, s: State, s1: State, t: nat, i: nat)
    requires AllSay(first, json, s) && OnlyChanges(first, s, s1, t) && i < s.visited && i != t
    ensures i < |s1.nodes| && i < |s1.calls| && Says(first, json, s1, i)
  {
    assert s1.calls[i] == s.calls[i];
    hide Says;
    assert Says(first, json, s, i);
    Untouched(first, json, s, s1, i);
  }

  lemma NameStays(json: string, mem: string, bytes: string, e: Entry)
    requires SaysName(json, mem, e)
    ensures SaysName(json, mem + bytes, e)
  {
    assert (mem + bytes)[e.off..e.off + e.len + 1] == mem[e.off..e.off + e.len + 1];
  }

  /** The text of the string or name being read loses at the front what its buffer gains at the back. */
  lemma BufferSays(json: string, s: State, s1: State, t: nat, bytes: string)
    requires t < |s.nodes| && t < |s1.nodes| && t < |s.calls| && t < |s1.calls| && s1.calls[t] == s.calls[t]
    requires s1.nodes[t].mem == s.nodes[t].mem + bytes && s1.nodes[t].entries == s.nodes[t].entries
    requires s1.nodes[t].cursor == s.nodes[t].cursor && Reading(s, t) && Reading(s1, t)
    requires TextFrom(json, s.pos, s.f.escaped) == bytes + TextFrom(json, s1.pos, s1.f.escaped)
    ensures SaysText(json, s, t) ==> SaysText(json, s1, t)
    ensures SaysNames(json, s, t) ==> SaysNames(json, s1, t)
  {
    hide TextFrom, TextAt, SaysName;
    var n, m := s.nodes[t], s1.nodes[t];
    var left := TextFrom(json, s1.pos, s1.f.escaped);
    assert (n.mem + bytes) + left == n.mem + (bytes + left);
    if SaysNames(json, s, t) {
      forall k | 0 <= k < |m.entries| ensures SaysName(json, m.mem, m.entries[k]) {
        NameStays(json, n.mem, bytes, n.entries[k]);
      }
      var q: nat :| IsNameSoFar(json, s, q, n.mem[n.cursor..]);
      assert m.mem[n.cursor..] + left == n.mem[n.cursor..] + (bytes + left);
      assert IsNameSoFar(json, s1, q, m.mem[m.cursor..]);
    }
  }

  /** What a Put, or the backslash before an escape, does to the nodes. */
  lemma PutChanges(first: bool, comments: bool, json: string, s: State, d: Decision, s1: State) returns (bytes: string)
    requires WF(first, comments, s) && s.f.str && s.top.Some? && |s.calls| == s.visited <= |s.nodes|
    requires d.Go? && (d.act.Put? || d.act.Skip?) && Allowed(first, comments, ViewOf(s), d.f, d.act)
    requires Apply(first, s, d) == More(s1)
    ensures bytes == if d.act.Put? && !first then d.act.bytes else ""
    ensures s1.visited == s.visited && OnlyChanges(first, s, s1, s.top.value)
    ensures var n, m := s.nodes[s.top.value], s1.nodes[s.top.value];
            && m.mem == n.mem + bytes && m.kind == n.kind && m.parent == n.parent && m.entries == n.entries && m.cursor == n.cursor
            && !n.kind.Integer?
    ensures Reading(s, s.top.value) && Reading(s1, s.top.value) && s1.pos == d.pos && s1.f == d.f
  {
    bytes := if d.act.Put? && !first then d.act.bytes else "";
    assert forall i | 0 <= i < |s.nodes| && i != s.top.value :: s1.nodes[i] == s.nodes[i];
  }

  lemma PutSays(first: bool, comments: bool, json: string, s: State, d: Decision, s1: State)
    requires WF(first, comments, s) && s.pos <= |json| && AllSay(first, json, s) && s.f.str && s.top.Some?
    requires d == Decide(first, comments, json, ViewOf(s)) && d.Go? && (d.act.Put? || d.act.Skip?)
    requires Allowed(first, comments, ViewOf(s), d.f, d.act) && Apply(first, s, d) == More(s1)
    ensures s1.visited == s.visited && OnlyChanges(first, s, s1, s.top.value) && Says(first, json, s1, s.top.value)
  {
    var t := s.top.value;
    TextStep(first, comments, json, ViewOf(s));
    var bytes := PutChanges(first, comments, json, s, d, s1);
    assert Says(first, json, s, t);
    hide Decide, Apply, Allowed, OnlyChanges, SaysText, SaysNames, Names, TextFrom;
    if !first {
      BufferSays(json, s, s1, t, bytes);
    }
  }

  /** A value that has been read to its end says what its text says, whatever is read now. */
  ghost predicate Said(first: bool, json: string, n: Node, c: Call) {
    && SameKind(n.kind, c.kind) && n.parent == c.parent && Names(json, c.at, c.kind)
    && (first && n.kind.Integer? ==> n.integer == IntegerAt(json, c.at))
    && (!first && n.kind.Str? ==> n.mem == TextAt(json, c.at) + "\0")
    && (!first && n.kind.Object? ==>
          |n.mem| == n.cursor && forall k | 0 <= k < |n.entries| :: SaysName(json, n.mem, n.entries[k]))
  }

  lemma SaysIsSaid(first: bool, json: string, s: State, i: nat)
    requires i < |s.nodes| && i < |s.calls| && !Reading(s, i)
    requires first && s.nodes[i].kind.Integer? ==> !Measuring(s, i)
    ensures Says(first, json, s, i) <==> Said(first, json, s.nodes[i], s.calls[i])
  {
    hide SaysName, IntegerAt, TextAt, Names;
  }

  lemma SaidStays(first: bool, json: string, n: Node, m: Node, c: Call)
    requires Said(first, json, n, c)
    requires m.kind == n.kind && m.parent == n.parent && m.integer == n.integer && m.mem == n.mem && m.entries == n.entries && m.cursor == n.cursor
    ensures Said(first, json, m, c)
  {
    hide SaysName, IntegerAt, TextAt, Names;
  }

  ghost predicate AllSaid(first: bool, json: string, s: State) {
    |s.calls| == s.visited <= |s.nodes| && forall i | 0 <= i < s.visited :: Said(first, json, s.nodes[i], s.calls[i])
  }

  /** Nothing is being read in s. */
  ghost predicate Quiet(first: bool, s: State) {
    !s.f.str && (first && s.top.Some? && s.top.value < |s.nodes| ==> s.nodes[s.top.value].kind.Integer? ==> s.f.done)
  }

  lemma QuietSays(first: bool, json: string, s: State)
    requires Quiet(first, s)
    ensures AllSay(first, json, s) <==> AllSaid(first, json, s)
  {
    hide Says, Said;
    if |s.calls| == s.visited <= |s.nodes| {
      forall i | 0 <= i < s.visited
        ensures Says(first, json, s, i) <==> Said(first, json, s.nodes[i], s.calls[i])
      {
        SaysIsSaid(first, json, s, i);
      }
    }
  }

  /** flag_next hangs a value up and says nothing new; after it nothing is being read. */
  lemma FinishSays(first: bool, comments: bool, json: string, s: State, s1: State)
    requires AllSaid(first, json, s) && Finish(first, s) == More(s1) && WF(first, comments, s1)
    requires !s.f.str && (s.top.Some? && s.top.value < |s.nodes| && s.nodes[s.top.value].parent.None? ==> s.f.done)
    ensures AllSay(first, json, s1)
  {
    FinishIsQuiet(first, comments, s, s1);
    QuietSays(first, json, s1);
    hide Said, AllSay, Quiet, WF;
    forall i | 0 <= i < s1.visited ensures Said(first, json, s1.nodes[i], s1.calls[i]) {
      SaidStays(first, json, s.nodes[i], s1.nodes[i], s.calls[i]);
    }
  }

  lemma FinishIsQuiet(first: bool, comments: bool, s: State, s1: State)
    requires Finish(first, s) == More(s1) && WF(first, comments, s1) && !s.f.str
    requires s.top.Some? && s.top.value < |s.nodes| && s.nodes[s.top.value].parent.None? ==> s.f.done
    ensures Quiet(first, s1)
  {
    var t := s.top.value;
    if s.nodes[t].parent.Some? {
      assert s1.nodes[t].parent == s.nodes[t].parent;
    }
  }

  // ---------------------------------------------------------------- the actions one by one

  lemma SkipSays(first: bool, comments: bool, json: string, s: State, d: Decision, s1: State)
    requires WF(first, comments, s) && s.pos <= |json| && AllSay(first, json, s) && !s.f.str
    requires d == Decide(first, comments, json, ViewOf(s)) && d.Go? && d.act.Skip?
    requires Allowed(first, comments, ViewOf(s), d.f, d.act) && Apply(first, s, d) == More(s1)
    ensures AllSay(first, json, s1)
  {
    assert s1.nodes == s.nodes && s1.calls == s.calls && s1.visited == s.visited && s1.top == s.top;
    assert s1.f.str == s.f.str && s1.f.done == s.f.done;
    MeasuringNeedsDigits(first, comments, json, s, d);
    hide Says, Decide, Apply, Allowed;
    forall i | 0 <= i < s1.visited ensures Says(first, json, s1, i) {
      assert Says(first, json, s, i);
      Untouched(first, json, s, s1, i);
    }
  }

  /** While pass 1 reads an integer nothing but a digit, a change to a double or its end can come. */
  lemma MeasuringNeedsDigits(first: bool, comments: bool, json: string, s: State, d: Decision)
    requires WF(first, comments, s) && s.pos <= |json| && AllSay(first, json, s)
    requires d == Decide(first, comments, json, ViewOf(s)) && d.Go?
    requires !d.act.Digit? && !d.act.ToDouble? && !d.act.NumEnd?
    ensures forall i | 0 <= i < s.visited && first && s.nodes[i].kind.Integer? :: !Measuring(s, i)
  {
    if first && s.top.Some? && s.nodes[s.top.value].kind.Integer? && !s.f.done {
      assert Says(first, json, s, s.top.value);
      DigitStep(first, comments, json, ViewOf(s));
    }
  }

  /** Before a value or name is begun nothing is being read. */
  lemma BeginsQuiet(first: bool, comments: bool, json: string, s: State, d: Decision)
    requires WF(first, comments, s) && s.pos <= |json| && AllSay(first, json, s)
    requires d == Decide(first, comments, json, ViewOf(s)) && d.Go? && Allowed(first, comments, ViewOf(s), d.f, d.act)
    requires d.act.New? || d.act.NewLeaf? || d.act.OpenName? || d.act.Close?
    ensures AllSaid(first, json, s) && !s.f.str && !s.f.escaped && Quiet(first, s)
  {
    assert !s.f.str;
    MeasuringNeedsDigits(first, comments, json, s, d);
    hide Decide, Says, Said;
    assert Quiet(first, s);
    QuietSays(first, json, s);
  }

  /** s1 is s with one more node handed out and on top, of type k, called for at `at`. */
  ghost predicate Called(first: bool, s: State, s1: State, k: Kind, at: nat) {
    var v := s.visited;
    && |s.calls| == v <= |s.nodes| && s1.visited == v + 1 <= |s1.nodes|
    && s1.top == Some(v) && s1.calls == s.calls + [Call(at, s.top, k)]
    && (forall i | 0 <= i < v :: s1.nodes[i] == s.nodes[i])
    && SameKind(s1.nodes[v].kind, k) && s1.nodes[v].parent == s.top && s1.nodes[v].mem == "" && s1.nodes[v].entries == [] && s1.nodes[v].cursor == 0
    && (first ==> s1.nodes[v].integer == 0 && s1.nodes[v].kind == k)
  }

  /** A new value says as much as has been read of it: nothing yet of a number, a string or an object. */
  lemma NewSays(first: bool, json: string, s: State, s1: State, k: Kind, at: nat)
    requires AllSaid(first, json, s) && Called(first, s, s1, k, at) && Names(json, at, k) && !s1.f.escaped
    requires s1.f.str == k.Str? && !s1.f.done
    requires k.Str? ==> s1.pos == at + 1
    requires first && k.Integer? ==> s1.pos == DigitStart(json, at) && !s1.num.exp && s1.num.negative == (At(json, at) == '-')
    ensures AllSay(first, json, s1)
  {
    var v := s.visited;
    hide Names, TextFrom, DigitsFrom, DigitStart, SaysName;
    assert "" + TextFrom(json, s1.pos, false) == TextFrom(json, s1.pos, false);
    assert Says(first, json, s1, v);
    hide Says, Said;
    forall i | 0 <= i < v ensures Says(first, json, s1, i) {
      assert Said(first, json, s.nodes[i], s.calls[i]);
      assert s1.calls[i] == s.calls[i];
      SaysIsSaid(first, json, s1, i);
    }
  }

  lemma NewActSays(first: bool, comments: bool, json: string, s: State, d: Decision, s1: State)
    requires WF(first, comments, s) && s.pos <= |json| && AllSay(first, json, s) && (!first ==> Building(s))
    requires d == Decide(first, comments, json, ViewOf(s)) && d.Go? && d.act.New?
    requires Allowed(first, comments, ViewOf(s), d.f, d.act) && Apply(first, s, d) == More(s1)
    ensures AllSay(first, json, s1)
  {
    BeginsQuiet(first, comments, json, s, d);
    BeginStep(first, comments, json, ViewOf(s));
    var k := d.act.kind;
    var moved := s.(f := d.f, num := d.num, pos := d.pos, strLen := if k.Str? then 0 else s.strLen);
    assert NewValue(first, moved, k, s.pos) == More(s1);
    assert d.f.str == k.Str? && !d.f.escaped && !d.f.done;
    if !first {
      NextOfBuilding(s);
    }
    hide Decide, Apply, Building, Says, Said, NewValue;
    NewIsCalled(first, s, moved, k, s.pos, s1);
    assert AllSaid(first, json, moved);
    NewSays(first, json, moved, s1, k, s.pos);
  }

  ghost predicate NextIsRaw(s: State) { s.visited < |s.nodes| ==> Raw(s.nodes[s.visited]) }

  lemma NextOfBuilding(s: State)
    requires Building(s)
    ensures NextIsRaw(s)
  {
  }

  lemma NewIsCalled(first: bool, s: State, moved: State, k: Kind, at: nat, s1: State)
    requires |s.calls| == s.visited <= |s.nodes| && (first ==> s.visited == |s.nodes|)
    requires moved == s.(f := moved.f, num := moved.num, pos := moved.pos, strLen := moved.strLen)
    requires !first ==> NextIsRaw(s)
    requires NewValue(first, moved, k, at) == More(s1)
    ensures Called(first, moved, s1, k, at) && s1.f == moved.f && s1.num == moved.num && s1.pos == moved.pos
  {
  }

  lemma LeafSays(first: bool, comments: bool, json: string, s: State, d: Decision, s1: State)
    requires WF(first, comments, s) && WF(first, comments, s1) && s.pos <= |json| && AllSay(first, json, s)
    requires !first ==> Building(s)
    requires d == Decide(first, comments, json, ViewOf(s)) && d.Go? && d.act.NewLeaf?
    requires Allowed(first, comments, ViewOf(s), d.f, d.act) && Apply(first, s, d) == More(s1)
    ensures AllSay(first, json, s1)
  {
    BeginsQuiet(first, comments, json, s, d);
    BeginStep(first, comments, json, ViewOf(s));
    var k := d.act.kind;
    var moved := s.(f := d.f, num := d.num, pos := d.pos);
    var mid := NewValue(first, moved, k, s.pos).s;
    assert NewValue(first, moved, k, s.pos) == More(mid) && Finish(first, mid) == More(s1);
    assert !k.Str? && !k.Object? && !(first && IsNumber(k)) && !d.f.str;
    assert mid.f == d.f && mid.nodes[mid.top.value].parent == s.top && (s.top.None? ==> d.f.done);
    if !first {
      NextOfBuilding(s);
    }
    hide Decide, Apply, Allowed, Building, NewValue, Finish;
    NewIsCalled(first, s, moved, k, s.pos, mid);
    LeafSaid(first, json, s, moved, mid, k);
    FinishSays(first, comments, json, mid, s1);
  }

  lemma LeafSaid(first: bool, json: string, s: State, moved: State, mid: State, k: Kind)
    requires AllSaid(first, json, s) && Called(first, moved, mid, k, s.pos) && Names(json, s.pos, k)
    requires moved == s.(f := moved.f, num := moved.num, pos := moved.pos)
    requires !k.Str? && !k.Object? && !(first && IsNumber(k))
    ensures AllSaid(first, json, mid)
  {
    var v := s.visited;
    hide Names, IntegerAt, TextAt, SaysName;
    assert Said(first, json, mid.nodes[v], mid.calls[v]);
    hide Said;
    forall i | 0 <= i < v ensures Said(first, json, mid.nodes[i], mid.calls[i]) {
      assert mid.calls[i] == s.calls[i];
    }
  }

  lemma OpenNameSays(first: bool, comments: bool, json: string, s: State, d: Decision, s1: State)
    requires WF(first, comments, s) && s.pos <= |json| && AllSay(first, json, s)
    requires d == Decide(first, comments, json, ViewOf(s)) && d.Go? && d.act.OpenName?
    requires Allowed(first, comments, ViewOf(s), d.f, d.act) && Apply(first, s, d) == More(s1)
    ensures AllSay(first, json, s1)
  {
    BeginsQuiet(first, comments, json, s, d);
    BeginStep(first, comments, json, ViewOf(s));
    var t := s.top.value;
    assert s1.nodes == s.nodes && s1.calls == s.calls && s1.visited == s.visited && s1.top == s.top;
    assert s1.f == d.f && s1.f.str && !s1.f.escaped && s1.pos == s.pos + 1 && s.nodes[t].kind.Object?;
    hide Decide, Apply, Allowed, TextFrom, Names, SaysName;
    assert Said(first, json, s.nodes[t], s.calls[t]);
    if !first {
      var n := s.nodes[t];
      assert n.mem[n.cursor..] == "" && "" + TextFrom(json, s.pos + 1, false) == TextFrom(json, s.pos + 1, false);
      assert IsNameSoFar(json, s1, s.pos, n.mem[n.cursor..]);
    }
    assert Says(first, json, s1, t);
    hide Says, Said;
    forall i | 0 <= i < s1.visited && i != t ensures Says(first, json, s1, i) {
      assert Said(first, json, s.nodes[i], s.calls[i]);
      SaysIsSaid(first, json, s1, i);
    }
  }

  /** The name that has just been closed, in the buffer after its NUL has been written. */
  lemma NameClosed(json: string, s: State, n: Node, m: Node, strLen: nat)
    requires SaysNamesOf(json, s, n) && TextFrom(json, s.pos, s.f.escaped) == "" && |n.mem| == n.cursor + strLen
    requires m.mem == n.mem + "\0" && m.entries == n.entries + [Entry(n.cursor, strLen)] && m.cursor == n.cursor + strLen + 1
    ensures |m.mem| == m.cursor && forall k | 0 <= k < |m.entries| :: SaysName(json, m.mem, m.entries[k])
  {
    hide TextFrom, TextAt;
    var q: nat :| IsNameSoFar(json, s, q, n.mem[n.cursor..]);
    assert n.mem[n.cursor..] + "" == n.mem[n.cursor..];
    assert m.mem[n.cursor..n.cursor + strLen + 1] == n.mem[n.cursor..] + "\0";
    assert IsName(json, q, m.mem[n.cursor..n.cursor + strLen + 1]);
    forall k | 0 <= k < |m.entries| ensures SaysName(json, m.mem, m.entries[k]) {
      if k < |n.entries| {
        NameStays(json, n.mem, "\0", n.entries[k]);
      }
    }
  }

  /** SaysNames of a node whose next name is being read. */
  ghost predicate SaysNamesOf(json: string, s: State, n: Node) {
    && (forall k | 0 <= k < |n.entries| :: SaysName(json, n.mem, n.entries[k]))
    && n.cursor <= |n.mem| && IsSomeNameSoFar(json, s, n.mem[n.cursor..])
  }

  lemma CloseNameSays(first: bool, comments: bool, json: string, s: State, d: Decision, s1: State)
    requires WF(first, comments, s) && s.pos <= |json| && AllSay(first, json, s)
    requires d == Decide(first, comments, json, ViewOf(s)) && d.Go? && d.act.CloseName?
    requires Allowed(first, comments, ViewOf(s), d.f, d.act) && Apply(first, s, d) == More(s1)
    ensures AllSay(first, json, s1)
  {
    TextStep(first, comments, json, ViewOf(s));
    var t := s.top.value;
    var n, m := s.nodes[t], s1.nodes[t];
    assert s1.nodes == s.nodes[t := m] && s1.calls == s.calls && s1.visited == s.visited;
    assert m.kind == n.kind == Object && m.parent == n.parent && s.f.str && !s1.f.str && s1.top == s.top;
    assert !first ==> m.mem == n.mem + "\0" && m.entries == n.entries + [Entry(n.cursor, s.strLen)]
                      && m.cursor == n.cursor + s.strLen + 1 && |n.mem| == n.cursor + s.strLen;
    assert Says(first, json, s, t);
    hide Decide, Apply, Allowed, TextFrom, Names, SaysName, IntegerAt;
    if !first {
      NameClosed(json, s, n, m, s.strLen);
    }
    assert Said(first, json, m, s.calls[t]);
    assert Quiet(first, s1);
    hide Said, Quiet;
    OthersAreSaid(first, json, s, s1, t);
    QuietSays(first, json, s1);
  }

  /** Only t was being read; the others say what they say for good. */
  lemma OthersAreSaid(first: bool, json: string, s: State, s1: State, t: nat)
    requires AllSay(first, json, s) && s.top == Some(t) && t < s.visited
    requires s1.calls == s.calls && s1.visited == s.visited && |s1.nodes| == |s.nodes|
    requires s1.nodes == s.nodes[t := s1.nodes[t]] && Said(first, json, s1.nodes[t], s.calls[t])
    ensures AllSaid(first, json, s1)
  {
    hide Said, Says;
    forall i | 0 <= i < s.visited && i != t ensures Said(first, json, s1.nodes[i], s1.calls[i]) {
      assert Says(first, json, s, i);
      SaysIsSaid(first, json, s, i);
    }
  }

  lemma DigitSays(first: bool, comments: bool, json: string, s: State, d: Decision, s1: State)
    requires WF(first, comments, s) && s.pos <= |json| && AllSay(first, json, s)
    requires d == Decide(first, comments, json, ViewOf(s)) && d.Go? && (d.act.Digit? || d.act.ToDouble?)
    requires Allowed(first, comments, ViewOf(s), d.f, d.act) && Apply(first, s, d) == More(s1)
    ensures AllSay(first, json, s1)
  {
    var t := s.top.value;
    assert Says(first, json, s, t);
    if first && s.nodes[t].kind.Integer? {
      DigitStep(first, comments, json, ViewOf(s));
    }
    var n, m := s.nodes[t], s1.nodes[t];
    assert s1.nodes == s.nodes[t := m] && s1.calls == s.calls && s1.visited == s.visited && s1.top == s.top;
    assert !s.f.str && !s1.f.str && s1.f.done == s.f.done == false && !n.kind.Str? && !n.kind.Object?;
    assert d.act.Digit? ==> m == n.(integer := n.integer * 10 + d.act.d) && s1.pos == d.pos && s1.num == d.num;
    assert d.act.ToDouble? ==> m.kind == Double && m.parent == n.parent;
    hide Decide, Apply, Allowed, DigitsFrom, DigitStart, Names;
    assert Says(first, json, s1, t);
    hide Says;
    forall i | 0 <= i < s1.visited && i != t ensures Says(first, json, s1, i) {
      assert Says(first, json, s, i);
      Untouched(first, json, s, s1, i);
    }
  }

  /** What the action that ends `top` makes of it, in either pass. */
  function EndedNode(first: bool, n: Node, act: Action, num: Num, strLen: nat): Node {
    match act
    case CloseText => if CloseTextOf(n, first, strLen).Some? then CloseTextOf(n, first, strLen).value else n
    case NumEnd => Signed(n, num)
    case _ => n
  }

  lemma EndsInFinish(first: bool, comments: bool, s: State, d: Decision, s1: State)
    requires WF(first, comments, s) && d.Go? && Allowed(first, comments, ViewOf(s), d.f, d.act) && Ends(d.act)
    requires Apply(first, s, d) == More(s1) && s.visited <= |s.nodes|
    ensures s.top.Some? && s.top.value < s.visited && !d.f.str
    ensures s.nodes[s.top.value].parent.None? ==> d.f.done
    ensures var m := EndedNode(first, s.nodes[s.top.value], d.act, d.num, s.strLen);
            && Finish(first, s.(f := d.f, num := d.num, pos := d.pos, nodes := s.nodes[s.top.value := m])) == More(s1)
            && (d.act.CloseText? && !first ==> m.mem == s.nodes[s.top.value].mem + "\0")
            && m.kind == s.nodes[s.top.value].kind && m.parent == s.nodes[s.top.value].parent
    ensures d.act.Close? ==> !s.nodes[s.top.value].kind.Str? && !s.f.str && !IsNumber(s.nodes[s.top.value].kind)
    ensures d.act.CloseText? ==> s.nodes[s.top.value].kind.Str? && s.f.str
    ensures d.act.NumEnd? ==> IsNumber(s.nodes[s.top.value].kind) && !s.f.str && !s.f.done
  {
    assert s.nodes[s.top.value := s.nodes[s.top.value]] == s.nodes;
    hide Finish;
  }

  /** The value that ends has said all of its text. */
  lemma EndedSaid(first: bool, comments: bool, json: string, s: State, d: Decision, m: Node)
    requires WF(first, comments, s) && s.pos <= |json| && AllSay(first, json, s) && s.top.Some?
    requires d == Decide(first, comments, json, ViewOf(s)) && d.Go? && Ends(d.act)
    requires var n := s.nodes[s.top.value];
             && m == EndedNode(first, n, d.act, d.num, s.strLen) && m.kind == n.kind && m.parent == n.parent
             && (d.act.CloseText? && !first ==> m.mem == n.mem + "\0")
             && (d.act.Close? ==> !n.kind.Str? && !s.f.str && !IsNumber(n.kind))
             && (d.act.CloseText? ==> n.kind.Str? && s.f.str)
             && (d.act.NumEnd? ==> IsNumber(n.kind) && !s.f.str && !s.f.done)
    ensures Said(first, json, m, s.calls[s.top.value])
  {
    var t := s.top.value;
    var n := s.nodes[t];
    assert Says(first, json, s, t);
    if d.act.CloseText? {
      TextStep(first, comments, json, ViewOf(s));
      assert n.mem + "" == n.mem;
    } else if d.act.NumEnd? && first && n.kind.Integer? {
      DigitStep(first, comments, json, ViewOf(s));
    }
    hide Decide, WF, TextFrom, DigitsFrom, Names, SaysName;
  }

  lemma EndSays(first: bool, comments: bool, json: string, s: State, d: Decision, s1: State)
    requires WF(first, comments, s) && WF(first, comments, s1) && s.pos <= |json| && AllSay(first, json, s)
    requires d == Decide(first, comments, json, ViewOf(s)) && d.Go? && Ends(d.act)
    requires Allowed(first, comments, ViewOf(s), d.f, d.act) && Apply(first, s, d) == More(s1)
    ensures AllSay(first, json, s1)
  {
    EndsInFinish(first, comments, s, d, s1);
    var t := s.top.value;
    var m := EndedNode(first, s.nodes[t], d.act, d.num, s.strLen);
    var mid := s.(f := d.f, num := d.num, pos := d.pos, nodes := s.nodes[t := m]);
    EndedSaid(first, comments, json, s, d, m);
    hide Decide, Apply, Allowed, Finish, EndedNode, Said, Says;
    OthersAreSaid(first, json, s, mid, t);
    FinishSays(first, comments, json, mid, s1);
  }

  lemma AllSayFromTop(first: bool, json: string, s: State, s1: State, t: nat)
    requires AllSay(first, json, s) && OnlyChanges(first, s, s1, t) && s1.visited == s.visited && t < s.visited
    requires Says(first, json, s1, t)
    ensures AllSay(first, json, s1)
  {
    assert |s1.calls| == s1.visited <= |s1.nodes|;
    hide Says, OnlyChanges;
    forall i | 0 <= i < s1.visited && i != t ensures Says(first, json, s1, i) {
      OthersSay(first, json, s, s1, t, i);
    }
  }

  lemma StepSays(first: bool, comments: bool, json: string, s: State, s1: State)
    requires WF(first, comments, s) && WF(first, comments, s1) && s.pos <= |json| && AllSay(first, json, s)
    requires !first ==> Building(s)
    requires Step(first, comments, json, s) == More(s1)
    ensures AllSay(first, json, s1)
  {
    var d := Decide(first, comments, json, ViewOf(s));
    DecideIsSound(first, comments, json, ViewOf(s));
    hide Decide, Apply, Allowed, AllSay, AllSaid, Building, Quiet;
    match d.act
    case Skip =>
      if s.f.str {
        PutSays(first, comments, json, s, d, s1);
        AllSayFromTop(first, json, s, s1, s.top.value);
      } else {
        SkipSays(first, comments, json, s, d, s1);
      }
    case Put(_) =>
      TextOnTop(first, comments, s, d);
      PutSays(first, comments, json, s, d, s1);
      AllSayFromTop(first, json, s, s1, s.top.value);
    case New(_) => NewActSays(first, comments, json, s, d, s1);
    case OpenName => OpenNameSays(first, comments, json, s, d, s1);
    case Digit(_) => DigitSays(first, comments, json, s, d, s1);
    case ToDouble => DigitSays(first, comments, json, s, d, s1);
    case NewLeaf(_) => LeafSays(first, comments, json, s, d, s1);
    case CloseName => CloseNameSays(first, comments, json, s, d, s1);
    case _ => EndSays(first, comments, json, s, d, s1);
  }

  lemma TextOnTop(first: bool, comments: bool, s: State, d: Decision)
    requires WF(first, comments, s) && d.Go? && d.act.Put? && Allowed(first, comments, ViewOf(s), d.f, d.act)
    ensures s.f.str && s.top.Some?
  {
  }

  /** A whole pass keeps every value true to its text. */
  lemma {:induction false} RunSays(first: bool, comments: bool, json: string, s: State)
    requires WF(first, comments, s) && s.pos <= |json| && AllSay(first, json, s) && (!first ==> Building(s))
    ensures var o := Run(first, comments, json, s); o.Accept? ==> AllSay(first, json, o.s)
    decreases |json| - s.pos, Rank(json, s)
  {
    StepKeepsWF(first, comments, json, s);
    hide AllSay, Building, WF;
    var o := Step(first, comments, json, s);
    if o.More? {
      StepSays(first, comments, json, s, o.s);
      if !first {
        StepBuilds(comments, json, s, o.s);
      }
      RunSays(first, comments, json, o.s);
    } else if o.Accept? {
      StopChangesNothing(first, comments, json, s);
    }
  }

  lemma StopChangesNothing(first: bool, comments: bool, json: string, s: State)
    requires s.pos <= |json| && Step(first, comments, json, s).Accept?
    ensures Step(first, comments, json, s).s == s
  {
    hide Decide;
  }

  // ---------------------------------------------------------------- the theorem

  /** A finished value against the text at the place where the parser called for it. */
  ghost predicate Reads(json: string, n: Node, c: Call) {
    && SameKind(n.kind, c.kind) && Names(json, c.at, c.kind) && n.parent == c.parent
    && (n.kind.Integer? ==> n.integer == IntegerAt(json, c.at))
    && (n.kind.Str? ==> n.mem == TextAt(json, c.at) + "\0")
    && (n.kind.Object? ==> forall k | 0 <= k < |n.entries| :: SaysName(json, n.mem, n.entries[k]))
  }

  lemma StartSays(first: bool, json: string, nodes: seq<Node>)
    ensures AllSay(first, json, Start(nodes))
  {
  }

  lemma DoneIsQuiet(first: bool, comments: bool, s: State)
    requires WF(first, comments, s) && s.f.done
    ensures Quiet(first, s)
  {
  }

  lemma PassSays(first: bool, comments: bool, json: string, nodes: seq<Node>)
    requires WFNodes(nodes) && (first ==> nodes == []) && (!first ==> AllRaw(nodes))
    requires (StartIsWF(first, comments, nodes); Run(first, comments, json, Start(nodes))).Accept?
    ensures AllSaid(first, json, (StartIsWF(first, comments, nodes); Run(first, comments, json, Start(nodes))).s)
  {
    StartIsWF(first, comments, nodes);
    StartSays(first, json, nodes);
    hide AllSay, AllSaid;
    RunSays(first, comments, json, Start(nodes));
    var s := Run(first, comments, json, Start(nodes)).s;
    DoneIsQuiet(first, comments, s);
    QuietSays(first, json, s);
  }

  /**
    After a successful parse every value is of the type its text announces and hangs under the value
    it was called for; integers are what their digits say, strings and names what their characters
    and escapes say, up to the closing quote.
   */
  lemma ValuesSayTheirText(comments: bool, json: string)
    requires FirstPass(comments, json).Accept?
    ensures var nodes := FirstPass(comments, json).s.nodes;
            var o := SecondPass(comments, json, nodes);
            && o.Accept? && |o.s.calls| == |o.s.nodes|
            && forall i | 0 <= i < |o.s.nodes| :: Reads(json, o.s.nodes[i], o.s.calls[i])
  {
    var s := FirstPass(comments, json).s;
    SecondPassRepeatsFirst(comments, json);
    var s2 := SecondPass(comments, json, s.nodes).s;
    StartIsWF(true, comments, []);
    StartIsWF(false, comments, s.nodes);
    RunStaysRaw(comments, json, Start([]));
    PassSays(true, comments, json, []);
    PassSays(false, comments, json, s.nodes);
    assert WF(true, comments, s);
    hide FirstPass, SecondPass, Run, Reads, Said, Mirrors, WF;
    forall i | 0 <= i < |s2.nodes| ensures Reads(json, s2.nodes[i], s2.calls[i]) {
      assert Mirrors(s, i, s2.nodes[i], s.nodes[i]);
      BothPassesRead(json, s, s2, i);
    }
  }

  lemma BothPassesRead(json: string, s: State, s2: State, i: nat)
    requires i < |s.nodes| && i < |s2.nodes| && i < |s.calls| && s2.calls == s.calls && Placed(s)
    requires Said(true, json, s.nodes[i], s.calls[i]) && Said(false, json, s2.nodes[i], s2.calls[i])
    requires Mirrors(s, i, s2.nodes[i], s.nodes[i])
    ensures Reads(json, s2.nodes[i], s2.calls[i])
  {
    hide Names, IntegerAt, TextAt, SaysName;
  }
}
