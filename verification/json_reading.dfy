/**
  How the machine reads a JSON text that its grammar allows, in either pass: blanks are passed over,
  strings are taken in glyph by glyph, and every value leaves the nodes it is meant to leave.
 */
module JsonReading {
  import opened Optional
  import opened JsonMachine
  import opened JsonInvariant
  import F = JsonForms

  // ---------------------------------------------------------------- runs

  ghost predicate Live(first: bool, comments: bool, json: string, s: State) {
    s.pos <= |json| && WF(first, comments, s)
  }

  /** The pass that stands at s comes to s1. */
  ghost predicate Leads(first: bool, comments: bool, json: string, s: State, s1: State) {
    && Live(first, comments, json, s) && Live(first, comments, json, s1)
    && Run(first, comments, json, s) == Run(first, comments, json, s1)
  }

  lemma OneStep(first: bool, comments: bool, json: string, s: State, s1: State)
    requires Live(first, comments, json, s) && Step(first, comments, json, s) == More(s1)
    ensures Leads(first, comments, json, s, s1)
  {
    StepKeepsWF(first, comments, json, s);
    hide WF, Step;
  }

  const CLEAR := Flags(false, false, false, false, false, false, false, false)
  const READY := CLEAR.(seek := true)
  const INSIDE := CLEAR.(str := true)  // within quotes

  /** The text t stands at p. */
  predicate Here(json: string, p: nat, t: string) { p + |t| <= |json| && json[p..p + |t|] == t }

  lemma HereFirst(json: string, p: nat, t: string)
    requires Here(json, p, t) && t != ""
    ensures p < |json| && At(json, p) == t[0] && Here(json, p + 1, t[1..])
  {
    assert json[p..p + |t|][1..] == json[p + 1..p + |t|];
  }

  lemma HereParts(json: string, p: nat, a: string, b: string)
    requires Here(json, p, a + b)
    ensures Here(json, p, a) && Here(json, p + |a|, b)
  {
    assert json[p..p + |a + b|][..|a|] == json[p..p + |a|];
    assert json[p..p + |a + b|][|a|..] == json[p + |a|..p + |a| + |b|];
  }

  // ---------------------------------------------------------------- blanks

  /** Blanks are passed over here. */
  predicate Patient(s: State) {
    && !s.f.str && !s.f.line && !s.f.block
    && (s.f.done || s.f.seek || KindAt(s.nodes, s.top) == Some(Object))
  }

  lemma SkipOneBlank(first: bool, comments: bool, json: string, s: State)
    requires Live(first, comments, json, s) && Patient(s) && s.pos < |json| && F.IsBlank(json[s.pos])
    ensures Leads(first, comments, json, s, s.(pos := s.pos + 1))
  {
    assert Step(first, comments, json, s) == More(s.(pos := s.pos + 1));
    OneStep(first, comments, json, s, s.(pos := s.pos + 1));
  }

  function InLine(s: State): State { s.(f := s.f.(line := true)) }

  function InBlock(s: State): State { s.(f := s.f.(block := true)) }

  lemma CommentOpens(first: bool, json: string, s: State)
    requires Live(first, true, json, s) && Patient(s) && s.pos + 1 < |json| && json[s.pos] == '/'
    requires json[s.pos + 1] == '/' || json[s.pos + 1] == '*'
    ensures var s1 := s.(pos := s.pos + 2);
            Leads(first, true, json, s, if json[s.pos + 1] == '/' then InLine(s1) else InBlock(s1))
  {
    hide WF, Run;
    var s1 := s.(pos := s.pos + 2);
    var s2 := if json[s.pos + 1] == '/' then InLine(s1) else InBlock(s1);
    assert s.f.seek || s.f.done || KindAt(s.nodes, s.top) == Some(Object);
    assert Step(first, true, json, s) == More(s2);
    OneStep(first, true, json, s, s2);
  }

  /** A character within a comment that does not end it. */
  lemma CommentGoesOn(first: bool, json: string, s: State)
    requires Live(first, true, json, s) && !s.f.str && (s.f.line || s.f.block)
    requires s.pos < |json| && json[s.pos] != '\0'
    requires if s.f.line then !F.IsLineEnd(json[s.pos]) else json[s.pos] == '*' ==> At(json, s.pos + 1) != '/'
    ensures Leads(first, true, json, s, s.(pos := s.pos + 1))
  {
    hide WF, Run;
    assert Step(first, true, json, s) == More(s.(pos := s.pos + 1));
    OneStep(first, true, json, s, s.(pos := s.pos + 1));
  }

  /** The end of a line or of the text ends a comment, and is not part of it. */
  lemma LineEnds(first: bool, json: string, s: State)
    requires Patient(s) && Live(first, true, json, InLine(s))
    requires F.IsLineEnd(At(json, s.pos)) || At(json, s.pos) == '\0'
    ensures Leads(first, true, json, InLine(s), s)
  {
    hide WF, Run;
    assert Step(first, true, json, InLine(s)) == More(s);
    OneStep(first, true, json, InLine(s), s);
  }

  lemma BlockEnds(first: bool, json: string, s: State)
    requires Patient(s) && Live(first, true, json, InBlock(s))
    requires s.pos + 1 < |json| && json[s.pos] == '*' && json[s.pos + 1] == '/'
    ensures Leads(first, true, json, InBlock(s), s.(pos := s.pos + 2))
  {
    hide WF, Run;
    assert Step(first, true, json, InBlock(s)) == More(s.(pos := s.pos + 2));
    OneStep(first, true, json, InBlock(s), s.(pos := s.pos + 2));
  }

  lemma {:induction false} SkipLine(first: bool, json: string, s: State, t: string)
    requires Patient(s) && Live(first, true, json, InLine(s)) && Here(json, s.pos, t) && F.InOneLine(t)
    ensures Leads(first, true, json, InLine(s), InLine(s.(pos := s.pos + |t|)))
    decreases |t|
  {
    hide Run, WF, Here;
    if t != "" {
      HereFirst(json, s.pos, t);
      CommentGoesOn(first, json, InLine(s));
      SkipLine(first, json, s.(pos := s.pos + 1), t[1..]);
    }
  }

  lemma StarStays(t: string)
    requires F.NotClosing(t) && t != ""
    ensures F.NotClosing(t[1..]) && t[0] != '\0' && (t[0] == '*' ==> (t + "*/")[1] != '/')
  {
  }

  lemma {:induction false} SkipBlock(first: bool, json: string, s: State, t: string)
    requires Patient(s) && Live(first, true, json, InBlock(s)) && Here(json, s.pos, t + "*/") && F.NotClosing(t)
    ensures Leads(first, true, json, InBlock(s), InBlock(s.(pos := s.pos + |t|)))
    decreases |t|
  {
    hide Run, WF, Here;
    if t != "" {
      var all := t + "*/";
      assert all[1..] == t[1..] + "*/";
      HereFirst(json, s.pos, all);
      HereFirst(json, s.pos + 1, all[1..]);
      StarStays(t);
      CommentGoesOn(first, json, InBlock(s));
      SkipBlock(first, json, s.(pos := s.pos + 1), t[1..]);
    }
  }

  lemma SkipLineComment(first: bool, json: string, s: State, t: string)
    requires Live(first, true, json, s) && Patient(s) && Here(json, s.pos, "//" + t) && F.InOneLine(t)
    requires F.IsLineEnd(At(json, s.pos + 2 + |t|)) || At(json, s.pos + 2 + |t|) == '\0'
    ensures Leads(first, true, json, s, s.(pos := s.pos + 2 + |t|))
  {
    hide Run, WF, Here;
    HereParts(json, s.pos, "//", t);
    HereFirst(json, s.pos, "//");
    HereFirst(json, s.pos + 1, "//"[1..]);
    CommentOpens(first, json, s);
    SkipLine(first, json, s.(pos := s.pos + 2), t);
    LineEnds(first, json, s.(pos := s.pos + 2 + |t|));
  }

  lemma SkipBlockComment(first: bool, json: string, s: State, t: string)
    requires Live(first, true, json, s) && Patient(s) && Here(json, s.pos, "/*" + (t + "*/")) && F.NotClosing(t)
    ensures Leads(first, true, json, s, s.(pos := s.pos + 4 + |t|))
  {
    hide Run, WF, Here, F.NotClosing;
    HereParts(json, s.pos, "/*", t + "*/");
    HereFirst(json, s.pos, "/*");
    HereFirst(json, s.pos + 1, "/*"[1..]);
    CommentOpens(first, json, s);
    SkipBlock(first, json, s.(pos := s.pos + 2), t);
    HereParts(json, s.pos + 2, t, "*/");
    HereFirst(json, s.pos + 2 + |t|, "*/");
    HereFirst(json, s.pos + 3 + |t|, "*/"[1..]);
    BlockEnds(first, json, s.(pos := s.pos + 2 + |t|));
  }

  lemma SkipWholeLine(first: bool, json: string, s: State, t: string, end: char)
    requires Live(first, true, json, s) && Patient(s) && F.InOneLine(t) && F.IsLineEnd(end)
    requires Here(json, s.pos, "//" + (t + [end]))
    ensures Leads(first, true, json, s, s.(pos := s.pos + 3 + |t|))
  {
    hide Run, WF, Here, F.InOneLine;
    assert "//" + (t + [end]) == ("//" + t) + [end];
    HereParts(json, s.pos, "//" + t, [end]);
    HereFirst(json, s.pos + 2 + |t|, [end]);
    SkipLineComment(first, json, s, t);
    SkipOneBlank(first, true, json, s.(pos := s.pos + 2 + |t|));
  }

  lemma SkipSpace(first: bool, comments: bool, json: string, s: State, sp: F.Space)
    requires Live(first, comments, json, s) && Patient(s) && F.ValidSpace(comments, sp)
    requires Here(json, s.pos, F.PrintSpace(sp))
    ensures Leads(first, comments, json, s, s.(pos := s.pos + |F.PrintSpace(sp)|))
  {
    hide Run, WF, Here, F.InOneLine, F.NotClosing;
    match sp
    case Blank(c) =>
      HereFirst(json, s.pos, [c]);
      SkipOneBlank(first, comments, json, s);
    case Line(t, end) => SkipWholeLine(first, json, s, t, end);
    case Block(t) => SkipBlockComment(first, json, s, t);
  }

  lemma {:induction false} SkipGap(first: bool, comments: bool, json: string, s: State, gap: seq<F.Space>)
    requires Live(first, comments, json, s) && Patient(s) && Here(json, s.pos, F.PrintGap(gap)) && F.ValidGap(comments, gap)
    ensures Leads(first, comments, json, s, s.(pos := s.pos + |F.PrintGap(gap)|))
    decreases |gap|
  {
    hide Run, Live, Here, F.ValidSpace, F.PrintSpace;
    if gap != [] {
      var t := F.PrintSpace(gap[0]);
      HereParts(json, s.pos, t, F.PrintGap(gap[1..]));
      SkipSpace(first, comments, json, s, gap[0]);
      SkipGap(first, comments, json, s.(pos := s.pos + |t|), gap[1..]);
    }
  }

  // ---------------------------------------------------------------- glyphs

  lemma DigitsAre(i: nat)
    requires i < 16
    ensures HexValue(F.LOWER[i]) == i && HexValue(F.UPPER[i]) == i
  {
  }

  lemma HexIs(c: char)
    requires F.IsHexDigit(c)
    ensures HexValue(c) == F.HexDigit(c) < 16
  {
    hide HexValue, F.IndexOf;
    if c in F.LOWER {
      F.IndexFits(c, F.LOWER);
      DigitsAre(F.IndexOf(c, F.LOWER));
    } else {
      F.IndexFits(c, F.UPPER);
      DigitsAre(F.IndexOf(c, F.UPPER));
    }
  }

  lemma HereAt(json: string, p: nat, t: string, i: nat)
    requires Here(json, p, t) && i < |t|
    ensures At(json, p + i) == t[i]
  {
    assert json[p..p + |t|][i] == json[p + i];
  }

  lemma Hex4Of(json: string, p: nat, h1: nat, h2: nat, h3: nat, h4: nat)
    requires p + 4 < |json| && h1 < 16 && h2 < 16 && h3 < 16 && h4 < 16
    requires HexValue(At(json, p + 1)) == h1 && HexValue(At(json, p + 2)) == h2
    requires HexValue(At(json, p + 3)) == h3 && HexValue(At(json, p + 4)) == h4
    ensures Hex4(json, p) == Some(((h1 * 16 + h2) * 16 + h3) * 16 + h4)
  {
    hide HexValue, At;
  }

  lemma Hex4Is(json: string, p: nat, hex: string)
    requires F.IsHex4(hex) && Here(json, p + 1, hex)
    ensures Hex4(json, p) == Some(F.CodeOf(hex)) && F.CodeOf(hex) < 0x1_0000
  {
    hide HexValue, F.CodeOf, F.HexDigit, Hex4, At, F.IsHexDigit;
    F.CodeFits(hex);
    HexIs(hex[0]);
    HexIs(hex[1]);
    HexIs(hex[2]);
    HexIs(hex[3]);
    HereAt(json, p + 1, hex, 0);
    HereAt(json, p + 1, hex, 1);
    HereAt(json, p + 1, hex, 2);
    HereAt(json, p + 1, hex, 3);
    Hex4Of(json, p, F.HexDigit(hex[0]), F.HexDigit(hex[1]), F.HexDigit(hex[2]), F.HexDigit(hex[3]));
  }

  lemma OctetIsByte(n: nat)
    requires n < 0x100
    ensures F.Octet(n) == Byte(n)
  {
  }

  lemma Utf8Is(u: nat)
    requires u <= 0xF_FFFF
    ensures Utf8(u) == F.Octets(u)
  {
    hide F.Octet, Byte;
    assert u / 64 / 64 == u / 0x1000 && u / 64 / 64 / 64 == u / 0x4_0000;
    OctetIsByte(0x80 + u % 64);
    if u <= 0x7F {
      OctetIsByte(u);
    } else if u <= 0x7FF {
      OctetIsByte(0xC0 + u / 64);
    } else {
      OctetIsByte(0x80 + u / 64 % 64);
      if u <= 0xFFFF {
        OctetIsByte(0xE0 + u / 0x1000);
      } else {
        OctetIsByte(0x80 + u / 0x1000 % 64);
        OctetIsByte(0xF0 + u / 0x4_0000);
      }
    }
  }

  /** The place of a state within quotes, at text t. */
  predicate InText(json: string, v: View, t: string) {
    v.f == INSIDE && v.strLen <= UINT_LIMIT && Here(json, v.pos, t)
  }

  lemma PlainIsPut(first: bool, comments: bool, json: string, v: View, c: char)
    requires InText(json, v, [c]) && F.ValidGlyph(F.Plain(c))
    ensures Decide(first, comments, json, v) == Go(INSIDE, v.num, v.pos + 1, Put([c]))
  {
    HereAt(json, v.pos, [c], 0);
  }

  /** The view behind a backslash. */
  function Escaped(v: View): View { v.(f := INSIDE.(escaped := true), pos := v.pos + 1) }

  lemma BackslashIsPassed(first: bool, comments: bool, json: string, v: View, t: string)
    requires InText(json, v, t) && t != "" && t[0] == '\\'
    ensures Decide(first, comments, json, v) == Go(Escaped(v).f, v.num, v.pos + 1, Skip)
  {
    HereAt(json, v.pos, t, 0);
  }

  lemma ShortIsPut(first: bool, comments: bool, json: string, v: View, letter: char)
    requires InText(json, v, F.PrintGlyph(F.Short(letter))) && F.ValidGlyph(F.Short(letter))
    ensures Decide(first, comments, json, Escaped(v)) == Go(INSIDE, v.num, v.pos + 2, Put(F.Heard(F.Short(letter))))
  {
    HereAt(json, v.pos, F.PrintGlyph(F.Short(letter)), 1);
  }

  lemma CodeIsPut(first: bool, comments: bool, json: string, v: View, hex: string)
    requires InText(json, v, F.PrintGlyph(F.Code(hex))) && F.ValidGlyph(F.Code(hex))
    ensures F.CodeOf(hex) < 0x1_0000
    ensures Decide(first, comments, json, Escaped(v)) == Go(INSIDE, v.num, v.pos + 6, Put(F.Octets(F.CodeOf(hex))))
  {
    hide Hex4, F.CodeOf, Utf8, F.Octets, Here, F.IsHex4, Combine;
    HereAt(json, v.pos, F.PrintGlyph(F.Code(hex)), 1);
    HereParts(json, v.pos, "\\u", hex);
    Hex4Is(json, v.pos + 1, hex);
    Utf8Is(F.CodeOf(hex));
  }

  lemma CombineIs(high: nat, low: nat)
    ensures var u := high % 0x400 * 0x400 + low % 0x400;
            Combine(high, low) == if u / 0x1_0000 % 2 == 1 then u else u + 0x1_0000
  {
  }

  lemma SurrogateIs(u: nat)
    requires u < 0x1_0000
    ensures IsSurrogate(u) == F.Surrogate(u)
  {
  }

  lemma PairIsPut(first: bool, comments: bool, json: string, v: View, high: string, low: string)
    requires InText(json, v, F.PrintGlyph(F.Pair(high, low))) && F.ValidGlyph(F.Pair(high, low))
    ensures Decide(first, comments, json, Escaped(v)) == Go(INSIDE, v.num, v.pos + 12, Put(F.Heard(F.Pair(high, low))))
  {
    hide Hex4, F.CodeOf, Utf8, F.Octets, Here, Combine, F.IsHexDigit;
    var t := F.PrintGlyph(F.Pair(high, low));
    assert t == "\\u" + (high + ("\\u" + low));
    HereAt(json, v.pos, t, 1);
    HereAt(json, v.pos, t, 6);
    HereAt(json, v.pos, t, 7);
    HereParts(json, v.pos, "\\u", high + ("\\u" + low));
    HereParts(json, v.pos + 2, high, "\\u" + low);
    HereParts(json, v.pos + 6, "\\u", low);
    Hex4Is(json, v.pos + 1, high);
    Hex4Is(json, v.pos + 7, low);
    CombineIs(F.CodeOf(high), F.CodeOf(low));
    Utf8Is(Combine(F.CodeOf(high), F.CodeOf(low)));
  }

  /** s when k characters more have been read and bytes have been added to the text of node t. */
  function Took(first: bool, s: State, t: nat, k: nat, bytes: string): State
    requires t < |s.nodes|
  {
    s.(pos := s.pos + k, strLen := s.strLen + |bytes|,
       nodes := if first then s.nodes else s.nodes[t := s.nodes[t].(mem := s.nodes[t].mem + bytes)])
  }

  /** In pass 2 the buffer of node t has room for n bytes more. */
  predicate Room(first: bool, s: State, t: nat, n: nat)
    requires t < |s.nodes|
  {
    first || (WriteAt(s.nodes[t], s.strLen) == |s.nodes[t].mem| && |s.nodes[t].mem| + n <= MemCap(s.nodes[t]))
  }

  /** Between the quotes of node t, which takes the text. */
  predicate Within(s: State, t: nat) { s.f == INSIDE && s.top == Some(t) && t < |s.nodes| && s.strLen <= UINT_LIMIT }

  lemma TakePut(first: bool, comments: bool, json: string, s: State, t: nat, k: nat, bytes: string)
    requires Live(first, comments, json, s) && s.top == Some(t) && t < |s.nodes| && Room(first, s, t, |bytes|)
    requires Decide(first, comments, json, ViewOf(s)) == Go(INSIDE, s.num, s.pos + k, Put(bytes))
    ensures Leads(first, comments, json, s, Took(first, s, t, k, bytes).(f := INSIDE))
  {
    hide Decide, WF;
    OneStep(first, comments, json, s, Took(first, s, t, k, bytes).(f := INSIDE));
  }

  lemma PassBackslash(first: bool, comments: bool, json: string, s: State, t: nat, text: string)
    requires Live(first, comments, json, s) && Within(s, t) && Here(json, s.pos, text)
    requires text != "" && text[0] == '\\'
    ensures var s1 := s.(f := INSIDE.(escaped := true), pos := s.pos + 1);
            Leads(first, comments, json, s, s1) && ViewOf(s1) == Escaped(ViewOf(s))
  {
    BackslashIsPassed(first, comments, json, ViewOf(s), text);
    hide Decide, WF, Here;
    OneStep(first, comments, json, s, s.(f := INSIDE.(escaped := true), pos := s.pos + 1));
  }

  lemma EscapeIsPut(first: bool, comments: bool, json: string, v: View, g: F.Glyph)
    requires F.ValidGlyph(g) && !g.Plain? && InText(json, v, F.PrintGlyph(g))
    ensures Decide(first, comments, json, Escaped(v)) == Go(INSIDE, v.num, v.pos + |F.PrintGlyph(g)|, Put(F.Heard(g)))
    ensures F.PrintGlyph(g)[0] == '\\'
  {
    hide Decide, F.IsHexDigit, F.CodeOf, F.Octets, Here;
    match g
    case Short(letter) => ShortIsPut(first, comments, json, v, letter);
    case Code(hex) => CodeIsPut(first, comments, json, v, hex);
    case Pair(high, low) => PairIsPut(first, comments, json, v, high, low);
  }

  lemma ReadGlyph(first: bool, comments: bool, json: string, s: State, t: nat, g: F.Glyph)
    requires Live(first, comments, json, s) && Within(s, t) && F.ValidGlyph(g)
    requires Here(json, s.pos, F.PrintGlyph(g)) && Room(first, s, t, |F.Heard(g)|)
    ensures Leads(first, comments, json, s, Took(first, s, t, |F.PrintGlyph(g)|, F.Heard(g)))
  {
    hide Decide, WF, Here, F.Octets, F.CodeOf, F.IsHexDigit, Run;
    var v, text := ViewOf(s), F.PrintGlyph(g);
    if g.Plain? {
      PlainIsPut(first, comments, json, v, g.c);
      TakePut(first, comments, json, s, t, 1, [g.c]);
    } else {
      EscapeIsPut(first, comments, json, v, g);
      hide F.PrintGlyph, F.Heard;
      PassBackslash(first, comments, json, s, t, text);
      var s1 := s.(f := INSIDE.(escaped := true), pos := s.pos + 1);
      TakePut(first, comments, json, s1, t, |text| - 1, F.Heard(g));
    }
  }

  /** What stands between two quotes is taken in. */
  lemma {:induction false} ReadText(first: bool, comments: bool, json: string, s: State, t: nat, gs: seq<F.Glyph>)
    requires Live(first, comments, json, s) && Within(s, t) && F.ValidText(gs)
    requires Here(json, s.pos, F.PrintText(gs))
    requires s.strLen + |F.Says(gs)| <= UINT_LIMIT && Room(first, s, t, |F.Says(gs)|)
    ensures Leads(first, comments, json, s, Took(first, s, t, |F.PrintText(gs)|, F.Says(gs)))
    decreases |gs|
  {
    hide Live, Run, Here, F.PrintGlyph, F.Heard;
    if gs == [] {
      assert s.nodes[t].mem + "" == s.nodes[t].mem && s.nodes[t := s.nodes[t]] == s.nodes;
    } else {
      var g := gs[0];
      HereParts(json, s.pos, F.PrintGlyph(g), F.PrintText(gs[1..]));
      ReadGlyph(first, comments, json, s, t, g);
      var s1 := Took(first, s, t, |F.PrintGlyph(g)|, F.Heard(g));
      ReadText(first, comments, json, s1, t, gs[1..]);
      TookTwice(first, s, t, |F.PrintGlyph(g)|, F.Heard(g), |F.PrintText(gs[1..])|, F.Says(gs[1..]));
    }
  }

  lemma TookTwice(first: bool, s: State, t: nat, k: nat, a: string, l: nat, b: string)
    requires t < |s.nodes|
    ensures Took(first, Took(first, s, t, k, a), t, l, b) == Took(first, s, t, k + l, a + b)
  {
    assert s.nodes[t].mem + a + b == s.nodes[t].mem + (a + b);
  }
}
