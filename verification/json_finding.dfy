/**
  What stands where pass 1 goes on and will accept: the gap, the characters of a string, or the number
  that its text must have there.
 */
module JsonFinding {
  import opened Optional
  import opened JsonMachine
  import opened JsonInvariant
  import opened JsonReading
  import opened JsonShapes
  import opened JsonNumbers
  import F = JsonForms

  // ---------------------------------------------------------------- accepting runs

  /** Pass 1 stands at s, and will accept. */
  ghost predicate Accepted(comments: bool, json: string, s: State) {
    Live(true, comments, json, s) && Run(true, comments, json, s).Accept?
  }

  lemma NeverAtOnce(first: bool, s: State, d: Decision)
    requires d.Go?
    ensures !Apply(first, s, d).Accept?
  {
  }

  /** A run that accepts refuses nothing on its way. */
  lemma NotRefused(comments: bool, json: string, s: State)
    requires Accepted(comments, json, s)
    ensures var d := Decide(true, comments, json, ViewOf(s));
            && (d.Go? || (s.f.done && At(json, s.pos) == '\0'))
            && (d.Go? ==> var o := Apply(true, s, d); o.More? && Accepted(comments, json, o.s))
  {
    hide Decide, WF, Apply;
    StepKeepsWF(true, comments, json, s);
    StopOnlyWhenDone(true, comments, json, ViewOf(s));
    var d := Decide(true, comments, json, ViewOf(s));
    if d.Go? {
      NeverAtOnce(true, s, d);
    }
    RefusalRejects(s, d);
  }

  lemma RefusalRejects(s: State, d: Decision)
    ensures (d.Refuse? ==> Apply(true, s, d).Reject?) && (d.Crash? ==> Apply(true, s, d).Fault?)
  {
  }

  lemma HereJoins(json: string, p: nat, a: string, b: string)
    requires Here(json, p, a) && Here(json, p + |a|, b)
    ensures Here(json, p, a + b)
  {
    assert json[p..p + |a + b|] == json[p..p + |a|] + json[p + |a|..p + |a| + |b|];
  }

  lemma HereOne(json: string, p: nat, c: char)
    requires p < |json| && json[p] == c
    ensures Here(json, p, [c])
  {
  }

  // ---------------------------------------------------------------- gaps

  lemma {:induction false} FindLine(json: string, s: State) returns (t: string)
    requires Patient(s) && Accepted(true, json, InLine(s))
    ensures Here(json, s.pos, t) && F.InOneLine(t) && Accepted(true, json, InLine(s.(pos := s.pos + |t|)))
    ensures F.IsLineEnd(At(json, s.pos + |t|)) || At(json, s.pos + |t|) == '\0'
    decreases |json| - s.pos
  {
    hide WF, Run;
    var c := At(json, s.pos);
    if F.IsLineEnd(c) || c == '\0' {
      t := "";
    } else {
      CommentGoesOn(true, json, InLine(s));
      var t1 := FindLine(json, s.(pos := s.pos + 1));
      t := [c] + t1;
      HereOne(json, s.pos, c);
      HereJoins(json, s.pos, [c], t1);
    }
  }

  lemma BlockIsClosed(json: string, s: State)
    requires Patient(s) && Accepted(true, json, InBlock(s))
    ensures s.pos < |json| && json[s.pos] != '\0'
  {
    NotRefused(true, json, InBlock(s));
  }

  lemma {:induction false} FindBlock(json: string, s: State) returns (t: string)
    requires Patient(s) && Accepted(true, json, InBlock(s))
    ensures Here(json, s.pos, t + "*/") && F.NotClosing(t)
    decreases |json| - s.pos
  {
    hide WF, Run;
    BlockIsClosed(json, s);
    var c := At(json, s.pos);
    if c == '*' && At(json, s.pos + 1) == '/' {
      t := "";
      assert Here(json, s.pos, "" + "*/");
    } else {
      CommentGoesOn(true, json, InBlock(s));
      var t1 := FindBlock(json, s.(pos := s.pos + 1));
      t := [c] + t1;
      HereOne(json, s.pos, c);
      HereJoins(json, s.pos, [c], t1 + "*/");
      assert [c] + (t1 + "*/") == t + "*/";
      StarFound(json, s.pos + 1, t1);
      StillNotClosing(c, t1);
    }
  }

  lemma StarFound(json: string, p: nat, t: string)
    requires Here(json, p, t + "*/")
    ensures At(json, p) == (t + "*/")[0] && (t != "" ==> At(json, p) == t[0])
  {
    HereFirst(json, p, t + "*/");
  }

  lemma StillNotClosing(c: char, t: string)
    requires c != '\0' && F.NotClosing(t) && (c == '*' && t != "" ==> t[0] != '/')
    ensures F.NotClosing([c] + t)
  {
    var u := [c] + t;
    forall i | 0 <= i < |u| - 1 ensures u[i] == '*' ==> u[i + 1] != '/' {
      if i > 0 {
        assert u[i] == t[i - 1] && u[i + 1] == t[i];
      }
    }
  }

  lemma SlashIsAnswered(json: string, s: State)
    requires Patient(s) && Accepted(true, json, s) && At(json, s.pos) == '/'
    ensures s.pos + 1 < |json| && (json[s.pos + 1] == '/' || json[s.pos + 1] == '*')
  {
    NotRefused(true, json, s);
  }

  lemma TextGoesOn(comments: bool, json: string, s: State)
    requires Patient(s) && Accepted(comments, json, s) && !s.f.done
    ensures At(json, s.pos) != '\0'
  {
    NotRefused(comments, json, s);
  }

  /** No gap goes on here. */
  predicate Behind(comments: bool, json: string, p: nat) {
    !F.IsBlank(At(json, p)) && !(comments && At(json, p) == '/')
  }

  /** A comment that the end of the text ends. */
  predicate IsLast(json: string, p: nat, t: string) {
    F.InOneLine(t) && Here(json, p, "//" + t) && At(json, p + 2 + |t|) == '\0'
  }

  lemma FindComment(json: string, s: State) returns (sp: F.Space, last: Option<string>, s1: State)
    requires Patient(s) && Accepted(true, json, s) && At(json, s.pos) == '/'
    ensures last.Some? ==> s.f.done && IsLast(json, s.pos, last.value) && s1 == s
    ensures last.None? ==>
              && F.ValidSpace(true, sp) && Here(json, s.pos, F.PrintSpace(sp)) && !sp.Blank?
              && s1 == s.(pos := s.pos + |F.PrintSpace(sp)|) && Accepted(true, json, s1)
  {
    hide WF, Run, Here, F.InOneLine, F.NotClosing;
    SlashIsAnswered(json, s);
    CommentOpens(true, json, s);
    var s2 := s.(pos := s.pos + 2);
    last, s1 := None, s;
    if json[s.pos + 1] == '/' {
      var t := FindLine(json, s2);
      var s3 := s2.(pos := s2.pos + |t|);
      LineEnds(true, json, s3);
      HereTwo(json, s.pos, '/', '/');
      HereJoins(json, s.pos, "//", t);
      if At(json, s3.pos) == '\0' {
        if !s.f.done {
          TextGoesOn(true, json, s3);
        }
        sp, last := F.Blank(' '), Some(t);
      } else {
        var c := At(json, s3.pos);
        sp := F.Line(t, c);
        HereOne(json, s3.pos, c);
        HereJoins(json, s.pos, "//" + t, [c]);
        assert "//" + t + [c] == F.PrintSpace(sp);
        SkipSpace(true, true, json, s, sp);
        s1 := s.(pos := s.pos + |F.PrintSpace(sp)|);
      }
    } else {
      var t := FindBlock(json, s2);
      sp := F.Block(t);
      HereTwo(json, s.pos, '/', '*');
      HereJoins(json, s.pos, "/*", t + "*/");
      SkipSpace(true, true, json, s, sp);
      s1 := s.(pos := s.pos + |F.PrintSpace(sp)|);
    }
  }

  lemma HereTwo(json: string, p: nat, c: char, d: char)
    requires p + 1 < |json| && json[p] == c && json[p + 1] == d
    ensures Here(json, p, [c, d])
  {
  }

  /** The gap that stands here, and a comment behind it that has no end. */
  lemma {:induction false} FindGap(comments: bool, json: string, s: State)
    returns (gap: seq<F.Space>, last: Option<string>, s1: State)
    requires Accepted(comments, json, s) && Patient(s)
    ensures F.ValidGap(comments, gap) && Here(json, s.pos, F.PrintGap(gap))
    ensures s1 == s.(pos := s.pos + |F.PrintGap(gap)|) && Accepted(comments, json, s1)
    ensures if last.Some? then s.f.done && comments && IsLast(json, s1.pos, last.value) else Behind(comments, json, s1.pos)
    decreases |json| - s.pos
  {
    hide WF, Run, F.ValidSpace, F.PrintSpace, IsLast;
    if Behind(comments, json, s.pos) {
      gap, last, s1 := [], None, s;
    } else {
      var sp, s2;
      if F.IsBlank(At(json, s.pos)) {
        SkipOneBlank(true, comments, json, s);
        sp, last, s2 := F.Blank(At(json, s.pos)), None, s.(pos := s.pos + 1);
        BlankFound(comments, json, s.pos);
      } else {
        sp, last, s2 := FindComment(json, s);
      }
      if last.Some? {
        gap, s1 := [], s;
      } else {
        hide Here;
        var rest;
        rest, last, s1 := FindGap(comments, json, s2);
        gap := [sp] + rest;
        GapGrows(comments, sp, rest);
        HereJoins(json, s.pos, F.PrintSpace(sp), F.PrintGap(rest));
      }
    }
  }

  lemma BlankFound(comments: bool, json: string, p: nat)
    requires F.IsBlank(At(json, p))
    ensures p < |json| && F.ValidSpace(comments, F.Blank(At(json, p)))
    ensures Here(json, p, F.PrintSpace(F.Blank(At(json, p))))
    ensures F.PrintSpace(F.Blank(At(json, p))) == [At(json, p)]
  {
  }

  lemma GapGrows(comments: bool, sp: F.Space, rest: seq<F.Space>)
    requires F.ValidSpace(comments, sp) && F.ValidGap(comments, rest)
    ensures F.ValidGap(comments, [sp] + rest) && F.PrintGap([sp] + rest) == F.PrintSpace(sp) + F.PrintGap(rest)
  {
    hide F.ValidSpace, F.PrintSpace;
    assert ([sp] + rest)[1..] == rest;
  }

  // ---------------------------------------------------------------- strings

  lemma IsHexDigitIfRead(c: char)
    requires HexValue(c) != 0xFF
    ensures F.IsHexDigit(c)
  {
    var i := HexValue(c);
    assert c == F.LOWER[i] || c == F.UPPER[i];
  }

  lemma HexFound(json: string, p: nat)
    requires Hex4(json, p).Some?
    ensures p + 5 <= |json|
    ensures var hex := json[p + 1..p + 5];
            F.IsHex4(hex) && Here(json, p + 1, hex) && Hex4(json, p) == Some(F.CodeOf(hex)) && F.CodeOf(hex) < 0x1_0000
  {
    var hex := json[p + 1..p + 5];
    forall i | 0 <= i < 4 ensures F.IsHexDigit(hex[i]) {
      HexRead(json, p, i);
      IsHexDigitIfRead(hex[i]);
    }
    hide Hex4, F.IsHexDigit;
    Hex4Is(json, p, hex);
  }

  lemma HexRead(json: string, p: nat, i: nat)
    requires Hex4(json, p).Some? && i < 4
    ensures p + 5 <= |json| && HexValue(json[p + 1 + i]) != 0xFF
  {
    hide HexValue;
    assert HexValue(At(json, p + 1)) != 0xFF && HexValue(At(json, p + 2)) != 0xFF;
    assert HexValue(At(json, p + 3)) != 0xFF && HexValue(At(json, p + 4)) != 0xFF;
  }

  /** Behind a backslash stands a u. */
  lemma FindCode(json: string, v: View, f: Flags) returns (g: F.Glyph)
    requires 0 < v.pos < |json| && json[v.pos - 1] == '\\' && json[v.pos] == 'u' && DecideUnicode(json, v, f).Go?
    ensures F.ValidGlyph(g) && !g.Plain? && Here(json, v.pos - 1, F.PrintGlyph(g))
  {
    hide Hex4, F.CodeOf, F.IsHex4, Here, Utf8, Combine;
    var p := v.pos;
    HexFound(json, p);
    var hex := json[p + 1..p + 5];
    HereTwo(json, p - 1, '\\', 'u');
    HereJoins(json, p - 1, "\\u", hex);
    SurrogateIs(F.CodeOf(hex));
    if F.Surrogate(F.CodeOf(hex)) {
      HexFound(json, p + 6);
      var low := json[p + 7..p + 11];
      HereTwo(json, p + 5, '\\', 'u');
      HereJoins(json, p - 1, "\\u" + hex, "\\u");
      HereJoins(json, p - 1, "\\u" + hex + "\\u", low);
      g := F.Pair(hex, low);
    } else {
      g := F.Code(hex);
    }
  }

  lemma StringGoesOn(comments: bool, json: string, s: State)
    requires Accepted(comments, json, s) && s.f.str
    ensures s.pos < |json| && json[s.pos] != '\0' && s.strLen <= UINT_LIMIT
    ensures s.f == INSIDE.(escaped := true) && json[s.pos] == 'u' ==> DecideUnicode(json, ViewOf(s), INSIDE).Go?
  {
    hide DecideUnicode;
    NotRefused(comments, json, s);
  }

  lemma FindGlyph(comments: bool, json: string, s: State, t: nat) returns (g: F.Glyph)
    requires Accepted(comments, json, s) && Within(s, t) && s.pos < |json| && json[s.pos] != '"'
    ensures F.ValidGlyph(g) && Here(json, s.pos, F.PrintGlyph(g))
  {
    hide WF, Run, Decide, DecideUnicode, F.CodeOf, F.IsHexDigit;
    StringGoesOn(comments, json, s);
    var c := json[s.pos];
    HereOne(json, s.pos, c);
    if c != '\\' {
      g := F.Plain(c);
    } else {
      PassBackslash(true, comments, json, s, t, [c]);
      var s1 := s.(f := INSIDE.(escaped := true), pos := s.pos + 1);
      StringGoesOn(comments, json, s1);
      if json[s1.pos] == 'u' {
        g := FindCode(json, ViewOf(s1), INSIDE);
      } else {
        g := F.Short(json[s1.pos]);
        HereTwo(json, s.pos, c, json[s1.pos]);
      }
    }
  }

  /** What stands between two quotes. */
  lemma {:induction false} FindText(comments: bool, json: string, s: State, t: nat) returns (gs: seq<F.Glyph>)
    requires Accepted(comments, json, s) && s.f == INSIDE && s.top == Some(t) && t < |s.nodes|
    ensures F.ValidText(gs) && Here(json, s.pos, F.PrintText(gs) + "\"") && s.strLen + |F.Says(gs)| <= UINT_LIMIT
    decreases |json| - s.pos
  {
    hide WF, Run, F.ValidGlyph, F.PrintGlyph, F.Heard, Here;
    StringGoesOn(comments, json, s);
    if json[s.pos] == '"' {
      gs := [];
      HereOne(json, s.pos, '"');
      assert F.PrintText(gs) + "\"" == "\"";
    } else {
      var g := FindGlyph(comments, json, s, t);
      ReadGlyph(true, comments, json, s, t, g);
      var s1 := Took(true, s, t, |F.PrintGlyph(g)|, F.Heard(g));
      var rest := FindText(comments, json, s1, t);
      gs := [g] + rest;
      TextGrows(g, rest);
      HereJoins(json, s.pos, F.PrintGlyph(g), F.PrintText(rest) + "\"");
      assert F.PrintGlyph(g) + (F.PrintText(rest) + "\"") == F.PrintText(gs) + "\"";
    }
  }

  lemma TextGrows(g: F.Glyph, rest: seq<F.Glyph>)
    requires F.ValidGlyph(g) && F.ValidText(rest)
    ensures F.ValidText([g] + rest) && F.PrintText([g] + rest) == F.PrintGlyph(g) + F.PrintText(rest)
    ensures F.Says([g] + rest) == F.Heard(g) + F.Says(rest)
  {
    hide F.ValidGlyph, F.PrintGlyph, F.Heard;
    assert ([g] + rest)[1..] == rest;
  }

  // ---------------------------------------------------------------- numbers

  lemma DigitFound(c: char)
    requires IsDigit(c)
    ensures c in F.DIGITS
  {
    assert c == F.DIGITS[(c - '0') as int];
  }

  /** Behind a value no part of a number and no comment that pass 1 refused can stand. */
  lemma NoNumberBehind(comments: bool, json: string, v: View)
    requires v.pos <= |json| && v.f.needComma && !v.f.str && !v.f.line && !v.f.block && !v.f.needColon
    requires v.f.done || v.f.seek || v.top == Some(Object)
    requires InNumber(At(json, v.pos)) || (At(json, v.pos) == '/' && !comments)
    ensures Decide(true, comments, json, v).Refuse?
  {
  }

  lemma AfterNumber(comments: bool, json: string, s: State)
    requires Live(true, comments, json, s) && s.f == CLEAR && s.top.Some? && s.top.value < |s.nodes|
    requires IsNumber(s.nodes[s.top.value].kind)
    requires var d := Decide(true, comments, json, ViewOf(s)); d.Go? && d.act.NumEnd? && Apply(true, s, d).More?
    ensures var s1 := Apply(true, s, Decide(true, comments, json, ViewOf(s))).s;
            && s1.pos == s.pos && s1.f == NextFlags(CLEAR, KindAt(s1.nodes, s1.top)).(done := s1.f.done)
            && s1.f.needComma && !s1.f.str && !s1.f.line && !s1.f.block && !s1.f.needColon
            && (s1.f.done || s1.f.seek || KindAt(s1.nodes, s1.top) == Some(Object))
  {
    StepKeepsWF(true, comments, json, s);
    hide Decide;
    NumberEndKeeps(comments, json, ViewOf(s));
  }

  lemma NumberEndKeeps(comments: bool, json: string, v: View)
    requires v.pos <= |json| && v.f == CLEAR && v.top.Some? && IsNumber(v.top.value)
    ensures var d := Decide(true, comments, json, v);
            d.Go? && d.act.NumEnd? ==> d.pos == v.pos && d.f == NextFlags(v.f, v.parent)
  {
    hide HexValue;
  }

  lemma SlashIsRefused(json: string, v: View)
    requires v.pos <= |json| && At(json, v.pos) == '/' && v.f == CLEAR && v.top.Some? && v.top != Some(Object)
    ensures Decide(true, true, json, v).Refuse?
  {
  }

  /** Where pass 1 ends a number, nothing follows that pass 2 would take for a part of it. */
  lemma NumberStops(comments: bool, json: string, s: State)
    requires Accepted(comments, json, s) && s.f == CLEAR && s.top.Some? && s.top.value < |s.nodes|
    requires IsNumber(s.nodes[s.top.value].kind) && Decide(true, comments, json, ViewOf(s)).act.NumEnd?
    requires Decide(true, comments, json, ViewOf(s)).Go?
    ensures Stops(json, s.pos)
  {
    hide Decide, WF, Run, Apply;
    NotRefused(comments, json, s);
    var s1 := Apply(true, s, Decide(true, comments, json, ViewOf(s))).s;
    AfterNumber(comments, json, s);
    NotRefused(comments, json, s1);
    if InNumber(At(json, s.pos)) || (At(json, s.pos) == '/' && !comments) {
      NoNumberBehind(comments, json, ViewOf(s1));
    } else if At(json, s.pos) == '/' {
      SlashIsRefused(json, ViewOf(s));
    }
  }

  lemma DigitIsRefused(comments: bool, json: string, v: View)
    requires v.pos <= |json| && v.f == CLEAR && v.top == Some(Integer) && !v.num.exp && v.num.zero
    requires IsDigit(At(json, v.pos))
    ensures Decide(true, comments, json, v).Refuse?
  {
  }

  /** Digits so far, without a leading zero. */
  predicate Leading(digits: string) { F.AllDigits(digits) && (|digits| > 1 ==> digits[0] != '0') }

  /** The digits of an integer from here on. */
  lemma {:induction false} FindDigits(comments: bool, json: string, s: State, t: nat, read: string, minus: bool)
    returns (ds: string, s1: State)
    requires Accepted(comments, json, s) && Counting(s, t, read, minus) && Leading(read)
    ensures Here(json, s.pos, ds) && Leading(read + ds) && !IsDigit(At(json, s.pos + |ds|)) && s1.pos == s.pos + |ds|
    ensures Accepted(comments, json, s1) && Counting(s1, t, read + ds, minus)
    ensures IsDigit(At(json, s.pos)) ==> ds != ""
    decreases |json| - s.pos
  {
    hide WF, Run, Decide, F.NumberIn, F.Decimals, Here, F.AllDigits, HexValue;
    var c := At(json, s.pos);
    if !IsDigit(c) {
      ds, s1 := "", s;
      assert read + ds == read;
      HereNothing(json, s.pos);
    } else {
      if read == "0" {
        DigitIsRefused(comments, json, ViewOf(s));
        NotRefused(comments, json, s);
      }
      DigitFound(c);
      var s2 := OneDigit(comments, json, s, t, read, minus, c);
      var rest;
      OneMoreLeading(read, c);
      rest, s1 := FindDigits(comments, json, s2, t, read + [c], minus);
      ds := [c] + rest;
      HereOne(json, s.pos, c);
      HereJoins(json, s.pos, [c], rest);
      assert read + [c] + rest == read + ds;
    }
  }

  lemma OneMoreLeading(read: string, c: char)
    requires Leading(read) && read != "0" && c in F.DIGITS
    ensures Leading(read + [c])
  {
    var ds := read + [c];
    forall i | 0 <= i < |ds| ensures ds[i] in F.DIGITS {
      if i < |read| {
        assert ds[i] == read[i];
      }
    }
    assert |read| == 1 ==> read == [read[0]];
  }

  /** The digits of a fraction or an exponent. */
  lemma {:induction false} FindScanned(comments: bool, json: string, s: State, t: nat, n: Node) returns (ds: string)
    requires Accepted(comments, json, s) && Scanning(s, t, n) && n.kind.Double?
    ensures Here(json, s.pos, ds) && F.AllDigits(ds) && !IsDigit(At(json, s.pos + |ds|))
    ensures Accepted(comments, json, s.(num := PassedAll(s.num, ds), pos := s.pos + |ds|))
    decreases |json| - s.pos
  {
    hide WF, Run, Decide, PassedAll, Passed;
    var c := At(json, s.pos);
    if !IsDigit(c) {
      ds := "";
      NothingPassed(s.num);
    } else {
      DigitFound(c);
      ScanDigit(comments, json, s, t, n);
      var rest := FindScanned(comments, json, s.(num := Passed(s.num, c), pos := s.pos + 1), t, n);
      ds := [c] + rest;
      HereOne(json, s.pos, c);
      HereJoins(json, s.pos, [c], rest);
      PassedOne(s.num, ds);
    }
  }

  lemma DigitsComeAfter(comments: bool, json: string, v: View)
    requires v.pos <= |json| && v.f == CLEAR && v.top == Some(Double) && v.num.digits == 0 && !IsDigit(At(json, v.pos))
    requires v.num.exp ==> v.num.gotSign || (At(json, v.pos) != '+' && At(json, v.pos) != '-')
    ensures Decide(true, comments, json, v).Refuse?
  {
  }

  lemma PointComesAfter(comments: bool, json: string, v: View)
    requires v.pos <= |json| && v.f == CLEAR && v.top == Some(Integer) && v.num.digits == 0 && At(json, v.pos) == '.'
    ensures Decide(true, comments, json, v).Refuse?
  {
  }

  /** The fraction behind the first digits. */
  lemma FindFraction(comments: bool, json: string, s: State, t: nat, n: Node) returns (fraction: string)
    requires Accepted(comments, json, s) && Scanning(s, t, n) && n.kind.Integer? && !s.num.exp && !s.num.gotSign
    requires !IsDigit(At(json, s.pos))
    ensures F.AllDigits(fraction) && Here(json, s.pos, F.PrintFraction(fraction)) && (fraction != "" ==> s.num.digits > 0)
    ensures fraction == "" ==> At(json, s.pos) != '.'
    ensures !IsDigit(At(json, s.pos + |F.PrintFraction(fraction)|))
  {
    hide WF, Run, Decide, PassedAll;
    fraction := "";
    if At(json, s.pos) == '.' {
      NotRefused(comments, json, s);
      if s.num.digits == 0 {
        PointComesAfter(comments, json, ViewOf(s));
      }
      PointPasses(comments, json, ViewOf(s));
      var num, m := s.num.(digits := 0), n.(kind := Double);
      TakeDouble(comments, json, s, t, n, num);
      var a := s.(num := num, pos := s.pos + 1, nodes := s.nodes[t := m]);
      fraction := FindScanned(comments, json, a, t, m);
      HereOne(json, s.pos, '.');
      HereJoins(json, s.pos, ".", fraction);
      if fraction == "" {
        NotRefused(comments, json, a);
        DigitsComeAfter(comments, json, ViewOf(a));
      }
    }
  }

  lemma NumberIsOver(comments: bool, json: string, v: View)
    requires v.pos <= |json| && v.f == CLEAR && !IsDigit(At(json, v.pos)) && v.top.Some? && IsNumber(v.top.value)
    requires v.top == Some(Integer) ==> At(json, v.pos) != '.' && !v.num.exp
    requires v.num.exp ==> v.num.gotSign || (At(json, v.pos) != '+' && At(json, v.pos) != '-')
    requires !v.num.exp ==> At(json, v.pos) != 'e' && At(json, v.pos) != 'E'
    ensures var d := Decide(true, comments, json, v);
            d.Refuse? || (d.Go? && d.act.NumEnd?)
  {
  }

  lemma EndsHere(comments: bool, json: string, s: State, t: nat, n: Node)
    requires Accepted(comments, json, s) && Scanning(s, t, n) && !IsDigit(At(json, s.pos))
    requires n.kind.Integer? ==> At(json, s.pos) != '.' && !s.num.exp
    requires s.num.exp ==> s.num.gotSign || (At(json, s.pos) != '+' && At(json, s.pos) != '-')
    requires !s.num.exp ==> At(json, s.pos) != 'e' && At(json, s.pos) != 'E'
    ensures Stops(json, s.pos)
  {
    hide WF, Run, Decide;
    NotRefused(comments, json, s);
    NumberIsOver(comments, json, ViewOf(s));
    NumberStops(comments, json, s);
  }

  /** The exponent, if there is one, and the end of the number. */
  lemma FindExponent(comments: bool, json: string, s: State, t: nat, n: Node) returns (e: F.Exponent)
    requires Accepted(comments, json, s) && Scanning(s, t, n) && !s.num.exp && !s.num.gotSign
    requires !IsDigit(At(json, s.pos)) && (n.kind.Integer? ==> At(json, s.pos) != '.')
    requires n.kind.Double? ==> s.num.digits > 0
    ensures F.ValidExponent(e) && Here(json, s.pos, F.PrintExponent(e)) && Stops(json, s.pos + |F.PrintExponent(e)|)
  {
    hide WF, Run, Decide, Stops, F.AllDigits, Here, Measured, WithSign;
    var c := At(json, s.pos);
    if c != 'e' && c != 'E' {
      EndsHere(comments, json, s, t, n);
      HereNothing(json, s.pos);
      e := F.NoExponent;
    } else {
      LetterPasses(comments, json, ViewOf(s));
      var num, m := Measured(s.num, Some(n.kind)).(exp := true, digits := 0, zero := false), n.(kind := Double);
      TakeDouble(comments, json, s, t, n, num);
      SignComes(s.num, n.kind, "");
      var a := s.(num := num, pos := s.pos + 1, nodes := s.nodes[t := m]);
      var sign, digits := FindSignedPower(comments, json, a, t, m);
      e := F.Exponent(c, sign, digits);
      HereOne(json, s.pos, c);
      HereJoins(json, s.pos, [c], sign + digits);
    }
  }

  lemma FindSignedPower(comments: bool, json: string, s: State, t: nat, n: Node) returns (sign: string, digits: string)
    requires Accepted(comments, json, s) && Scanning(s, t, n) && n.kind.Double? && s.num.exp
    requires !s.num.gotSign && s.num.digits == 0
    ensures (sign == "" || sign == "+" || sign == "-") && digits != "" && F.AllDigits(digits)
    ensures Here(json, s.pos, sign + digits) && Stops(json, s.pos + |sign + digits|)
  {
    hide WF, Run, Decide, Stops, F.AllDigits, Here, WithSign;
    sign := SignAt(json, s.pos);
    SignStands(json, s.pos);
    ScanSign(comments, json, s, t, n, sign);
    SignIsSeen(s.num, sign);
    digits := FindPower(comments, json, s.(num := WithSign(s.num, sign), pos := s.pos + |sign|), t, n);
    HereJoins(json, s.pos, sign, digits);
  }

  lemma HereNothing(json: string, p: nat)
    requires p <= |json|
    ensures Here(json, p, "")
  {
  }

  function SignAt(json: string, p: nat): string {
    if At(json, p) == '+' || At(json, p) == '-' then [At(json, p)] else ""
  }

  lemma SignStands(json: string, p: nat)
    requires p <= |json|
    ensures Here(json, p, SignAt(json, p))
  {
  }

  lemma SignIsSeen(num: Num, sign: string)
    ensures var num1 := WithSign(num, sign);
            num1.digits == num.digits && num1.exp == num.exp && (sign != "" ==> num1.gotSign)
  {
  }

  lemma FindPower(comments: bool, json: string, s: State, t: nat, n: Node) returns (digits: string)
    requires Accepted(comments, json, s) && Scanning(s, t, n) && n.kind.Double? && s.num.exp && s.num.digits == 0
    requires s.num.gotSign || (At(json, s.pos) != '+' && At(json, s.pos) != '-')
    ensures digits != "" && F.AllDigits(digits) && Here(json, s.pos, digits) && Stops(json, s.pos + |digits|)
  {
    hide WF, Run, Decide, PassedAll, Stops;
    digits := FindScanned(comments, json, s, t, n);
    if digits == "" {
      NotRefused(comments, json, s);
      DigitsComeAfter(comments, json, ViewOf(s));
    } else {
      var s1 := s.(num := PassedAll(s.num, digits), pos := s.pos + |digits|);
      SignIsTaken(s.num, digits);
      EndsHere(comments, json, s1, t, n);
    }
  }

  lemma SignIsTaken(num: Num, ds: string)
    requires num.exp && ds != ""
    ensures PassedAll(num, ds).exp && PassedAll(num, ds).gotSign
  {
  }

  /** The sign and the first digits of the number that stands here. */
  lemma FindWhole(comments: bool, json: string, s: State, minus: bool) returns (digits: string, b: State)
    requires Accepted(comments, json, s) && s.f == READY && s.visited == |s.nodes|
    requires if minus then At(json, s.pos) == '-' else IsDigit(At(json, s.pos))
    ensures F.ValidDigits(minus, digits) && Here(json, s.pos, F.PrintWhole(minus, digits))
    ensures Accepted(comments, json, b) && b.pos == s.pos + |F.PrintWhole(minus, digits)| && !IsDigit(At(json, b.pos))
    ensures Counting(b, |s.nodes|, digits, minus)
  {
    hide WF, Run, Decide, F.NumberIn, F.Decimals, NewValue, Here, F.AllDigits;
    var t, sign := |s.nodes|, SignOf(minus);
    NumberDecision(comments, json, ViewOf(s), minus);
    var moved := s.(f := CLEAR, num := NO_NUM.(negative := minus), pos := s.pos + |sign|);
    NewNode(true, moved, Integer, s.pos, s.nodes, [], Fresh(Integer, s.top));
    var a := NewValue(true, moved, Integer, s.pos).s;
    OneStep(true, comments, json, s, a);
    assert a.nodes[t] == Fresh(Integer, s.top);
    NothingCounted(a, t, minus);
    NothingLeads();
    digits, b := FindDigits(comments, json, a, t, "", minus);
    assert "" + digits == digits;
    SignFound(json, s.pos);
    HereJoins(json, s.pos, sign, digits);
    FirstDigits(minus, digits);
  }

  /** The number that stands here. */
  lemma FindNumber(comments: bool, json: string, s: State) returns (w: F.Form)
    requires Accepted(comments, json, s) && s.f == READY && s.visited == |s.nodes|
    requires At(json, s.pos) == '-' || IsDigit(At(json, s.pos))
    ensures F.IsNumeral(w) && F.Valid(comments, w) && Here(json, s.pos, F.Print(w)) && Stops(json, s.pos + |F.Print(w)|)
  {
    hide WF, Run, Decide, PassedAll, Stops, F.NumberIn, F.Decimals, Here, F.AllDigits, F.ValidExponent, F.ValidDigits,
      F.PrintWhole, F.PrintFraction, F.PrintExponent, WithFraction;
    var minus, t := At(json, s.pos) == '-', |s.nodes|;
    var digits, b := FindWhole(comments, json, s, minus);
    var n := b.nodes[t];
    var fraction := FindFraction(comments, json, b, t, n);
    ScanFractionAgain(comments, json, b, t, n, fraction);
    var m := if fraction == "" then n else n.(kind := Double);
    var c := b.(num := WithFraction(b.num, fraction), pos := b.pos + |F.PrintFraction(fraction)|,
                nodes := b.nodes[t := m]);
    FractionIsCounted(b.num, fraction);
    NoFractionPrinted();
    var e := FindExponent(comments, json, c, t, m);
    w := Numeral(minus, digits, fraction, e);
    HereJoins(json, b.pos, F.PrintFraction(fraction), F.PrintExponent(e));
    HereJoins(json, s.pos, F.PrintWhole(minus, digits), F.PrintFraction(fraction) + F.PrintExponent(e));
    NumeralPrinted(minus, digits, fraction, e);
    hide F.Print;
  }

  lemma NoFractionPrinted()
    ensures F.PrintFraction("") == ""
  {
  }

  lemma NothingLeads()
    ensures Leading("")
  {
  }

  lemma SignFound(json: string, p: nat)
    requires p <= |json|
    ensures Here(json, p, SignOf(At(json, p) == '-'))
  {
  }

  lemma FirstDigits(minus: bool, digits: string)
    requires Leading(digits) && (!minus ==> digits != "")
    ensures F.ValidDigits(minus, digits)
  {
  }

  lemma ScanFractionAgain(comments: bool, json: string, s: State, t: nat, n: Node, fraction: string)
    requires Accepted(comments, json, s) && Scanning(s, t, n) && n.kind.Integer? && !s.num.exp
    requires Here(json, s.pos, F.PrintFraction(fraction)) && F.AllDigits(fraction) && (fraction != "" ==> s.num.digits > 0)
    ensures var m := if fraction == "" then n else n.(kind := Double);
            var s1 := s.(num := WithFraction(s.num, fraction), pos := s.pos + |F.PrintFraction(fraction)|,
                         nodes := s.nodes[t := m]);
            Accepted(comments, json, s1) && Scanning(s1, t, m)
  {
    hide WF, Run, WithFraction, F.AllDigits, Here;
    var s1 := ScanFraction(comments, json, s, t, n, fraction);
  }

  function Numeral(minus: bool, digits: string, fraction: string, e: F.Exponent): F.Form {
    if fraction == "" && e.NoExponent? then F.Whole(minus, digits) else F.Real(minus, digits, fraction, e)
  }

  lemma NumeralPrinted(minus: bool, digits: string, fraction: string, e: F.Exponent)
    ensures F.Print(Numeral(minus, digits, fraction, e))
            == F.PrintWhole(minus, digits) + (F.PrintFraction(fraction) + F.PrintExponent(e))
  {
    if fraction == "" && e.NoExponent? {
      assert F.PrintWhole(minus, digits) + ("" + "") == F.PrintWhole(minus, digits);
    }
  }

  // ---------------------------------------------------------------- words

  lemma FindWord(comments: bool, json: string, s: State) returns (w: F.Form)
    requires Accepted(comments, json, s) && s.f == READY && At(json, s.pos) in {'t', 'f', 'n'}
    ensures (w.Null? || w.Truth?) && Here(json, s.pos, F.Print(w))
  {
    hide WF, Run, Decide, Here, Apply;
    NotRefused(comments, json, s);
    var c := At(json, s.pos);
    w := if c == 'n' then F.Null else F.Truth(c == 't');
    WordFollows(comments, json, ViewOf(s));
    var rest := if c == 'n' then "ull" else if c == 't' then "rue" else "alse";
    HereOne(json, s.pos, c);
    HereJoins(json, s.pos, [c], rest);
    assert F.Print(w) == [c] + rest;
  }

  lemma WordFollows(comments: bool, json: string, v: View)
    requires v.pos <= |json| && v.f == READY && Decide(true, comments, json, v).Go?
    ensures var c := At(json, v.pos);
            c in {'t', 'f', 'n'} ==> Here(json, v.pos + 1, if c == 'n' then "ull" else if c == 't' then "rue" else "alse")
  {
  }
}
