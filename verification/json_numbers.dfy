/**
  How the machine reads words and numbers, in either pass: pass 1 takes in their digits and finds what
  they are worth, pass 2 passes over them.
 */
module JsonNumbers {
  import opened Optional
  import opened JsonMachine
  import opened JsonInvariant
  import opened JsonReading
  import opened JsonShapes
  import F = JsonForms

  /** What follows a number ends it. */
  predicate Stops(json: string, p: nat) { !InNumber(At(json, p)) && At(json, p) != '/' }

  /** The machine is looking for value w, which stands here; `done` are the nodes handed out so far. */
  ghost predicate Starts(first: bool, comments: bool, json: string, s: State, w: F.Form, done: seq<Node>, raw: seq<Node>) {
    && Live(first, comments, json, s) && F.Valid(comments, w) && Fits(w)
    && s.f == READY && s.visited == |done| && CanTake(first, done, s.top)
    && s.nodes == done + Ahead(first, Made(true, w, s.top, |done|)) + raw && (first ==> raw == [])
    && Here(json, s.pos, F.Print(w)) && (F.IsNumeral(w) ==> Stops(json, s.pos + |F.Print(w)|))
  }

  /** It has read it. */
  ghost predicate Arrives(first: bool, comments: bool, json: string, s: State, s1: State, w: F.Form,
                          done: seq<Node>, raw: seq<Node>)
    requires s.top.Some? ==> s.top.value < |done|
  {
    && Leads(first, comments, json, s, s1)
    && s1.pos == s.pos + |F.Print(w)| && s1.f == NextFlags(CLEAR, KindAt(done, s.top))
    && s1.top == (if s.top.None? then Some(|done|) else s.top)
    && s1.visited == |done| + SizeOf(w)
    && s1.nodes == Grown(first, done, s.top, |done|) + Made(first, w, s.top, |done|) + raw
  }

  lemma KindOfTop(first: bool, s: State, done: seq<Node>, rest: seq<Node>)
    requires CanTake(first, done, s.top) && s.nodes == done + rest
    ensures KindAt(s.nodes, s.top) == KindAt(done, s.top)
  {
  }

  // ---------------------------------------------------------------- words

  function WordOf(w: F.Form): Kind { if w.Truth? then Boolean(w.b) else Kind.Null }

  lemma WordDecision(first: bool, comments: bool, json: string, v: View, w: F.Form)
    requires (w.Null? || w.Truth?) && v.f == READY && Here(json, v.pos, F.Print(w))
    ensures Decide(first, comments, json, v)
            == Go(NextFlags(CLEAR, v.top), v.num, v.pos + |F.Print(w)|, NewLeaf(WordOf(w)))
  {
    var t := F.Print(w);
    HereFirst(json, v.pos, t);
    assert t[1..] == if w.Null? then "ull" else if w.b then "rue" else "alse";
  }

  /** A value of one node that new_value hands out finished. */
  lemma LandLeaf(first: bool, s: State, kind: Kind, at: nat, done: seq<Node>, n: Node, raw: seq<Node>) returns (s1: State)
    requires s.visited == |done| && CanTake(first, done, s.top) && (first ==> raw == [])
    requires s.nodes == done + Ahead(first, [n]) + raw && n.parent == s.top
    requires if first then n == Fresh(kind, s.top) else SameKind(n.kind, kind) && n == Allocate(n)
    ensures ThenFinish(first, NewValue(first, s, kind, at)) == More(s1)
    ensures s1.f == s.f && s1.pos == s.pos && s1.visited == |done| + 1
    ensures s1.top == (if s.top.None? then Some(|done|) else s.top)
    ensures s1.nodes == Grown(first, done, s.top, |done|) + [n] + raw
  {
    var ahead := Ahead(first, [n]) + raw;
    assert s.nodes == done + ahead;
    NewNode(first, s, kind, at, done, ahead, n);
    var mid := NewValue(first, s, kind, at).s;
    assert mid.nodes == done + [n] + raw;
    HangUp(first, mid, done, [n], raw, s.top);
    s1 := Finish(first, mid).s;
  }

  lemma ReadWord(first: bool, comments: bool, json: string, s: State, w: F.Form, done: seq<Node>, raw: seq<Node>)
    returns (s1: State)
    requires Starts(first, comments, json, s, w, done, raw) && (w.Null? || w.Truth?)
    ensures Arrives(first, comments, json, s, s1, w, done, raw)
  {
    hide Decide, WF, Run, Here, NewValue, Finish, Grown, Stops;
    WordDecision(first, comments, json, ViewOf(s), w);
    KindOfTop(first, s, done, Ahead(first, Made(true, w, s.top, |done|)) + raw);
    var moved := s.(f := NextFlags(CLEAR, KindAt(done, s.top)), pos := s.pos + |F.Print(w)|);
    s1 := LandLeaf(first, moved, WordOf(w), s.pos, done, Fresh(WordOf(w), s.top), raw);
    OneStep(first, comments, json, s, s1);
  }

  // ---------------------------------------------------------------- integers

  lemma DecimalIs(c: char)
    requires c in F.DIGITS
    ensures IsDigit(c) && HexValue(c) == F.IndexOf(c, F.DIGITS) < 10
  {
    F.IndexFits(c, F.DIGITS);
    TenDigits(F.IndexOf(c, F.DIGITS));
    hide F.IndexOf;
  }

  lemma TenDigits(i: nat)
    requires i < 10
    ensures HexValue(F.DIGITS[i]) == i && IsDigit(F.DIGITS[i])
  {
  }

  lemma MoreDecimals(ds: string, c: char)
    ensures F.NumberIn(10, F.Decimals(ds + [c])) == F.NumberIn(10, F.Decimals(ds)) * 10 + F.IndexOf(c, F.DIGITS)
  {
    assert F.Decimals(ds + [c]) == F.Decimals(ds) + [F.IndexOf(c, F.DIGITS)];
    F.NumberGrows(10, F.Decimals(ds), F.IndexOf(c, F.DIGITS));
  }

  /** Pass 1 within an integer: the digits `read` are taken in, and there may be more. */
  ghost predicate Counting(s: State, t: nat, read: string, minus: bool) {
    && s.f == CLEAR && s.top == Some(t) && t < |s.nodes| && s.nodes[t].kind.Integer?
    && s.num == NO_NUM.(digits := |read|, zero := read == "0", negative := minus)
    && s.nodes[t].integer == F.NumberIn(10, F.Decimals(read))
  }

  /** The number machine behind digit c of an integer. */
  function Counted(num: Num, c: char): Num { num.(digits := num.digits + 1, zero := num.digits == 0 && c == '0') }

  lemma DigitDecision(comments: bool, json: string, v: View, c: char)
    requires v.f == CLEAR && v.top == Some(Integer) && !v.num.exp && !v.num.zero
    requires v.pos < |json| && json[v.pos] == c && IsDigit(c)
    ensures Decide(true, comments, json, v) == Go(CLEAR, Counted(v.num, c), v.pos + 1, Digit(HexValue(c)))
  {
  }

  lemma OneDigit(comments: bool, json: string, s: State, t: nat, read: string, minus: bool, c: char) returns (s1: State)
    requires Live(true, comments, json, s) && Counting(s, t, read, minus) && read != "0"
    requires s.pos < |json| && json[s.pos] == c && c in F.DIGITS
    ensures Leads(true, comments, json, s, s1) && Counting(s1, t, read + [c], minus) && s1.pos == s.pos + 1
    ensures s1.visited == s.visited && s1.nodes == s.nodes[t := s.nodes[t].(integer := s1.nodes[t].integer)]
  {
    hide Decide, WF, HexValue, F.IndexOf, F.NumberIn, Run, F.Decimals;
    DecimalIs(c);
    MoreDecimals(read, c);
    DigitDecision(comments, json, ViewOf(s), c);
    var num1 := Counted(s.num, c);
    s1 := s.(num := num1, pos := s.pos + 1,
             nodes := s.nodes[t := s.nodes[t].(integer := s.nodes[t].integer * 10 + HexValue(c))]);
    OneStep(true, comments, json, s, s1);
    assert (read + [c])[|read|] == c && (read == "" ==> read + [c] == [c]);
  }

  lemma {:induction false} ReadDigits(comments: bool, json: string, s: State, t: nat, read: string, minus: bool, ds: string)
    returns (s1: State)
    requires Live(true, comments, json, s) && Counting(s, t, read, minus)
    requires Here(json, s.pos, ds) && F.ValidDigits(minus, read + ds)
    ensures Leads(true, comments, json, s, s1) && Counting(s1, t, read + ds, minus) && s1.pos == s.pos + |ds|
    ensures s1.visited == s.visited && s1.nodes == s.nodes[t := s.nodes[t].(integer := s1.nodes[t].integer)]
    decreases |ds|
  {
    hide Live, Run, F.NumberIn;
    if ds == "" {
      assert read + ds == read;
      s1 := s;
    } else {
      HereFirst(json, s.pos, ds);
      assert (read + ds)[|read|] == ds[0];
      assert (read + ds)[0] == if read == "" then ds[0] else read[0];
      s1 := OneDigit(comments, json, s, t, read, minus, ds[0]);
      assert read + [ds[0]] + ds[1..] == read + ds;
      var s2 := ReadDigits(comments, json, s1, t, read + [ds[0]], minus, ds[1..]);
      s1 := s2;
    }
  }

  function SignOf(minus: bool): string { if minus then "-" else "" }

  lemma NumberDecision(comments: bool, json: string, v: View, minus: bool)
    requires v.f == READY && v.pos <= |json| && (if minus then At(json, v.pos) == '-' else IsDigit(At(json, v.pos)))
    ensures Decide(true, comments, json, v)
            == Go(CLEAR, NO_NUM.(negative := minus), if minus then v.pos + 1 else v.pos, New(Integer))
  {
  }

  /** Pass 1 meets a number. */
  lemma NumberStarts(comments: bool, json: string, v: View, minus: bool, digits: string)
    requires v.f == READY && F.ValidDigits(minus, digits) && Here(json, v.pos, SignOf(minus) + digits)
    ensures Decide(true, comments, json, v)
            == Go(CLEAR, NO_NUM.(negative := minus), v.pos + |SignOf(minus)|, New(Integer))
    ensures Here(json, v.pos + |SignOf(minus)|, digits)
  {
    hide Decide, HexValue, F.IndexOf, At;
    HereParts(json, v.pos, SignOf(minus), digits);
    HereAt(json, v.pos, SignOf(minus) + digits, 0);
    if !minus {
      DecimalIs(digits[0]);
    }
    NumberDecision(comments, json, v, minus);
  }

  /** And leaves it behind its last digit. */
  lemma NumberEnds(comments: bool, json: string, v: View)
    requires v.f == CLEAR && v.top == Some(Integer) && !v.num.exp && v.pos <= |json| && Stops(json, v.pos)
    ensures Decide(true, comments, json, v)
            == Go(NextFlags(CLEAR, v.parent), v.num, v.pos, NumEnd)
  {
  }

  lemma {:induction false} SkipIs(json: string, p: nat, t: string)
    requires Here(json, p, t) && (forall i | 0 <= i < |t| :: InNumber(t[i])) && Stops(json, p + |t|)
    ensures SkipNumber(json, p) == p + |t|
    decreases |t|
  {
    if t != "" {
      HereFirst(json, p, t);
      SkipIs(json, p + 1, t[1..]);
    }
  }

  /** Pass 2 passes over the whole text of a number. */
  lemma NumberPassed(comments: bool, json: string, v: View, t: string)
    requires v.f == READY && Here(json, v.pos, t) && Stops(json, v.pos + |t|)
    requires t != "" && (forall i | 0 <= i < |t| :: InNumber(t[i])) && (t[0] == '-' || IsDigit(t[0]))
    ensures Decide(false, comments, json, v) == Go(NextFlags(CLEAR, v.top), v.num, v.pos + |t|, NewLeaf(Integer))
  {
    SkipIs(json, v.pos, t);
    HereAt(json, v.pos, t, 0);
    hide SkipNumber, Here, HexValue, At;
    PassDecision(comments, json, v);
  }

  lemma DigitsInNumber(digits: string)
    requires F.AllDigits(digits)
    ensures forall i | 0 <= i < |digits| :: InNumber(digits[i])
  {
    forall i | 0 <= i < |digits| ensures InNumber(digits[i]) {
      DecimalIs(digits[i]);
    }
  }

  predicate IsNumberText(t: string) {
    t != "" && (forall i | 0 <= i < |t| :: InNumber(t[i])) && (t[0] == '-' || IsDigit(t[0]))
  }

  lemma NumberTextGrows(a: string, b: string)
    requires IsNumberText(a) && forall i | 0 <= i < |b| :: InNumber(b[i])
    ensures IsNumberText(a + b)
  {
    hide InNumber;
  }

  lemma WholeIsNumber(minus: bool, digits: string)
    requires F.ValidDigits(minus, digits)
    ensures IsNumberText(F.PrintWhole(minus, digits))
  {
    hide HexValue, F.IndexOf;
    DigitsInNumber(digits);
    if minus {
      NumberTextGrows("-", digits);
    } else {
      DecimalIs(digits[0]);
      assert "" + digits == digits;
    }
  }

  lemma ExponentIsNumber(e: F.Exponent)
    requires F.ValidExponent(e)
    ensures forall i | 0 <= i < |F.PrintExponent(e)| :: InNumber(F.PrintExponent(e)[i])
  {
    if e.Exponent? {
      DigitsInNumber(e.digits);
    }
  }

  lemma FractionIsNumber(fraction: string)
    requires F.AllDigits(fraction)
    ensures forall i | 0 <= i < |F.PrintFraction(fraction)| :: InNumber(F.PrintFraction(fraction)[i])
  {
    DigitsInNumber(fraction);
  }

  lemma PrintedIsNumber(w: F.Form)
    requires F.IsNumeral(w) && F.Valid(false, w)
    ensures IsNumberText(F.Print(w))
  {
    hide F.PrintWhole, F.PrintFraction, F.PrintExponent, F.ValidDigits, F.AllDigits, F.ValidExponent, IsNumberText,
      InNumber;
    WholeIsNumber(w.minus, w.digits);
    if w.Real? {
      var a, b, c := F.PrintWhole(w.minus, w.digits), F.PrintFraction(w.fraction), F.PrintExponent(w.exponent);
      FractionIsNumber(w.fraction);
      ExponentIsNumber(w.exponent);
      NumberTextGrows(a, b);
      NumberTextGrows(a + b, c);
      assert a + b + c == a + (b + c);
    }
  }

  lemma PassDecision(comments: bool, json: string, v: View)
    requires v.f == READY && v.pos <= |json| && (At(json, v.pos) == '-' || IsDigit(At(json, v.pos)))
    ensures Decide(false, comments, json, v)
            == Go(NextFlags(CLEAR, v.top), v.num, SkipNumber(json, v.pos), NewLeaf(Integer))
  {
    hide SkipNumber;
  }

  lemma PassNumber(comments: bool, json: string, s: State, w: F.Form, done: seq<Node>, raw: seq<Node>)
    returns (s1: State)
    requires Starts(false, comments, json, s, w, done, raw) && F.IsNumeral(w)
    ensures Arrives(false, comments, json, s, s1, w, done, raw)
  {
    hide Decide, WF, Run, Here, NewValue, Finish, Grown, F.WholeNumber, Stops, F.ValidDigits, InNumber, F.Print,
      F.ValidExponent, F.AllDigits;
    PrintedIsNumber(w);
    NumberPassed(comments, json, ViewOf(s), F.Print(w));
    var n := Made(true, w, s.top, |done|)[0];
    KindOfTop(false, s, done, [n] + raw);
    assert s.nodes == done + ([n] + raw);
    var moved := s.(f := NextFlags(CLEAR, KindAt(done, s.top)), pos := s.pos + |F.Print(w)|);
    s1 := LandLeaf(false, moved, Integer, s.pos, done, n, raw);
    OneStep(false, comments, json, s, s1);
  }

  /** Pass 1 has read the digits. */
  lemma EndWhole(comments: bool, json: string, b: State, w: F.Form, done: seq<Node>, top: Option<nat>) returns (s1: State)
    requires Live(true, comments, json, b) && w.Whole? && CanTake(true, done, top)
    requires Counting(b, |done|, w.digits, w.minus) && b.visited == |done| + 1 && Stops(json, b.pos)
    requires b.nodes == done + [Fresh(Integer, top).(integer := b.nodes[|done|].integer)]
    ensures Leads(true, comments, json, b, s1) && s1.pos == b.pos && s1.f == NextFlags(CLEAR, KindAt(done, top))
    ensures s1.top == (if top.None? then Some(|done|) else top) && s1.visited == b.visited
    ensures s1.nodes == Grown(true, done, top, |done|) + [WholeNode(top, F.WholeNumber(w.minus, w.digits))]
  {
    hide Decide, WF, Run, F.NumberIn, Stops, Finish, Grown, F.ValidDigits, F.Decimals;
    NumberEnds(comments, json, ViewOf(b));
    var n := WholeNode(top, F.WholeNumber(w.minus, w.digits));
    assert KindAt(b.nodes, top) == KindAt(done, top);
    var c := b.(f := NextFlags(CLEAR, KindAt(done, top)), nodes := b.nodes[|done| := n]);
    assert c.nodes == done + [n] + [];
    HangUp(true, c, done, [n], [], top);
    s1 := Finish(true, c).s;
    assert s1.nodes == Grown(true, done, top, |done|) + [n];
    OneStep(true, comments, json, b, s1);
  }

  /** The first digits of a number. */
  lemma BeginNumber(comments: bool, json: string, s: State, minus: bool, digits: string, done: seq<Node>) returns (b: State)
    requires Live(true, comments, json, s) && s.f == READY && s.visited == |done| && s.nodes == done
    requires F.ValidDigits(minus, digits) && Here(json, s.pos, F.PrintWhole(minus, digits))
    ensures Leads(true, comments, json, s, b) && Counting(b, |done|, digits, minus)
    ensures b.pos == s.pos + |F.PrintWhole(minus, digits)| && b.visited == |done| + 1
    ensures b.nodes == done + [Fresh(Integer, s.top).(integer := b.nodes[|done|].integer)]
  {
    hide Decide, WF, Run, Here, F.NumberIn, NewValue, F.ValidDigits, F.Decimals;
    var t, sign := |done|, SignOf(minus);
    NumberStarts(comments, json, ViewOf(s), minus, digits);
    var moved := s.(f := CLEAR, num := NO_NUM.(negative := minus), pos := s.pos + |sign|);
    NewNode(true, moved, Integer, s.pos, done, [], Fresh(Integer, s.top));
    var a := NewValue(true, moved, Integer, s.pos).s;
    OneStep(true, comments, json, s, a);
    assert a.nodes == done + [Fresh(Integer, s.top)];
    NothingCounted(a, t, minus);
    assert "" + digits == digits;
    b := ReadDigits(comments, json, a, t, "", minus, digits);
  }

  lemma MeasureWhole(comments: bool, json: string, s: State, w: F.Form, done: seq<Node>) returns (s1: State)
    requires Starts(true, comments, json, s, w, done, []) && w.Whole?
    ensures Arrives(true, comments, json, s, s1, w, done, [])
  {
    hide WF, Run, Here, F.NumberIn, Stops, F.ValidDigits, F.WholeNumber, F.Decimals, CanTake, Grown, F.PrintWhole;
    assert s.nodes == done;
    var b := BeginNumber(comments, json, s, w.minus, w.digits, done);
    s1 := EndWhole(comments, json, b, w, done, s.top);
    WholeIsMade(s.top, w, done);
  }

  lemma NothingCounted(a: State, t: nat, minus: bool)
    requires a.f == CLEAR && a.top == Some(t) && t < |a.nodes| && a.nodes[t] == Fresh(Integer, a.nodes[t].parent)
    requires a.num == NO_NUM.(negative := minus)
    ensures Counting(a, t, "", minus)
  {
  }

  lemma WholeIsMade(top: Option<nat>, w: F.Form, done: seq<Node>)
    requires w.Whole? && CanTake(true, done, top)
    ensures Grown(true, done, top, |done|) + Made(true, w, top, |done|) + []
            == Grown(true, done, top, |done|) + [WholeNode(top, F.WholeNumber(w.minus, w.digits))]
  {
  }

  lemma ReadWhole(first: bool, comments: bool, json: string, s: State, w: F.Form, done: seq<Node>, raw: seq<Node>)
    returns (s1: State)
    requires Starts(first, comments, json, s, w, done, raw) && w.Whole?
    ensures Arrives(first, comments, json, s, s1, w, done, raw)
  {
    if first {
      s1 := MeasureWhole(comments, json, s, w, done);
    } else {
      s1 := PassNumber(comments, json, s, w, done, raw);
    }
  }

  // ---------------------------------------------------------------- fractions and exponents

  lemma PointPasses(comments: bool, json: string, v: View)
    requires v.f == CLEAR && v.top == Some(Integer) && v.num.digits > 0 && v.pos < |json| && json[v.pos] == '.'
    ensures Decide(true, comments, json, v) == Go(CLEAR, v.num.(digits := 0), v.pos + 1, ToDouble)
  {
  }

  /** The number machine knows how long the fraction is when it is over. */
  function Measured(num: Num, top: Option<Kind>): Num {
    if top == Some(Double) && !num.exp then num.(places := num.digits) else num
  }

  lemma LetterPasses(comments: bool, json: string, v: View)
    requires v.f == CLEAR && !v.num.exp && v.pos < |json| && (json[v.pos] == 'e' || json[v.pos] == 'E')
    requires v.top == Some(Integer) || (v.top == Some(Double) && v.num.digits > 0)
    ensures Decide(true, comments, json, v)
            == Go(CLEAR, Measured(v.num, v.top).(exp := true, digits := 0, zero := false), v.pos + 1, ToDouble)
  {
  }

  lemma SignPasses(comments: bool, json: string, v: View)
    requires v.f == CLEAR && v.top == Some(Double) && v.num.exp && !v.num.gotSign
    requires v.pos < |json| && (json[v.pos] == '+' || json[v.pos] == '-')
    ensures Decide(true, comments, json, v)
            == Go(CLEAR, v.num.(gotSign := true, down := json[v.pos] == '-'), v.pos + 1, Skip)
  {
  }

  /** The number machine behind a digit of a fraction or an exponent. */
  function Passed(num: Num, c: char): Num {
    if num.exp then num.(digits := num.digits + 1, gotSign := true, power := num.power * 10 + HexValue(c))
    else num.(digits := num.digits + 1, fraction := num.fraction * 10 + HexValue(c))
  }

  lemma DigitPasses(comments: bool, json: string, v: View)
    requires v.f == CLEAR && v.top == Some(Double) && v.pos < |json| && IsDigit(json[v.pos])
    ensures Decide(true, comments, json, v) == Go(CLEAR, Passed(v.num, json[v.pos]), v.pos + 1, Skip)
  {
  }

  lemma RealEnds(comments: bool, json: string, v: View)
    requires v.f == CLEAR && v.top == Some(Double) && v.num.digits > 0 && v.pos <= |json| && Stops(json, v.pos)
    ensures Decide(true, comments, json, v) == Go(NextFlags(CLEAR, v.parent), Measured(v.num, v.top), v.pos, NumEnd)
  {
  }

  /** Pass 1 behind the first digits of a number; `n` is its node. */
  ghost predicate Scanning(s: State, t: nat, n: Node) {
    s.f == CLEAR && s.top == Some(t) && t < |s.nodes| && s.nodes[t] == n && IsNumber(n.kind)
  }

  lemma TakeSkip(comments: bool, json: string, s: State, t: nat, n: Node, num: Num)
    requires Live(true, comments, json, s) && Scanning(s, t, n)
    requires Decide(true, comments, json, ViewOf(s)) == Go(CLEAR, num, s.pos + 1, Skip)
    ensures Leads(true, comments, json, s, s.(num := num, pos := s.pos + 1))
  {
    hide Decide, WF, Run;
    OneStep(true, comments, json, s, s.(num := num, pos := s.pos + 1));
  }

  lemma TakeDouble(comments: bool, json: string, s: State, t: nat, n: Node, num: Num)
    requires Live(true, comments, json, s) && Scanning(s, t, n)
    requires Decide(true, comments, json, ViewOf(s)) == Go(CLEAR, num, s.pos + 1, ToDouble)
    ensures Leads(true, comments, json, s, s.(num := num, pos := s.pos + 1, nodes := s.nodes[t := n.(kind := Double)]))
  {
    hide Decide, WF, Run;
    OneStep(true, comments, json, s, s.(num := num, pos := s.pos + 1, nodes := s.nodes[t := n.(kind := Double)]));
  }

  /** acc with some digits behind it. */
  function Appended(acc: nat, ds: string): nat
    decreases |ds|
  {
    if ds == "" then acc else Appended(acc * 10 + F.IndexOf(ds[0], F.DIGITS), ds[1..])
  }

  lemma {:induction false} AppendedIs(read: string, ds: string)
    ensures Appended(F.NumberIn(10, F.Decimals(read)), ds) == F.NumberIn(10, F.Decimals(read + ds))
    decreases |ds|
  {
    hide F.NumberIn, F.Decimals, F.IndexOf;
    if ds == "" {
      assert read + ds == read;
    } else {
      MoreDecimals(read, ds[0]);
      AppendedIs(read + [ds[0]], ds[1..]);
      assert read + [ds[0]] + ds[1..] == read + ds;
    }
  }

  lemma AppendedToNothing(ds: string)
    ensures Appended(0, ds) == F.NumberIn(10, F.Decimals(ds))
  {
    AppendedIs("", ds);
    assert "" + ds == ds && F.Decimals("") == [];
  }

  /** The number machine behind some digits of a fraction or an exponent. */
  function PassedAll(num: Num, ds: string): Num {
    if ds == "" then num
    else if num.exp then
      num.(digits := num.digits + |ds|, gotSign := true, power := Appended(num.power, ds))
    else num.(digits := num.digits + |ds|, fraction := Appended(num.fraction, ds))
  }

  lemma PassedOne(num: Num, ds: string)
    requires ds != "" && ds[0] in F.DIGITS
    ensures PassedAll(Passed(num, ds[0]), ds[1..]) == PassedAll(num, ds)
  {
    hide HexValue, Appended;
    AppendedNext(num.power, ds);
    AppendedNext(num.fraction, ds);
  }

  lemma AppendedNext(acc: nat, ds: string)
    requires ds != "" && ds[0] in F.DIGITS
    ensures var next := acc * 10 + HexValue(ds[0]);
            Appended(acc, ds) == Appended(next, ds[1..]) && Appended(next, "") == next
  {
    DecimalIs(ds[0]);
    hide HexValue, F.IndexOf;
  }

  /** Digits of a fraction or an exponent. */
  lemma {:induction false} ScanDigits(comments: bool, json: string, s: State, t: nat, n: Node, ds: string)
    requires Live(true, comments, json, s) && Scanning(s, t, n) && n.kind.Double? && Here(json, s.pos, ds)
    requires F.AllDigits(ds)
    ensures Leads(true, comments, json, s, s.(num := PassedAll(s.num, ds), pos := s.pos + |ds|))
    decreases |ds|
  {
    hide Live, Run, Decide, Here, HexValue, F.IndexOf, Passed, PassedAll;
    if ds == "" {
      assert PassedAll(s.num, ds) == s.num by { NothingPassed(s.num); }
    } else {
      HereFirst(json, s.pos, ds);
      DecimalIs(ds[0]);
      ScanDigit(comments, json, s, t, n);
      PassedOne(s.num, ds);
      ScanDigits(comments, json, s.(num := Passed(s.num, ds[0]), pos := s.pos + 1), t, n, ds[1..]);
    }
  }

  lemma NothingPassed(num: Num)
    ensures PassedAll(num, "") == num
  {
  }

  lemma ScanDigit(comments: bool, json: string, s: State, t: nat, n: Node)
    requires Live(true, comments, json, s) && Scanning(s, t, n) && n.kind.Double? && s.pos < |json| && IsDigit(json[s.pos])
    ensures Leads(true, comments, json, s, s.(num := Passed(s.num, json[s.pos]), pos := s.pos + 1))
  {
    hide WF, Run, Decide, Passed;
    DigitPasses(comments, json, ViewOf(s));
    TakeSkip(comments, json, s, t, n, Passed(s.num, json[s.pos]));
  }

  /** The number machine behind a fraction. */
  function WithFraction(num: Num, fraction: string): Num {
    if fraction == "" then num else PassedAll(num.(digits := 0), fraction)
  }

  lemma ScanFraction(comments: bool, json: string, s: State, t: nat, n: Node, fraction: string) returns (s1: State)
    requires Live(true, comments, json, s) && Scanning(s, t, n) && n.kind.Integer? && !s.num.exp
    requires Here(json, s.pos, F.PrintFraction(fraction)) && F.AllDigits(fraction) && (fraction != "" ==> s.num.digits > 0)
    ensures Leads(true, comments, json, s, s1)
    ensures var m := if fraction == "" then n else n.(kind := Double);
            && Scanning(s1, t, m)
            && s1 == s.(num := WithFraction(s.num, fraction), pos := s.pos + |F.PrintFraction(fraction)|,
                        nodes := s.nodes[t := m])
  {
    hide Run, WF, Decide, Here, PassedAll;
    if fraction == "" {
      assert s.nodes[t := n] == s.nodes;
      s1 := s;
    } else {
      HereParts(json, s.pos, ".", fraction);
      HereFirst(json, s.pos, ".");
      PointPasses(comments, json, ViewOf(s));
      var num, m := s.num.(digits := 0), n.(kind := Double);
      TakeDouble(comments, json, s, t, n, num);
      var a := s.(num := num, pos := s.pos + 1, nodes := s.nodes[t := m]);
      ScanDigits(comments, json, a, t, m, fraction);
      s1 := a.(num := PassedAll(a.num, fraction), pos := a.pos + |fraction|);
    }
  }

  /** The number machine behind the sign of an exponent. */
  function WithSign(num: Num, sign: string): Num {
    if sign == "" then num else num.(gotSign := true, down := sign == "-")
  }

  lemma ScanSign(comments: bool, json: string, s: State, t: nat, n: Node, sign: string)
    requires Live(true, comments, json, s) && Scanning(s, t, n) && n.kind.Double? && s.num.exp && !s.num.gotSign
    requires Here(json, s.pos, sign) && (sign == "" || sign == "+" || sign == "-")
    ensures Leads(true, comments, json, s, s.(num := WithSign(s.num, sign), pos := s.pos + |sign|))
  {
    hide Run, WF, Decide, Here;
    if sign != "" {
      HereFirst(json, s.pos, sign);
      SignPasses(comments, json, ViewOf(s));
      TakeSkip(comments, json, s, t, n, WithSign(s.num, sign));
    }
  }

  /** The number machine behind an exponent. */
  function WithExponent(num: Num, kind: Kind, e: F.Exponent): Num {
    if e.NoExponent? then num
    else
      PassedAll(WithSign(Measured(num, Some(kind)).(exp := true, digits := 0, zero := false), e.sign), e.digits)
  }

  lemma ScanExponent(comments: bool, json: string, s: State, t: nat, n: Node, e: F.Exponent) returns (s1: State)
    requires Live(true, comments, json, s) && Scanning(s, t, n) && !s.num.exp && !s.num.gotSign
    requires Here(json, s.pos, F.PrintExponent(e)) && F.ValidExponent(e)
    requires if n.kind.Double? then s.num.digits > 0 else e.Exponent?
    ensures Leads(true, comments, json, s, s1)
    ensures var m := n.(kind := Double);
            && Scanning(s1, t, m)
            && s1 == s.(num := WithExponent(s.num, n.kind, e), pos := s.pos + |F.PrintExponent(e)|,
                        nodes := s.nodes[t := m])
  {
    hide Run, WF, Decide, Here, F.AllDigits, PassedAll, WithSign, Measured;
    if e.NoExponent? {
      assert s.nodes[t := n.(kind := Double)] == s.nodes;
      s1 := s;
    } else {
      HereParts(json, s.pos, [e.letter], e.sign + e.digits);
      HereFirst(json, s.pos, [e.letter]);
      HereParts(json, s.pos + 1, e.sign, e.digits);
      LetterPasses(comments, json, ViewOf(s));
      var num, m := Measured(s.num, Some(n.kind)).(exp := true, digits := 0, zero := false), n.(kind := Double);
      SignComes(s.num, n.kind, e.sign);
      TakeDouble(comments, json, s, t, n, num);
      var a := s.(num := num, pos := s.pos + 1, nodes := s.nodes[t := m]);
      ScanSign(comments, json, a, t, m, e.sign);
      var b := a.(num := WithSign(a.num, e.sign), pos := a.pos + |e.sign|);
      ScanDigits(comments, json, b, t, m, e.digits);
      s1 := b.(num := PassedAll(b.num, e.digits), pos := b.pos + |e.digits|);
    }
  }

  lemma SignComes(num: Num, kind: Kind, sign: string)
    ensures var a := Measured(num, Some(kind)).(exp := true, digits := 0, zero := false);
            a.gotSign == num.gotSign && WithSign(a, sign).exp
  {
  }

  // ---------------------------------------------------------------- what a real number is worth

  lemma Regroup(a: real, b: real)
    ensures 10.0 * (a * b) == a * (10.0 * b) && (10.0 * a) * (b / 10.0) == a * b
  {
    assert b == 10.0 * (b / 10.0);
    Thrice(a, 10.0, b / 10.0);
  }

  lemma Thrice(a: real, b: real, c: real)
    ensures a * (b * c) == (b * a) * c
  {
  }

  lemma {:induction false} PowersAgree(n: nat)
    ensures PowerOfTen(n) == F.TenTo(n) && F.TenTo(n) * F.TenTo(0 - n) == 1.0
  {
    if n > 0 {
      PowersAgree(n - 1);
      TenToNext(n - 1);
      TenToNext(0 - n);
      assert PowerOfTen(n) == 10.0 * PowerOfTen(n - 1);
      hide F.TenTo, PowerOfTen;
      Regroup(F.TenTo(n - 1), F.TenTo(0 - (n - 1)));
      assert F.TenTo(0 - n) == F.TenTo(0 - (n - 1)) / 10.0;
    }
  }

  lemma {:induction false} TenToSum(j: int, k: nat)
    ensures F.TenTo(j + k) == F.TenTo(j) * F.TenTo(k)
    decreases k
  {
    hide F.TenTo;
    if k == 0 {
      TenToZero();
    } else {
      TenToSum(j, k - 1);
      TenToNext(j + k - 1);
      TenToNext(k - 1);
      Regroup(F.TenTo(j), F.TenTo(k - 1));
    }
  }

  lemma TenToNext(j: int)
    ensures F.TenTo(j + 1) == 10.0 * F.TenTo(j)
  {
  }

  /** 10^(e - f) is 10^e divided by 10^f. */
  lemma TenToDifference(e: int, f: nat)
    ensures F.TenTo(e - f) == F.TenTo(e) / F.TenTo(f)
  {
    TenToSum(e - f, f);
    var a, b, c := F.TenTo(e - f), F.TenTo(f), F.TenTo(e);
    hide F.TenTo;
    Divided(a, b, c);
  }

  lemma Divided(a: real, b: real, c: real)
    requires b > 0.0 && c == a * b
    ensures a == c / b
  {
  }

  /** The digits of a number and those of its fraction, read as one. */
  lemma {:induction false} DigitsJoin(ds: string, fs: string)
    ensures F.NumberIn(10, F.Decimals(ds + fs)) as real
            == F.NumberIn(10, F.Decimals(ds)) as real * F.TenTo(|fs|) + F.NumberIn(10, F.Decimals(fs)) as real
    decreases |fs|
  {
    hide F.NumberIn, F.Decimals, F.IndexOf;
    if fs == "" {
      assert ds + fs == ds;
      assert F.NumberIn(10, F.Decimals("")) == 0 by { AppendedToNothing(""); }
    } else {
      var init, c := fs[..|fs| - 1], fs[|fs| - 1];
      DigitsJoin(ds, init);
      assert init + [c] == fs && ds + init + [c] == ds + fs;
      MoreDecimals(ds + init, c);
      MoreDecimals(init, c);
      TenToNext(|init|);
      Spread(F.NumberIn(10, F.Decimals(ds)) as real, F.TenTo(|init|), F.NumberIn(10, F.Decimals(init)) as real,
             F.IndexOf(c, F.DIGITS) as real);
    }
  }

  lemma Spread(a: real, p: real, b: real, d: real)
    ensures (a * p + b) * 10.0 + d == a * (10.0 * p) + (b * 10.0 + d)
  {
  }

  /** The number machine where a number is over. */
  function FinalNum(minus: bool, digits: string, fraction: string, e: F.Exponent): Num {
    var read := NO_NUM.(digits := |digits|, zero := digits == "0", negative := minus);
    var kind := if fraction == "" then Integer else Double;
    Measured(WithExponent(WithFraction(read, fraction), kind, e), Some(Double))
  }

  lemma FinalNumIs(minus: bool, digits: string, fraction: string, e: F.Exponent)
    requires F.ValidExponent(e) && (fraction != "" || e.Exponent?)
    ensures var num := FinalNum(minus, digits, fraction, e);
            && num.negative == minus && num.fraction == F.NumberIn(10, F.Decimals(fraction)) && num.places == |fraction|
            && (if e.NoExponent? then num.power == 0 && !num.down
                else num.power == F.NumberIn(10, F.Decimals(e.digits)) && num.down == (e.sign == "-"))
            && num.digits > 0
  {
    hide F.NumberIn, F.Decimals, F.AllDigits, Appended;
    AppendedToNothing(fraction);
    if e.Exponent? {
      AppendedToNothing(e.digits);
    }
    AppendedToNothing("");
    assert F.NumberIn(10, F.Decimals("")) == 0 by { NoDecimals(); }
  }

  lemma NoDecimals()
    ensures F.NumberIn(10, F.Decimals("")) == 0
  {
    assert F.Decimals("") == [];
  }

  /** The parts of a number that is over are worth its digits times a power of ten. */
  lemma PartsAreWorth(n: nat, num: Num, power: int)
    requires power == if num.down then 0 - num.power else num.power
    ensures DoubleOf(n, num)
            == (n as real * F.TenTo(num.places) + num.fraction as real) * F.TenTo(power - num.places)
  {
    var p, q := F.TenTo(num.places), F.TenTo(power);
    PowersAgree(num.places);
    PowersAgree(num.power);
    TenToDifference(power, num.places);
    hide F.TenTo, PowerOfTen;
    ScaledIs(n as real, num.fraction as real, p, q);
    if num.down {
      Reciprocal(n as real + num.fraction as real / p, F.TenTo(num.power), q);
    }
  }

  /** And that is the number that is written. */
  lemma RealIsWorth(minus: bool, digits: string, fraction: string, e: F.Exponent)
    requires F.ValidExponent(e) && (fraction != "" || e.Exponent?)
    ensures var x := DoubleOf(F.NumberIn(10, F.Decimals(digits)), FinalNum(minus, digits, fraction, e));
            (if minus then -x else x) == F.Scaled(F.Mantissa(minus, digits, fraction), F.Power(fraction, e))
  {
    hide F.NumberIn, F.Decimals, FinalNum, F.TenTo, F.AllDigits, DoubleOf;
    FinalNumIs(minus, digits, fraction, e);
    PartsAreWorth(F.NumberIn(10, F.Decimals(digits)), FinalNum(minus, digits, fraction, e), F.ExponentOf(e));
    DigitsJoin(digits, fraction);
    NegatedTimes(F.NumberIn(10, F.Decimals(digits + fraction)), F.TenTo(F.Power(fraction, e)));
  }

  lemma TenToZero()
    ensures F.TenTo(0) == 1.0 && PowerOfTen(0) == 1.0
  {
  }

  lemma NegatedTimes(m: nat, x: real)
    ensures (-(m as int)) as real * x == -(m as real * x)
  {
  }

  lemma ScaledIs(n: real, f: real, p: real, q: real)
    requires p > 0.0
    ensures (n + f / p) * q == (n * p + f) * (q / p)
  {
    assert f / p * p == f;
    assert n * p + f == (n + f / p) * p;
    assert q / p * p == q;
    assert (n + f / p) * p * (q / p) == (n + f / p) * (p * (q / p));
  }

  lemma Reciprocal(x: real, a: real, b: real)
    requires a > 0.0 && a * b == 1.0
    ensures x / a == x * b
  {
    assert x == x * (a * b) == (x * b) * a;
  }

  /** Pass 1 at the end of a number with a fraction or an exponent. */
  lemma EndReal(comments: bool, json: string, b: State, n: Node, done: seq<Node>, top: Option<nat>) returns (s1: State)
    requires Live(true, comments, json, b) && Scanning(b, |done|, n) && n.kind.Double? && n.parent == top
    requires CanTake(true, done, top) && b.visited == |done| + 1 && Stops(json, b.pos) && b.num.digits > 0
    requires b.nodes == done + [n]
    ensures Leads(true, comments, json, b, s1) && s1.pos == b.pos && s1.f == NextFlags(CLEAR, KindAt(done, top))
    ensures s1.top == (if top.None? then Some(|done|) else top) && s1.visited == b.visited
    ensures s1.nodes == Grown(true, done, top, |done|) + [Signed(n, Measured(b.num, Some(Double)))]
  {
    hide Decide, WF, Run, Stops, Finish, Grown, Signed, Measured;
    RealEnds(comments, json, ViewOf(b));
    assert KindAt(b.nodes, top) == KindAt(done, top);
    var num := Measured(b.num, Some(Double));
    var m := Signed(n, num);
    SignedKeeps(n, num);
    var c := b.(f := NextFlags(CLEAR, KindAt(done, top)), num := num, nodes := b.nodes[|done| := m]);
    assert c.nodes == done + [m] + [];
    HangUp(true, c, done, [m], [], top);
    s1 := Finish(true, c).s;
    assert s1.nodes == Grown(true, done, top, |done|) + [m];
    OneStep(true, comments, json, b, s1);
  }

  lemma SignedKeeps(n: Node, num: Num)
    ensures Signed(n, num).parent == n.parent && Signed(n, num).kind == n.kind
  {
  }

  lemma MeasureReal(comments: bool, json: string, s: State, w: F.Form, done: seq<Node>) returns (s1: State)
    requires Starts(true, comments, json, s, w, done, []) && w.Real?
    ensures Arrives(true, comments, json, s, s1, w, done, [])
  {
    hide WF, Run, Here, F.NumberIn, Stops, F.Decimals, Grown, F.PrintWhole, F.PrintFraction, F.PrintExponent,
      F.ValidExponent, F.AllDigits, WithFraction, WithExponent, Measured, Signed, F.Scaled, F.Mantissa, F.Power;
    var t := |done|;
    HereParts(json, s.pos, F.PrintWhole(w.minus, w.digits), F.PrintFraction(w.fraction) + F.PrintExponent(w.exponent));
    HereParts(json, s.pos + |F.PrintWhole(w.minus, w.digits)|, F.PrintFraction(w.fraction), F.PrintExponent(w.exponent));
    assert s.nodes == done;
    var b := BeginNumber(comments, json, s, w.minus, w.digits, done);
    var n := b.nodes[t];
    FractionIsCounted(b.num, w.fraction);
    var c := ScanFraction(comments, json, b, t, n, w.fraction);
    var d := ScanExponent(comments, json, c, t, c.nodes[t], w.exponent);
    var m := Fresh(Double, s.top).(integer := F.WholeNumber(false, w.digits));
    assert d.nodes == done + [m];
    FinalNumIs(w.minus, w.digits, w.fraction, w.exponent);
    MeasuredKeeps(d.num);
    s1 := EndReal(comments, json, d, m, done, s.top);
    RealIsMade(w, s.top, t);
    var all := Grown(true, done, s.top, t) + Made(true, w, s.top, t);
    assert all + [] == all;
  }

  lemma MeasuredKeeps(num: Num)
    ensures Measured(num, Some(Double)).digits == num.digits
  {
  }

  lemma FractionIsCounted(num: Num, fraction: string)
    requires !num.exp && !num.gotSign
    ensures var m := WithFraction(num, fraction);
            !m.exp && !m.gotSign && (fraction != "" ==> m.digits > 0)
  {
  }

  lemma RealIsMade(w: F.Form, top: Option<nat>, b: nat)
    requires w.Real? && F.ValidExponent(w.exponent) && (w.fraction != "" || w.exponent.Exponent?)
    ensures Made(true, w, top, b)
            == [Signed(Fresh(Double, top).(integer := F.WholeNumber(false, w.digits)),
                       FinalNum(w.minus, w.digits, w.fraction, w.exponent))]
  {
    hide F.NumberIn, F.Decimals, FinalNum, F.Scaled, F.Mantissa, F.Power, DoubleOf, F.ValidExponent;
    RealIsWorth(w.minus, w.digits, w.fraction, w.exponent);
    FinalNumIs(w.minus, w.digits, w.fraction, w.exponent);
  }

  lemma ReadReal(first: bool, comments: bool, json: string, s: State, w: F.Form, done: seq<Node>, raw: seq<Node>)
    returns (s1: State)
    requires Starts(first, comments, json, s, w, done, raw) && w.Real?
    ensures Arrives(first, comments, json, s, s1, w, done, raw)
  {
    if first {
      s1 := MeasureReal(comments, json, s, w, done);
    } else {
      s1 := PassNumber(comments, json, s, w, done, raw);
    }
  }
}
