/**
  Every JSON text is accepted by json_parse_ex, and the tree it gives back is what the text means:
  parsing undoes printing, for every value, however it is written.
 */
module JsonRoundTrip {
  import opened Optional
  import opened JsonMachine
  import opened JsonInvariant
  import opened JsonParse
  import opened JsonReading
  import opened JsonShapes
  import opened JsonNumbers
  import opened JsonValues
  import F = JsonForms

  // ---------------------------------------------------------------- texts

  /** A value with the gaps around it; a comment on the last line may go without the end of that line. */
  datatype Document = Document(before: seq<F.Space>, value: F.Form, after: seq<F.Space>, last: Option<string>)

  predicate ValidDocument(comments: bool, d: Document) {
    && F.ValidGap(comments, d.before) && F.Valid(comments, d.value) && F.ValidGap(comments, d.after)
    && (d.last.Some? ==> comments && F.InOneLine(d.last.value))
    && (F.IsNumeral(d.value) ==> F.Apart(d.after) && (d.after == [] ==> d.last.None?))
  }

  function LastLine(d: Document): string { if d.last.Some? then "//" + d.last.value else "" }

  function Written(d: Document): string {
    F.PrintGap(d.before) + (F.Print(d.value) + (F.PrintGap(d.after) + LastLine(d)))
  }

  /** The input is such a text; what stands behind a NUL does not matter. */
  predicate IsText(json: string, d: Document) {
    var n := |Written(d)|;
    n <= |json| && json[..n] == Written(d) && (n < |json| ==> json[n] == '\0')
  }

  lemma NulStops(json: string, p: nat)
    requires At(json, p) == '\0'
    ensures Stops(json, p)
  {
  }

  lemma StopsAtNul(first: bool, comments: bool, json: string, s: State)
    requires Live(first, comments, json, s) && s.f == NextFlags(CLEAR, None) && At(json, s.pos) == '\0'
    ensures Run(first, comments, json, s) == Accept(s)
  {
    assert Step(first, comments, json, s) == Accept(s);
  }

  /** The parts of a document, and where they stand. */
  lemma DocumentParts(comments: bool, json: string, d: Document)
    requires ValidDocument(comments, d) && IsText(json, d)
    ensures var a, c := F.PrintGap(d.before), F.PrintGap(d.after);
            var q := |a| + |F.Print(d.value)|;
            && Here(json, 0, a) && Here(json, |a|, F.Print(d.value)) && Here(json, q, c)
            && Here(json, q + |c|, LastLine(d)) && At(json, q + |c| + |LastLine(d)|) == '\0'
            && q + |c| + |LastLine(d)| <= |json|
            && (F.IsNumeral(d.value) ==> Stops(json, q))
  {
    hide Here, F.Print, F.Valid, F.PrintGap, F.ValidGap, F.Apart, Stops, F.InOneLine;
    var a, text, c, e := F.PrintGap(d.before), F.Print(d.value), F.PrintGap(d.after), LastLine(d);
    assert Here(json, 0, Written(d)) by { HereAtStart(json, Written(d)); }
    HereParts(json, 0, a, text + (c + e));
    HereParts(json, |a|, text, c + e);
    HereParts(json, |a| + |text|, c, e);
    NulStops(json, |Written(d)|);
    NoGap();
    if F.IsNumeral(d.value) {
      GapStops(comments, json, |a| + |text|, d.after);
    }
  }

  lemma HereAtStart(json: string, t: string)
    requires |t| <= |json| && json[..|t|] == t
    ensures Here(json, 0, t)
  {
  }

  /** Behind the value: the gap, the comment on the last line if there is one, and the end. */
  lemma ReadEnd(first: bool, comments: bool, json: string, s: State, d: Document)
    requires ValidDocument(comments, d) && Live(first, comments, json, s) && s.f == NextFlags(CLEAR, None)
    requires var c := F.PrintGap(d.after);
             && Here(json, s.pos, c) && Here(json, s.pos + |c|, LastLine(d))
             && At(json, s.pos + |c| + |LastLine(d)|) == '\0' && s.pos + |c| + |LastLine(d)| <= |json|
    ensures var s1 := s.(pos := s.pos + |F.PrintGap(d.after)| + |LastLine(d)|);
            Run(first, comments, json, s) == Accept(s1)
  {
    hide WF, Run, Here, F.Valid, F.PrintGap, F.ValidGap, F.InOneLine;
    SkipGap(first, comments, json, s, d.after);
    var a := s.(pos := s.pos + |F.PrintGap(d.after)|);
    if d.last.Some? {
      SkipLineComment(first, json, a, d.last.value);
    }
    StopsAtNul(first, comments, json, a.(pos := a.pos + |LastLine(d)|));
  }

  /** A pass over the text of a document. */
  lemma PassReads(first: bool, comments: bool, json: string, d: Document) returns (s: State)
    requires ValidDocument(comments, d) && IsText(json, d) && Fits(d.value)
    requires Live(first, comments, json, Start(Ahead(first, Made(true, d.value, None, 0))))
    ensures Run(first, comments, json, Start(Ahead(first, Made(true, d.value, None, 0)))) == Accept(s)
    ensures s.nodes == Made(first, d.value, None, 0)
  {
    hide WF, Run, Decide, F.Print, Made, Fits, F.Valid, Stops, Here, F.ValidGap, F.PrintGap, LastLine;
    var w := d.value;
    var raw := Ahead(first, Made(true, w, None, 0));
    var a := Start(raw);
    DocumentParts(comments, json, d);
    SkipGap(first, comments, json, a, d.before);
    var b := a.(pos := |F.PrintGap(d.before)|);
    assert b.nodes == [] + raw + [];
    var c := ReadValue(first, comments, json, b, w, [], []);
    ReadEnd(first, comments, json, c, d);
    s := c.(pos := c.pos + |F.PrintGap(d.after)| + |LastLine(d)|);
    assert s.nodes == Made(first, w, None, 0);
  }

  /** Both passes accept the text and leave the nodes that are meant. */
  lemma TextIsRead(comments: bool, json: string, d: Document)
    requires ValidDocument(comments, d) && IsText(json, d) && Fits(d.value)
    ensures var o := FirstPass(comments, json);
            && o.Accept? && o.s.nodes == Made(true, d.value, None, 0)
            && SecondPass(comments, json, o.s.nodes).Accept?
            && SecondPass(comments, json, o.s.nodes).s.nodes == Made(false, d.value, None, 0)
  {
    hide Run, Made, Fits, F.Valid, Written;
    StartIsWF(true, comments, []);
    var s := PassReads(true, comments, json, d);
    StartIsWF(false, comments, s.nodes);
    var s2 := PassReads(false, comments, json, d);
  }

  // ---------------------------------------------------------------- meanings

  /** The values that texts write. */
  datatype Value =
    | NoValue
    | Truth(b: bool)
    | Whole(n: int)
    | Real(mantissa: int, power: int)  // mantissa times 10^power, written with a fraction or an exponent
    | Text(bytes: string)
    | List(elems: seq<Value>)
    | Table(members: seq<(string, Value)>)

  function Meaning(w: F.Form): Value {
    match w
    case Null => NoValue
    case Truth(b) => Truth(b)
    case Whole(minus, digits) => Whole(F.WholeNumber(minus, digits))
    case Real(minus, digits, fraction, exponent) =>
      Real(F.Mantissa(minus, digits, fraction), F.Power(fraction, exponent))
    case Text(glyphs) => Text(F.Says(glyphs))
    case List(items) => List(ItemMeanings(items))
    case Table(members) => Table(MemberMeanings(members))
  }

  function ItemMeanings(items: F.Items): (r: seq<Value>)
    ensures |r| == F.ItemCount(items)
  {
    if items.Item? then [Meaning(items.value)] + ItemMeanings(items.rest) else []
  }

  function MemberMeanings(members: F.Members): (r: seq<(string, Value)>)
    ensures |r| == F.MemberCount(members)
  {
    if members.Member? then [(F.Says(members.name), Meaning(members.value))] + MemberMeanings(members.rest) else []
  }

  /** Entry e names `name`: its bytes stand there, with a NUL. */
  predicate IsNamed(mem: string, e: Entry, name: string) {
    e.len == |name| && e.off + e.len + 1 <= |mem| && mem[e.off..e.off + e.len + 1] == name + "\0"
  }

  /** Node i, with everything that hangs under it, is value v. */
  ghost predicate Is(nodes: seq<Node>, i: nat, v: Value)
    decreases v
  {
    && i < |nodes|
    && var n := nodes[i];
       match v
       case NoValue => n.kind == Kind.Null
       case Truth(b) => n.kind == Boolean(b)
       case Whole(k) => n.kind == Integer && n.integer == k
       case Real(mantissa, power) => n.kind == Double && n.dbl == F.Scaled(mantissa, power)
       case Text(bytes) => n.kind == Str && n.length == |bytes| && n.mem == bytes + "\0"
       case List(elems) =>
         && n.kind == Array && n.length == |n.slots| == |elems|
         && forall k | 0 <= k < |elems| :: Is(nodes, n.slots[k], elems[k])
       case Table(members) =>
         && n.kind == Object && n.length == |n.slots| == |n.entries| == |members|
         && forall k | 0 <= k < |members| ::
              IsNamed(n.mem, n.entries[k], members[k].0) && Is(nodes, n.slots[k], members[k].1)
  }

  lemma Split<T>(s: seq<T>, c: nat, a: seq<T>, b: seq<T>)
    requires c + |a + b| <= |s| && s[c..c + |a + b|] == a + b
    ensures s[c..c + |a|] == a && s[c + |a|..c + |a| + |b|] == b
  {
    assert s[c..c + |a|] == s[c..c + |a + b|][..|a|] == a;
    assert s[c + |a|..c + |a| + |b|] == s[c..c + |a + b|][|a|..] == b;
  }

  lemma {:induction false} MadeIs(nodes: seq<Node>, b: nat, w: F.Form, parent: Option<nat>)
    requires b + SizeOf(w) <= |nodes| && nodes[b..b + SizeOf(w)] == Made(false, w, parent, b)
    ensures Is(nodes, b, Meaning(w))
    decreases w, 1
  {
    hide F.Says, F.WholeNumber, MadeItems, MadeMembers, NameBytes, NameEntries, ItemSlots, MemberSlots, ItemMeanings,
      MemberMeanings;
    if w.List? {
      ListIs(nodes, b, w, parent);
    } else if w.Table? {
      TableIs(nodes, b, w, parent);
    } else {
      assert nodes[b] == nodes[b..b + 1][0];
    }
  }

  lemma ListIs(nodes: seq<Node>, b: nat, w: F.Form, parent: Option<nat>)
    requires w.List? && b + SizeOf(w) <= |nodes| && nodes[b..b + SizeOf(w)] == Made(false, w, parent, b)
    ensures Is(nodes, b, Meaning(w))
    decreases w, 0
  {
    hide MadeItems, ItemSlots, ItemMeanings;
    var n := ListNode(false, parent, F.ItemCount(w.items), ItemSlots(w.items, b + 1));
    Split(nodes, b, [n], MadeItems(false, w.items, b, b + 1));
    assert nodes[b] == nodes[b..b + 1][0] == n;
    ItemsAre(nodes, w.items, b, b + 1);
  }

  lemma TableIs(nodes: seq<Node>, b: nat, w: F.Form, parent: Option<nat>)
    requires w.Table? && b + SizeOf(w) <= |nodes| && nodes[b..b + SizeOf(w)] == Made(false, w, parent, b)
    ensures Is(nodes, b, Meaning(w))
    decreases w, 0
  {
    hide MadeMembers, MemberSlots, MemberMeanings, NameBytes, NameEntries;
    var mem := NameBytes(w.members);
    var n := TableNode(false, parent, F.MemberCount(w.members), |mem|, MemberSlots(w.members, b + 1),
                       NameEntries(w.members, 0), mem);
    Split(nodes, b, [n], MadeMembers(false, w.members, b, b + 1));
    assert nodes[b] == nodes[b..b + 1][0] == n;
    MembersAre(nodes, w.members, b, b + 1);
    assert mem[0..0 + |mem|] == mem;
    NamesAre(mem, w.members, 0);
  }

  lemma {:induction false} ItemsAre(nodes: seq<Node>, items: F.Items, b: nat, c: nat)
    requires c + ItemsSize(items) <= |nodes|
    requires nodes[c..c + ItemsSize(items)] == MadeItems(false, items, b, c)
    ensures forall k | 0 <= k < F.ItemCount(items) :: Is(nodes, ItemSlots(items, c)[k], ItemMeanings(items)[k])
    decreases items
  {
    hide Made, Is, SizeOf, Meaning;
    if items.Item? {
      var size := SizeOf(items.value);
      Split(nodes, c, Made(false, items.value, Some(b), c), MadeItems(false, items.rest, b, c + size));
      MadeIs(nodes, c, items.value, Some(b));
      ItemsAre(nodes, items.rest, b, c + size);
      OneMoreSlot(nodes, c, ItemSlots(items.rest, c + size), Meaning(items.value), ItemMeanings(items.rest));
    }
  }

  lemma OneMoreSlot(nodes: seq<Node>, c: nat, slots: seq<nat>, v: Value, values: seq<Value>)
    requires |slots| == |values| && Is(nodes, c, v) && forall k | 0 <= k < |slots| :: Is(nodes, slots[k], values[k])
    ensures forall k | 0 <= k < |slots| + 1 :: Is(nodes, ([c] + slots)[k], ([v] + values)[k])
  {
    hide Is;
  }

  function ValuesOf(members: seq<(string, Value)>): (r: seq<Value>)
    ensures |r| == |members| && forall k | 0 <= k < |r| :: r[k] == members[k].1
  {
    seq(|members|, k requires 0 <= k < |members| => members[k].1)
  }

  lemma {:induction false} MembersAre(nodes: seq<Node>, members: F.Members, b: nat, c: nat)
    requires c + MembersSize(members) <= |nodes|
    requires nodes[c..c + MembersSize(members)] == MadeMembers(false, members, b, c)
    ensures forall k | 0 <= k < F.MemberCount(members) ::
              Is(nodes, MemberSlots(members, c)[k], MemberMeanings(members)[k].1)
    decreases members
  {
    hide Made, Is, SizeOf, Meaning, F.Says;
    if members.Member? {
      var size := SizeOf(members.value);
      Split(nodes, c, Made(false, members.value, Some(b), c), MadeMembers(false, members.rest, b, c + size));
      MadeIs(nodes, c, members.value, Some(b));
      MembersAre(nodes, members.rest, b, c + size);
      var slots, values := MemberSlots(members.rest, c + size), ValuesOf(MemberMeanings(members.rest));
      OneMoreSlot(nodes, c, slots, Meaning(members.value), values);
      var all := MemberMeanings(members);
      forall k | 0 <= k < F.MemberCount(members) ensures all[k].1 == ([Meaning(members.value)] + values)[k] {
      }
    }
  }

  lemma {:induction false} NamesAre(mem: string, members: F.Members, off: nat)
    requires off + |NameBytes(members)| <= |mem|
    requires mem[off..off + |NameBytes(members)|] == NameBytes(members)
    ensures forall k | 0 <= k < F.MemberCount(members) ::
              IsNamed(mem, NameEntries(members, off)[k], MemberMeanings(members)[k].0)
    decreases members
  {
    hide F.Says, Meaning, F.Valid, IsNamed;
    if members.Member? {
      var name, rest := F.Says(members.name), NameBytes(members.rest);
      Split(mem, off, name + "\0", rest);
      NamesAre(mem, members.rest, off + |name| + 1);
      NamedHere(mem, off, name);
      assert NameEntries(members, off) == [Entry(off, |name|)] + NameEntries(members.rest, off + |name| + 1);
    }
  }

  lemma NamedHere(mem: string, off: nat, name: string)
    requires off + |name| + 1 <= |mem| && mem[off..off + |name + "\0"|] == name + "\0"
    ensures IsNamed(mem, Entry(off, |name|), name)
  {
  }

  // ---------------------------------------------------------------- the theorems

  /**
    Every text that json_parse_ex takes, in whatever gaps and escapes it is written, is accepted, and the
    tree of pass 2 is what the text means, as long as no count passes uint_max.
   */
  lemma ParsingGivesMeaning(comments: bool, json: string, d: Document)
    requires ValidDocument(comments, d) && IsText(json, d) && Fits(d.value)
    ensures var o := FirstPass(comments, json);
            && o.Accept? && SecondPass(comments, json, o.s.nodes).Accept?
            && Is(SecondPass(comments, json, o.s.nodes).s.nodes, 0, Meaning(d.value))
  {
    TextIsRead(comments, json, d);
    var nodes := Made(false, d.value, None, 0);
    hide FirstPass, SecondPass, Made, Fits, F.Valid, Meaning, Is, Written;
    assert nodes[0..0 + SizeOf(d.value)] == nodes;
    MadeIs(nodes, 0, d.value, None);
  }

  // ---------------------------------------------------------------- printing values

  function DigitsOf(n: nat): string {
    if n < 10 then [F.DIGITS[n]] else DigitsOf(n / 10) + [F.DIGITS[n % 10]]
  }

  lemma DigitIs(k: nat)
    requires k < 10
    ensures F.DIGITS[k] in F.DIGITS && F.IndexOf(F.DIGITS[k], F.DIGITS) == k && (F.DIGITS[k] == '0' ==> k == 0)
  {
    TenDigits(k);
    DecimalIs(F.DIGITS[k]);
    hide F.IndexOf;
  }

  lemma OneDigitMore(ds: string, c: char)
    requires c in F.DIGITS && (ds == "" || (F.ValidDigits(false, ds) && ds[0] != '0'))
    ensures F.ValidDigits(false, ds + [c]) && (ds + [c])[0] == if ds == "" then c else ds[0]
  {
    var all := ds + [c];
    forall i | 0 <= i < |all| ensures all[i] in F.DIGITS {
      assert all[i] == if i < |ds| then ds[i] else c;
    }
  }

  lemma {:induction false} DigitsSayNumber(n: nat)
    ensures var ds := DigitsOf(n);
            && F.ValidDigits(false, ds) && F.NumberIn(10, F.Decimals(ds)) == n
            && ds != "" && (ds[0] == '0' ==> n == 0)
  {
    hide F.IndexOf, F.NumberIn, F.Decimals, F.ValidDigits;
    var c := F.DIGITS[n % 10];
    DigitIs(n % 10);
    if n < 10 {
      OneDigitMore("", c);
      MoreDecimals("", c);
      NoDecimals();
      assert "" + [c] == [c];
    } else {
      DigitsSayNumber(n / 10);
      OneDigitMore(DigitsOf(n / 10), c);
      MoreDecimals(DigitsOf(n / 10), c);
    }
  }

  /** A control character is written with the digits of its code. */
  function CodeGlyph(c: char): F.Glyph
    requires c < ' '
  {
    F.Code(['0', '0', F.LOWER[c as int / 16], F.LOWER[c as int % 16]])
  }

  /** A byte as it is written in a string. */
  function GlyphOf(c: char): F.Glyph {
    if c == '"' || c == '\\' then F.Short(c) else if c < ' ' then CodeGlyph(c) else F.Plain(c)
  }

  lemma SixteenDigits(k: nat)
    requires k < 16
    ensures F.IsHexDigit(F.LOWER[k]) && F.HexDigit(F.LOWER[k]) == k
  {
    assert F.LOWER[k] in F.LOWER;
    DigitsAre(k);
    HexIs(F.LOWER[k]);
  }

  lemma CodeIsByte(c: char)
    requires c < ' '
    ensures F.IsHex4(CodeGlyph(c).hex) && F.CodeOf(CodeGlyph(c).hex) == c as int
  {
    hide F.HexDigit, F.IsHexDigit, F.CodeOf;
    var hex := CodeGlyph(c).hex;
    SixteenDigits(0);
    SixteenDigits(c as int / 16);
    SixteenDigits(c as int % 16);
    assert hex[0] == hex[1] == F.LOWER[0];
    F.CodeFits(hex);
  }

  lemma CodeGlyphSaysByte(c: char)
    requires c < ' '
    ensures F.StrictGlyph(CodeGlyph(c)) && F.Heard(CodeGlyph(c)) == [c]
  {
    hide F.CodeOf, F.IsHex4;
    CodeIsByte(c);
    assert CodeGlyph(c).Code?;
  }

  lemma GlyphSaysByte(c: char)
    ensures F.StrictGlyph(GlyphOf(c)) && F.Heard(GlyphOf(c)) == [c]
  {
    if c < ' ' {
      CodeGlyphSaysByte(c);
    }
  }

  function GlyphsOf(bytes: string): seq<F.Glyph> {
    if bytes == "" then [] else [GlyphOf(bytes[0])] + GlyphsOf(bytes[1..])
  }

  lemma {:induction false} GlyphsSayBytes(bytes: string)
    ensures F.StrictText(GlyphsOf(bytes)) && F.Says(GlyphsOf(bytes)) == bytes
  {
    hide GlyphOf, F.Heard, F.StrictGlyph;
    if bytes != "" {
      GlyphSaysByte(bytes[0]);
      GlyphsSayBytes(bytes[1..]);
      assert GlyphsOf(bytes)[1..] == GlyphsOf(bytes[1..]);
    }
  }

  function Size(n: int): nat { if n < 0 then -n else n }

  /** One way of writing a value, without blanks. */
  function Printed(v: Value): F.Form
    decreases v, 1
  {
    match v
    case NoValue => F.Null
    case Truth(b) => F.Truth(b)
    case Whole(n) => F.Whole(n < 0, DigitsOf(Size(n)))
    case Real(mantissa, power) =>
      F.Real(mantissa < 0, DigitsOf(Size(mantissa)), "",
             F.Exponent('e', if power < 0 then "-" else "", DigitsOf(Size(power))))
    case Text(bytes) => F.Text(GlyphsOf(bytes))
    case List(elems) => F.List(PrintedElems(v, 0))
    case Table(members) => F.Table(PrintedMembers(v, 0))
  }

  function PrintedElems(v: Value, k: nat): F.Items
    requires v.List? && k <= |v.elems|
    decreases v, 0, |v.elems| - k
  {
    if k == |v.elems| then F.NoItems else F.Item([], Printed(v.elems[k]), [], PrintedElems(v, k + 1))
  }

  function PrintedMembers(v: Value, k: nat): F.Members
    requires v.Table? && k <= |v.members|
    decreases v, 0, |v.members| - k
  {
    if k == |v.members| then F.NoMembers
    else F.Member([], GlyphsOf(v.members[k].0), [], [], Printed(v.members[k].1), [], PrintedMembers(v, k + 1))
  }

  /** It is in the grammar, and it means the value. */
  lemma {:induction false} PrintedMeans(v: Value)
    ensures F.Strict(Printed(v)) && Meaning(Printed(v)) == v
    decreases v, 1
  {
    hide PrintedElems, PrintedMembers, GlyphsOf, DigitsOf, F.ValidDigits, F.StrictText, F.Says, F.NumberIn, F.Decimals,
      ItemMeanings, MemberMeanings, F.StrictItems, F.StrictMembers;
    match v
    case NoValue =>
    case Truth(_) =>
    case Whole(n) => WholeMeans(n);
    case Real(mantissa, power) =>
      RealMeans(mantissa, power);
    case Text(bytes) => GlyphsSayBytes(bytes);
    case List(elems) =>
      ElemsMean(v, 0);
      assert elems[0..] == elems;
    case Table(members) =>
      MembersMean(v, 0);
      assert members[0..] == members;
  }

  lemma WholeMeans(n: int)
    ensures F.Strict(Printed(Whole(n))) && Meaning(Printed(Whole(n))) == Whole(n)
  {
    hide DigitsOf, F.NumberIn, F.Decimals;
    DigitsSayNumber(Size(n));
  }

  lemma RealMeans(mantissa: int, power: int)
    ensures F.Strict(Printed(Real(mantissa, power))) && Meaning(Printed(Real(mantissa, power))) == Real(mantissa, power)
  {
    hide DigitsOf, F.NumberIn, F.Decimals;
    var ds := DigitsOf(Size(mantissa));
    DigitsSayNumber(Size(mantissa));
    DigitsSayNumber(Size(power));
    assert ds + "" == ds;
  }

  lemma {:induction false} ElemsMean(v: Value, k: nat)
    requires v.List? && k <= |v.elems|
    ensures F.StrictItems(PrintedElems(v, k)) && !PrintedElems(v, k).ItemGap?
    ensures ItemMeanings(PrintedElems(v, k)) == v.elems[k..]
    decreases v, 0, |v.elems| - k
  {
    hide Meaning, Printed, F.Strict;
    if k < |v.elems| {
      PrintedMeans(v.elems[k]);
      ElemsMean(v, k + 1);
    }
  }

  lemma {:induction false} MembersMean(v: Value, k: nat)
    requires v.Table? && k <= |v.members|
    ensures F.StrictMembers(PrintedMembers(v, k)) && !PrintedMembers(v, k).MemberGap?
    ensures MemberMeanings(PrintedMembers(v, k)) == v.members[k..]
    decreases v, 0, |v.members| - k
  {
    hide Meaning, Printed, F.Strict, F.Says, GlyphsOf, F.StrictText;
    if k < |v.members| {
      GlyphsSayBytes(v.members[k].0);
      PrintedMeans(v.members[k].1);
      MembersMean(v, k + 1);
    }
  }

  /** No string or name of v, and no number of elements or members, passes uint_max. */
  predicate Countable(v: Value) { Fits(Printed(v)) }

  /** The text of a value. */
  function TextOf(v: Value): string { F.Print(Printed(v)) }

  /** Parsing undoes printing: the parser accepts the text of every value, and gives that value back. */
  lemma ParsingUndoesPrinting(comments: bool, v: Value)
    requires Countable(v)
    ensures var o := FirstPass(comments, TextOf(v));
            && o.Accept? && SecondPass(comments, TextOf(v), o.s.nodes).Accept?
            && Is(SecondPass(comments, TextOf(v), o.s.nodes).s.nodes, 0, v)
  {
    hide FirstPass, SecondPass, Is, Meaning, Printed, F.Valid, F.Strict, Fits, F.Print;
    PrintedMeans(v);
    F.StrictIsValid(comments, Printed(v));
    var d := Document([], Printed(v), [], None);
    assert Written(d) == TextOf(v);
    ParsingGivesMeaning(comments, TextOf(v), d);
  }
}
