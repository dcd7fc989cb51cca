/**
  JSON texts: values with the blanks, digits and escapes they are written with, how they are printed,
  and what they mean.  `Strict` texts are those of the grammar of RFC 8259, without halves of surrogate
  pairs; `Valid` ones are all that json_parse_ex takes, which allows itself more.
 */
module JsonForms {
  import opened Optional

  /** One character of a string as it is written. */
  datatype Glyph =
    | Plain(c: char)              // the byte itself
    | Short(letter: char)         // a backslash and a letter
    | Code(hex: string)           // a backslash, u and four digits
    | Pair(high: string, low: string)  // two of those that make up one character

  /** What may stand between two parts of a text. */
  datatype Space =
    | Blank(c: char)
    | Line(comment: string, end: char)  // two slashes, up to the end of the line
    | Block(comment: string)            // between a slash with a star and a star with a slash

  datatype Form =
    | Null
    | Truth(b: bool)
    | Whole(minus: bool, digits: string)
    | Real(minus: bool, digits: string, fraction: string, exponent: Exponent)
    | Text(glyphs: seq<Glyph>)
    | List(items: Items)
    | Table(members: Members)

  /** The end of a number: a letter, a sign or none, and digits. */
  datatype Exponent = NoExponent | Exponent(letter: char, sign: string, digits: string)

  /** The items of an array, with the gaps around each; a last gap stands alone or behind a comma. */
  datatype Items =
    | NoItems
    | ItemGap(gap: seq<Space>)
    | Item(before: seq<Space>, value: Form, after: seq<Space>, rest: Items)

  datatype Members =
    | NoMembers
    | MemberGap(gap: seq<Space>)
    | Member(before: seq<Space>, name: seq<Glyph>, beforeColon: seq<Space>, afterColon: seq<Space>, value: Form,
             after: seq<Space>, rest: Members)

  // ---------------------------------------------------------------- characters

  predicate IsBlank(c: char) { c in {' ', '\t', '\n', '\r'} }

  predicate IsLineEnd(c: char) { c == '\n' || c == '\r' }

  /** One line, which a NUL would end, too. */
  predicate InOneLine(t: string) { forall i | 0 <= i < |t| :: !IsLineEnd(t[i]) && t[i] != '\0' }

  /** No star and slash in it. */
  predicate NotClosing(t: string) {
    && (forall i | 0 <= i < |t| :: t[i] != '\0')
    && (forall i | 0 <= i < |t| - 1 :: t[i] == '*' ==> t[i + 1] != '/')
  }

  predicate ValidSpace(comments: bool, sp: Space) {
    match sp
    case Blank(c) => IsBlank(c)
    case Line(comment, end) => comments && InOneLine(comment) && IsLineEnd(end)
    case Block(comment) => comments && NotClosing(comment)
  }

  function PrintSpace(sp: Space): (r: string)
    ensures |r| > 0
  {
    match sp
    case Blank(c) => [c]
    case Line(comment, end) => "//" + (comment + [end])
    case Block(comment) => "/*" + (comment + "*/")
  }

  predicate ValidGap(comments: bool, gap: seq<Space>) { forall i | 0 <= i < |gap| :: ValidSpace(comments, gap[i]) }

  function PrintGap(gap: seq<Space>): string { if gap == [] then "" else PrintSpace(gap[0]) + PrintGap(gap[1..]) }

  /** A gap that may follow a number: a comment must not touch it. */
  predicate Apart(gap: seq<Space>) { gap != [] ==> gap[0].Blank? }

  const DIGITS := "0123456789"
  const LOWER := "0123456789abcdef"
  const UPPER := "0123456789ABCDEF"

  /** Where c stands in a list of digits, or its length. */
  function IndexOf(c: char, digits: string): (i: nat)
    ensures i <= |digits| && (i < |digits| ==> digits[i] == c)
  {
    if digits == [] then 0 else if digits[0] == c then 0 else 1 + IndexOf(c, digits[1..])
  }

  predicate IsHexDigit(c: char) { c in LOWER || c in UPPER }

  function HexDigit(c: char): nat { if c in LOWER then IndexOf(c, LOWER) else IndexOf(c, UPPER) }

  /** The number some digits write. */
  function NumberIn(base: nat, digits: seq<nat>): nat {
    if digits == [] then 0 else NumberIn(base, digits[..|digits| - 1]) * base + digits[|digits| - 1]
  }

  function HexDigits(hex: string): seq<nat> { seq(|hex|, i requires 0 <= i < |hex| => HexDigit(hex[i])) }

  function Decimals(digits: string): seq<nat> {
    seq(|digits|, i requires 0 <= i < |digits| => IndexOf(digits[i], DIGITS))
  }

  /** Four hexadecimal digits, in either case. */
  predicate IsHex4(hex: string) { |hex| == 4 && forall i | 0 <= i < 4 :: IsHexDigit(hex[i]) }

  function CodeOf(hex: string): nat { NumberIn(16, HexDigits(hex)) }

  /** The characters the letter after a backslash stands for (section 7 of RFC 8259). */
  const SHORT: map<char, char> := map[
    '"' := '"', '\\' := '\\', '/' := '/', 'b' := '\U{8}', 'f' := '\U{C}', 'n' := '\U{A}', 'r' := '\U{D}', 't' := '\U{9}'
  ]

  predicate High(code: nat) { 0xD800 <= code <= 0xDBFF }

  predicate Low(code: nat) { 0xDC00 <= code <= 0xDFFF }

  predicate Surrogate(code: nat) { High(code) || Low(code) }

  /** The character beyond the first 2^16 that a high and a low surrogate stand for (RFC 2781). */
  function Joined(high: nat, low: nat): nat
    requires High(high) && Low(low)
  {
    0x1_0000 + (high - 0xD800) * 0x400 + (low - 0xDC00)
  }

  function Octet(n: nat): char { (n % 0x100) as char }

  /** The octets of a character (RFC 3629): 7, 11, 16 or 21 bits, six of them in every octet but the first. */
  function Octets(code: nat): string {
    if code < 0x80 then [Octet(code)]
    else if code < 0x800 then [Octet(0xC0 + code / 64), Octet(0x80 + code % 64)]
    else if code < 0x1_0000 then [Octet(0xE0 + code / 64 / 64), Octet(0x80 + code / 64 % 64), Octet(0x80 + code % 64)]
    else [Octet(0xF0 + code / 64 / 64 / 64), Octet(0x80 + code / 64 / 64 % 64), Octet(0x80 + code / 64 % 64),
          Octet(0x80 + code % 64)]
  }

  // ---------------------------------------------------------------- glyphs

  /** A string is written with these: a letter stands for itself if it has no meaning of its own. */
  predicate ValidGlyph(g: Glyph) {
    match g
    case Plain(c) => c != '"' && c != '\\' && c != '\0'
    case Short(letter) => letter != 'u' && letter != '\0'
    case Code(hex) => IsHex4(hex) && !Surrogate(CodeOf(hex))
    case Pair(high, low) => IsHex4(high) && IsHex4(low) && Surrogate(CodeOf(high))
  }

  /** Or should be. */
  predicate StrictGlyph(g: Glyph) {
    && ValidGlyph(g)
    && match g
       case Plain(c) => c >= ' '
       case Short(letter) => letter in SHORT
       case Code(hex) => true
       case Pair(high, low) => High(CodeOf(high)) && Low(CodeOf(low))
  }

  function PrintGlyph(g: Glyph): (r: string)
    ensures |r| > 0
  {
    match g
    case Plain(c) => [c]
    case Short(letter) => ['\\', letter]
    case Code(hex) => "\\u" + hex
    case Pair(high, low) => "\\u" + high + "\\u" + low
  }

  lemma CodeFits(hex: string)
    requires IsHex4(hex)
    ensures CodeOf(hex)
            == ((HexDigit(hex[0]) * 16 + HexDigit(hex[1])) * 16 + HexDigit(hex[2])) * 16 + HexDigit(hex[3]) < 0x1_0000
  {
    var d := HexDigits(hex);
    NumberGrows(16, [], d[0]);
    NumberGrows(16, [d[0]], d[1]);
    NumberGrows(16, [d[0]] + [d[1]], d[2]);
    NumberGrows(16, [d[0]] + [d[1]] + [d[2]], d[3]);
    assert d == [d[0]] + [d[1]] + [d[2]] + [d[3]] && [] + [d[0]] == [d[0]];
    hide NumberIn;
    forall i | 0 <= i < 4 ensures d[i] < 16 {
      DigitFits(hex[i]);
    }
  }

  lemma NumberGrows(base: nat, digits: seq<nat>, d: nat)
    ensures NumberIn(base, digits + [d]) == NumberIn(base, digits) * base + d && NumberIn(base, []) == 0
  {
    assert (digits + [d])[..|digits|] == digits;
  }

  lemma DigitFits(c: char)
    requires IsHexDigit(c)
    ensures HexDigit(c) < 16
  {
    if c in LOWER {
      IndexFits(c, LOWER);
    } else {
      IndexFits(c, UPPER);
    }
  }

  lemma {:induction false} IndexFits(c: char, digits: string)
    requires c in digits
    ensures IndexOf(c, digits) < |digits|
  {
    if digits[0] != c {
      IndexFits(c, digits[1..]);
    }
  }

  /** What a glyph means, as bytes. */
  function Meant(g: Glyph): string
    requires StrictGlyph(g)
  {
    match g
    case Plain(c) => [c]
    case Short(letter) => [SHORT[letter]]
    case Code(hex) => Octets(CodeOf(hex))
    case Pair(high, low) => Octets(Joined(CodeOf(high), CodeOf(low)))
  }

  /**
    What json_parse_ex makes of it: ten bits of each half of a pair are put together with OR, so that
    bit 16 is set whether the high surrogate sets it or not.
   */
  function Heard(g: Glyph): string {
    match g
    case Plain(c) => [c]
    case Short(letter) => [if letter in SHORT then SHORT[letter] else letter]
    case Code(hex) => Octets(CodeOf(hex))
    case Pair(high, low) =>
      var u := CodeOf(high) % 0x400 * 0x400 + CodeOf(low) % 0x400;
      Octets(if u / 0x1_0000 % 2 == 1 then u else u + 0x1_0000)
  }

  /** Bit 6 of a high surrogate is the bit that is set anyway. */
  predicate Exact(g: Glyph) { g.Pair? ==> CodeOf(g.high) / 0x40 % 2 == 0 }

  /** A glyph is understood exactly if it is not a pair whose high surrogate sets that bit. */
  lemma HeardIffExact(g: Glyph)
    requires StrictGlyph(g)
    ensures Heard(g) == Meant(g) <==> Exact(g)
  {
    hide CodeOf, Octets;
    if g.Pair? {
      var high, low := CodeOf(g.high), CodeOf(g.low);
      BitOfHigh(high, low);
      var u := (high - 0xD800) * 0x400 + (low - 0xDC00);
      if !Exact(g) {
        OctetsDiffer(u, Joined(high, low));
      }
    }
  }

  lemma BitOfHigh(high: nat, low: nat)
    requires High(high) && Low(low)
    ensures high % 0x400 == high - 0xD800 && low % 0x400 == low - 0xDC00
    ensures ((high - 0xD800) * 0x400 + (low - 0xDC00)) / 0x1_0000 % 2 == high / 0x40 % 2
  {
    var h, l := high - 0xD800, low - 0xDC00;
    assert (h * 0x400 + l) / 0x1_0000 == h / 0x40;
    assert high / 0x40 == 0x360 + h / 0x40;
  }

  lemma OctetIs(n: nat)
    requires n < 0x100
    ensures Octet(n) as int == n
  {
  }

  /** Two characters beyond the first 2^16 that are 2^16 apart have different octets. */
  lemma OctetsDiffer(u: nat, v: nat)
    requires 0x1_0000 <= u && v == u + 0x1_0000 < 0x11_0000
    ensures Octets(u) != Octets(v)
  {
    hide Octet;
    var a, b := Octets(u), Octets(v);
    assert u / 64 / 64 == u / 0x1000 && v / 64 / 64 == u / 0x1000 + 16;
    assert a[1] == Octet(0x80 + u / 64 / 64 % 64) && b[1] == Octet(0x80 + v / 64 / 64 % 64);
    OctetIs(0x80 + u / 64 / 64 % 64);
    OctetIs(0x80 + v / 64 / 64 % 64);
  }

  predicate ValidText(glyphs: seq<Glyph>) { forall i | 0 <= i < |glyphs| :: ValidGlyph(glyphs[i]) }

  predicate StrictText(glyphs: seq<Glyph>) { forall i | 0 <= i < |glyphs| :: StrictGlyph(glyphs[i]) }

  function PrintText(glyphs: seq<Glyph>): string {
    if glyphs == [] then "" else PrintGlyph(glyphs[0]) + PrintText(glyphs[1..])
  }

  /** The bytes of a string as they are understood. */
  function Says(glyphs: seq<Glyph>): string {
    if glyphs == [] then "" else Heard(glyphs[0]) + Says(glyphs[1..])
  }

  function Quoted(glyphs: seq<Glyph>): string { "\"" + PrintText(glyphs) + "\"" }

  // ---------------------------------------------------------------- values

  predicate AllDigits(digits: string) { forall i | 0 <= i < |digits| :: digits[i] in DIGITS }

  /** Digits without a leading zero; there may be none behind a minus. */
  predicate ValidDigits(minus: bool, digits: string) {
    AllDigits(digits) && (|digits| > 1 ==> digits[0] != '0') && (digits == "" ==> minus)
  }

  predicate ValidExponent(e: Exponent) {
    e.Exponent? ==>
      && (e.letter == 'e' || e.letter == 'E') && (e.sign == "" || e.sign == "+" || e.sign == "-")
      && e.digits != "" && AllDigits(e.digits)
  }

  predicate IsNumeral(w: Form) { w.Whole? || w.Real? }

  /** What json_parse_ex takes. */
  predicate Valid(comments: bool, w: Form) {
    match w
    case Null => true
    case Truth(_) => true
    case Whole(minus, digits) => ValidDigits(minus, digits)
    case Real(minus, digits, fraction, exponent) =>
      && ValidDigits(minus, digits) && AllDigits(fraction) && ValidExponent(exponent)
      && (fraction != "" || exponent.Exponent?) && (fraction != "" ==> digits != "")
    case Text(glyphs) => ValidText(glyphs)
    case List(items) => ValidItems(comments, items)
    case Table(members) => ValidMembers(comments, members)
  }

  predicate ValidItems(comments: bool, items: Items) {
    match items
    case NoItems => true
    case ItemGap(gap) => ValidGap(comments, gap)
    case Item(before, value, after, rest) =>
      && ValidGap(comments, before) && Valid(comments, value) && ValidGap(comments, after)
      && (IsNumeral(value) ==> Apart(after)) && ValidItems(comments, rest)
  }

  predicate ValidMembers(comments: bool, members: Members) {
    match members
    case NoMembers => true
    case MemberGap(gap) => ValidGap(comments, gap)
    case Member(before, name, beforeColon, afterColon, value, after, rest) =>
      && ValidGap(comments, before) && ValidText(name) && ValidGap(comments, beforeColon)
      && ValidGap(comments, afterColon) && Valid(comments, value) && ValidGap(comments, after)
      && (IsNumeral(value) ==> Apart(after)) && ValidMembers(comments, rest)
  }

  /** The grammar of RFC 8259: blanks only, digits in every number, no comma before a closing bracket. */
  predicate Strict(w: Form) {
    match w
    case Null => true
    case Truth(_) => true
    case Whole(minus, digits) => ValidDigits(minus, digits) && digits != ""
    case Real(minus, digits, fraction, exponent) =>
      && ValidDigits(minus, digits) && digits != "" && AllDigits(fraction) && ValidExponent(exponent)
      && (fraction != "" || exponent.Exponent?)
    case Text(glyphs) => StrictText(glyphs)
    case List(items) => StrictItems(items)
    case Table(members) => StrictMembers(members)
  }

  predicate StrictItems(items: Items) {
    match items
    case NoItems => true
    case ItemGap(gap) => ValidGap(false, gap)
    case Item(before, value, after, rest) =>
      && ValidGap(false, before) && Strict(value) && ValidGap(false, after)
      && !rest.ItemGap? && StrictItems(rest)
  }

  predicate StrictMembers(members: Members) {
    match members
    case NoMembers => true
    case MemberGap(gap) => ValidGap(false, gap)
    case Member(before, name, beforeColon, afterColon, value, after, rest) =>
      && ValidGap(false, before) && StrictText(name) && ValidGap(false, beforeColon)
      && ValidGap(false, afterColon) && Strict(value) && ValidGap(false, after)
      && !rest.MemberGap? && StrictMembers(rest)
  }

  /** The grammar is within what is taken, with comments or without. */
  lemma {:induction false} StrictIsValid(comments: bool, w: Form)
    requires Strict(w)
    ensures Valid(comments, w)
    decreases w, 0
  {
    hide ValidDigits, StrictGlyph, ValidGlyph;
    if w.List? {
      StrictItemsAreValid(comments, w.items);
    } else if w.Table? {
      StrictMembersAreValid(comments, w.members);
    } else if w.Text? {
      StrictTextIsValid(w.glyphs);
    }
  }

  lemma StrictTextIsValid(glyphs: seq<Glyph>)
    requires StrictText(glyphs)
    ensures ValidText(glyphs)
  {
    forall i | 0 <= i < |glyphs| ensures ValidGlyph(glyphs[i]) {
      assert StrictGlyph(glyphs[i]);
    }
  }

  lemma BlanksAreValid(comments: bool, gap: seq<Space>)
    requires ValidGap(false, gap)
    ensures ValidGap(comments, gap) && Apart(gap)
  {
    forall i | 0 <= i < |gap| ensures ValidSpace(comments, gap[i]) && gap[i].Blank? {
      assert ValidSpace(false, gap[i]);
    }
  }

  lemma {:induction false} StrictItemsAreValid(comments: bool, items: Items)
    requires StrictItems(items)
    ensures ValidItems(comments, items)
    decreases items, 0
  {
    hide Strict, Valid, ValidGap, Apart;
    match items
    case NoItems =>
    case ItemGap(gap) => BlanksAreValid(comments, gap);
    case Item(before, value, after, rest) =>
      BlanksAreValid(comments, before);
      BlanksAreValid(comments, after);
      StrictIsValid(comments, value);
      StrictItemsAreValid(comments, rest);
  }

  lemma {:induction false} StrictMembersAreValid(comments: bool, members: Members)
    requires StrictMembers(members)
    ensures ValidMembers(comments, members)
    decreases members, 0
  {
    hide Strict, Valid, ValidGap, Apart, StrictText, ValidText;
    match members
    case NoMembers =>
    case MemberGap(gap) => BlanksAreValid(comments, gap);
    case Member(before, name, beforeColon, afterColon, value, after, rest) =>
      BlanksAreValid(comments, before);
      BlanksAreValid(comments, beforeColon);
      BlanksAreValid(comments, afterColon);
      BlanksAreValid(comments, after);
      StrictTextIsValid(name);
      StrictIsValid(comments, value);
      StrictMembersAreValid(comments, rest);
  }

  function PrintWhole(minus: bool, digits: string): string { (if minus then "-" else "") + digits }

  function PrintFraction(fraction: string): string { if fraction == "" then "" else "." + fraction }

  function PrintExponent(e: Exponent): string {
    if e.NoExponent? then "" else [e.letter] + (e.sign + e.digits)
  }

  function Print(w: Form): string {
    match w
    case Null => "null"
    case Truth(b) => if b then "true" else "false"
    case Whole(minus, digits) => PrintWhole(minus, digits)
    case Real(minus, digits, fraction, exponent) =>
      PrintWhole(minus, digits) + (PrintFraction(fraction) + PrintExponent(exponent))
    case Text(glyphs) => Quoted(glyphs)
    case List(items) => "[" + PrintItems(items) + "]"
    case Table(members) => "{" + PrintMembers(members) + "}"
  }

  function PrintItems(items: Items): string {
    match items
    case NoItems => ""
    case ItemGap(gap) => PrintGap(gap)
    case Item(before, value, after, rest) =>
      PrintGap(before) + Print(value) + PrintGap(after) + (if rest.NoItems? then "" else "," + PrintItems(rest))
  }

  function PrintMembers(members: Members): string {
    match members
    case NoMembers => ""
    case MemberGap(gap) => PrintGap(gap)
    case Member(before, name, beforeColon, afterColon, value, after, rest) =>
      PrintGap(before) + Quoted(name) + PrintGap(beforeColon) + ":" + PrintGap(afterColon) + Print(value)
      + PrintGap(after) + (if rest.NoMembers? then "" else "," + PrintMembers(rest))
  }

  function ItemCount(items: Items): nat { if items.Item? then 1 + ItemCount(items.rest) else 0 }

  function MemberCount(members: Members): nat { if members.Member? then 1 + MemberCount(members.rest) else 0 }

  /** The integer that is written. */
  function WholeNumber(minus: bool, digits: string): int { Negated(minus, NumberIn(10, Decimals(digits))) }

  function Negated(minus: bool, n: nat): int { if minus then -(n as int) else n }

  function TenTo(k: int): (r: real)
    ensures r > 0.0
    decreases if k < 0 then -k else k
  {
    if k == 0 then 1.0 else if k > 0 then 10.0 * TenTo(k - 1) else TenTo(k + 1) / 10.0
  }

  /** m times 10^k. */
  function Scaled(m: int, k: int): real { m as real * TenTo(k) }

  /** The number that is written, as all its digits and the power of ten that puts the point into its place. */
  function Mantissa(minus: bool, digits: string, fraction: string): int {
    Negated(minus, NumberIn(10, Decimals(digits + fraction)))
  }

  function ExponentOf(e: Exponent): int {
    if e.NoExponent? then 0 else Negated(e.sign == "-", NumberIn(10, Decimals(e.digits)))
  }

  function Power(fraction: string, exponent: Exponent): int { ExponentOf(exponent) - |fraction| }
}
