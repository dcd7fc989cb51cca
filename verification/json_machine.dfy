/**
  The character machine of json_parse_ex (3rdparty/json-parser/json.c), one iteration of its
  `for (state.ptr = json ;; ++ state.ptr)` loop at a time.

  An iteration is split in two.  `Decide` is the control part: it looks at the flags, the
  position, the type of `top` and the type of its parent, and says what happens next.  `Apply` is
  the data part: it changes the nodes, and it is the only part that asks which pass is running.
  Nodes are named by their allocation number, so the chain of `next_alloc` pointers is the order
  of the sequence `nodes`.  A char stands for one byte.
 */
module JsonMachine {
  import opened Optional

  /** The type of a value; u.boolean travels with it. */
  datatype Kind = Object | Array | Integer | Double | Str | Boolean(truth: bool) | Null

  predicate IsContainer(k: Kind) { k.Object? || k.Array? }

  predicate IsNumber(k: Kind) { k.Integer? || k.Double? }

  /** Pass 1 may still turn an Integer node into a Double one; no other type ever changes. */
  predicate SameKind(a: Kind, b: Kind) { a == b || (IsNumber(a) && IsNumber(b)) }

  /** The flags that survive from one iteration to the next. */
  datatype Flags = Flags(needComma: bool, seek: bool, escaped: bool, str: bool,
                         needColon: bool, done: bool, line: bool, block: bool)

  /**
    The flags and counters of the number machine, used by pass 1 only: num_digits, the digits of the
    fraction as a number and how many they are, and the exponent (num_fraction, num_e).
   */
  datatype Num = Num(digits: nat, zero: bool, exp: bool, gotSign: bool, negative: bool,
                     fraction: nat, places: nat, power: nat, down: bool)

  const NO_NUM := Num(0, false, false, false, false, 0, 0, 0, false)

  /** A name of an object: where it starts in the name region, and its length without the NUL. */
  datatype Entry = Entry(off: nat, len: nat)

  /**
    A json_value.  `length` and `names` are the counters of pass 1; pass 2 turns them into the
    capacities `cap` and `nameCap` of the buffers it allocates, and fills those buffers:
    `slots` are the child pointers, `entries` the names, `mem` the bytes of a string or of the
    name region, `cursor` the offset object_mem has reached.  `dbl` is the value of a double, which
    is not rounded here.
   */
  datatype Node = Node(kind: Kind, parent: Option<nat>, length: nat, names: nat, integer: int, dbl: real,
                       cap: nat, nameCap: nat, cursor: nat,
                       slots: seq<nat>, entries: seq<Entry>, mem: string)

  /** One call of new_value: where, under which `top`, for which type. */
  datatype Call = Call(at: nat, parent: Option<nat>, kind: Kind)

  datatype State = State(f: Flags, num: Num, pos: nat, strLen: nat, top: Option<nat>,
                         visited: nat, nodes: seq<Node>, calls: seq<Call>)

  /** What the control part can see of a state. */
  datatype View = View(f: Flags, num: Num, pos: nat, strLen: nat,
                       top: Option<Kind>, parent: Option<Kind>)

  datatype Error = Syntax | UnknownValue | TooLong

  datatype Action =
    | Skip                    // no data effect
    | Put(bytes: string)      // append to the string being read
    | New(kind: Kind)         // new_value, the value stays open
    | NewLeaf(kind: Kind)     // new_value, then flag_next
    | OpenName                // the opening quote of an object name
    | CloseName               // its closing quote
    | CloseText               // closing quote of a string value, then flag_next
    | Close                   // ']' or '}', then flag_next
    | Digit(d: nat)           // a digit of an integer
    | ToDouble                // '.' or 'e' after an integer
    | NumEnd                  // the number is over, then flag_next

  /** Crash is the dereference of a null `top`. */
  datatype Decision = Go(f: Flags, num: Num, pos: nat, act: Action) | Stop | Refuse(e: Error) | Crash

  /** Fault stands for a wild read or write, or for handing out the wrong node, in pass 2. */
  datatype Outcome = More(s: State) | Accept(s: State) | Reject(e: Error) | Fault

  /** uint_max: no counter may pass UINT_MAX - 8. */
  const UINT_LIMIT: nat := 0xFFFF_FFFF - 8

  // ---------------------------------------------------------------- characters

  /** The byte at position i, with the terminating NUL of c_str() at the end. */
  function At(json: string, i: nat): char { if i < |json| then json[i] else '\0' }

  predicate IsDigit(c: char) { '0' <= c <= '9' }

  predicate IsSpace(c: char) { c == ' ' || c == '\t' || c == '\r' || c == '\n' }

  /** The characters pass 2 skips over when it meets a number. */
  predicate InNumber(c: char) {
    IsDigit(c) || c == '+' || c == '-' || c == 'e' || c == 'E' || c == '.'
  }

  function HexValue(c: char): nat {
    if IsDigit(c) then (c - '0') as nat
    else if 'a' <= c <= 'f' then (c - 'a') as nat + 10
    else if 'A' <= c <= 'F' then (c - 'A') as nat + 10
    else 0xFF
  }

  /** The value of the four hexadecimal digits that follow position p. */
  function Hex4(json: string, p: nat): (r: Option<nat>)
    ensures r.Some? ==> r.value < 0x1_0000 && p + 4 < |json|
  {
    var h1, h2 := HexValue(At(json, p + 1)), HexValue(At(json, p + 2));
    var h3, h4 := HexValue(At(json, p + 3)), HexValue(At(json, p + 4));
    if |json| - p < 4 || h1 == 0xFF || h2 == 0xFF || h3 == 0xFF || h4 == 0xFF then None
    else Some((h1 * 16 + h2) * 256 + h3 * 16 + h4)
  }

  /** uchar & 0xF800 == 0xD800 */
  predicate IsSurrogate(u: nat) { u / 0x800 == 0x1B }

  /** 0x010000 | ((hi & 0x3FF) << 10) | (lo & 0x3FF) */
  function Combine(hi: nat, lo: nat): (u: nat)
    ensures 0x1_0000 <= u <= 0xF_FFFF
  {
    var low := (hi % 0x400) * 0x400 + lo % 0x400;
    if (low / 0x1_0000) % 2 == 1 then low else low + 0x1_0000
  }

  function Byte(n: nat): char
    requires n < 0x100
  {
    n as char
  }

  function Utf8(u: nat): (bytes: string)
    requires u <= 0xF_FFFF
    ensures 1 <= |bytes| <= 4
  {
    if u <= 0x7F then [Byte(u)]
    else if u <= 0x7FF then [Byte(0xC0 + u / 0x40), Byte(0x80 + u % 0x40)]
    else if u <= 0xFFFF then
      [Byte(0xE0 + u / 0x1000), Byte(0x80 + (u / 0x40) % 0x40), Byte(0x80 + u % 0x40)]
    else
      [Byte(0xF0 + u / 0x4_0000), Byte(0x80 + (u / 0x1000) % 0x40),
       Byte(0x80 + (u / 0x40) % 0x40), Byte(0x80 + u % 0x40)]
  }

  /** Where pass 2 stops skipping a number. */
  function SkipNumber(json: string, p: nat): (q: nat)
    requires p <= |json|
    ensures p <= q <= |json|
    ensures InNumber(At(json, p)) ==> p < q
    decreases |json| - p
  {
    if p < |json| && InNumber(json[p]) then SkipNumber(json, p + 1) else p
  }

  // ---------------------------------------------------------------- control

  /** The flag_next block: a finished value makes its parent expect a comma. */
  function NextFlags(f: Flags, parent: Option<Kind>): Flags {
    match parent
    case None => f.(needComma := true, done := true)
    case Some(k) => f.(needComma := true, seek := k.Array? || f.seek)
  }

  function Move(v: View, f: Flags): Decision { Go(f, v.num, v.pos + 1, Skip) }

  function DecideUnicode(json: string, v: View, f: Flags): Decision {
    match Hex4(json, v.pos)
    case None => Refuse(Syntax)
    case Some(u) =>
      if IsSurrogate(u) then
        if |json| - (v.pos + 4) < 6 || At(json, v.pos + 5) != '\\' || At(json, v.pos + 6) != 'u'
        then Refuse(Syntax)
        else match Hex4(json, v.pos + 6)
          case None => Refuse(Syntax)
          case Some(lo) => Go(f, v.num, v.pos + 11, Put(Utf8(Combine(u, lo))))
      else Go(f, v.num, v.pos + 5, Put(Utf8(u)))
  }

  function DecideEscape(json: string, v: View, b: char): Decision {
    var f := v.f.(escaped := false);
    match b
    case 'b' => Go(f, v.num, v.pos + 1, Put("\U{8}"))
    case 'f' => Go(f, v.num, v.pos + 1, Put("\U{C}"))
    case 'n' => Go(f, v.num, v.pos + 1, Put("\n"))
    case 'r' => Go(f, v.num, v.pos + 1, Put("\r"))
    case 't' => Go(f, v.num, v.pos + 1, Put("\t"))
    case 'u' => DecideUnicode(json, v, f)
    case _ => Go(f, v.num, v.pos + 1, Put([b]))
  }

  /**
    flag_string is set.  After the closing quote of a string value the loop body runs on, but with
    b == '"' and no flag set that could catch it before flag_next (see StringFlags in WFView), so
    CloseText goes to flag_next at once.
   */
  function DecideString(json: string, v: View, b: char): Decision {
    if b == '\0' then Refuse(Syntax)
    else if v.strLen > UINT_LIMIT then Refuse(TooLong)
    else if v.f.escaped then DecideEscape(json, v, b)
    else if b == '\\' then Move(v, v.f.(escaped := true))
    else if b == '"' then
      match v.top
      case Some(Str) => Go(NextFlags(v.f.(str := false), v.parent), v.num, v.pos + 1, CloseText)
      case Some(Object) =>
        Go(v.f.(str := false, seek := true, needColon := true), v.num, v.pos + 1, CloseName)
      case _ => Crash
    else Go(v.f, v.num, v.pos + 1, Put([b]))
  }

  function DecideInComment(json: string, v: View, b: char): Decision {
    if v.f.line then
      if b == '\r' || b == '\n' || b == '\0' then Go(v.f.(line := false), v.num, v.pos, Skip)
      else Move(v, v.f)
    else if b == '\0' then Refuse(Syntax)
    else if b == '*' && v.pos + 1 < |json| && json[v.pos + 1] == '/' then
      Go(v.f.(block := false), v.num, v.pos + 2, Skip)
    else Move(v, v.f)
  }

  function DecideSlash(json: string, v: View): Decision {
    if !v.f.seek && !v.f.done && v.top.None? then Crash
    else if !v.f.seek && !v.f.done && v.top != Some(Object) then Refuse(Syntax)
    else if v.pos + 1 == |json| then Refuse(Syntax)
    else match At(json, v.pos + 1)
      case '/' => Go(v.f.(line := true), v.num, v.pos + 2, Skip)
      case '*' => Go(v.f.(block := true), v.num, v.pos + 2, Skip)
      case _ => Refuse(Syntax)
  }

  function DecideDone(v: View, b: char): Decision {
    if b == '\0' then Stop
    else if IsSpace(b) then Move(v, v.f)
    else Refuse(Syntax)
  }

  predicate Follows(json: string, p: nat, word: string) {
    p + |word| < |json| && json[p + 1..p + 1 + |word|] == word
  }

  function DecideWord(json: string, v: View, f: Flags, word: string, k: Kind): Decision {
    if Follows(json, v.pos, word)
    then Go(NextFlags(f, v.top), v.num, v.pos + 1 + |word|, NewLeaf(k))
    else Refuse(UnknownValue)
  }

  function DecideNewNumber(first: bool, json: string, v: View, f: Flags, b: char): Decision
    requires v.pos <= |json|
  {
    if !first then Go(NextFlags(f, v.top), v.num, SkipNumber(json, v.pos), NewLeaf(Integer))
    else if b == '-' then Go(f, NO_NUM.(negative := true), v.pos + 1, New(Integer))
    else Go(f, NO_NUM, v.pos, New(Integer))
  }

  function DecideValue(first: bool, json: string, v: View, b: char): Decision
    requires v.pos <= |json|
  {
    var f := v.f.(seek := false);
    match b
    case '{' => Go(f, v.num, v.pos + 1, New(Object))
    case '[' => Go(f.(seek := true), v.num, v.pos + 1, New(Array))
    case '"' => Go(f.(str := true), v.num, v.pos + 1, New(Str))
    case 't' => DecideWord(json, v, f, "rue", Boolean(true))
    case 'f' => DecideWord(json, v, f, "alse", Boolean(false))
    case 'n' => DecideWord(json, v, f, "ull", Null)
    case _ =>
      if IsDigit(b) || b == '-' then DecideNewNumber(first, json, v, f, b) else Refuse(Syntax)
  }

  function DecideSeek(first: bool, json: string, v: View, b: char): Decision
    requires v.pos <= |json|
  {
    if IsSpace(b) then Move(v, v.f)
    else if b == ']' then
      if v.top == Some(Array)
      then Go(NextFlags(v.f.(needComma := false, seek := false), v.parent), v.num, v.pos + 1, Close)
      else Refuse(Syntax)
    else if v.f.needComma then
      if b == ',' then Move(v, v.f.(needComma := false)) else Refuse(Syntax)
    else if v.f.needColon then
      if b == ':' then Move(v, v.f.(needColon := false)) else Refuse(Syntax)
    else DecideValue(first, json, v, b)
  }

  function DecideObject(v: View, b: char): Decision {
    if IsSpace(b) then Move(v, v.f)
    else match b
      case '"' =>
        if v.f.needComma then Refuse(Syntax)
        else Go(v.f.(str := true), v.num, v.pos + 1, OpenName)
      case '}' => Go(NextFlags(v.f.(needComma := false), v.parent), v.num, v.pos + 1, Close)
      case ',' =>
        if v.f.needComma then Move(v, v.f.(needComma := false)) else Refuse(Syntax)
      case _ => Refuse(Syntax)
  }

  function DecideDigit(v: View, b: char): Decision
    requires IsDigit(b)
  {
    var num := v.num.(digits := v.num.digits + 1);
    if v.num.exp then
      Go(v.f, num.(gotSign := true, power := num.power * 10 + HexValue(b)), v.pos + 1, Skip)
    else if v.top == Some(Integer) then
      if v.num.zero then Refuse(Syntax)
      else Go(v.f, num.(zero := num.digits == 1 && b == '0'), v.pos + 1, Digit(HexValue(b)))
    else Go(v.f, num.(fraction := num.fraction * 10 + HexValue(b)), v.pos + 1, Skip)
  }

  function DecideNumber(v: View, b: char): Decision {
    var num := v.num;
    var measured := if num.exp || v.top != Some(Double) then num else num.(places := num.digits);
    var end := Go(NextFlags(v.f, v.parent), measured, v.pos, NumEnd);
    if IsDigit(b) then DecideDigit(v, b)
    else if (b == '+' || b == '-') && num.exp && !num.gotSign then
      Go(v.f, num.(gotSign := true, down := b == '-'), v.pos + 1, Skip)
    else if b == '.' && v.top == Some(Integer) then
      if num.digits == 0 then Refuse(Syntax)
      else Go(v.f, num.(digits := 0), v.pos + 1, ToDouble)
    else if num.exp then
      if num.digits == 0 then Refuse(Syntax) else end
    else if v.top == Some(Double) && num.digits == 0 then Refuse(Syntax)
    else if b == 'e' || b == 'E' then
      Go(v.f, measured.(exp := true, digits := 0, zero := false), v.pos + 1, ToDouble)
    else end
  }

  function Decide(first: bool, comments: bool, json: string, v: View): Decision
    requires v.pos <= |json|
  {
    var b := At(json, v.pos);
    if v.f.str then DecideString(json, v, b)
    else if comments && (v.f.line || v.f.block) then DecideInComment(json, v, b)
    else if comments && b == '/' then DecideSlash(json, v)
    else if v.f.done then DecideDone(v, b)
    else if v.f.seek then DecideSeek(first, json, v, b)
    else match v.top
      case None => Crash
      case Some(Object) => DecideObject(v, b)
      case Some(Integer) => DecideNumber(v, b)
      case Some(Double) => DecideNumber(v, b)
      case _ => Move(v, v.f)
  }

  // ---------------------------------------------------------------- data

  function Fresh(kind: Kind, parent: Option<nat>): Node {
    Node(kind, parent, 0, 0, 0, 0.0, 0, 0, 0, [], [], "")
  }

  /** What new_value does in pass 2 to the node it hands out: counters become capacities. */
  function Allocate(n: Node): Node {
    if IsContainer(n.kind) && n.length == 0 then n
    else if n.kind.Str? then n.(cap := n.length + 1, length := 0)
    else n.(cap := n.length, nameCap := n.names, length := 0)
  }

  function NewValue(first: bool, s: State, kind: Kind, at: nat): Outcome {
    var s1 := s.(calls := s.calls + [Call(at, s.top, kind)]);
    if first then
      More(s1.(nodes := s.nodes + [Fresh(kind, s.top)], visited := s.visited + 1,
               top := Some(|s.nodes|)))
    else if s.visited >= |s.nodes| || !SameKind(s.nodes[s.visited].kind, kind)
            || s.nodes[s.visited].parent != s.top then Fault
    else
      More(s1.(nodes := s.nodes[s.visited := Allocate(s.nodes[s.visited])],
               visited := s.visited + 1, top := Some(s.visited)))
  }

  /** How many bytes `mem` may hold. */
  function MemCap(n: Node): nat { if n.kind.Object? then n.nameCap else n.cap }

  /** Where `string [string_length]` lies in `mem`. */
  function WriteAt(n: Node, strLen: nat): nat { (if n.kind.Object? then n.cursor else 0) + strLen }

  /** Writes bytes at string_length: inside the buffer, and over nothing written before. */
  function Write(n: Node, strLen: nat, bytes: string): Option<Node> {
    if WriteAt(n, strLen) != |n.mem| || |n.mem| + |bytes| > MemCap(n) then None
    else Some(n.(mem := n.mem + bytes))
  }

  function PutBytes(first: bool, s: State, t: nat, bytes: string): Outcome
    requires t < |s.nodes|
  {
    var s1 := s.(strLen := s.strLen + |bytes|);
    if first then More(s1)
    else match Write(s.nodes[t], s.strLen, bytes)
      case None => Fault
      case Some(n) => More(s1.(nodes := s.nodes[t := n]))
  }

  function CloseNameOf(n: Node, first: bool, strLen: nat): Option<Node> {
    if first then Some(n.(names := n.names + strLen + 1))
    else match Write(n, strLen, "\0")
      case None => None
      case Some(n1) =>
        if |n.entries| != n.length || n.length >= n.cap then None
        else Some(n1.(entries := n.entries + [Entry(n.cursor, strLen)],
                      cursor := n.cursor + strLen + 1))
  }

  function CloseTextOf(n: Node, first: bool, strLen: nat): Option<Node> {
    if first then Some(n.(length := strLen))
    else match Write(n, strLen, "\0")
      case None => None
      case Some(n1) => Some(n1.(length := strLen))
  }

  function AddChild(n: Node, first: bool, child: nat): Option<Node> {
    if first || !IsContainer(n.kind) then Some(n.(length := n.length + 1))
    else if |n.slots| != n.length || n.length >= n.cap then None
    else Some(n.(slots := n.slots + [child], length := n.length + 1))
  }

  /** The data part of flag_next: hang `top` under its parent and make the parent `top`. */
  function Finish(first: bool, s: State): Outcome {
    if s.top.None? || s.top.value >= |s.nodes| then Fault
    else match s.nodes[s.top.value].parent
      case None => More(s)
      case Some(p) =>
        if p >= |s.nodes| then Fault
        else match AddChild(s.nodes[p], first, s.top.value)
          case None => Fault
          case Some(n) =>
            if n.length > UINT_LIMIT then Reject(TooLong)
            else More(s.(nodes := s.nodes[p := n], top := Some(p)))
  }

  function OnTop(s: State, n: Option<Node>): Outcome
    requires s.top.Some? && s.top.value < |s.nodes|
  {
    match n
    case None => Fault
    case Some(n) => More(s.(nodes := s.nodes[s.top.value := n]))
  }

  function ThenFinish(first: bool, o: Outcome): Outcome {
    match o
    case More(s) => Finish(first, s)
    case _ => o
  }

  /** The actions that change `top` in place or end it. */
  function PerformOnTop(first: bool, s: State, act: Action): Outcome
    requires s.top.Some? && s.top.value < |s.nodes|
  {
    var t := s.top.value;
    var n := s.nodes[t];
    match act
    case Put(bytes) => PutBytes(first, s, t, bytes)
    case OpenName => More(s.(strLen := 0))
    case CloseName => OnTop(s, CloseNameOf(n, first, s.strLen))
    case CloseText => ThenFinish(first, OnTop(s, CloseTextOf(n, first, s.strLen)))
    case Close => Finish(first, s)
    case Digit(d) => OnTop(s, Some(n.(integer := n.integer * 10 + d)))
    case ToDouble => OnTop(s, Some(n.(kind := Double)))
    case NumEnd => ThenFinish(first, OnTop(s, Some(Signed(n, s.num))))
    case _ => More(s)
  }

  function PowerOfTen(n: nat): (r: real)
    ensures r > 0.0
  {
    if n == 0 then 1.0 else 10.0 * PowerOfTen(n - 1)
  }

  /** What a number that is over is worth, put together from its parts. */
  function DoubleOf(integer: int, num: Num): real {
    var value := integer as real + num.fraction as real / PowerOfTen(num.places);
    if num.down then value / PowerOfTen(num.power) else value * PowerOfTen(num.power)
  }

  function Signed(n: Node, num: Num): Node {
    if n.kind.Integer? then n.(integer := if num.negative then -n.integer else n.integer)
    else n.(dbl := if num.negative then -DoubleOf(n.integer, num) else DoubleOf(n.integer, num))
  }

  function Perform(first: bool, s: State, act: Action, at: nat): Outcome {
    if act.Skip? then More(s)
    else if act.New? then NewValue(first, s.(strLen := if act.kind.Str? then 0 else s.strLen), act.kind, at)
    else if act.NewLeaf? then ThenFinish(first, NewValue(first, s, act.kind, at))
    else if s.top.None? || s.top.value >= |s.nodes| then Fault
    else PerformOnTop(first, s, act)
  }

  function Apply(first: bool, s: State, d: Decision): Outcome {
    match d
    case Stop => Accept(s)
    case Refuse(e) => Reject(e)
    case Crash => Fault
    case Go(f, num, pos, act) => Perform(first, s.(f := f, num := num, pos := pos), act, s.pos)
  }

  function KindAt(nodes: seq<Node>, i: Option<nat>): Option<Kind> {
    if i.Some? && i.value < |nodes| then Some(nodes[i.value].kind) else None
  }

  function ParentOf(nodes: seq<Node>, i: Option<nat>): Option<nat> {
    if i.Some? && i.value < |nodes| then nodes[i.value].parent else None
  }

  function ViewOf(s: State): View {
    View(s.f, s.num, s.pos, s.strLen, KindAt(s.nodes, s.top), KindAt(s.nodes, ParentOf(s.nodes, s.top)))
  }

  /** One iteration of the loop. */
  function Step(first: bool, comments: bool, json: string, s: State): Outcome
    requires s.pos <= |json|
  {
    Apply(first, s, Decide(first, comments, json, ViewOf(s)))
  }

  const INITIAL_FLAGS := Flags(false, true, false, false, false, false, false, false)

  /** The state at the start of a pass. */
  function Start(nodes: seq<Node>): State {
    State(INITIAL_FLAGS, NO_NUM, 0, 0, None, 0, nodes, [])
  }
}
