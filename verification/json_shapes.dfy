/**
  The nodes a JSON text is meant to leave: after pass 1 with the sizes it has counted, after pass 2
  with everything in place, in the order in which new_value hands them out.
 */
module JsonShapes {
  import opened Optional
  import opened JsonMachine
  import F = JsonForms

  // ---------------------------------------------------------------- single nodes

  function TextNode(first: bool, parent: Option<nat>, bytes: string): Node {
    var n := Fresh(Str, parent).(length := |bytes|);
    if first then n else n.(cap := |bytes| + 1, mem := bytes + "\0")
  }

  function WholeNode(parent: Option<nat>, n: int): Node { Fresh(Integer, parent).(integer := n) }

  /** A number with a fraction or an exponent; `n` is left over from its first digits. */
  function RealNode(parent: Option<nat>, n: int, x: real): Node { Fresh(Double, parent).(integer := n, dbl := x) }

  /** An array that will have `total` items and has those in `slots`. */
  function ListNode(first: bool, parent: Option<nat>, total: nat, slots: seq<nat>): Node {
    var n := Fresh(Array, parent).(length := |slots|);
    if first then n else n.(cap := total, slots := slots)
  }

  /** An object that will have `total` members with names of `room` bytes, and has these. */
  function TableNode(first: bool, parent: Option<nat>, total: nat, room: nat,
                     slots: seq<nat>, entries: seq<Entry>, mem: string): Node
  {
    var n := Fresh(Object, parent).(length := |slots|);
    if first then n.(names := |mem|)
    else n.(names := room, cap := total, nameCap := room, cursor := |mem|, slots := slots, entries := entries, mem := mem)
  }

  // ---------------------------------------------------------------- whole values

  function SizeOf(w: F.Form): (n: nat)
    ensures n > 0
  {
    match w
    case List(items) => 1 + ItemsSize(items)
    case Table(members) => 1 + MembersSize(members)
    case _ => 1
  }

  function ItemsSize(items: F.Items): nat {
    if items.Item? then SizeOf(items.value) + ItemsSize(items.rest) else 0
  }

  function MembersSize(members: F.Members): nat {
    if members.Member? then SizeOf(members.value) + MembersSize(members.rest) else 0
  }

  /** Where the nodes of the items begin, if the first is node c. */
  function ItemSlots(items: F.Items, c: nat): (r: seq<nat>)
    ensures |r| == F.ItemCount(items)
  {
    if items.Item? then [c] + ItemSlots(items.rest, c + SizeOf(items.value)) else []
  }

  function MemberSlots(members: F.Members, c: nat): (r: seq<nat>)
    ensures |r| == F.MemberCount(members)
  {
    if members.Member? then [c] + MemberSlots(members.rest, c + SizeOf(members.value)) else []
  }

  /** The names one after the other, each with a NUL. */
  function NameBytes(members: F.Members): string {
    if members.Member? then F.Says(members.name) + "\0" + NameBytes(members.rest) else ""
  }

  function NameEntries(members: F.Members, off: nat): (r: seq<Entry>)
    ensures |r| == F.MemberCount(members)
  {
    if members.Member?
    then [Entry(off, |F.Says(members.name)|)] + NameEntries(members.rest, off + |F.Says(members.name)| + 1)
    else []
  }

  /** The nodes of value w, the first of them node b, under `parent`. */
  function Made(first: bool, w: F.Form, parent: Option<nat>, b: nat): (r: seq<Node>)
    ensures |r| == SizeOf(w)
  {
    match w
    case Null => [Fresh(Kind.Null, parent)]
    case Truth(t) => [Fresh(Boolean(t), parent)]
    case Whole(minus, digits) => [WholeNode(parent, F.WholeNumber(minus, digits))]
    case Real(minus, digits, fraction, exponent) =>
      [RealNode(parent, F.WholeNumber(false, digits),
                F.Scaled(F.Mantissa(minus, digits, fraction), F.Power(fraction, exponent)))]
    case Text(glyphs) => [TextNode(first, parent, F.Says(glyphs))]
    case List(items) =>
      [ListNode(first, parent, F.ItemCount(items), ItemSlots(items, b + 1))] + MadeItems(first, items, b, b + 1)
    case Table(members) =>
      [TableNode(first, parent, F.MemberCount(members), |NameBytes(members)|, MemberSlots(members, b + 1),
                 NameEntries(members, 0), NameBytes(members))]
      + MadeMembers(first, members, b, b + 1)
  }

  function MadeItems(first: bool, items: F.Items, b: nat, c: nat): (r: seq<Node>)
    ensures |r| == ItemsSize(items)
  {
    if items.Item?
    then Made(first, items.value, Some(b), c) + MadeItems(first, items.rest, b, c + SizeOf(items.value))
    else []
  }

  function MadeMembers(first: bool, members: F.Members, b: nat, c: nat): (r: seq<Node>)
    ensures |r| == MembersSize(members)
  {
    if members.Member?
    then Made(first, members.value, Some(b), c) + MadeMembers(first, members.rest, b, c + SizeOf(members.value))
    else []
  }

  // ---------------------------------------------------------------- sizes

  /** No count passes uint_max. */
  predicate Fits(w: F.Form) {
    match w
    case Text(glyphs) => |F.Says(glyphs)| <= UINT_LIMIT
    case List(items) => F.ItemCount(items) <= UINT_LIMIT && FitItems(items)
    case Table(members) => F.MemberCount(members) <= UINT_LIMIT && FitMembers(members)
    case _ => true
  }

  predicate FitItems(items: F.Items) {
    items.Item? ==> Fits(items.value) && FitItems(items.rest)
  }

  predicate FitMembers(members: F.Members) {
    members.Member? ==> |F.Says(members.name)| <= UINT_LIMIT && Fits(members.value) && FitMembers(members.rest)
  }

  // ---------------------------------------------------------------- handing out and hanging up

  /** What is there in advance: nothing in pass 1, the nodes of pass 1 in pass 2. */
  function Ahead(first: bool, nodes: seq<Node>): seq<Node> { if first then [] else nodes }

  /** new_value hands out node n. */
  lemma NewNode(first: bool, s: State, kind: Kind, at: nat, done: seq<Node>, raw: seq<Node>, n: Node)
    requires s.visited == |done|
    requires if first then s.nodes == done && n == Fresh(kind, s.top) && raw == []
             else s.nodes == done + raw && raw != [] && SameKind(raw[0].kind, kind) && raw[0].parent == s.top
                  && n == Allocate(raw[0])
    ensures NewValue(first, s, kind, at)
            == More(s.(calls := s.calls + [Call(at, s.top, kind)], visited := s.visited + 1, top := Some(|done|),
                       nodes := done + [n] + (if first then [] else raw[1..])))
  {
    if !first {
      assert s.nodes[|done|] == raw[0];
      assert s.nodes[|done| := n] == done + [n] + raw[1..];
    } else {
      assert done + [n] + [] == done + [n];
    }
  }

  /** A parent with one child more. */
  function Added(first: bool, n: Node, child: nat): Node {
    if first then n.(length := n.length + 1) else n.(slots := n.slots + [child], length := n.length + 1)
  }

  function Grown(first: bool, done: seq<Node>, top: Option<nat>, child: nat): (r: seq<Node>)
    requires top.Some? ==> top.value < |done|
    ensures |r| == |done|
  {
    if top.None? then done else done[top.value := Added(first, done[top.value], child)]
  }

  /** The value `top` can take a child. */
  predicate CanTake(first: bool, done: seq<Node>, top: Option<nat>) {
    top.Some? ==>
      && top.value < |done| && IsContainer(done[top.value].kind) && done[top.value].length < UINT_LIMIT
      && (first || (|done[top.value].slots| == done[top.value].length < done[top.value].cap))
  }

  /** flag_next: the value made of the nodes `made` hangs under the value `top`. */
  lemma HangUp(first: bool, s: State, done: seq<Node>, made: seq<Node>, raw: seq<Node>, top: Option<nat>)
    requires s.nodes == done + made + raw && made != [] && made[0].parent == top && s.top == Some(|done|)
    requires CanTake(first, done, top)
    ensures Finish(first, s)
            == More(s.(top := if top.None? then Some(|done|) else top,
                       nodes := Grown(first, done, top, |done|) + made + raw))
  {
    assert s.nodes[|done|] == made[0];
    if top.Some? {
      var q := top.value;
      assert s.nodes[q] == done[q];
      assert s.nodes[q := Added(first, done[q], |done|)] == Grown(first, done, top, |done|) + made + raw;
    }
  }
}
