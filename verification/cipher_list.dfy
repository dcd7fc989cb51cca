/**
  The doubly linked list of CIPHER_ORDER nodes (3rdparty/boringssl/ssl/ssl_cipher.c): rules move
  nodes to either end while a loop is walking over them.
 */
module CipherList {
  import opened CipherRules
  import opened CipherSort
  import opened CipherGroups

  class CipherOrder {
    const cipher: Cipher
    var active: bool
    var inGroup: bool
    var next: CipherOrder?
    var prev: CipherOrder?

    constructor (cipher: Cipher)
      ensures this.cipher == cipher && !active && !inGroup && next == null && prev == null
    {
      this.cipher := cipher;
      active, inGroup, next, prev := false, false, null, null;
    }

    ghost function Content(): Entry
      reads this
    {
      Entry(cipher, active, inGroup)
    }
  }

  ghost predicate Distinct(s: seq<CipherOrder>) {
    forall i, j | 0 <= i < j < |s| :: s[i] != s[j]
  }

  /** The nodes of s are linked to each other in both directions, and to nothing else. */
  ghost predicate Linked(s: seq<CipherOrder>)
    reads s
  {
    && Distinct(s)
    && (forall i {:trigger s[i].next} | 0 <= i < |s| :: s[i].next == if i + 1 < |s| then s[i + 1] else null)
    && (forall i {:trigger s[i].prev} | 0 <= i < |s| :: s[i].prev == if i > 0 then s[i - 1] else null)
  }

  ghost function Contents(s: seq<CipherOrder>): (r: seq<Entry>)
    reads s
    ensures |r| == |s| && forall i | 0 <= i < |s| :: r[i] == s[i].Content()
  {
    if s == [] then [] else Contents(s[..|s| - 1]) + [s[|s| - 1].Content()]
  }

  /** The table as it enters the list. */
  function Disabled(table: seq<Cipher>, supported: Cipher -> bool): seq<Entry> {
    if table == [] then []
    else
      var c := table[|table| - 1];
      Disabled(table[..|table| - 1], supported) + (if supported(c) then [Entry(c, false, false)] else [])
  }

  method MakeNodes(table: seq<Cipher>, supported: Cipher -> bool) returns (coList: seq<CipherOrder>)
    ensures Distinct(coList) && fresh(set x | x in coList)
    ensures Contents(coList) == Disabled(table, supported)
  {
    coList := [];
    for n := 0 to |table|
      invariant Distinct(coList) && fresh(set x | x in coList)
      invariant Contents(coList) == Disabled(table[..n], supported)
    {
      assert table[..n + 1][..n] == table[..n];
      if supported(table[n]) {
        var node := new CipherOrder(table[n]);
        coList := coList + [node];
      }
    }
    assert table[..|table|] == table;
  }

  /** The second half of ssl_cipher_collect_ciphers: link the array entries in order. */
  method LinkUp(coList: seq<CipherOrder>)
    requires Distinct(coList) && |coList| > 0
    modifies coList`next, coList`prev
    ensures Linked(coList)
  {
    var num := |coList|;
    coList[0].prev := null;
    if num > 1 {
      coList[0].next := coList[1];
      for i := 1 to num - 1
        invariant forall k {:trigger coList[k].next} | 0 <= k < i :: coList[k].next == coList[k + 1]
        invariant forall k {:trigger coList[k].prev} | 0 <= k < i :: coList[k].prev == if k > 0 then coList[k - 1] else null
      {
        coList[i].prev := coList[i - 1];
        coList[i].next := coList[i + 1];
      }
      coList[num - 1].prev := coList[num - 2];
    }
    coList[num - 1].next := null;
  }

  /** The nodes that remain when number k leaves. */
  lemma WithoutShape(s: seq<CipherOrder>, k: nat)
    requires k < |s| && Distinct(s)
    ensures var r := Without(s, k);
            && |r| == |s| - 1 && Distinct(r) && s[k] !in r
            && forall i {:trigger r[i]} | 0 <= i < |r| :: r[i] == if i < k then s[i] else s[i + 1]
  {
  }

  lemma NothingIsLinked()
    ensures Linked([])
  {
  }

  class List {
    var head: CipherOrder?
    var tail: CipherOrder?
    ghost var nodes: seq<CipherOrder>
    ghost const pool: set<CipherOrder>  // every node that was ever in the list

    ghost predicate Valid()
      reads this, nodes
    {
      && (forall x | x in nodes :: x in pool)
      && Linked(nodes)
      && head == (if nodes == [] then null else nodes[0])
      && tail == (if nodes == [] then null else nodes[|nodes| - 1])
    }

    ghost function Entries(): seq<Entry>
      reads this, nodes
    {
      Contents(nodes)
    }

    /** ssl_cipher_collect_ciphers: the supported ciphers, disabled, in the order of the table. */
    constructor CollectCiphers(table: seq<Cipher>, supported: Cipher -> bool)
      ensures Valid() && fresh(this.pool)
      ensures Entries() == Disabled(table, supported)
    {
      hide Contents, Disabled, Linked, Distinct;
      var coList := MakeNodes(table, supported);
      pool := set x | x in coList;
      nodes := coList;
      head, tail := null, null;
      new;
      NothingIsLinked();
      if |coList| > 0 {
        LinkUp(coList);
        head := coList[0];
        tail := coList[|coList| - 1];
      }
    }

    /** ll_append_tail */
    method AppendTail(curr: CipherOrder, ghost k: nat)
      requires Valid() && k < |nodes| && nodes[k] == curr
      modifies this, pool`next, pool`prev
      ensures Valid() && nodes == Without(old(nodes), k) + [curr]
    {
      ghost var s := nodes;
      WithoutShape(s, k);
      hide Contents, Without, Distinct;
      if curr == tail {
        return;
      }
      if curr == head {
        head := curr.next;
      }
      if curr.prev != null {
        curr.prev.next := curr.next;
      }
      if curr.next != null {
        curr.next.prev := curr.prev;
      }
      tail.next := curr;
      curr.prev := tail;
      curr.next := null;
      tail := curr;
      nodes := Without(s, k) + [curr];
    }

    /** ll_append_head */
    method AppendHead(curr: CipherOrder, ghost k: nat)
      requires Valid() && k < |nodes| && nodes[k] == curr
      modifies this, pool`next, pool`prev
      ensures Valid() && nodes == [curr] + Without(old(nodes), k)
    {
      ghost var s := nodes;
      WithoutShape(s, k);
      hide Contents, Without, Distinct;
      if curr == head {
        return;
      }
      if curr == tail {
        tail := curr.prev;
      }
      if curr.next != null {
        curr.next.prev := curr.prev;
      }
      if curr.prev != null {
        curr.prev.next := curr.next;
      }
      head.prev := curr;
      curr.next := head;
      curr.prev := null;
      head := curr;
      nodes := [curr] + Without(s, k);
    }

    /** The CIPHER_KILL branch of ssl_cipher_apply_rule. */
    method Unlink(curr: CipherOrder, ghost k: nat)
      requires Valid() && k < |nodes| && nodes[k] == curr
      modifies this, pool`next, pool`prev, curr
      ensures Valid() && nodes == Without(old(nodes), k)
      ensures curr.next == null && curr.prev == null && !curr.active && curr.inGroup == old(curr.inGroup)
    {
      ghost var s := nodes;
      WithoutShape(s, k);
      hide Contents, Without, Distinct;
      if head == curr {
        head := curr.next;
      } else {
        curr.prev.next := curr.next;
      }
      if tail == curr {
        tail := curr.prev;
      }
      curr.active := false;
      if curr.next != null {
        curr.next.prev := curr.prev;
      }
      if curr.prev != null {
        curr.prev.next := curr.next;
      }
      curr.next := null;
      curr.prev := null;
      nodes := Without(s, k);
    }

    /** What ssl_cipher_apply_rule does to a node it hits, walking towards the tail. */
    method HitForward(curr: CipherOrder, rule: Rule, inGroup: bool, ghost k: nat)
      requires Valid() && k < |nodes| && nodes[k] == curr && !rule.Delete?
      modifies this, pool`next, pool`prev, curr
      ensures Valid()
      ensures nodes == if rule.Kill? then Without(old(nodes), k) else Without(old(nodes), k) + [curr]
      ensures curr.Content() == Marked(rule, inGroup, old(curr.Content()))
    {
      match rule {
        case Add =>
          AppendTail(curr, k);
          curr.active := true;
          curr.inGroup := inGroup;
        case Order =>
          AppendTail(curr, k);
          curr.inGroup := false;
        case Kill =>
          Unlink(curr, k);
        case Delete =>
      }
    }

    /** A walk towards the tail over the nodes s, whose entries were e, has passed the first i of them. */
    ghost predicate Walked(rule: Rule, sel: Selection, inGroup: bool, s: seq<CipherOrder>, e: seq<Entry>, i: nat)
      reads this, nodes, s
    {
      && Valid() && |e| == |s| && i <= |s| && Distinct(s) && (forall x | x in s :: x in pool)
      && nodes == Forward(s, Hits(rule, sel, e), i, rule.Kill?)
      && (forall k | i <= k < |s| :: s[k].Content() == e[k])
      && (forall k | 0 <= k < i :: s[k].Content() == After(rule, sel, inGroup, e[k]))
    }

    /** The node behind the one at hand has not been moved yet. */
    lemma NextForward(s: seq<CipherOrder>, hits: seq<bool>, i: nat, drop: bool)
      requires Valid() && |hits| == |s| && i < |s| && nodes == Forward(s, hits, i, drop)
      ensures i + 1 < |s| ==> s[i].next == s[i + 1]
    {
      hide Forward, Pick, Without;
      ForwardStep(s, hits, i, drop);
    }

    /** One turn of the loop of ssl_cipher_apply_rule, walking towards the tail. */
    method ForwardTurn(curr: CipherOrder, rule: Rule, sel: Selection, inGroup: bool,
                       ghost s: seq<CipherOrder>, ghost e: seq<Entry>, ghost i: nat)
      returns (next: CipherOrder?)
      requires Walked(rule, sel, inGroup, s, e, i) && !rule.Delete? && i < |s| && curr == s[i]
      modifies this, pool`next, pool`prev, curr
      ensures Walked(rule, sel, inGroup, s, e, i + 1)
      ensures i + 1 < |s| ==> next == s[i + 1]
    {
      hide Pick, Forward, Hits, Without, Linked, Contents;
      ghost var hits := Hits(rule, sel, e);
      NextForward(s, hits, i, rule.Kill?);
      next := curr.next;
      ForwardStep(s, hits, i, rule.Kill?);
      assert s[i].Content() == e[i];
      if Selects(sel, curr.cipher) && (rule.Kill? || curr.active == rule.Order?) {
        HitForward(curr, rule, inGroup, |Pick(s[..i], hits[..i], false)|);
      }
    }

    /** What ssl_cipher_apply_rule does to a node it hits, walking towards the head. */
    method HitBackward(curr: CipherOrder, ghost k: nat)
      requires Valid() && k < |nodes| && nodes[k] == curr
      modifies this, pool`next, pool`prev, curr
      ensures Valid() && nodes == [curr] + Without(old(nodes), k)
      ensures curr.Content() == Marked(Delete, false, old(curr.Content()))
    {
      AppendHead(curr, k);
      curr.active := false;
      curr.inGroup := false;
    }

    /** A walk towards the head has passed all nodes from number i on. */
    ghost predicate WalkedBack(sel: Selection, s: seq<CipherOrder>, e: seq<Entry>, i: nat)
      reads this, nodes, s
    {
      && Valid() && |e| == |s| && i <= |s| && Distinct(s) && (forall x | x in s :: x in pool)
      && nodes == Backward(s, Hits(Delete, sel, e), i)
      && (forall k | 0 <= k < i :: s[k].Content() == e[k])
      && (forall k | i <= k < |s| :: s[k].Content() == After(Delete, sel, false, e[k]))
    }

    lemma NextBackward(s: seq<CipherOrder>, hits: seq<bool>, i: nat)
      requires Valid() && |hits| == |s| && i < |s| && nodes == Backward(s, hits, i + 1)
      ensures i > 0 ==> s[i].prev == s[i - 1]
    {
      hide Backward, Pick, Without;
      BackwardStep(s, hits, i);
    }

    /** One turn of the loop of ssl_cipher_apply_rule, walking towards the head. */
    method BackwardTurn(curr: CipherOrder, sel: Selection,
                        ghost s: seq<CipherOrder>, ghost e: seq<Entry>, ghost i: nat)
      returns (next: CipherOrder?)
      requires i < |s| && curr == s[i] && WalkedBack(sel, s, e, i + 1)
      modifies this, pool`next, pool`prev, curr
      ensures WalkedBack(sel, s, e, i)
      ensures i > 0 ==> next == s[i - 1]
    {
      hide Pick, Backward, Hits, Without, Linked, Contents;
      ghost var hits := Hits(Delete, sel, e);
      NextBackward(s, hits, i);
      next := curr.prev;
      BackwardStep(s, hits, i);
      assert s[i].Content() == e[i];
      if Selects(sel, curr.cipher) && curr.active {
        HitBackward(curr, |Pick(s[i + 1..], hits[i + 1..], true)| + i);
      }
    }

    lemma WalkBackStarts(sel: Selection)
      requires Valid()
      ensures WalkedBack(sel, nodes, Entries(), |nodes|)
    {
      BackwardStart(nodes, Hits(Delete, sel, Entries()));
    }

    lemma WalkBackEnds(sel: Selection, s: seq<CipherOrder>, e: seq<Entry>)
      requires WalkedBack(sel, s, e, 0)
      ensures Valid() && Entries() == ApplyRule(Delete, sel, false, e)
    {
      hide Backward, Hits, Contents, ApplyRule;
      BackwardContents(sel, s, e);
    }

    /** The loop of ssl_cipher_apply_rule with reverse == 1. */
    method WalkBackward(sel: Selection)
      requires Valid()
      modifies this, pool
      ensures Valid() && Entries() == ApplyRule(Delete, sel, false, old(Entries()))
    {
      hide Backward, Hits, Linked, Contents, ApplyRule, Without, Pick;
      ghost var s, e := nodes, Entries();
      WalkBackStarts(sel);
      ghost var i: nat := |s|;
      var next, last := tail, head;
      var curr: CipherOrder? := null;
      while true
        invariant 0 <= i <= |s| && WalkedBack(sel, s, e, i)
        invariant curr == if i == |s| then null else s[i]
        invariant i > 0 ==> next == s[i - 1]
        decreases i
      {
        if curr == last {
          break;
        }
        curr := next;
        if curr == null {
          break;
        }
        next := BackwardTurn(curr, sel, s, e, i - 1);
        i := i - 1;
      }
      WalkBackEnds(sel, s, e);
    }

    /** ssl_cipher_apply_rule: in_group is 0 for everything but Add. */
    method Apply(rule: Rule, sel: Selection, inGroup: bool)
      requires Valid()
      modifies this, pool
      ensures Valid() && Entries() == ApplyRule(rule, sel, inGroup, old(Entries()))
    {
      hide ApplyRule, Contents, Linked, SelectsNothing;
      if SelectsNothing(sel) {
        NothingSelected(rule, sel, inGroup, Entries());
        return;
      }
      if rule.Delete? {
        DeleteForgetsGroups(sel, inGroup, Entries());
        WalkBackward(sel);
      } else {
        WalkForward(rule, sel, inGroup);
      }
    }

    lemma WalkStarts(rule: Rule, sel: Selection, inGroup: bool)
      requires Valid()
      ensures Walked(rule, sel, inGroup, nodes, Entries(), 0)
    {
      ForwardStart(nodes, Hits(rule, sel, Entries()), rule.Kill?);
    }

    lemma WalkEnds(rule: Rule, sel: Selection, inGroup: bool, s: seq<CipherOrder>, e: seq<Entry>)
      requires Walked(rule, sel, inGroup, s, e, |s|) && !rule.Delete?
      ensures Valid() && Entries() == ApplyRule(rule, sel, inGroup, e)
    {
      hide Forward, Hits, Contents, ApplyRule;
      ForwardContents(rule, sel, inGroup, s, e);
    }

    /** The loop of ssl_cipher_apply_rule with reverse == 0. */
    method WalkForward(rule: Rule, sel: Selection, inGroup: bool)
      requires Valid() && !rule.Delete?
      modifies this, pool
      ensures Valid() && Entries() == ApplyRule(rule, sel, inGroup, old(Entries()))
    {
      hide Forward, Hits, Linked, Contents, ApplyRule, Without, Pick;
      ghost var s, e := nodes, Entries();
      WalkStarts(rule, sel, inGroup);
      ghost var i := 0;
      var next, last := head, tail;
      var curr: CipherOrder? := null;
      while true
        invariant 0 <= i <= |s| && Walked(rule, sel, inGroup, s, e, i)
        invariant curr == if i == 0 then null else s[i - 1]
        invariant i < |s| ==> next == s[i]
        decreases |s| - i
      {
        if curr == last {
          break;
        }
        curr := next;
        if curr == null {
          break;
        }
        next := ForwardTurn(curr, rule, sel, inGroup, s, e, i);
        i := i + 1;
      }
      WalkEnds(rule, sel, inGroup, s, e);
    }

    /** The first loop of ssl_cipher_strength_sort. */
    method MaxActiveBits() returns (max: nat)
      requires Valid()
      ensures max == MaxBits(Entries())
    {
      max := 0;
      var curr := head;
      ghost var i := 0;
      ghost var e := Entries();
      while curr != null
        invariant i <= |nodes| && curr == (if i < |nodes| then nodes[i] else null)
        invariant max == MaxBits(e[..i])
        decreases |nodes| - i
      {
        assert e[..i + 1][..i] == e[..i] && e[i] == nodes[i].Content();
        if curr.active && StrengthBits(curr.cipher) > max {
          max := StrengthBits(curr.cipher);
        }
        curr := curr.next;
        i := i + 1;
      }
      assert e[..i] == e;
    }

    /** The second loop: number_uses. */
    method CountUses(max: nat) returns (uses: array<nat>)
      requires Valid() && max == MaxBits(Entries())
      ensures fresh(uses) && uses.Length == max + 1
      ensures forall b | 0 <= b <= max :: uses[b] == Uses(Entries(), b)
    {
      hide Contents, Pick, Uses, MaxBits;
      uses := new nat[max + 1](_ => 0);
      var curr := head;
      ghost var i := 0;
      ghost var e := Entries();
      forall b ensures Uses(e[..0], b) == 0 {
        UsesNone(b);
      }
      while curr != null
        invariant i <= |nodes| && curr == (if i < |nodes| then nodes[i] else null)
        invariant Valid() && Entries() == e
        invariant forall b | 0 <= b <= max :: uses[b] == Uses(e[..i], b)
        decreases |nodes| - i
      {
        assert e[i] == nodes[i].Content() && e[i] in e;
        forall b ensures Uses(e[..i + 1], b) == Uses(e[..i], b) + (if ActiveAt(b, e[i]) then 1 else 0) {
          UsesStep(e, i, b);
        }
        if curr.active {
          var bits := StrengthBits(curr.cipher);
          uses[bits] := uses[bits] + 1;
        }
        curr := curr.next;
        i := i + 1;
      }
      assert e[..i] == e;
    }

    /** ssl_cipher_strength_sort */
    method SortByStrength()
      requires Valid()
      modifies this, pool
      ensures Valid() && Entries() == StrengthSort(old(Entries()))
    {
      hide Contents, Pick, Uses, MaxBits, ApplyRule, SortBelow;
      ghost var e := Entries();
      var max := MaxActiveBits();
      var uses := CountUses(max);
      var count := max + 1;
      while count > 0
        invariant count <= max + 1 && Valid()
        invariant SortBelow(Entries(), e, count) == StrengthSort(e)
        invariant forall b | 0 <= b <= max :: uses[b] == Uses(e, b)
      {
        SortBelowStep(Entries(), e, count);
        if uses[count - 1] > 0 {
          Apply(Order, ByStrength(count - 1), false);
        }
        count := count - 1;
      }
      SortBelowStep(Entries(), e, 0);
    }

    /** (*tail_p)->in_group = 0, when there is a tail */
    method ClearTail()
      requires Valid()
      modifies pool`inGroup
      ensures Valid() && Entries() == EndGroup(old(Entries()))
    {
      if tail != null {
        tail.inGroup := false;
        assert forall i | 0 <= i < |nodes| - 1 :: nodes[i] != nodes[|nodes| - 1];
      }
    }

    /** The loop of ssl_cipher_process_rulestr over what the characters have been read into. */
    method ProcessRules(ops: seq<Op>) returns (ok: bool)
      requires Valid()
      modifies this, pool
      ensures Valid()
      ensures var p := Steps(Begin(old(Entries())), ops);
              ok == Accepted(p) && (ok ==> Entries() == p.list)
    {
      hide Contents, Pick, ApplyRule, StrengthSort, EndGroup;
      ghost var e := Entries();
      var inGroup, hasGroup := false, false;
      for n := 0 to |ops|
        invariant Valid() && Steps(Begin(e), ops[..n]) == Progress(Entries(), inGroup, hasGroup, true)
      {
        assert ops[..n + 1][..n] == ops[..n];
        var op := ops[n];
        if (op.Apply? && !op.rule.Add?) || op.Strength? {
          if inGroup || hasGroup {
            RefusedForGood(Begin(e), ops, n + 1);
            return false;
          }
        } else if op.Open? == inGroup && !op.Apply? {
          RefusedForGood(Begin(e), ops, n + 1);
          return false;
        }
        match op {
          case Apply(rule, sel) => Apply(rule, sel, inGroup);
          case Strength => SortByStrength();
          case Open => inGroup, hasGroup := true, true;
          case Close =>
            ClearTail();
            inGroup := false;
        }
      }
      assert ops[..|ops|] == ops;
      ok := !inGroup;
    }

    /** The lists ssl_create_cipher_list takes out: the active ciphers and their group flags. */
    method TakeOut() returns (prefs: Preferences)
      requires Valid()
      ensures prefs == Extract(Entries())
    {
      var ciphers, flags := [], [];
      var curr := head;
      ghost var i := 0;
      ghost var e := Entries();
      while curr != null
        invariant i <= |nodes| && curr == (if i < |nodes| then nodes[i] else null)
        invariant Preferences(ciphers, flags) == Extract(e[..i])
        decreases |nodes| - i
      {
        assert e[..i + 1][..i] == e[..i] && e[i] == nodes[i].Content();
        ExtractStep(e[..i], e[i]);
        assert e[..i] + [e[i]] == e[..i + 1];
        if curr.active {
          ciphers := ciphers + [curr.cipher];
          flags := flags + [curr.inGroup];
        }
        curr := curr.next;
        i := i + 1;
      }
      assert e[..i] == e;
      prefs := Preferences(ciphers, flags);
    }
  }

  lemma SortBelowStep(list: seq<Entry>, orig: seq<Entry>, count: nat)
    ensures SortBelow(list, orig, count) ==
            if count == 0 then list
            else if Uses(orig, count - 1) > 0
            then SortBelow(ApplyRule(Order, ByStrength(count - 1), false, list), orig, count - 1)
            else SortBelow(list, orig, count - 1)
  {
  }

  lemma UsesNone(b: nat)
    ensures Uses([], b) == 0
  {
  }

  lemma UsesStep(e: seq<Entry>, i: nat, b: nat)
    requires i < |e|
    ensures Uses(e[..i + 1], b) == Uses(e[..i], b) + (if ActiveAt(b, e[i]) then 1 else 0)
  {
    assert e[..i + 1][..i] == e[..i];
  }

  lemma ExtractStep(list: seq<Entry>, e: Entry)
    ensures var p := Extract(list);
            Extract(list + [e]) ==
            if e.active then Preferences(p.ciphers + [e.cipher], p.flags + [e.inGroup]) else p
  {
    EntriesOfSum(list, [e]);
    ActivesOfOne(e);
    var a := Actives(list);
    assert CiphersOf(a + [e]) == CiphersOf(a) + [e.cipher] && FlagsOf(a + [e]) == FlagsOf(a) + [e.inGroup];
    assert a + [] == a;
  }

  lemma RefusedForGood(p: Progress, ops: seq<Op>, n: nat)
    requires n <= |ops| && !Steps(p, ops[..n]).ok
    ensures !Steps(p, ops).ok
  {
    StepsSplit(p, ops[..n], ops[n..]);
    StaysRefused(Steps(p, ops[..n]), ops[n..]);
    assert ops[..n] + ops[n..] == ops;
  }

  /** The list a forward walk leaves, read off the nodes. */
  lemma ForwardContents(rule: Rule, sel: Selection, inGroup: bool, s: seq<CipherOrder>, e: seq<Entry>)
    requires !rule.Delete? && |e| == |s|
    requires forall k | 0 <= k < |s| :: s[k].Content() == After(rule, sel, inGroup, e[k])
    ensures Contents(Forward(s, Hits(rule, sel, e), |s|, rule.Kill?)) == ApplyRule(rule, sel, inGroup, e)
  {
    hide Pick, Contents, Map;
    var hits := Hits(rule, sel, e);
    assert s[..|s|] == s && hits[..|s|] == hits && s[|s|..] == [];
    PickContents(rule, inGroup, s, e, hits, false);
    PickContents(rule, inGroup, s, e, hits, true);
    ContentsConcat(Pick(s, hits, false), Pick(s, hits, true));
    assert Pick(s, hits, false) + [] + [] == Pick(s, hits, false);
    assert Pick(s, hits, false) + [] + Pick(s, hits, true) == Pick(s, hits, false) + Pick(s, hits, true);
  }

  /** The list a backward walk leaves, read off the nodes. */
  lemma BackwardContents(sel: Selection, s: seq<CipherOrder>, e: seq<Entry>)
    requires |e| == |s|
    requires forall k | 0 <= k < |s| :: s[k].Content() == After(Delete, sel, false, e[k])
    ensures Contents(Backward(s, Hits(Delete, sel, e), 0)) == ApplyRule(Delete, sel, false, e)
  {
    hide Pick, Contents, Map;
    var hits := Hits(Delete, sel, e);
    assert s[0..] == s && hits[0..] == hits && s[..0] == [];
    PickContents(Delete, false, s, e, hits, false);
    PickContents(Delete, false, s, e, hits, true);
    ContentsConcat(Pick(s, hits, true), Pick(s, hits, false));
    assert Pick(s, hits, true) + [] + Pick(s, hits, false) == Pick(s, hits, true) + Pick(s, hits, false);
  }

  lemma ContentsConcat(a: seq<CipherOrder>, b: seq<CipherOrder>)
    ensures Contents(a + b) == Contents(a) + Contents(b)
  {
  }

  lemma DeleteForgetsGroups(sel: Selection, inGroup: bool, e: seq<Entry>)
    ensures ApplyRule(Delete, sel, inGroup, e) == ApplyRule(Delete, sel, false, e)
  {
    var hit := Pick(e, Hits(Delete, sel, e), true);
    hide Pick, Hits;
    assert forall x: Entry :: Marked(Delete, inGroup, x) == Marked(Delete, false, x);
    assert Map(x => Marked(Delete, inGroup, x), hit) == Map(x => Marked(Delete, false, x), hit);
  }

  lemma MapConcat(f: Entry -> Entry, a: seq<Entry>, b: seq<Entry>)
    ensures Map(f, a + b) == Map(f, a) + Map(f, b)
  {
  }

  ghost function Marker(rule: Rule, inGroup: bool): Entry -> Entry { x => Marked(rule, inGroup, x) }

  lemma PickLast<T>(s: seq<T>, hits: seq<bool>, want: bool)
    requires |hits| == |s| > 0
    ensures var n := |s| - 1;
            Pick(s, hits, want) == if hits[n] == want then Pick(s[..n], hits[..n], want) + [s[n]]
                                   else Pick(s[..n], hits[..n], want)
  {
  }

  lemma ContentOfOne(x: CipherOrder)
    ensures Contents([x]) == [x.Content()]
  {
  }

  lemma MarkOne(rule: Rule, inGroup: bool, e: Entry)
    ensures Map(Marker(rule, inGroup), [e]) == [Marked(rule, inGroup, e)]
  {
  }

  lemma {:induction false} PickContents(rule: Rule, inGroup: bool, s: seq<CipherOrder>, e: seq<Entry>, hits: seq<bool>, want: bool)
    requires |e| == |s| == |hits|
    requires forall k | 0 <= k < |s| :: s[k].Content() == if hits[k] then Marked(rule, inGroup, e[k]) else e[k]
    ensures Contents(Pick(s, hits, want)) ==
            if want then Map(Marker(rule, inGroup), Pick(e, hits, true)) else Pick(e, hits, false)
  {
    if |s| > 0 {
      hide *;
      var n := |s| - 1;
      PickContents(rule, inGroup, s[..n], e[..n], hits[..n], want);
      PickLast(s, hits, want);
      PickLast(e, hits, want);
      ContentsConcat(Pick(s[..n], hits[..n], want), [s[n]]);
      ContentOfOne(s[n]);
      MapConcat(Marker(rule, inGroup), Pick(e[..n], hits[..n], true), [e[n]]);
      MarkOne(rule, inGroup, e[n]);
    }
  }

  /** An entry once the walk has passed it. */
  ghost function After(rule: Rule, sel: Selection, inGroup: bool, e: Entry): Entry {
    if Hit(rule, sel, e) then Marked(rule, inGroup, e) else e
  }
}
