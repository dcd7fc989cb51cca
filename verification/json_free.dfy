/**
  json_value_free_ex: the tree is torn down by one loop that climbs parent pointers and counts
  lengths down, without a stack.
 */
module JsonFree {
  import opened Optional
  import opened JsonMachine
  import opened JsonInvariant
  import opened JsonSimulation
  import opened JsonTree
  import opened JsonParse

  /** What mem_free is called on: a json_value, or the buffer it owns. */
  datatype Block = Value(i: nat) | Buffer(i: nat)

  predicate OwnsBuffer(k: Kind) { IsContainer(k) || k.Str? }

  /** The blocks freed when the walk leaves value i. */
  function Own(nodes: seq<Node>, i: nat): seq<Block>
    requires i < |nodes|
  {
    (if OwnsBuffer(nodes[i].kind) then [Buffer(i)] else []) + [Value(i)]
  }

  /** The blocks below and in value i, children last to first. */
  ghost function FreeOrder(nodes: seq<Node>, i: nat): seq<Block>
    requires IsTree(nodes) && i < |nodes|
    decreases |nodes| - i, 1, 0
  {
    FreeKids(nodes, i, |nodes[i].slots|) + Own(nodes, i)
  }

  /** The blocks below the first k children of i. */
  ghost function FreeKids(nodes: seq<Node>, i: nat, k: nat): seq<Block>
    requires IsTree(nodes) && i < |nodes| && k <= |nodes[i].slots|
    decreases |nodes| - i, 0, k
  {
    assert KidsOf(nodes, i);
    if k == 0 then [] else FreeOrder(nodes, nodes[i].slots[k - 1]) + FreeKids(nodes, i, k - 1)
  }

  // ---------------------------------------------------------------- each block once

  /** The child of i through which j hangs below i. */
  ghost function Through(nodes: seq<Node>, j: nat, i: nat): (c: nat)
    requires IsTree(nodes) && j < |nodes| && Ancestor(nodes, j, i)
    ensures c <= j && nodes[c].parent == Some(i)
    decreases j
  {
    if nodes[j].parent.value == i then j else Through(nodes, nodes[j].parent.value, i)
  }

  ghost predicate Below(nodes: seq<Node>, j: nat, i: nat)
    requires IsTree(nodes) && j < |nodes|
  {
    j == i || Ancestor(nodes, j, i)
  }

  lemma NotBelowLater(nodes: seq<Node>, p: nat, j: nat)
    requires IsTree(nodes) && p < |nodes| && p < j
    ensures !Below(nodes, p, j)
  {
    if Ancestor(nodes, p, j) {
      AncestorIsEarlier(nodes, p, j);
    }
  }

  /** j is in the subtree of child c of i exactly when the way from j up to i leads through c. */
  lemma {:induction false} BelowChild(nodes: seq<Node>, j: nat, c: nat, i: nat)
    requires IsTree(nodes) && j < |nodes| && c < |nodes| && nodes[c].parent == Some(i)
    ensures Below(nodes, j, c) == (Ancestor(nodes, j, i) && Through(nodes, j, i) == c)
    decreases j
  {
    if j != 0 {
      var p := nodes[j].parent.value;
      if p == i {
        NotBelowLater(nodes, p, c);
      } else {
        BelowChild(nodes, p, c, i);
        if c == j {
          NotBelowLater(nodes, p, j);
        }
      }
    }
  }

  /** Each block below i is freed once by the walk from i, and no other block is freed. */
  lemma {:induction false} FreedOnceBelow(nodes: seq<Node>, i: nat, b: Block)
    requires IsTree(nodes) && i < |nodes| && b.i < |nodes|
    ensures multiset(FreeOrder(nodes, i))[b] == FreedBelow(nodes, b, Below(nodes, b.i, i))
    decreases |nodes| - i, 1, 0
  {
    var n := |nodes[i].slots|;
    FreedOnceKids(nodes, i, n, b);
    if Ancestor(nodes, b.i, i) {
      AncestorIsEarlier(nodes, b.i, i);
      var c := Through(nodes, b.i, i);
      assert HungUp(nodes, c);
    }
    OwnOnce(nodes, i, b);
  }

  lemma OwnOnce(nodes: seq<Node>, i: nat, b: Block)
    requires i < |nodes| && b.i < |nodes|
    ensures multiset(Own(nodes, i))[b] == if b.i == i && b in Own(nodes, b.i) then 1 else 0
  {
  }

  lemma LastSlot(slots: seq<nat>, k: nat, t: nat)
    requires Increasing(slots) && 0 < k <= |slots|
    ensures t in slots[..k] <==> (t in slots[..k - 1] || t == slots[k - 1])
    ensures slots[k - 1] !in slots[..k - 1]
  {
    assert slots[..k] == slots[..k - 1] + [slots[k - 1]];
  }

  lemma CountBoth(a: seq<Block>, c: seq<Block>, b: Block)
    ensures multiset(a + c)[b] == multiset(a)[b] + multiset(c)[b]
  {
  }

  lemma CountStep(nodes: seq<Node>, i: nat, k: nat, c: nat, b: Block)
    requires IsTree(nodes) && i < |nodes| && 0 < k <= |nodes[i].slots| && nodes[i].slots[k - 1] == c < |nodes|
    ensures multiset(FreeKids(nodes, i, k))[b] ==
            multiset(FreeOrder(nodes, c))[b] + multiset(FreeKids(nodes, i, k - 1))[b]
  {
    CountBoth(FreeOrder(nodes, c), FreeKids(nodes, i, k - 1), b);
  }

  /** b is below one of the first k children of i. */
  ghost predicate BelowKids(nodes: seq<Node>, i: nat, k: nat, j: nat)
    requires IsTree(nodes) && i < |nodes| && k <= |nodes[i].slots| && j < |nodes|
  {
    Ancestor(nodes, j, i) && Through(nodes, j, i) in nodes[i].slots[..k]
  }

  lemma BelowKidsStep(nodes: seq<Node>, i: nat, k: nat, c: nat, j: nat)
    requires IsTree(nodes) && i < |nodes| && 0 < k <= |nodes[i].slots| && nodes[i].slots[k - 1] == c && j < |nodes|
    ensures c < |nodes| && BelowKids(nodes, i, k, j) == (BelowKids(nodes, i, k - 1, j) || Below(nodes, j, c))
    ensures !(BelowKids(nodes, i, k - 1, j) && Below(nodes, j, c))
  {
    assert KidsOf(nodes, i);
    BelowChild(nodes, j, c, i);
    if Ancestor(nodes, j, i) {
      LastSlot(nodes[i].slots, k, Through(nodes, j, i));
    }
  }

  lemma NoKids(nodes: seq<Node>, i: nat, b: Block)
    requires IsTree(nodes) && i < |nodes| && b.i < |nodes|
    ensures !BelowKids(nodes, i, 0, b.i) && multiset(FreeKids(nodes, i, 0))[b] == 0
  {
  }

  ghost function FreedBelow(nodes: seq<Node>, b: Block, below: bool): nat
    requires b.i < |nodes|
  {
    if below && b in Own(nodes, b.i) then 1 else 0
  }

  lemma {:induction false} FreedOnceKids(nodes: seq<Node>, i: nat, k: nat, b: Block)
    requires IsTree(nodes) && i < |nodes| && k <= |nodes[i].slots| && b.i < |nodes|
    ensures multiset(FreeKids(nodes, i, k))[b] == FreedBelow(nodes, b, BelowKids(nodes, i, k, b.i))
    decreases |nodes| - i, 0, k
  {
    hide FreeKids, FreeOrder, Own, Below, BelowKids;
    if k == 0 {
      NoKids(nodes, i, b);
    } else {
      assert KidsOf(nodes, i);
      var c := nodes[i].slots[k - 1];
      FreedOnceBelow(nodes, c, b);
      FreedOnceKids(nodes, i, k - 1, b);
      CountStep(nodes, i, k, c, b);
      BelowKidsStep(nodes, i, k, c, b.i);
    }
  }

  lemma {:induction false} AllBelowRoot(nodes: seq<Node>, j: nat)
    requires IsTree(nodes) && j < |nodes|
    ensures Below(nodes, j, 0)
    decreases j
  {
    if j != 0 {
      AllBelowRoot(nodes, nodes[j].parent.value);
    }
  }

  /** The walk from the root frees every value and every owned buffer exactly once. */
  lemma FreedExactlyOnce(nodes: seq<Node>, b: Block)
    requires IsTree(nodes) && b.i < |nodes|
    ensures multiset(FreeOrder(nodes, 0))[b] == if b.Value? || OwnsBuffer(nodes[b.i].kind) then 1 else 0
  {
    AllBelowRoot(nodes, b.i);
    FreedOnceBelow(nodes, 0, b);
  }

  // ---------------------------------------------------------------- the walk

  /** What the walk still has to free when it stands at value v with lengths len. */
  ghost function Rest(nodes: seq<Node>, len: seq<nat>, v: Option<nat>): seq<Block>
    requires IsTree(nodes) && Bounded(nodes, len) && (v.Some? ==> v.value < |nodes|)
    decreases if v.Some? then v.value + 1 else 0
  {
    match v
    case None => []
    case Some(i) => FreeKids(nodes, i, len[i]) + Own(nodes, i) + Rest(nodes, len, nodes[i].parent)
  }

  lemma {:induction false} RestSame(nodes: seq<Node>, a: seq<nat>, b: seq<nat>, v: Option<nat>)
    requires IsTree(nodes) && Bounded(nodes, a) && Bounded(nodes, b) && (v.Some? ==> v.value < |nodes|)
    requires v.Some? ==> forall i | 0 <= i <= v.value :: a[i] == b[i]
    ensures Rest(nodes, a, v) == Rest(nodes, b, v)
    decreases if v.Some? then v.value + 1 else 0
  {
    if v.Some? {
      RestSame(nodes, a, b, nodes[v.value].parent);
    }
  }

  /** The children of i that the walk has not counted down past are not entered. */
  ghost predicate KidsAhead(nodes: seq<Node>, i: nat, n: nat, seen: set<nat>)
    requires i < |nodes| && n <= |nodes[i].slots|
  {
    forall k {:trigger nodes[i].slots[k]} | 0 <= k < n :: nodes[i].slots[k] !in seen
  }

  ghost predicate Bounded(nodes: seq<Node>, len: seq<nat>) {
    |len| == |nodes| && forall i | 0 <= i < |nodes| :: len[i] <= |nodes[i].slots|
  }

  /** Values the walk has entered, and the lengths they have come down to. */
  ghost predicate Entered(nodes: seq<Node>, len: seq<nat>, seen: set<nat>) {
    && Bounded(nodes, len)
    && (forall i {:trigger len[i]} | 0 <= i < |nodes| ::
          KidsAhead(nodes, i, len[i], seen) && (i !in seen ==> len[i] == |nodes[i].slots|))
  }

  lemma DescendEnters(nodes: seq<Node>, len: seq<nat>, seen: set<nat>, v: nat)
    requires IsTree(nodes) && v < |nodes| && Entered(nodes, len, seen) && v in seen && len[v] > 0
    ensures var c := nodes[v].slots[len[v] - 1];
            v < c < |nodes| && c !in seen && Entered(nodes, len[v := len[v] - 1], seen + {c})
            && nodes[c].parent == Some(v) && len[c] == |nodes[c].slots|
  {
    var c := nodes[v].slots[len[v] - 1];
    var len1 := len[v := len[v] - 1];
    assert KidsAhead(nodes, v, len[v], seen) && KidsOf(nodes, v);
    forall i | 0 <= i < |nodes| ensures KidsAhead(nodes, i, len1[i], seen + {c}) {
      assert KidsAhead(nodes, i, len[i], seen) && KidsOf(nodes, i);
      assert forall k | 0 <= k < len1[i] :: nodes[i].slots[k] != c;
    }
  }

  lemma DescendRest(nodes: seq<Node>, len: seq<nat>, v: nat)
    requires IsTree(nodes) && v < |nodes| && Bounded(nodes, len) && len[v] > 0
    requires var c := nodes[v].slots[len[v] - 1]; c < |nodes| && len[c] == |nodes[c].slots|
    ensures var c := nodes[v].slots[len[v] - 1];
            Rest(nodes, len[v := len[v] - 1], Some(c)) == Rest(nodes, len, Some(v))
  {
    var c := nodes[v].slots[len[v] - 1];
    var len1 := len[v := len[v] - 1];
    RestSame(nodes, len, len1, nodes[v].parent);
    var kids, own, above := FreeKids(nodes, v, len1[v]), Own(nodes, v), Rest(nodes, len, nodes[v].parent);
    assert KidsOf(nodes, v) && nodes[c].parent == Some(v);
    assert Rest(nodes, len1, Some(v)) == kids + own + above;
    assert FreeKids(nodes, v, len[v]) == FreeOrder(nodes, c) + kids;
    assert FreeOrder(nodes, c) == FreeKids(nodes, c, len[c]) + Own(nodes, c);
    hide Own, KidsOf, IsTree, FreeKids, FreeOrder;
    assert Rest(nodes, len1, Some(c)) == FreeOrder(nodes, c) + Rest(nodes, len1, Some(v));
    Regroup(FreeOrder(nodes, c), kids, own, above);
  }

  lemma Regroup(a: seq<Block>, b: seq<Block>, c: seq<Block>, d: seq<Block>)
    ensures a + (b + c + d) == (a + b) + c + d
  {
  }

  lemma WholeIsRest(nodes: seq<Node>, len: seq<nat>)
    requires IsTree(nodes) && |len| == |nodes| && forall i | 0 <= i < |nodes| :: len[i] == |nodes[i].slots|
    ensures Entered(nodes, len, {0})
    ensures Rest(nodes, len, Some(0)) == FreeOrder(nodes, 0)
  {
    forall i | 0 <= i < |nodes| ensures KidsAhead(nodes, i, len[i], {0}) {
      assert KidsOf(nodes, i);
    }
    assert Rest(nodes, len, None) == [];
  }

  /** What is still to be freed has not been freed yet. */
  lemma StillLive(nodes: seq<Node>, len: seq<nat>, v: nat, freed: seq<Block>)
    requires IsTree(nodes) && v < |nodes| && Bounded(nodes, len)
    requires freed + Rest(nodes, len, Some(v)) == FreeOrder(nodes, 0)
    ensures Value(v) !in freed && Buffer(v) !in freed
  {
    var rest := Rest(nodes, len, Some(v));
    var kids, own, above := FreeKids(nodes, v, len[v]), Own(nodes, v), Rest(nodes, len, nodes[v].parent);
    assert rest == kids + own + above;
    forall b | b == Value(v) || b == Buffer(v) ensures b !in freed {
      FreedExactlyOnce(nodes, b);
      CountBoth(freed, rest, b);
      CountBoth(kids + own, above, b);
      CountBoth(kids, own, b);
      assert b in own ==> multiset(own)[b] > 0;
      assert b in freed ==> multiset(freed)[b] > 0;
    }
  }

  lemma NothingBelow(nodes: seq<Node>, len: seq<nat>, v: nat)
    requires IsTree(nodes) && v < |nodes| && Bounded(nodes, len)
    requires IsContainer(nodes[v].kind) ==> len[v] == 0
    ensures Rest(nodes, len, Some(v)) == Own(nodes, v) + Rest(nodes, len, nodes[v].parent)
  {
    NothingInKids(nodes, v, len[v]);
    RestOf(nodes, len, v);
    hide FreeKids, Own, Rest;
    assert [] + Own(nodes, v) == Own(nodes, v);
  }

  lemma RestOf(nodes: seq<Node>, len: seq<nat>, v: nat)
    requires IsTree(nodes) && v < |nodes| && Bounded(nodes, len)
    ensures Rest(nodes, len, Some(v))
            == FreeKids(nodes, v, len[v]) + Own(nodes, v) + Rest(nodes, len, nodes[v].parent)
  {
    hide FreeKids, Own;
  }

  lemma NothingInKids(nodes: seq<Node>, v: nat, n: nat)
    requires IsTree(nodes) && v < |nodes| && n <= |nodes[v].slots| && (IsContainer(nodes[v].kind) ==> n == 0)
    ensures FreeKids(nodes, v, n) == []
  {
    assert KidsOf(nodes, v);
    hide FreeOrder;
  }

  lemma WalkIsBounded(nodes: seq<Node>, len: seq<nat>, freed: seq<Block>, seen: set<nat>, v: nat)
    requires IsTree(nodes) && Walking(nodes, len, freed, seen, Some(v))
    ensures v < |nodes| == |len| && len[v] <= |nodes[v].slots|
  {
  }

  /** The invariant of the walk: what has been freed and what is still to be freed is the whole order. */
  ghost predicate Walking(nodes: seq<Node>, len: seq<nat>, freed: seq<Block>, seen: set<nat>, value: Option<nat>)
    requires IsTree(nodes)
  {
    && Entered(nodes, len, seen)
    && (value.Some? ==> value.value < |nodes| && value.value in seen)
    && (forall i {:trigger nodes[i].parent} | 0 < i < |nodes| && i in seen :: nodes[i].parent.value in seen)
    && freed + Rest(nodes, len, value) == FreeOrder(nodes, 0)
  }

  lemma WalkDown(nodes: seq<Node>, len: seq<nat>, freed: seq<Block>, seen: set<nat>, v: nat, c: nat)
    requires IsTree(nodes) && Walking(nodes, len, freed, seen, Some(v)) && len[v] > 0
    requires c == nodes[v].slots[len[v] - 1]
    ensures v < c < |nodes| && c !in seen
    ensures Walking(nodes, len[v := len[v] - 1], freed, seen + {c}, Some(c))
  {
    DescendEnters(nodes, len, seen, v);
    DescendRest(nodes, len, v);
  }

  lemma WalkUp(nodes: seq<Node>, len: seq<nat>, freed: seq<Block>, seen: set<nat>, v: nat)
    requires IsTree(nodes) && Walking(nodes, len, freed, seen, Some(v))
    requires IsContainer(nodes[v].kind) ==> len[v] == 0
    ensures Walking(nodes, len, freed + Own(nodes, v), seen, nodes[v].parent)
  {
    NothingBelow(nodes, len, v);
    var above := Rest(nodes, len, nodes[v].parent);
    assert (freed + Own(nodes, v)) + above == freed + (Own(nodes, v) + above);
  }

  /** The heap as the walk sees it: freeing twice or touching freed memory is a precondition violation. */
  class Heap {
    const nodes: seq<Node>
    var len: seq<nat>
    ghost var freed: seq<Block>

    constructor (nodes: seq<Node>)
      requires IsTree(nodes)
      ensures this.nodes == nodes && freed == []
      ensures |len| == |nodes| && forall i | 0 <= i < |nodes| :: len[i] == |nodes[i].slots|
    {
      this.nodes := nodes;
      len := seq(|nodes|, i requires 0 <= i < |nodes| => |nodes[i].slots|);
      freed := [];
    }

    method MemFree(b: Block)
      requires b !in freed
      modifies this`freed
      ensures freed == old(freed) + [b]
    {
      freed := freed + [b];
    }

    method KindOf(v: nat) returns (k: Kind)
      requires v < |nodes| && Value(v) !in freed
      ensures k == nodes[v].kind
    {
      k := nodes[v].kind;
    }

    method ParentOf(v: nat) returns (p: Option<nat>)
      requires v < |nodes| && Value(v) !in freed
      ensures p == nodes[v].parent
    {
      p := nodes[v].parent;
    }

    method LengthOf(v: nat) returns (n: nat)
      requires v < |nodes| == |len| && Value(v) !in freed
      ensures n == len[v]
    {
      n := len[v];
    }

    /** value = value->u.array.values [-- value->u.array.length] */
    method GoDown(v: nat, ghost seen: set<nat>) returns (c: nat)
      requires IsTree(nodes) && Walking(nodes, len, freed, seen, Some(v)) && len[v] > 0
      requires Value(v) !in freed && Buffer(v) !in freed
      modifies this`len
      ensures c !in seen && Walking(nodes, len, freed, seen + {c}, Some(c))
    {
      ghost var len0 := len;
      WalkIsBounded(nodes, len, freed, seen, v);
      hide IsTree, Walking;
      len := len[v := len[v] - 1];
      c := nodes[v].slots[len[v]];
      WalkDown(nodes, len0, freed, seen, v, c);
    }

    /** The value has nothing left below it: its buffer goes, then the value itself. */
    method GoUp(v: nat, kind: Kind, ghost seen: set<nat>) returns (value: Option<nat>)
      requires IsTree(nodes) && Walking(nodes, len, freed, seen, Some(v)) && kind == nodes[v].kind
      requires IsContainer(kind) ==> len[v] == 0
      requires Value(v) !in freed && Buffer(v) !in freed
      modifies this`freed
      ensures value == nodes[v].parent && Walking(nodes, len, freed, seen, value)
    {
      ghost var freed0 := freed;
      if OwnsBuffer(kind) {
        MemFree(Buffer(v));
      }
      value := ParentOf(v);
      MemFree(Value(v));
      assert freed == freed0 + Own(nodes, v);
      WalkUp(nodes, len, freed0, seen, v);
    }

    /** One turn of the loop: down to the last child, or free the value and go up. */
    method Turn(v: nat, ghost seen: set<nat>) returns (value: Option<nat>, ghost entered: set<nat>)
      requires IsTree(nodes) && Walking(nodes, len, freed, seen, Some(v))
      modifies this
      ensures Walking(nodes, len, freed, entered, value)
      ensures if entered == seen then value == nodes[v].parent
              else value.Some? && value.value !in seen && entered == seen + {value.value}
    {
      StillLive(nodes, len, v, freed);
      var kind := KindOf(v);
      var length := LengthOf(v);
      if IsContainer(kind) && length > 0 {
        var c := GoDown(v, seen);
        value, entered := Some(c), seen + {c};
      } else {
        value := GoUp(v, kind, seen);
        entered := seen;
      }
    }

    /** json_value_free_ex on the root of the tree. */
    method FreeAll()
      requires IsTree(nodes) && freed == []
      requires |len| == |nodes| && forall i | 0 <= i < |nodes| :: len[i] == |nodes[i].slots|
      modifies this
      ensures freed == FreeOrder(nodes, 0)
    {
      var value: Option<nat> := Some(0);
      ghost var seen: set<nat> := {0};
      WholeIsRest(nodes, len);
      while value.Some?
        invariant Walking(nodes, len, freed, seen, value)
        decreases Ahead(nodes, seen), if value.Some? then value.value + 1 else 0
      {
        ghost var before := seen;
        value, seen := Turn(value.value, seen);
        EnteredIsBehind(nodes, before, seen, value);
      }
    }
  }

  lemma EnteredIsBehind(nodes: seq<Node>, before: set<nat>, seen: set<nat>, value: Option<nat>)
    requires seen != before ==> value.Some? && value.value !in before && seen == before + {value.value}
    requires value.Some? ==> value.value < |nodes|
    ensures seen != before ==> Ahead(nodes, seen) < Ahead(nodes, before)
  {
    if seen != before {
      assert value.value in Ahead(nodes, before) - Ahead(nodes, seen);
    }
  }

  /** The values the walk has not entered yet. */
  ghost function Ahead(nodes: seq<Node>, seen: set<nat>): set<nat> {
    set i: nat | i < |nodes| && i !in seen
  }
}
