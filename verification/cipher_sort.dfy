/**
  ssl_cipher_strength_sort: a stable sort made of one Order rule per strength in use, strongest
  first.
 */
module CipherSort {
  import opened CipherRules

  function ByStrength(bits: nat): Selection { Selection(0, 0, 0, 0, 0, 0, bits) }

  predicate ActiveAt(bits: nat, e: Entry) { e.active && StrengthBits(e.cipher) == bits }

  /** max_strength_bits */
  function MaxBits(list: seq<Entry>): (m: nat)
    ensures forall e | e in list && e.active :: StrengthBits(e.cipher) <= m
  {
    if list == [] then 0
    else
      var m := MaxBits(list[..|list| - 1]);
      var e := list[|list| - 1];
      if e.active && StrengthBits(e.cipher) > m then StrengthBits(e.cipher) else m
  }

  /** number_uses[bits] */
  function Uses(list: seq<Entry>, bits: nat): nat {
    if list == [] then 0
    else Uses(list[..|list| - 1], bits) + (if ActiveAt(bits, list[|list| - 1]) then 1 else 0)
  }

  /** The loop over the strengths below `count`, the number of uses being those of `orig`. */
  function SortBelow(list: seq<Entry>, orig: seq<Entry>, count: nat): seq<Entry>
    decreases count
  {
    if count == 0 then list
    else
      var list1 := if Uses(orig, count - 1) > 0
                   then ApplyRule(Order, ByStrength(count - 1), false, list) else list;
      SortBelow(list1, orig, count - 1)
  }

  function StrengthSort(list: seq<Entry>): seq<Entry> { SortBelow(list, list, MaxBits(list) + 1) }

  // ---------------------------------------------------------------- filters

  function Filter(list: seq<Entry>, p: Entry -> bool): (r: seq<Entry>)
    ensures forall e | e in r :: e in list && p(e)
  {
    if list == [] then []
    else
      var rest := Filter(list[..|list| - 1], p);
      if p(list[|list| - 1]) then rest + [list[|list| - 1]] else rest
  }

  lemma {:induction false} FilterConcat(a: seq<Entry>, b: seq<Entry>, p: Entry -> bool)
    ensures Filter(a + b, p) == Filter(a, p) + Filter(b, p)
  {
    if b == [] {
      assert a + b == a;
    } else {
      var n := |b| - 1;
      assert (a + b)[..|a + b| - 1] == a + b[..n];
      FilterConcat(a, b[..n], p);
    }
  }

  lemma {:induction false} FilterTwice(list: seq<Entry>, p: Entry -> bool, q: Entry -> bool, r: Entry -> bool)
    requires forall e | e in list :: r(e) == (p(e) && q(e))
    ensures Filter(Filter(list, p), q) == Filter(list, r)
  {
    if list != [] {
      var n := |list| - 1;
      FilterTwice(list[..n], p, q, r);
      FilterConcat(Filter(list[..n], p), [list[n]], q);
    }
  }

  lemma {:induction false} FilterAll(list: seq<Entry>, p: Entry -> bool)
    requires forall e | e in list :: p(e)
    ensures Filter(list, p) == list
  {
    if list != [] {
      FilterAll(list[..|list| - 1], p);
    }
  }

  lemma {:induction false} FilterNone(list: seq<Entry>, p: Entry -> bool)
    requires forall e | e in list :: !p(e)
    ensures Filter(list, p) == []
  {
    if list != [] {
      FilterNone(list[..|list| - 1], p);
    }
  }

  lemma {:induction false} PickIsFilter(list: seq<Entry>, hit: seq<bool>, want: bool, p: Entry -> bool)
    requires |hit| == |list| && forall i | 0 <= i < |list| :: p(list[i]) == (hit[i] == want)
    ensures Pick(list, hit, want) == Filter(list, p)
  {
    if list != [] {
      var n := |list| - 1;
      PickIsFilter(list[..n], hit[..n], want, p);
    }
  }

  // ---------------------------------------------------------------- what the sort does

  function Cleared(list: seq<Entry>): (r: seq<Entry>)
    ensures |r| == |list| && forall i | 0 <= i < |list| :: r[i] == list[i].(inGroup := false)
  {
    Map(e => Marked(Order, false, e), list)
  }

  function IsAt(bits: nat): Entry -> bool { (e: Entry) => ActiveAt(bits, e) }

  function NotAt(bits: nat): Entry -> bool { (e: Entry) => !ActiveAt(bits, e) }

  function IsBelow(bits: nat): Entry -> bool { (e: Entry) => !(e.active && StrengthBits(e.cipher) >= bits) }

  /** The active entries of one strength, out of their groups. */
  function Level(list: seq<Entry>, bits: nat): (r: seq<Entry>)
    ensures forall e | e in r :: ActiveAt(bits, e)
  {
    var f := Filter(list, IsAt(bits));
    assert forall i | 0 <= i < |f| :: f[i] in f && IsAt(bits)(f[i]);
    Cleared(f)
  }

  /** The levels from `top - 1` down to `bits`. */
  function Levels(list: seq<Entry>, top: nat, bits: nat): (r: seq<Entry>)
    requires bits <= top
    ensures forall e | e in r :: e.active && bits <= StrengthBits(e.cipher) < top
    decreases top - bits
  {
    if bits == top then [] else Levels(list, top, bits + 1) + Level(list, bits)
  }

  /** Everything that is not an active entry of strength `bits` or more. */
  function Rest(list: seq<Entry>, bits: nat): seq<Entry> { Filter(list, IsBelow(bits)) }

  lemma OrderIsFilter(cur: seq<Entry>, bits: nat)
    ensures ApplyRule(Order, ByStrength(bits), false, cur) == Filter(cur, NotAt(bits)) + Cleared(Filter(cur, IsAt(bits)))
  {
    var hits := Hits(Order, ByStrength(bits), cur);
    PickIsFilter(cur, hits, true, IsAt(bits));
    PickIsFilter(cur, hits, false, NotAt(bits));
  }

  lemma LevelIs(list: seq<Entry>, bits: nat)
    ensures Level(list, bits) == Cleared(Filter(list, IsAt(bits)))
  {
    hide Filter, Cleared, IsAt;
  }

  lemma LevelsStep(list: seq<Entry>, top: nat, bits: nat)
    requires bits < top
    ensures Levels(list, top, bits) == Levels(list, top, bits + 1) + Level(list, bits)
  {
    hide Level;
  }

  lemma RestParts(list: seq<Entry>, bits: nat)
    ensures Filter(Rest(list, bits + 1), IsAt(bits)) == Filter(list, IsAt(bits))
    ensures Filter(Rest(list, bits + 1), NotAt(bits)) == Rest(list, bits)
  {
    hide Filter;
    FilterTwice(list, IsBelow(bits + 1), IsAt(bits), IsAt(bits));
    FilterTwice(list, IsBelow(bits + 1), NotAt(bits), IsBelow(bits));
  }

  lemma LevelsParts(list: seq<Entry>, top: nat, bits: nat)
    requires bits < top
    ensures Filter(Levels(list, top, bits + 1), IsAt(bits)) == []
    ensures Filter(Levels(list, top, bits + 1), NotAt(bits)) == Levels(list, top, bits + 1)
  {
    var levels := Levels(list, top, bits + 1);
    hide Filter, Levels;
    FilterNone(levels, IsAt(bits));
    FilterAll(levels, NotAt(bits));
  }

  lemma Regroup(a: seq<Entry>, b: seq<Entry>, c: seq<Entry>)
    ensures a + b + c == a + (b + c) && c + [] == c
  {
  }

  lemma OrderOneLevel(list: seq<Entry>, top: nat, bits: nat)
    requires bits < top
    ensures ApplyRule(Order, ByStrength(bits), false, Rest(list, bits + 1) + Levels(list, top, bits + 1))
            == Rest(list, bits) + Levels(list, top, bits)
  {
    hide *;
    var rest, levels := Rest(list, bits + 1), Levels(list, top, bits + 1);
    OrderIsFilter(rest + levels, bits);
    FilterConcat(rest, levels, IsAt(bits));
    FilterConcat(rest, levels, NotAt(bits));
    RestParts(list, bits);
    LevelsParts(list, top, bits);
    LevelIs(list, bits);
    LevelsStep(list, top, bits);
    Regroup(Rest(list, bits), levels, Filter(list, IsAt(bits)));
    Regroup(Rest(list, bits), levels, Level(list, bits));
  }

  lemma {:induction false} UnusedLevelIsEmpty(list: seq<Entry>, bits: nat)
    ensures (Uses(list, bits) == 0) == (Filter(list, IsAt(bits)) == [])
  {
    if list != [] {
      UnusedLevelIsEmpty(list[..|list| - 1], bits);
    }
  }

  lemma SkipOneLevel(list: seq<Entry>, top: nat, bits: nat)
    requires bits < top && Uses(list, bits) == 0
    ensures Rest(list, bits + 1) + Levels(list, top, bits + 1) == Rest(list, bits) + Levels(list, top, bits)
  {
    UnusedLevelIsEmpty(list, bits);
    hide Filter;
    forall e | e in list ensures !ActiveAt(bits, e) {
      if ActiveAt(bits, e) {
        FilterKeeps(list, IsAt(bits), e);
      }
    }
    FilterTwice(list, IsBelow(bits + 1), NotAt(bits), IsBelow(bits));
    FilterAll(Rest(list, bits + 1), NotAt(bits));
    assert Level(list, bits) == [];
    assert Levels(list, top, bits) == Levels(list, top, bits + 1) + Level(list, bits);
  }

  lemma {:induction false} FilterKeeps(list: seq<Entry>, p: Entry -> bool, e: Entry)
    requires e in list && p(e)
    ensures e in Filter(list, p)
  {
    if e != list[|list| - 1] {
      FilterKeeps(list[..|list| - 1], p, e);
    }
  }

  lemma {:induction false} SortsLevels(list: seq<Entry>, top: nat, count: nat)
    requires count <= top
    ensures SortBelow(Rest(list, count) + Levels(list, top, count), list, count) == Rest(list, 0) + Levels(list, top, 0)
    decreases count
  {
    hide Rest, Levels, ApplyRule;
    if count > 0 {
      if Uses(list, count - 1) > 0 {
        OrderOneLevel(list, top, count - 1);
      } else {
        SkipOneLevel(list, top, count - 1);
      }
      SortsLevels(list, top, count - 1);
    }
  }

  // ---------------------------------------------------------------- the theorem

  function IsActive(): Entry -> bool { (e: Entry) => e.active }

  function IsIdle(): Entry -> bool { (e: Entry) => !e.active }

  function Actives(list: seq<Entry>): seq<Entry> { Filter(list, IsActive()) }

  function Inactives(list: seq<Entry>): seq<Entry> { Filter(list, IsIdle()) }

  ghost predicate Descending(list: seq<Entry>) {
    forall i, j | 0 <= i < j < |list| :: StrengthBits(list[i].cipher) >= StrengthBits(list[j].cipher)
  }

  lemma {:induction false} LevelsDescend(list: seq<Entry>, top: nat, bits: nat)
    requires bits <= top
    ensures Descending(Levels(list, top, bits))
    decreases top - bits
  {
    if bits < top {
      LevelsDescend(list, top, bits + 1);
      hide Filter;
      var above, here := Levels(list, top, bits + 1), Level(list, bits);
      assert forall i | 0 <= i < |above| :: above[i] in above;
      assert forall i | 0 <= i < |here| :: here[i] in here;
    }
  }

  lemma {:induction false} LevelOfLevels(list: seq<Entry>, top: nat, bits: nat, b: nat)
    requires bits <= top
    ensures Filter(Levels(list, top, bits), IsAt(b)) == if bits <= b < top then Level(list, b) else []
    decreases top - bits
  {
    hide *;
    if bits == top {
      NoLevels(list, top);
      FilterNone([], IsAt(b));
    } else {
      LevelOfLevels(list, top, bits + 1, b);
      LevelsStep(list, top, bits);
      LevelParts(list, bits, b);
      FilterConcat(Levels(list, top, bits + 1), Level(list, bits), IsAt(b));
      assert Level(list, b) + [] == Level(list, b) && [] + Level(list, b) == Level(list, b);
    }
  }

  lemma LevelParts(list: seq<Entry>, bits: nat, b: nat)
    ensures Filter(Level(list, bits), IsAt(b)) == if b == bits then Level(list, b) else []
  {
    hide Filter, Level;
    if b == bits {
      FilterAll(Level(list, b), IsAt(b));
    } else {
      FilterNone(Level(list, bits), IsAt(b));
    }
  }

  lemma NoLevels(list: seq<Entry>, top: nat)
    ensures Levels(list, top, top) == []
  {
  }

  lemma {:induction false} FilterSame(list: seq<Entry>, p: Entry -> bool, q: Entry -> bool)
    requires forall e | e in list :: p(e) == q(e)
    ensures Filter(list, p) == Filter(list, q)
  {
    if list != [] {
      FilterSame(list[..|list| - 1], p, q);
    }
  }

  /** Nothing is stronger than the strongest entry, and nothing active is weaker than strength 0. */
  lemma RestAtTheEnds(list: seq<Entry>)
    ensures Rest(list, MaxBits(list) + 1) == list && Rest(list, 0) == Inactives(list)
  {
    FilterAll(list, IsBelow(MaxBits(list) + 1));
    hide MaxBits;
    FilterSame(list, IsBelow(0), IsIdle());
  }

  lemma StrengthSortIs(list: seq<Entry>)
    ensures StrengthSort(list) == SortBelow(list, list, MaxBits(list) + 1)
  {
    hide SortBelow, MaxBits;
  }

  /** The active entries end up last. */
  lemma SortShape(list: seq<Entry>)
    ensures StrengthSort(list) == Inactives(list) + Levels(list, MaxBits(list) + 1, 0)
  {
    hide *;
    var top := MaxBits(list) + 1;
    StrengthSortIs(list);
    RestAtTheEnds(list);
    NoLevels(list, top);
    assert list + [] == list;
    SortsLevels(list, top, top);
  }

  lemma IdleParts(list: seq<Entry>, b: nat)
    ensures var idle := Inactives(list);
            Filter(idle, IsActive()) == [] && Filter(idle, IsIdle()) == idle && Filter(idle, IsAt(b)) == []
  {
    var idle := Inactives(list);
    hide Filter;
    FilterNone(idle, IsActive());
    FilterAll(idle, IsIdle());
    FilterNone(idle, IsAt(b));
  }

  lemma ActiveParts(list: seq<Entry>, top: nat)
    ensures var levels := Levels(list, top, 0);
            Filter(levels, IsActive()) == levels && Filter(levels, IsIdle()) == []
  {
    var levels := Levels(list, top, 0);
    hide Filter, Levels;
    FilterAll(levels, IsActive());
    FilterNone(levels, IsIdle());
  }

  /** The level of strength b, which is empty when nothing is that strong. */
  lemma SortedLevel(list: seq<Entry>, b: nat)
    ensures Filter(Levels(list, MaxBits(list) + 1, 0), IsAt(b)) == Cleared(Filter(list, IsAt(b)))
  {
    var top := MaxBits(list) + 1;
    LevelIs(list, b);
    hide Levels, Level;
    LevelOfLevels(list, top, 0, b);
    if b >= top {
      FilterNone(list, IsAt(b));
    }
  }

  /**
    The strength sort leaves the active entries in descending strength, keeps the order of those
    of equal strength (and loses and invents none), and leaves the inactive entries as they were.
   */
  lemma StrengthSortIsStable(list: seq<Entry>, b: nat)
    ensures var r := StrengthSort(list);
            && Descending(Actives(r))
            && Filter(r, IsAt(b)) == Cleared(Filter(list, IsAt(b)))
            && Inactives(r) == Inactives(list)
  {
    var top := MaxBits(list) + 1;
    hide MaxBits, StrengthSort, Descending, Filter, IsActive, IsIdle, IsAt, Cleared, Levels;
    var levels, idle := Levels(list, top, 0), Inactives(list);
    SortShape(list);
    FilterConcat(idle, levels, IsActive());
    FilterConcat(idle, levels, IsIdle());
    FilterConcat(idle, levels, IsAt(b));
    IdleParts(list, b);
    ActiveParts(list, top);
    SortedLevel(list, b);
    LevelsDescend(list, top, 0);
    assert [] + levels == levels && idle + [] == idle;
  }

  // ---------------------------------------------------------------- nothing is lost

  function CiphersOf(list: seq<Entry>): (r: seq<Cipher>)
    ensures |r| == |list| && forall i | 0 <= i < |list| :: r[i] == list[i].cipher
  {
    seq(|list|, i requires 0 <= i < |list| => list[i].cipher)
  }

  /** Picking splits a sequence in two. */
  lemma {:induction false} PickSplits<T>(s: seq<T>, hit: seq<bool>)
    requires |hit| == |s|
    ensures multiset(Pick(s, hit, true)) + multiset(Pick(s, hit, false)) == multiset(s)
  {
    if s != [] {
      var n := |s| - 1;
      PickSplits(s[..n], hit[..n]);
      assert s == s[..n] + [s[n]];
    }
  }

  lemma {:induction false} PickOfCiphers(list: seq<Entry>, hit: seq<bool>, want: bool)
    requires |hit| == |list|
    ensures CiphersOf(Pick(list, hit, want)) == Pick(CiphersOf(list), hit, want)
  {
    if list != [] {
      var n := |list| - 1;
      PickOfCiphers(list[..n], hit[..n], want);
      assert CiphersOf(list)[..n] == CiphersOf(list[..n]);
    }
  }

  /** Add, order and delete only move ciphers: each occurs as often as before. */
  lemma RulesOnlyMove(rule: Rule, sel: Selection, inGroup: bool, list: seq<Entry>)
    requires !rule.Kill?
    ensures multiset(CiphersOf(ApplyRule(rule, sel, inGroup, list))) == multiset(CiphersOf(list))
  {
    var hits := Hits(rule, sel, list);
    PickSplits(CiphersOf(list), hits);
    PickOfCiphers(list, hits, true);
    PickOfCiphers(list, hits, false);
    var hit, others := Pick(list, hits, true), Pick(list, hits, false);
    hide Pick, Hits;
    var marked := Map(e => Marked(rule, inGroup, e), hit);
    assert CiphersOf(marked) == CiphersOf(hit);
    CiphersOfSum(marked, others);
    CiphersOfSum(others, marked);
  }

  lemma CiphersOfSum(a: seq<Entry>, b: seq<Entry>)
    ensures CiphersOf(a + b) == CiphersOf(a) + CiphersOf(b)
  {
  }

  lemma {:induction false} SortOnlyMovesBelow(list: seq<Entry>, orig: seq<Entry>, count: nat)
    ensures multiset(CiphersOf(SortBelow(list, orig, count))) == multiset(CiphersOf(list))
    decreases count
  {
    hide ApplyRule, CiphersOf;
    if count > 0 {
      RulesOnlyMove(Order, ByStrength(count - 1), false, list);
      SortOnlyMovesBelow(ApplyRule(Order, ByStrength(count - 1), false, list), orig, count - 1);
      SortOnlyMovesBelow(list, orig, count - 1);
    }
  }

  /** The strength sort is a permutation of the whole list. */
  lemma SortOnlyMoves(list: seq<Entry>)
    ensures multiset(CiphersOf(StrengthSort(list))) == multiset(CiphersOf(list))
  {
    hide SortBelow, MaxBits;
    SortOnlyMovesBelow(list, list, MaxBits(list) + 1);
  }
}
