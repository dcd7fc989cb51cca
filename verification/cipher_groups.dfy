/**
  ssl_cipher_process_rulestr after its characters have been read: rules, "@STRENGTH", and the
  equal-preference groups between '[' and ']'.
 */
module CipherGroups {
  import opened CipherRules
  import opened CipherSort

  /** One element of a rule string.  An unknown name selects nothing and is left out. */
  datatype Op = Apply(rule: Rule, sel: Selection) | Strength | Open | Close

  /** What the loop keeps between elements. */
  datatype Progress = Progress(list: seq<Entry>, inGroup: bool, hasGroup: bool, ok: bool)

  /** (*tail_p)->in_group = 0 */
  function EndGroup(list: seq<Entry>): seq<Entry> {
    if list == [] then []
    else list[..|list| - 1] + [list[|list| - 1].(inGroup := false)]
  }

  /** In a group only names, '|' and ']' are legal; once there is a group, only additions are. */
  predicate Legal(p: Progress, op: Op) {
    match op
    case Apply(rule, _) => rule.Add? || (!p.inGroup && !p.hasGroup)
    case Strength => !p.inGroup && !p.hasGroup
    case Open => !p.inGroup
    case Close => p.inGroup
  }

  function Step(p: Progress, op: Op): Progress {
    if !p.ok then p
    else if !Legal(p, op) then p.(ok := false)
    else match op
      case Apply(rule, sel) => p.(list := ApplyRule(rule, sel, p.inGroup, p.list))
      case Strength => p.(list := StrengthSort(p.list))
      case Open => p.(inGroup := true, hasGroup := true)
      case Close => p.(list := EndGroup(p.list), inGroup := false)
  }

  function Steps(p: Progress, ops: seq<Op>): Progress {
    if ops == [] then p else Step(Steps(p, ops[..|ops| - 1]), ops[|ops| - 1])
  }

  function Begin(list: seq<Entry>): Progress { Progress(list, false, false, true) }

  /** The rule string is accepted: no illegal operator, and no group left open. */
  predicate Accepted(p: Progress) { p.ok && !p.inGroup }

  // ---------------------------------------------------------------- killed for good

  predicate Mentions(list: seq<Entry>, c: Cipher) { exists e :: e in list && e.cipher == c }

  lemma RuleInventsNothing(rule: Rule, sel: Selection, inGroup: bool, list: seq<Entry>, c: Cipher)
    requires !Mentions(list, c)
    ensures !Mentions(ApplyRule(rule, sel, inGroup, list), c)
  {
    var hits := Hits(rule, sel, list);
    var hit := Pick(list, hits, true);
    forall e | e in Map(e => Marked(rule, inGroup, e), hit) ensures e.cipher != c {
      var i :| 0 <= i < |hit| && e == Marked(rule, inGroup, hit[i]);
      assert hit[i] in list;
    }
  }

  lemma SortInventsNothing(list: seq<Entry>, orig: seq<Entry>, count: nat, c: Cipher)
    requires !Mentions(list, c)
    ensures !Mentions(SortBelow(list, orig, count), c)
    decreases count
  {
    if count > 0 {
      RuleInventsNothing(Order, ByStrength(count - 1), false, list, c);
    }
  }

  lemma KillRemoves(sel: Selection, inGroup: bool, list: seq<Entry>, c: Cipher)
    requires Selects(sel, c)
    ensures !Mentions(ApplyRule(Kill, sel, inGroup, list), c)
  {
    var hits := Hits(Kill, sel, list);
    PickIsFilter(list, hits, false, (e: Entry) => !Selects(sel, e.cipher));
    assert forall e | e in Pick(list, hits, false) :: !Selects(sel, e.cipher);
  }

  lemma {:induction false} StepsInventNothing(p: Progress, ops: seq<Op>, c: Cipher)
    requires !Mentions(p.list, c)
    ensures !Mentions(Steps(p, ops).list, c)
  {
    if ops != [] {
      var q, op := Steps(p, ops[..|ops| - 1]), ops[|ops| - 1];
      StepsInventNothing(p, ops[..|ops| - 1], c);
      match op {
        case Apply(rule, sel) => RuleInventsNothing(rule, sel, q.inGroup, q.list, c);
        case Strength => SortInventsNothing(q.list, q.list, MaxBits(q.list) + 1, c);
        case Open =>
        case Close =>
      }
    }
  }

  lemma {:induction false} StepsSplit(p: Progress, a: seq<Op>, b: seq<Op>)
    ensures Steps(p, a + b) == Steps(Steps(p, a), b)
  {
    if b == [] {
      assert a + b == a;
    } else {
      assert (a + b)[..|a + b| - 1] == a + b[..|b| - 1];
      StepsSplit(p, a, b[..|b| - 1]);
    }
  }

  /** A cipher that a Kill rule selects never comes back, whatever rules follow. */
  lemma KilledForGood(list: seq<Entry>, before: seq<Op>, sel: Selection, later: seq<Op>, c: Cipher)
    requires Selects(sel, c)
    ensures var p := Steps(Begin(list), before + [Op.Apply(Kill, sel)] + later);
            p.ok ==> !Mentions(p.list, c)
  {
    var q := Steps(Begin(list), before);
    var killed := Steps(Begin(list), before + [Op.Apply(Kill, sel)]);
    StepsSplit(Begin(list), before + [Op.Apply(Kill, sel)], later);
    assert (before + [Op.Apply(Kill, sel)])[..|before|] == before;
    if killed.ok {
      KillRemoves(sel, q.inGroup, q.list, c);
      StepsInventNothing(killed, later, c);
    } else {
      StaysRefused(killed, later);
    }
  }

  lemma {:induction false} StaysRefused(p: Progress, ops: seq<Op>)
    requires !p.ok
    ensures Steps(p, ops) == p
  {
    if ops != [] {
      StaysRefused(p, ops[..|ops| - 1]);
    }
  }

  // ---------------------------------------------------------------- groups

  /** The active ciphers with their flags: true while the cipher is not the last of its group. */
  datatype Preferences = Preferences(ciphers: seq<Cipher>, flags: seq<bool>)

  /** The lists that ssl_create_cipher_list takes out of the linked list. */
  function Extract(list: seq<Entry>): (r: Preferences)
    ensures |r.ciphers| == |r.flags|
    ensures |r.ciphers| == |Actives(list)|
  {
    Preferences(CiphersOf(Actives(list)), FlagsOf(Actives(list)))
  }

  /** No group flag is left open at the end. */
  predicate Closed(a: seq<Entry>) { a == [] || !a[|a| - 1].inGroup }

  lemma EntriesOfSum(a: seq<Entry>, b: seq<Entry>)
    ensures Actives(a + b) == Actives(a) + Actives(b)
  {
    FilterConcat(a, b, IsActive());
  }

  lemma ActivesOfOne(e: Entry)
    ensures Actives([e]) == if e.active then [e] else []
  {
    if e.active {
      FilterAll([e], IsActive());
    } else {
      FilterNone([e], IsActive());
    }
  }

  lemma ActivesAreActive(list: seq<Entry>)
    ensures forall e | e in Actives(list) :: e.active
  {
    forall e | e in Actives(list) ensures e.active {
      assert IsActive()(e);
    }
  }

  function IsHit(rule: Rule, sel: Selection): Entry -> bool { (e: Entry) => Hit(rule, sel, e) }

  /** An addition appends the ciphers it hits to the active ones, and leaves those alone. */
  lemma AddAppends(sel: Selection, inGroup: bool, list: seq<Entry>)
    ensures var hit := Map(e => Marked(Add, inGroup, e), Filter(list, IsHit(Add, sel)));
            && Actives(ApplyRule(Add, sel, inGroup, list)) == Actives(list) + hit
            && (hit != [] ==> var r := ApplyRule(Add, sel, inGroup, list); r != [] && r[|r| - 1] == hit[|hit| - 1])
            && (hit == [] ==> ApplyRule(Add, sel, inGroup, list) == list)
  {
    var hits := Hits(Add, sel, list);
    var on, off := IsActive(), (e: Entry) => !Hit(Add, sel, e);
    PickIsFilter(list, hits, true, IsHit(Add, sel));
    PickIsFilter(list, hits, false, off);
    var others := Filter(list, off);
    var hit := Map(e => Marked(Add, inGroup, e), Filter(list, IsHit(Add, sel)));
    FilterConcat(others, hit, on);
    FilterAll(hit, on);
    FilterTwice(list, off, on, on);
    if hit == [] {
      forall e | e in list ensures off(e) {
        if !off(e) {
          FilterKeeps(list, IsHit(Add, sel), e);
        }
      }
      FilterAll(list, off);
      assert others + hit == list;
    }
  }

  /** Inside a group: `base` was there at the '[', `added` has been added since, all flagged. */
  ghost predicate Grouping(list: seq<Entry>, base: seq<Entry>, added: seq<Entry>) {
    && Actives(list) == base + added && Closed(base)
    && (forall i | 0 <= i < |added| :: added[i].inGroup)
    && (added != [] ==> list != [] && list[|list| - 1] == added[|added| - 1])
  }

  lemma AddInGroup(sel: Selection, list: seq<Entry>, base: seq<Entry>, added: seq<Entry>)
    requires Grouping(list, base, added)
    ensures var hit := Map(e => Marked(Add, true, e), Filter(list, IsHit(Add, sel)));
            Grouping(ApplyRule(Add, sel, true, list), base, added + hit)
  {
    AddAppends(sel, true, list);
    hide Filter, ApplyRule, Actives;
    var hit := Map(e => Marked(Add, true, e), Filter(list, IsHit(Add, sel)));
    assert base + added + hit == base + (added + hit);
  }

  lemma LastAddedIsActive(list: seq<Entry>, base: seq<Entry>, added: seq<Entry>)
    requires Grouping(list, base, added)
    ensures added != [] ==> list[|list| - 1].active
  {
    ActivesAreActive(list);
    hide Actives;
    assert added != [] ==> added[|added| - 1] in base + added;
  }

  /** The active entries of a list, with its last entry apart. */
  lemma ActivesOfLast(list: seq<Entry>, last: Entry)
    requires list != []
    ensures var before := Actives(list[..|list| - 1]);
            Actives(list[..|list| - 1] + [last]) == if last.active then before + [last] else before
  {
    EntriesOfSum(list[..|list| - 1], [last]);
    ActivesOfOne(last);
    hide Actives;
  }

  /** ']' takes the flag off the last cipher of the group, and touches no other group. */
  lemma CloseEndsGroup(list: seq<Entry>, base: seq<Entry>, added: seq<Entry>)
    requires Grouping(list, base, added)
    ensures Actives(EndGroup(list)) == base + EndGroup(added) && Closed(Actives(EndGroup(list)))
  {
    if list != [] {
      var n := |list| - 1;
      var last := list[n];
      LastAddedIsActive(list, base, added);
      ActivesOfLast(list, last);
      ActivesOfLast(list, last.(inGroup := false));
      hide Actives, Closed;
      assert list == list[..n] + [last];
      assert EndGroup(list) == list[..n] + [last.(inGroup := false)];
      if last.active {
        LastOfSum(Actives(list[..n]), last, base, added);
      } else {
        assert EndGroup(added) == added && base + added == base;
      }
    } else {
      assert base == [] && added == [];
    }
  }

  lemma LastOfSum(before: seq<Entry>, last: Entry, base: seq<Entry>, added: seq<Entry>)
    requires before + [last] == base + added && Closed(base)
    ensures before + [last.(inGroup := false)] == base + EndGroup(added)
    ensures Closed(base + EndGroup(added))
  {
    var a := base + added;
    assert a[|a| - 1] == last && before == a[..|a| - 1];
    if added == [] {
      assert last.(inGroup := false) == last;
    } else {
      assert a[..|a| - 1] == base + added[..|added| - 1];
    }
  }

  // ---------------------------------------------------------------- every run of flags is ended

  ghost predicate Unflagged(list: seq<Entry>) { forall e | e in list :: !e.inGroup }

  lemma RuleKeepsUnflagged(rule: Rule, sel: Selection, list: seq<Entry>)
    requires Unflagged(list)
    ensures Unflagged(ApplyRule(rule, sel, false, list))
  {
    var hits := Hits(rule, sel, list);
    var hit := Pick(list, hits, true);
    forall e | e in Map(e => Marked(rule, false, e), hit) ensures !e.inGroup {
      var i :| 0 <= i < |hit| && e == Marked(rule, false, hit[i]);
      assert hit[i] in list;
    }
  }

  lemma {:induction false} SortKeepsUnflagged(list: seq<Entry>, orig: seq<Entry>, count: nat)
    requires Unflagged(list)
    ensures Unflagged(SortBelow(list, orig, count))
    decreases count
  {
    if count > 0 {
      RuleKeepsUnflagged(Order, ByStrength(count - 1), list);
      var list1 := if Uses(orig, count - 1) > 0
                   then ApplyRule(Order, ByStrength(count - 1), false, list) else list;
      SortKeepsUnflagged(list1, orig, count - 1);
    }
  }

  lemma UnflaggedIsClosed(list: seq<Entry>)
    requires Unflagged(list)
    ensures Closed(Actives(list))
  {
    var a := Actives(list);
    if a != [] {
      assert a[|a| - 1] in a;
    }
  }

  /** What the loop keeps: flags appear only with a group, and only the open group is unended. */
  ghost predicate Tidy(p: Progress) {
    && (p.inGroup ==> p.hasGroup)
    && (!p.hasGroup ==> Unflagged(p.list))
    && (p.hasGroup && !p.inGroup ==> Closed(Actives(p.list)))
    && (p.inGroup ==> exists base, added :: Grouping(p.list, base, added))
  }

  lemma AddOutsideGroup(sel: Selection, list: seq<Entry>)
    requires Closed(Actives(list))
    ensures Closed(Actives(ApplyRule(Add, sel, false, list)))
  {
    AddAppends(sel, false, list);
  }

  lemma StepKeepsTidy(p: Progress, op: Op)
    requires p.ok && Tidy(p)
    ensures Step(p, op).ok ==> Tidy(Step(p, op))
  {
    if Legal(p, op) {
      match op {
        case Apply(rule, sel) =>
          if p.inGroup {
            var base, added :| Grouping(p.list, base, added);
            AddInGroup(sel, p.list, base, added);
          } else if p.hasGroup {
            AddOutsideGroup(sel, p.list);
          } else {
            RuleKeepsUnflagged(rule, sel, p.list);
          }
        case Strength =>
          SortKeepsUnflagged(p.list, p.list, MaxBits(p.list) + 1);
        case Open =>
          if !p.hasGroup {
            UnflaggedIsClosed(p.list);
          }
          assert Grouping(p.list, Actives(p.list), []);
        case Close =>
          var base, added :| Grouping(p.list, base, added);
          CloseEndsGroup(p.list, base, added);
      }
    }
  }

  lemma {:induction false} StepsKeepTidy(list: seq<Entry>, ops: seq<Op>)
    requires Unflagged(list)
    ensures var p := Steps(Begin(list), ops); p.ok ==> Tidy(p)
  {
    if ops != [] {
      StepsKeepTidy(list, ops[..|ops| - 1]);
      var q := Steps(Begin(list), ops[..|ops| - 1]);
      if q.ok {
        StepKeepsTidy(q, ops[|ops| - 1]);
      }
    }
  }

  /** Every run of in-group flags ends with a 0 flag. */
  ghost predicate GroupsEnd(flags: seq<bool>) {
    forall i | 0 <= i < |flags| && flags[i] :: exists j :: i < j < |flags| && !flags[j]
  }

  /** Of every accepted rule string the last flag is 0, so that every run of flags has an end. */
  lemma AcceptedGroupsAreEnded(list: seq<Entry>, ops: seq<Op>)
    requires Unflagged(list) && Accepted(Steps(Begin(list), ops))
    ensures var flags := Extract(Steps(Begin(list), ops).list).flags;
            GroupsEnd(flags)
  {
    StepsKeepTidy(list, ops);
    var p := Steps(Begin(list), ops);
    if !p.hasGroup {
      UnflaggedIsClosed(p.list);
    }
    var flags := Extract(p.list).flags;
    forall i | 0 <= i < |flags| && flags[i] ensures exists j :: i < j < |flags| && !flags[j] {
      assert !flags[|flags| - 1];
    }
  }

  // ---------------------------------------------------------------- the groups the flags spell

  /** The first cipher of the list that is the last of its group. */
  function FirstEnd(flags: seq<bool>): (n: nat)
    ensures n <= |flags|
    ensures n < |flags| ==> !flags[n]
    ensures forall i | 0 <= i < n :: flags[i]
  {
    if flags == [] || !flags[0] then 0 else 1 + FirstEnd(flags[1..])
  }

  /** The equal-preference groups, best first.  Ciphers after the last 0 flag are in no group. */
  function Groups(prefs: Preferences): seq<seq<Cipher>>
    requires |prefs.ciphers| == |prefs.flags|
    decreases |prefs.flags|
  {
    var n := FirstEnd(prefs.flags);
    if n == |prefs.flags| then []
    else [prefs.ciphers[..n + 1]] + Groups(Preferences(prefs.ciphers[n + 1..], prefs.flags[n + 1..]))
  }

  lemma GroupsUnfold(c: seq<Cipher>, f: seq<bool>, n: nat)
    requires |c| == |f| && n < |f| && !f[n] && forall i | 0 <= i < n :: f[i]
    ensures Groups(Preferences(c, f)) == [c[..n + 1]] + Groups(Preferences(c[n + 1..], f[n + 1..]))
  {
    FirstEndIs(f, n);
  }

  lemma GroupsOfNone(c: seq<Cipher>, f: seq<bool>)
    requires |c| == |f| == 0
    ensures Groups(Preferences(c, f)) == []
  {
  }

  lemma {:induction false} GroupsConcat(c1: seq<Cipher>, f1: seq<bool>, c2: seq<Cipher>, f2: seq<bool>)
    requires |c1| == |f1| && |c2| == |f2| && (f1 != [] ==> !f1[|f1| - 1])
    ensures Groups(Preferences(c1 + c2, f1 + f2)) == Groups(Preferences(c1, f1)) + Groups(Preferences(c2, f2))
    decreases |f1|
  {
    hide Groups;
    if f1 == [] {
      assert c1 + c2 == c2 && f1 + f2 == f2;
      GroupsOfNone(c1, f1);
    } else {
      var n := FirstEnd(f1);
      GroupsUnfold(c1, f1, n);
      GroupsUnfold(c1 + c2, f1 + f2, n);
      GroupsConcat(c1[n + 1..], f1[n + 1..], c2, f2);
      assert (c1 + c2)[n + 1..] == c1[n + 1..] + c2;
      assert (f1 + f2)[n + 1..] == f1[n + 1..] + f2;
      assert (c1 + c2)[..n + 1] == c1[..n + 1];
      var g, g1, g2 := c1[..n + 1], Groups(Preferences(c1[n + 1..], f1[n + 1..])), Groups(Preferences(c2, f2));
      assert [g] + (g1 + g2) == ([g] + g1) + g2;
    }
  }

  lemma FirstEndIs(flags: seq<bool>, n: nat)
    requires n < |flags| && !flags[n] && forall i | 0 <= i < n :: flags[i]
    ensures FirstEnd(flags) == n
  {
  }

  function FlagsOf(a: seq<Entry>): (r: seq<bool>)
    ensures |r| == |a| && forall i | 0 <= i < |a| :: r[i] == a[i].inGroup
  {
    seq(|a|, i requires 0 <= i < |a| => a[i].inGroup)
  }

  function GroupsOf(a: seq<Entry>): seq<seq<Cipher>> { Groups(Preferences(CiphersOf(a), FlagsOf(a))) }

  lemma GroupsOfSum(a: seq<Entry>, b: seq<Entry>)
    requires Closed(a)
    ensures GroupsOf(a + b) == GroupsOf(a) + GroupsOf(b)
  {
    assert CiphersOf(a + b) == CiphersOf(a) + CiphersOf(b) && FlagsOf(a + b) == FlagsOf(a) + FlagsOf(b);
    GroupsConcat(CiphersOf(a), FlagsOf(a), CiphersOf(b), FlagsOf(b));
  }

  lemma OneGroup(added: seq<Entry>)
    requires forall i | 0 <= i < |added| :: added[i].inGroup
    ensures GroupsOf(EndGroup(added)) == if added == [] then [] else [CiphersOf(added)]
  {
    var a := EndGroup(added);
    if added != [] {
      GroupsUnfold(CiphersOf(a), FlagsOf(a), |a| - 1);
      assert CiphersOf(a)[..|a|] == CiphersOf(added) && CiphersOf(a)[|a|..] == [];
    }
  }

  predicate OnlyAdds(ops: seq<Op>) { forall i | 0 <= i < |ops| :: ops[i].Apply? && ops[i].rule.Add? }

  lemma {:induction false} AddsInGroup(p: Progress, ops: seq<Op>, base: seq<Entry>) returns (added: seq<Entry>)
    requires p.ok && p.inGroup && OnlyAdds(ops) && Grouping(p.list, base, [])
    ensures var q := Steps(p, ops); q.ok && q.inGroup && Grouping(q.list, base, added)
  {
    if ops == [] {
      added := [];
    } else {
      var op, q := ops[|ops| - 1], Steps(p, ops[..|ops| - 1]);
      var before := AddsInGroup(p, ops[..|ops| - 1], base);
      AddInGroup(op.sel, q.list, base, before);
      added := before + Map(e => Marked(Add, true, e), Filter(q.list, IsHit(Add, op.sel)));
    }
  }

  lemma BracketAdds(p: Progress, ops: seq<Op>) returns (added: seq<Entry>)
    requires p.ok && !p.inGroup && OnlyAdds(ops) && Closed(Actives(p.list))
    ensures var q := Steps(p, [Op.Open] + ops + [Op.Close]);
            && q.ok && !q.inGroup && Actives(q.list) == Actives(p.list) + EndGroup(added)
            && Closed(Actives(q.list)) && forall i | 0 <= i < |added| :: added[i].inGroup
  {
    var base, o := Actives(p.list), Step(p, Op.Open);
    assert Steps(p, [Op.Open]) == o by { assert [Op.Open][..0] == []; }
    StepsSplit(p, [Op.Open], ops);
    assert Grouping(o.list, base, []);
    added := AddsInGroup(o, ops, base);
    assert ([Op.Open] + ops + [Op.Close])[..1 + |ops|] == [Op.Open] + ops;
    CloseEndsGroup(Steps(o, ops).list, base, added);
  }

  /**
    "[A|B|...]" makes exactly one new group, ranked below all earlier ones: the ciphers it newly
    enables, in the order it enables them.  If it enables none it makes no group.
   */
  lemma BracketMakesOneGroup(p: Progress, ops: seq<Op>)
    requires p.ok && !p.inGroup && OnlyAdds(ops) && Closed(Actives(p.list))
    ensures var q := Steps(p, [Op.Open] + ops + [Op.Close]);
            var was, now := Actives(p.list), Actives(q.list);
            && q.ok && !q.inGroup && Closed(now)
            && |was| <= |now| && now[..|was|] == was
            && GroupsOf(now) == GroupsOf(was) + (if |now| == |was| then [] else [CiphersOf(now[|was|..])])
  {
    var added := BracketAdds(p, ops);
    hide Steps, Actives;
    SumMakesOneGroup(Actives(p.list), added);
  }

  lemma SumMakesOneGroup(was: seq<Entry>, added: seq<Entry>)
    requires Closed(was) && forall i | 0 <= i < |added| :: added[i].inGroup
    ensures var now := was + EndGroup(added);
            && |was| <= |now| && now[..|was|] == was
            && GroupsOf(now) == GroupsOf(was) + (if |now| == |was| then [] else [CiphersOf(now[|was|..])])
  {
    hide GroupsOf, EndGroup;
    GroupsOfSum(was, EndGroup(added));
    OneGroup(added);
    EndGroupKeeps(added);
    assert (was + EndGroup(added))[|was|..] == EndGroup(added);
  }

  lemma EndGroupKeeps(added: seq<Entry>)
    ensures |EndGroup(added)| == |added| && CiphersOf(EndGroup(added)) == CiphersOf(added)
  {
    assert CiphersOf(EndGroup(added)) == CiphersOf(added);
  }
}
