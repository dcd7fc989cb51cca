/**
  ssl3_choose_cipher (3rdparty/boringssl/ssl/s3_lib.c): how a server picks one cipher from its own
  grouped preferences and the client's list.
 */
module CipherChoice {
  import opened Optional
  import opened CipherRules
  import opened CipherGroups
  import opened CipherEffects

  /** What the connection allows: its protocol version and the masks of its certificates. */
  datatype Limits = Limits(version: nat, maskK: bv32, maskA: bv32)

  predicate Usable(lim: Limits, c: Cipher) {
    MinVersion(c) <= lim.version && Meets(c.mkey, lim.maskK) && Meets(c.auth, lim.maskA)
  }

  /** sk_SSL_CIPHER_find: the least index at which c stands in the stack, or its length. */
  function IndexOf(stack: seq<Cipher>, c: Cipher): (i: nat)
    ensures i <= |stack| && (i < |stack| ==> stack[i] == c)
    ensures forall j | 0 <= j < i :: stack[j] != c
  {
    if stack == [] || stack[0] == c then 0 else 1 + IndexOf(stack[1..], c)
  }

  /** Where c stands in the other side's list, if the connection can use it at all. */
  function Rank(lim: Limits, allow: seq<Cipher>, c: Cipher): Option<nat> {
    var i := IndexOf(allow, c);
    if Usable(lim, c) && i < |allow| then Some(i) else None
  }

  function Least(a: Option<nat>, b: Option<nat>): Option<nat> {
    if a.None? then b else if b.None? then a else if a.value <= b.value then a else b
  }

  /** The best rank in a group: the client's earliest cipher among the usable ones. */
  function BestRank(lim: Limits, allow: seq<Cipher>, group: seq<Cipher>): Option<nat> {
    if group == [] then None
    else Least(BestRank(lim, allow, group[..|group| - 1]), Rank(lim, allow, group[|group| - 1]))
  }

  /** The answer of the first group that has one. */
  function FirstBest(lim: Limits, allow: seq<Cipher>, groups: seq<seq<Cipher>>): Option<nat> {
    if groups == [] then None
    else
      var r := BestRank(lim, allow, groups[0]);
      if r.Some? then r else FirstBest(lim, allow, groups[1..])
  }

  function CipherAt(allow: seq<Cipher>, r: Option<nat>): Option<Cipher> {
    if r.Some? && r.value < |allow| then Some(allow[r.value]) else None
  }

  /** In a group the chosen rank is a usable cipher of the group, and no usable one comes earlier. */
  lemma {:induction false} BestRankIsEarliest(lim: Limits, allow: seq<Cipher>, group: seq<Cipher>)
    ensures var r := BestRank(lim, allow, group);
            if r.Some? then
              && r.value < |allow| && allow[r.value] in group && Usable(lim, allow[r.value])
              && forall j | 0 <= j < r.value :: !(allow[j] in group && Usable(lim, allow[j]))
            else forall c | c in group :: !(Usable(lim, c) && c in allow)
  {
    if group != [] {
      BestRankIsEarliest(lim, allow, group[..|group| - 1]);
      var last := group[|group| - 1];
      assert group == group[..|group| - 1] + [last];
      assert last in allow ==> IndexOf(allow, last) < |allow|;
      forall j | 0 <= j < |allow| && allow[j] == last && Usable(lim, last)
        ensures Rank(lim, allow, last).Some? && Rank(lim, allow, last).value <= j
      {
      }
    }
  }

  /** The element that closes or continues a group, as the loop sees it. */
  function Choose(lim: Limits, allow: seq<Cipher>, prefs: Preferences, i: nat, groupMin: Option<nat>): Option<nat>
    requires |prefs.ciphers| == |prefs.flags| && i <= |prefs.flags|
    decreases |prefs.flags| - i
  {
    if i == |prefs.flags| then None
    else
      var best := Least(groupMin, Rank(lim, allow, prefs.ciphers[i]));
      if prefs.flags[i] then Choose(lim, allow, prefs, i + 1, best)
      else if best.Some? then best
      else Choose(lim, allow, prefs, i + 1, None)
  }

  lemma {:induction false} ChooseInGroup(lim: Limits, allow: seq<Cipher>, prefs: Preferences, i: nat, k: nat, n: nat)
    requires |prefs.ciphers| == |prefs.flags| && i <= k <= n <= |prefs.flags|
    requires forall j | i <= j < n :: prefs.flags[j]
    ensures Choose(lim, allow, prefs, k, BestRank(lim, allow, prefs.ciphers[i..k]))
            == Choose(lim, allow, prefs, n, BestRank(lim, allow, prefs.ciphers[i..n]))
    decreases n - k
  {
    if k < n {
      BestRankStep(lim, allow, prefs.ciphers, i, k);
      ChooseInGroup(lim, allow, prefs, i, k + 1, n);
    }
  }

  lemma BestRankStep(lim: Limits, allow: seq<Cipher>, c: seq<Cipher>, i: nat, k: nat)
    requires i <= k < |c|
    ensures BestRank(lim, allow, c[i..k + 1]) == Least(BestRank(lim, allow, c[i..k]), Rank(lim, allow, c[k]))
  {
    assert c[i..k + 1][..k - i] == c[i..k];
  }

  lemma ChooseStep(lim: Limits, allow: seq<Cipher>, prefs: Preferences, i: nat, groupMin: Option<nat>)
    requires |prefs.ciphers| == |prefs.flags| && i <= |prefs.flags|
    ensures i == |prefs.flags| ==> Choose(lim, allow, prefs, i, groupMin) == None
    ensures i < |prefs.flags| && !prefs.flags[i] ==>
              Choose(lim, allow, prefs, i, groupMin) ==
              var best := Least(groupMin, Rank(lim, allow, prefs.ciphers[i]));
              if best.Some? then best else Choose(lim, allow, prefs, i + 1, None)
  {
  }

  lemma FirstBestStep(lim: Limits, allow: seq<Cipher>, group: seq<Cipher>, groups: seq<seq<Cipher>>)
    ensures FirstBest(lim, allow, [group] + groups) ==
            var r := BestRank(lim, allow, group);
            if r.Some? then r else FirstBest(lim, allow, groups)
  {
    assert ([group] + groups)[1..] == groups;
  }

  lemma NoGroups(lim: Limits, allow: seq<Cipher>, prefs: Preferences)
    requires |prefs.ciphers| == |prefs.flags| && FirstEnd(prefs.flags) == |prefs.flags|
    ensures FirstBest(lim, allow, Groups(prefs)) == None
  {
  }

  /** The loop through one whole group: its best rank, or on to the next group. */
  lemma ChooseGroup(lim: Limits, allow: seq<Cipher>, prefs: Preferences, i: nat, n: nat)
    requires |prefs.ciphers| == |prefs.flags| && i + n <= |prefs.flags|
    requires forall j | i <= j < i + n :: prefs.flags[j]
    requires i + n < |prefs.flags| ==> !prefs.flags[i + n]
    ensures Choose(lim, allow, prefs, i, None) ==
            if i + n == |prefs.flags| then None
            else
              var r := BestRank(lim, allow, prefs.ciphers[i..i + n + 1]);
              if r.Some? then r else Choose(lim, allow, prefs, i + n + 1, None)
  {
    hide *;
    var c, k := prefs.ciphers, i + n;
    RankOfNothing(lim, allow, c, i);
    ChooseInGroup(lim, allow, prefs, i, i, k);
    ChooseStep(lim, allow, prefs, k, BestRank(lim, allow, c[i..k]));
    if k < |c| {
      BestRankStep(lim, allow, c, i, k);
      assert c[i..k + 1] == c[i..i + n + 1];
    }
  }

  lemma RankOfNothing(lim: Limits, allow: seq<Cipher>, c: seq<Cipher>, i: nat)
    requires i <= |c|
    ensures BestRank(lim, allow, c[i..i]) == None
  {
    assert c[i..i] == [];
  }

  lemma FirstEndFrom(f: seq<bool>, i: nat)
    requires i <= |f|
    ensures var n := FirstEnd(f[i..]);
            && i + n <= |f| && (forall j | i <= j < i + n :: f[j]) && (i + n < |f| ==> !f[i + n])
  {
    var n := FirstEnd(f[i..]);
    assert forall j | i <= j < i + n :: f[j] == f[i..][j - i];
  }

  /** The loop answers as the groups demand. */
  lemma {:induction false} ChooseIsFirstBest(lim: Limits, allow: seq<Cipher>, prefs: Preferences, i: nat)
    requires |prefs.ciphers| == |prefs.flags| && i <= |prefs.flags|
    ensures Choose(lim, allow, prefs, i, None)
            == FirstBest(lim, allow, Groups(Preferences(prefs.ciphers[i..], prefs.flags[i..])))
    decreases |prefs.flags| - i
  {
    hide *;
    var c, f := prefs.ciphers, prefs.flags;
    FirstEndFrom(f, i);
    var n := FirstEnd(f[i..]);
    ChooseGroup(lim, allow, prefs, i, n);
    if i + n < |f| {
      ChooseIsFirstBest(lim, allow, prefs, i + n + 1);
      GroupsFrom(c, f, i, n);
      FirstBestStep(lim, allow, c[i..i + n + 1], Groups(Preferences(c[i + n + 1..], f[i + n + 1..])));
    } else {
      NoGroups(lim, allow, Preferences(c[i..], f[i..]));
    }
  }

  /** The groups from position i on are the one that ends after n more flags, and the groups after it. */
  lemma GroupsFrom(c: seq<Cipher>, f: seq<bool>, i: nat, n: nat)
    requires |c| == |f| && i + n < |f| && FirstEnd(f[i..]) == n
    ensures Groups(Preferences(c[i..], f[i..]))
            == [c[i..i + n + 1]] + Groups(Preferences(c[i + n + 1..], f[i + n + 1..]))
  {
    hide Groups, FirstEnd;
    assert f[i..][n + 1..] == f[i + n + 1..] && c[i..][n + 1..] == c[i + n + 1..];
    assert c[i..][..n + 1] == c[i..i + n + 1];
    GroupsUnfold(c[i..], f[i..], n);
  }

  // ---------------------------------------------------------------- the loop itself

  datatype Options = Options(serverPreference: bool, limits: Limits)

  /** In the client's order there are no groups. */
  function Ungrouped(c: seq<Cipher>): Preferences { Preferences(c, seq(|c|, _ => false)) }

  /** ssl3_choose_cipher */
  method ChooseCipher(opt: Options, clnt: seq<Cipher>, srvr: Preferences) returns (ret: Option<Cipher>)
    requires |srvr.ciphers| == |srvr.flags|
    ensures var prio := if opt.serverPreference then srvr else Ungrouped(clnt);
            var allow := if opt.serverPreference then clnt else srvr.ciphers;
            ret == CipherAt(allow, FirstBest(opt.limits, allow, Groups(prio)))
  {
    hide FirstBest, Groups;
    var prio, allow := if opt.serverPreference then srvr else Ungrouped(clnt),
                       if opt.serverPreference then clnt else srvr.ciphers;
    var groupMin: Option<nat> := None;
    ret := None;
    ghost var answer := Choose(opt.limits, allow, prio, 0, None);
    ChooseIsFirstBest(opt.limits, allow, prio, 0);
    assert prio.ciphers[0..] == prio.ciphers && prio.flags[0..] == prio.flags;
    var i := 0;
    while i < |prio.ciphers|
      invariant i <= |prio.ciphers|
      invariant Choose(opt.limits, allow, prio, i, groupMin) == answer
      invariant groupMin.Some? ==> groupMin.value < |allow|
    {
      var c := prio.ciphers[i];
      var cipherIndex := IndexOf(allow, c);
      if Usable(opt.limits, c) && cipherIndex < |allow| {
        if prio.flags[i] {
          if groupMin.None? || groupMin.value > cipherIndex {
            groupMin := Some(cipherIndex);
          }
        } else {
          if groupMin.Some? && groupMin.value < cipherIndex {
            cipherIndex := groupMin.value;
          }
          return Some(allow[cipherIndex]);
        }
      }
      if !prio.flags[i] && groupMin.Some? {
        return Some(allow[groupMin.value]);
      }
      i := i + 1;
    }
  }

  // ---------------------------------------------------------------- the choice, said outright

  /** group g is the first of `groups` with a usable cipher that the other side also lists. */
  ghost predicate Serves(lim: Limits, allow: seq<Cipher>, group: seq<Cipher>) {
    exists c :: c in group && Usable(lim, c) && c in allow
  }

  ghost predicate FirstServing(lim: Limits, allow: seq<Cipher>, groups: seq<seq<Cipher>>, g: nat) {
    g < |groups| && Serves(lim, allow, groups[g]) && forall h | 0 <= h < g :: !Serves(lim, allow, groups[h])
  }

  /**
    The client's earliest-listed usable cipher out of the first group that holds any usable shared
    cipher; no cipher exactly when no group holds one.
   */
  lemma {:induction false} FirstBestMeaning(lim: Limits, allow: seq<Cipher>, groups: seq<seq<Cipher>>) returns (g: nat)
    ensures var r := FirstBest(lim, allow, groups);
            if r.Some? then
              && r.value < |allow| && FirstServing(lim, allow, groups, g)
              && allow[r.value] in groups[g] && Usable(lim, allow[r.value])
              && forall j | 0 <= j < r.value :: !(allow[j] in groups[g] && Usable(lim, allow[j]))
            else forall h | 0 <= h < |groups| :: !Serves(lim, allow, groups[h])
  {
    g := 0;
    if groups != [] {
      BestRankIsEarliest(lim, allow, groups[0]);
      var r := BestRank(lim, allow, groups[0]);
      if r.Some? {
        assert allow[r.value] in groups[0] && allow[r.value] in allow;
      } else {
        g := FirstBestMeaning(lim, allow, groups[1..]);
        g := g + 1;
        assert forall h | 1 <= h < |groups| :: groups[h] == groups[1..][h - 1];
      }
    }
  }

  /** When the last flag is 0 every cipher is in a group, so nothing usable is passed over. */
  lemma {:induction false} EndedListIsAllGroups(prefs: Preferences, c: Cipher)
    requires |prefs.ciphers| == |prefs.flags| && (prefs.flags != [] ==> !prefs.flags[|prefs.flags| - 1])
    ensures c in prefs.ciphers <==> exists h :: 0 <= h < |Groups(prefs)| && c in Groups(prefs)[h]
    decreases |prefs.flags|
  {
    var n := FirstEnd(prefs.flags);
    if prefs.flags == [] {
      assert Groups(prefs) == [];
    } else {
      var first, rest := prefs.ciphers[..n + 1], Preferences(prefs.ciphers[n + 1..], prefs.flags[n + 1..]);
      EndedListIsAllGroups(rest, c);
      assert prefs.ciphers == first + rest.ciphers;
      GroupsUnfold(prefs.ciphers, prefs.flags, n);
      assert Preferences(prefs.ciphers, prefs.flags) == prefs;
      hide Groups, FirstEnd;
      InOneMore(first, Groups(rest), c);
    }
  }

  lemma InOneMore(first: seq<Cipher>, rest: seq<seq<Cipher>>, c: Cipher)
    ensures var all := [first] + rest;
            (exists h :: 0 <= h < |all| && c in all[h]) <==> c in first || exists h :: 0 <= h < |rest| && c in rest[h]
  {
    var all := [first] + rest;
    if c in first {
      assert c in all[0];
    }
    if exists h :: 0 <= h < |rest| && c in rest[h] {
      var h :| 0 <= h < |rest| && c in rest[h];
      assert c in all[h + 1];
    }
  }

  lemma LastFlag(flags: seq<bool>)
    requires GroupsEnd(flags)
    ensures flags != [] ==> !flags[|flags| - 1]
  {
  }

  /**
    For a server preference list made by an accepted rule string: no cipher is chosen exactly when
    the two sides share no usable cipher.
   */
  lemma NothingChosenMeansNothingShared(lim: Limits, clnt: seq<Cipher>, list: seq<Entry>, ops: seq<Op>)
    requires Unflagged(list) && Accepted(Steps(Begin(list), ops))
    ensures var srvr := Extract(Steps(Begin(list), ops).list);
            FirstBest(lim, clnt, Groups(srvr)).None?
            <==> !exists c :: c in srvr.ciphers && c in clnt && Usable(lim, c)
  {
    var srvr := Extract(Steps(Begin(list), ops).list);
    AcceptedGroupsAreEnded(list, ops);
    LastFlag(srvr.flags);
    var g := FirstBestMeaning(lim, clnt, Groups(srvr));
    forall c ensures c in srvr.ciphers <==> exists h :: 0 <= h < |Groups(srvr)| && c in Groups(srvr)[h] {
      EndedListIsAllGroups(srvr, c);
    }
  }

  lemma BestRankOfOne(lim: Limits, allow: seq<Cipher>, c: Cipher)
    ensures BestRank(lim, allow, [c]) == Rank(lim, allow, c)
  {
    assert [c][..0] == [] && BestRank(lim, allow, []) == None;
  }

  lemma UngroupedSplits(clnt: seq<Cipher>)
    requires clnt != []
    ensures Groups(Ungrouped(clnt)) == [[clnt[0]]] + Groups(Ungrouped(clnt[1..]))
  {
    var prefs := Ungrouped(clnt);
    GroupsUnfold(prefs.ciphers, prefs.flags, 0);
    hide Groups;
    assert Preferences(prefs.ciphers[1..], prefs.flags[1..]) == Ungrouped(clnt[1..]);
    assert clnt[..1] == [clnt[0]];
  }

  /** Rank r is that of the first cipher of clnt which can be used at all. */
  ghost predicate IsFirstUsable(lim: Limits, allow: seq<Cipher>, clnt: seq<Cipher>, r: Option<nat>, i: nat) {
    && i < |clnt| && r == Rank(lim, allow, clnt[i])
    && forall h | 0 <= h < i :: !(Usable(lim, clnt[h]) && clnt[h] in allow)
  }

  lemma UsableLater(lim: Limits, allow: seq<Cipher>, clnt: seq<Cipher>, r: Option<nat>, i: nat)
    requires clnt != [] && IsFirstUsable(lim, allow, clnt[1..], r, i)
    requires !(Usable(lim, clnt[0]) && clnt[0] in allow)
    ensures IsFirstUsable(lim, allow, clnt, r, i + 1)
  {
    hide Rank, Usable;
    forall h | 0 <= h < i + 1 ensures !(Usable(lim, clnt[h]) && clnt[h] in allow) {
      assert h > 0 ==> clnt[h] == clnt[1..][h - 1];
    }
  }

  lemma RankMeansUsable(lim: Limits, allow: seq<Cipher>, c: Cipher)
    ensures Rank(lim, allow, c).Some? <==> Usable(lim, c) && c in allow
  {
    hide Usable;
    if c in allow {
      var j :| 0 <= j < |allow| && allow[j] == c;
      assert !(j < IndexOf(allow, c));
    }
  }

  /** In the client's order the choice is the client's first usable cipher that the server lists. */
  lemma {:induction false} ClientOrderDecides(lim: Limits, allow: seq<Cipher>, clnt: seq<Cipher>)
    ensures var r := FirstBest(lim, allow, Groups(Ungrouped(clnt)));
            if r.Some? then exists i :: IsFirstUsable(lim, allow, clnt, r, i)
            else forall c | c in clnt :: !(Usable(lim, c) && c in allow)
    decreases |clnt|
  {
    if clnt == [] {
      NoGroups(lim, allow, Ungrouped(clnt));
    } else {
      hide Groups, BestRank, FirstBest, Rank, Usable;
      UngroupedSplits(clnt);
      FirstBestStep(lim, allow, [clnt[0]], Groups(Ungrouped(clnt[1..])));
      BestRankOfOne(lim, allow, clnt[0]);
      RankMeansUsable(lim, allow, clnt[0]);
      ClientOrderDecides(lim, allow, clnt[1..]);
      var r := FirstBest(lim, allow, Groups(Ungrouped(clnt)));
      if Rank(lim, allow, clnt[0]).Some? {
        assert IsFirstUsable(lim, allow, clnt, r, 0);
      } else if r.Some? {
        var i :| IsFirstUsable(lim, allow, clnt[1..], r, i);
        UsableLater(lim, allow, clnt, r, i);
      }
    }
  }

  /** A cipher is usable from the version on that it needs, with a key exchange and a certificate that are there. */
  lemma UsableMeans(lim: Limits, c: Cipher)
    ensures Usable(lim, c)
            <==> lim.version >= (if c.defaultPrf then SSL3_VERSION else TLS1_2_VERSION)
                 && Overlap(c.mkey, lim.maskK) && Overlap(c.auth, lim.maskA)
  {
    hide Overlap, Meets;
    OverlapIff(c.mkey, lim.maskK);
    OverlapIff(c.auth, lim.maskA);
  }
}
