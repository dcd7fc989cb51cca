/**
  What the rules of a cipher string come to (ssl_cipher_apply_rule and ssl_cipher_process_rulestr in
  3rdparty/boringssl/ssl/ssl_cipher.c): which ciphers are on offer afterwards, and in which order.
 */
module CipherEffects {
  import opened CipherRules
  import opened CipherSort
  import opened CipherGroups

  /** The enabled (or disabled) ciphers that a rule selects, and those it does not. */
  function Chosen(sel: Selection, on: bool): Entry -> bool { (e: Entry) => e.active == on && Selects(sel, e.cipher) }

  function Spared(sel: Selection, on: bool): Entry -> bool { (e: Entry) => e.active == on && !Selects(sel, e.cipher) }

  /** The same ciphers, all with the same flags. */
  function As(list: seq<Entry>, on: bool, inGroup: bool): (r: seq<Entry>)
    ensures |r| == |list|
  {
    seq(|list|, i requires 0 <= i < |list| => Entry(list[i].cipher, on, inGroup))
  }

  function IsSpared(rule: Rule, sel: Selection): Entry -> bool { (e: Entry) => !Hit(rule, sel, e) }

  /** The enabled ones of a list to which some flags of a part have been written. */
  lemma EnabledOfAs(list: seq<Entry>, on: bool, inGroup: bool)
    ensures Actives(As(list, on, inGroup)) == (if on then As(list, on, inGroup) else [])
    ensures Inactives(As(list, on, inGroup)) == (if on then [] else As(list, on, inGroup))
  {
    var r := As(list, on, inGroup);
    if on {
      FilterAll(r, IsActive());
      FilterNone(r, IsIdle());
    } else {
      FilterNone(r, IsActive());
      FilterAll(r, IsIdle());
    }
  }

  lemma PartsOfSum(a: seq<Entry>, b: seq<Entry>)
    ensures Actives(a + b) == Actives(a) + Actives(b) && Inactives(a + b) == Inactives(a) + Inactives(b)
  {
    FilterConcat(a, b, IsActive());
    FilterConcat(a, b, IsIdle());
  }

  lemma PickedAreFilters(rule: Rule, sel: Selection, list: seq<Entry>)
    ensures Pick(list, Hits(rule, sel, list), true) == Filter(list, IsHit(rule, sel))
    ensures Pick(list, Hits(rule, sel, list), false) == Filter(list, IsSpared(rule, sel))
  {
    PickIsFilter(list, Hits(rule, sel, list), true, IsHit(rule, sel));
    PickIsFilter(list, Hits(rule, sel, list), false, IsSpared(rule, sel));
  }

  /** An addition enables what it selects, in the old order and behind what is enabled. */
  lemma AdditionEnables(sel: Selection, inGroup: bool, list: seq<Entry>)
    ensures var r := ApplyRule(Add, sel, inGroup, list);
            && Actives(r) == Actives(list) + As(Filter(list, Chosen(sel, false)), true, inGroup)
            && Inactives(r) == Filter(list, Spared(sel, false))
  {
    hide Filter, Pick, Selects;
    var hit, off := As(Filter(list, Chosen(sel, false)), true, inGroup), IsSpared(Add, sel);
    PickedAreFilters(Add, sel, list);
    FilterSame(list, IsHit(Add, sel), Chosen(sel, false));
    assert Map(e => Marked(Add, inGroup, e), Filter(list, IsHit(Add, sel))) == hit;
    PartsOfSum(Filter(list, off), hit);
    EnabledOfAs(Filter(list, Chosen(sel, false)), true, inGroup);
    FilterTwice(list, off, IsActive(), IsActive());
    FilterTwice(list, off, IsIdle(), Spared(sel, false));
  }

  /** Ordering moves the enabled ciphers it selects behind the others, and takes them out of groups. */
  lemma OrderMovesLast(sel: Selection, inGroup: bool, list: seq<Entry>)
    ensures var r := ApplyRule(Order, sel, inGroup, list);
            && Actives(r) == Filter(list, Spared(sel, true)) + As(Filter(list, Chosen(sel, true)), true, false)
            && Inactives(r) == Inactives(list)
  {
    hide Filter, Pick, Selects;
    var hit, off := As(Filter(list, Chosen(sel, true)), true, false), IsSpared(Order, sel);
    PickedAreFilters(Order, sel, list);
    FilterSame(list, IsHit(Order, sel), Chosen(sel, true));
    assert forall e | e in Filter(list, Chosen(sel, true)) :: e.active;
    assert Map(e => Marked(Order, inGroup, e), Filter(list, IsHit(Order, sel))) == hit;
    PartsOfSum(Filter(list, off), hit);
    EnabledOfAs(Filter(list, Chosen(sel, true)), true, false);
    FilterTwice(list, off, IsActive(), Spared(sel, true));
    FilterTwice(list, off, IsIdle(), IsIdle());
  }

  /**
    A deletion disables the enabled ciphers it selects, takes them out of groups, and keeps them, in
    their old order, before those that were disabled already, so that they come first when added again.
   */
  lemma DeletionDisables(sel: Selection, inGroup: bool, list: seq<Entry>)
    ensures var r := ApplyRule(Delete, sel, inGroup, list);
            && Actives(r) == Filter(list, Spared(sel, true))
            && Inactives(r) == As(Filter(list, Chosen(sel, true)), false, false) + Inactives(list)
  {
    hide Filter, Pick, Selects;
    var hit, off := As(Filter(list, Chosen(sel, true)), false, false), IsSpared(Delete, sel);
    PickedAreFilters(Delete, sel, list);
    FilterSame(list, IsHit(Delete, sel), Chosen(sel, true));
    assert Map(e => Marked(Delete, inGroup, e), Filter(list, IsHit(Delete, sel))) == hit;
    PartsOfSum(hit, Filter(list, off));
    EnabledOfAs(Filter(list, Chosen(sel, true)), false, false);
    FilterTwice(list, off, IsActive(), Spared(sel, true));
    FilterTwice(list, off, IsIdle(), IsIdle());
  }

  /** A kill drops what it selects, enabled or not. */
  lemma KillDrops(sel: Selection, inGroup: bool, list: seq<Entry>)
    ensures var r := ApplyRule(Kill, sel, inGroup, list);
            Actives(r) == Filter(list, Spared(sel, true)) && Inactives(r) == Filter(list, Spared(sel, false))
  {
    hide Filter, Pick, Selects;
    var off := IsSpared(Kill, sel);
    PickedAreFilters(Kill, sel, list);
    FilterTwice(list, off, IsActive(), Spared(sel, true));
    FilterTwice(list, off, IsIdle(), Spared(sel, false));
  }

  // ---------------------------------------------------------------- whole rule strings

  /** The ciphers a list holds, and those of them that are enabled. */
  datatype Stock = Stock(known: set<Cipher>, enabled: set<Cipher>)

  function StockOf(list: seq<Entry>): Stock {
    Stock(set e | e in list :: e.cipher, set e | e in list && e.active :: e.cipher)
  }

  function Select(sel: Selection, ciphers: set<Cipher>): set<Cipher> { set c | c in ciphers && Selects(sel, c) }

  /** What an element of a rule string means, order aside. */
  function Effect(s: Stock, op: Op): Stock {
    match op
    case Apply(Add, sel) => s.(enabled := s.enabled + Select(sel, s.known))
    case Apply(Delete, sel) => s.(enabled := s.enabled - Select(sel, s.known))
    case Apply(Kill, sel) => Stock(s.known - Select(sel, s.known), s.enabled - Select(sel, s.known))
    case _ => s
  }

  function Effects(s: Stock, ops: seq<Op>): Stock {
    if ops == [] then s else Effect(Effects(s, ops[..|ops| - 1]), ops[|ops| - 1])
  }

  lemma {:induction false} FilterTells(list: seq<Entry>, p: Entry -> bool, e: Entry)
    ensures e in Filter(list, p) <==> e in list && p(e)
  {
    if list != [] {
      FilterTells(list[..|list| - 1], p, e);
    }
  }

  predicate Has(list: seq<Entry>, c: Cipher) { exists e :: e in list && e.cipher == c }

  lemma HasSum(a: seq<Entry>, b: seq<Entry>, c: Cipher)
    ensures Has(a + b, c) <==> Has(a, c) || Has(b, c)
  {
    assert forall e :: e in a + b <==> e in a || e in b;
  }

  lemma HasAs(list: seq<Entry>, on: bool, inGroup: bool, c: Cipher)
    ensures Has(As(list, on, inGroup), c) <==> Has(list, c)
  {
    var r := As(list, on, inGroup);
    if Has(list, c) {
      var e :| e in list && e.cipher == c;
      var i :| 0 <= i < |list| && list[i] == e;
      assert r[i] in r;
    }
    if Has(r, c) {
      var x :| x in r && x.cipher == c;
      var i :| 0 <= i < |r| && r[i] == x;
      assert list[i] in list;
    }
  }

  /** The entries that are enabled, or those that are not. */
  function Part(list: seq<Entry>, on: bool): seq<Entry> { if on then Actives(list) else Inactives(list) }

  lemma PartTells(list: seq<Entry>, on: bool, e: Entry)
    ensures e in Part(list, on) <==> e in list && e.active == on
  {
    FilterTells(list, IsActive(), e);
    FilterTells(list, IsIdle(), e);
  }

  lemma HasChosen(list: seq<Entry>, sel: Selection, on: bool, c: Cipher)
    ensures Has(Filter(list, Chosen(sel, on)), c) <==> Has(Part(list, on), c) && Selects(sel, c)
    ensures Has(Filter(list, Spared(sel, on)), c) <==> Has(Part(list, on), c) && !Selects(sel, c)
  {
    hide Filter, Part, Selects;
    forall e ensures e in Filter(list, Chosen(sel, on)) <==> e in Part(list, on) && Selects(sel, e.cipher) {
      PartTells(list, on, e);
      FilterTells(list, Chosen(sel, on), e);
    }
    forall e ensures e in Filter(list, Spared(sel, on)) <==> e in Part(list, on) && !Selects(sel, e.cipher) {
      PartTells(list, on, e);
      FilterTells(list, Spared(sel, on), e);
    }
  }

  lemma InStock(list: seq<Entry>, c: Cipher)
    ensures c in StockOf(list).enabled <==> Has(Part(list, true), c)
    ensures c in StockOf(list).known <==> Has(Part(list, true), c) || Has(Part(list, false), c)
  {
    hide Part;
    forall e ensures e in list <==> e in Part(list, true) || e in Part(list, false) {
      PartTells(list, true, e);
      PartTells(list, false, e);
    }
    forall e ensures e in Part(list, true) <==> e in list && e.active {
      PartTells(list, true, e);
    }
  }

  /** A rule has its effect on the stock, whatever the order of the list. */
  lemma RuleHasEffect(rule: Rule, sel: Selection, inGroup: bool, list: seq<Entry>)
    ensures StockOf(ApplyRule(rule, sel, inGroup, list)) == Effect(StockOf(list), Apply(rule, sel))
  {
    var r, s1 := ApplyRule(rule, sel, inGroup, list), Effect(StockOf(list), Apply(rule, sel));
    AdditionEnables(sel, inGroup, list);
    OrderMovesLast(sel, inGroup, list);
    DeletionDisables(sel, inGroup, list);
    KillDrops(sel, inGroup, list);
    hide ApplyRule, Filter, StockOf, Has, Selects, As;
    forall c ensures (c in StockOf(r).enabled <==> c in s1.enabled) && (c in StockOf(r).known <==> c in s1.known) {
      InStock(list, c);
      InStock(r, c);
      HasChosen(list, sel, true, c);
      HasChosen(list, sel, false, c);
      var on, off := Filter(list, Chosen(sel, true)), Filter(list, Chosen(sel, false));
      HasAs(off, true, inGroup, c);
      HasAs(on, true, false, c);
      HasAs(on, false, false, c);
      HasSum(Actives(list), As(off, true, inGroup), c);
      HasSum(Filter(list, Spared(sel, true)), As(on, true, false), c);
      HasSum(As(on, false, false), Inactives(list), c);
    }
    assert StockOf(r).enabled == s1.enabled && StockOf(r).known == s1.known;
  }

  lemma {:induction false} SortHasNoEffect(list: seq<Entry>, orig: seq<Entry>, count: nat)
    ensures StockOf(SortBelow(list, orig, count)) == StockOf(list)
    decreases count
  {
    hide StockOf, ApplyRule;
    if count > 0 {
      RuleHasEffect(Order, ByStrength(count - 1), false, list);
      var list1 := if Uses(orig, count - 1) > 0
                   then ApplyRule(Order, ByStrength(count - 1), false, list) else list;
      SortHasNoEffect(list1, orig, count - 1);
    }
  }

  lemma EndGroupHasNoEffect(list: seq<Entry>)
    ensures StockOf(EndGroup(list)) == StockOf(list)
  {
    if list != [] {
      var n := |list| - 1;
      StockOfSum(list[..n], [list[n]]);
      StockOfSum(list[..n], [list[n].(inGroup := false)]);
      assert list == list[..n] + [list[n]];
    }
  }

  lemma StockOfSum(a: seq<Entry>, b: seq<Entry>)
    ensures StockOf(a + b) == Stock(StockOf(a).known + StockOf(b).known, StockOf(a).enabled + StockOf(b).enabled)
  {
    assert forall e :: e in a + b <==> e in a || e in b;
  }

  /**
    Of every accepted rule string: the ciphers on offer at the end are those that its elements, one
    after the other, have enabled, disabled and killed; sorting and grouping neither add nor lose any.
   */
  lemma {:induction false} StringHasEffect(list: seq<Entry>, ops: seq<Op>)
    requires Steps(Begin(list), ops).ok
    ensures StockOf(Steps(Begin(list), ops).list) == Effects(StockOf(list), ops)
  {
    hide StockOf, ApplyRule, StrengthSort, EndGroup, Effect, MaxBits;
    if ops != [] {
      var n := |ops| - 1;
      var p := Steps(Begin(list), ops[..n]);
      StringHasEffect(list, ops[..n]);
      StepHasEffect(p, ops[n]);
    }
  }

  lemma StepHasEffect(p: Progress, op: Op)
    requires p.ok && Step(p, op).ok
    ensures StockOf(Step(p, op).list) == Effect(StockOf(p.list), op)
  {
    match op {
      case Apply(rule, sel) => RuleHasEffect(rule, sel, p.inGroup, p.list);
      case Strength => SortHasNoEffect(p.list, p.list, MaxBits(p.list) + 1);
      case Open =>
      case Close => EndGroupHasNoEffect(p.list);
    }
  }

  /** The ciphers that ssl_create_cipher_list takes out are the enabled ones. */
  lemma {:induction false} OfferIsEnabled(list: seq<Entry>, c: Cipher)
    ensures c in Extract(list).ciphers <==> c in StockOf(list).enabled
  {
    InStock(list, c);
    var a := Actives(list);
    assert forall i | 0 <= i < |a| :: a[i] in a && CiphersOf(a)[i] == a[i].cipher;
    if c in CiphersOf(a) {
      var i :| 0 <= i < |a| && CiphersOf(a)[i] == c;
      assert a[i] in a;
    }
    if Has(a, c) {
      var e :| e in a && e.cipher == c;
      var i :| 0 <= i < |a| && a[i] == e;
      assert CiphersOf(a)[i] == c;
    }
  }

  // ---------------------------------------------------------------- masks as sets of bits

  predicate HasBit(m: bv32, k: bv6)
    requires k < 32
  {
    (m >> k) & 1 == 1
  }

  /** Two masks have a bit in common. */
  ghost predicate Overlap(m: bv32, n: bv32) { exists k: bv6 :: k < 32 && HasBit(m, k) && HasBit(n, k) }

  /** Some bit of a mask that is not empty. */
  lemma SomeBit(x: bv32) returns (k: bv6)
    requires x != 0
    ensures k < 32 && HasBit(x, k)
  {
    var h: bv6 := if x & 0xFFFF != 0 then 0 else 16;
    var y := x >> h;
    assert y & 0xFFFF != 0;
    var i: bv6 := if y & 0xFF != 0 then 0 else 8;
    var z := y >> i;
    assert z & 0xFF != 0;
    k := SomeLowBit(z);
    assert (z >> k) & 1 == 1 && k < 8;
    ShiftsAdd(x, h, i, k);
    k := h + i + k;
  }

  lemma SomeLowBit(z: bv32) returns (k: bv6)
    requires z & 0xFF != 0
    ensures k < 8 && HasBit(z, k)
  {
    k := if z & 1 != 0 then 0 else if z & 2 != 0 then 1 else if z & 4 != 0 then 2 else if z & 8 != 0 then 3
         else if z & 16 != 0 then 4 else if z & 32 != 0 then 5 else if z & 64 != 0 then 6 else 7;
  }

  lemma ShiftsAdd(x: bv32, h: bv6, i: bv6, k: bv6)
    requires (h == 0 || h == 16) && (i == 0 || i == 8) && k < 8
    ensures ((x >> h) >> i) >> k == x >> (h + i + k) && h + i + k < 32
  {
  }

  lemma BothBits(m: bv32, n: bv32, k: bv6)
    requires k < 32
    ensures HasBit(m & n, k) <==> HasBit(m, k) && HasBit(n, k)
  {
  }

  lemma NoBits(k: bv6)
    requires k < 32
    ensures !HasBit(0, k)
  {
  }

  lemma OverlapIff(m: bv32, n: bv32)
    ensures Meets(m, n) <==> Overlap(m, n)
  {
    if m & n != 0 {
      var k := SomeBit(m & n);
      BothBits(m, n, k);
    }
    if Overlap(m, n) {
      var k: bv6 :| k < 32 && HasBit(m, k) && HasBit(n, k);
      BothBits(m, n, k);
      NoBits(k);
    }
  }

  /** What a selection selects: one cipher, those of one strength, or those that share a bit with every mask. */
  lemma SelectionMeans(sel: Selection, c: Cipher)
    ensures sel.cipherId != 0 ==> (Selects(sel, c) <==> c.id == sel.cipherId)
    ensures sel.cipherId == 0 && sel.strengthBits >= 0 ==> (Selects(sel, c) <==> StrengthBits(c) == sel.strengthBits)
    ensures sel.cipherId == 0 && sel.strengthBits < 0 ==>
              (Selects(sel, c) <==>
                 && Overlap(sel.mkey, c.mkey) && Overlap(sel.auth, c.auth)
                 && Overlap(sel.enc, c.enc) && Overlap(sel.mac, c.mac)
                 && (sel.minVersion != 0 ==> sel.minVersion == if c.defaultPrf then SSL3_VERSION else TLS1_2_VERSION))
  {
    hide Overlap, Meets;
    OverlapIff(sel.mkey, c.mkey);
    OverlapIff(sel.auth, c.auth);
    OverlapIff(sel.enc, c.enc);
    OverlapIff(sel.mac, c.mac);
  }
}
