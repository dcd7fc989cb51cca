/**
  What the cipher rules of ssl_cipher.c do to the preference list, said on sequences.  The linked
  list that does it in place is in cipher_list.dfy.
 */
module CipherRules {

  /** The fields of SSL_CIPHER that rules and selection look at. */
  datatype Cipher = Cipher(id: bv32, mkey: bv32, auth: bv32, enc: bv32, mac: bv32, defaultPrf: bool)

  const ENC_3DES: bv32 := 0x001
  const ENC_RC4: bv32 := 0x002
  const ENC_AES128: bv32 := 0x004
  const ENC_AES256: bv32 := 0x008
  const ENC_AES128GCM: bv32 := 0x010
  const ENC_AES256GCM: bv32 := 0x020
  const ENC_CHACHA20_OLD: bv32 := 0x040
  const ENC_CHACHA20: bv32 := 0x100

  const SSL3_VERSION: nat := 0x0300
  const TLS1_2_VERSION: nat := 0x0303

  /** SSL_CIPHER_get_bits */
  function StrengthBits(c: Cipher): nat {
    if c.enc == ENC_AES128 || c.enc == ENC_AES128GCM || c.enc == ENC_RC4 then 128
    else if c.enc == ENC_AES256 || c.enc == ENC_AES256GCM || c.enc == ENC_CHACHA20_OLD
            || c.enc == ENC_CHACHA20 then 256
    else if c.enc == ENC_3DES then 112
    else 0
  }

  /** SSL_CIPHER_get_min_version */
  function MinVersion(c: Cipher): nat { if c.defaultPrf then SSL3_VERSION else TLS1_2_VERSION }

  /** The selection parameters of ssl_cipher_apply_rule. */
  datatype Selection = Selection(cipherId: bv32, mkey: bv32, auth: bv32, enc: bv32, mac: bv32,
                                 minVersion: nat, strengthBits: int)

  predicate Meets(m: bv32, n: bv32) { m & n != 0 }

  predicate Selects(sel: Selection, c: Cipher) {
    if sel.cipherId != 0 then sel.cipherId == c.id
    else if sel.strengthBits >= 0 then sel.strengthBits == StrengthBits(c)
    else
      && Meets(sel.mkey, c.mkey) && Meets(sel.auth, c.auth) && Meets(sel.enc, c.enc) && Meets(sel.mac, c.mac)
      && (sel.minVersion == 0 || MinVersion(c) == sel.minVersion)
  }

  /** The early return of ssl_cipher_apply_rule. */
  predicate SelectsNothing(sel: Selection) {
    && sel.cipherId == 0 && sel.strengthBits == -1 && sel.minVersion == 0
    && (sel.mkey == 0 || sel.auth == 0 || sel.enc == 0 || sel.mac == 0)
  }

  datatype Rule = Add | Order | Delete | Kill

  datatype Entry = Entry(cipher: Cipher, active: bool, inGroup: bool)

  /** The entries a rule moves (or, for Kill, removes). */
  predicate Hit(rule: Rule, sel: Selection, e: Entry) {
    && Selects(sel, e.cipher)
    && match rule
       case Add => !e.active
       case Order => e.active
       case Delete => e.active
       case Kill => true
  }

  /** An entry after it has been moved. */
  function Marked(rule: Rule, inGroup: bool, e: Entry): Entry {
    match rule
    case Add => e.(active := true, inGroup := inGroup)
    case Order => e.(inGroup := false)
    case Delete => e.(active := false, inGroup := false)
    case Kill => e.(active := false)
  }

  /** The elements of s whose flag is `want`, in order. */
  function Pick<T>(s: seq<T>, hit: seq<bool>, want: bool): (r: seq<T>)
    requires |hit| == |s|
    ensures |r| <= |s|
    ensures forall x | x in r :: x in s
  {
    if s == [] then []
    else
      var rest := Pick(s[..|s| - 1], hit[..|s| - 1], want);
      if hit[|s| - 1] == want then rest + [s[|s| - 1]] else rest
  }

  lemma PickStep<T>(s: seq<T>, hit: seq<bool>, i: nat, want: bool)
    requires |hit| == |s| && i < |s|
    ensures Pick(s[..i + 1], hit[..i + 1], want)
            == Pick(s[..i], hit[..i], want) + (if hit[i] == want then [s[i]] else [])
  {
    assert s[..i + 1][..i] == s[..i] && hit[..i + 1][..i] == hit[..i];
  }

  function Without<T>(s: seq<T>, k: nat): seq<T>
    requires k < |s|
  {
    s[..k] + s[k + 1..]
  }

  /** The list when a walk towards the tail has passed the first i elements of s. */
  function Forward<T>(s: seq<T>, hit: seq<bool>, i: nat, drop: bool): (r: seq<T>)
    requires |hit| == |s| && i <= |s|
    ensures forall x | x in r :: x in s
  {
    Pick(s[..i], hit[..i], false) + s[i..] + (if drop then [] else Pick(s[..i], hit[..i], true))
  }

  lemma ForwardStart<T>(s: seq<T>, hit: seq<bool>, drop: bool)
    requires |hit| == |s|
    ensures Forward(s, hit, 0, drop) == s
  {
  }

  /** a: kept, x: at hand, b: ahead, c: moved to the tail. */
  lemma ForwardMove<T>(a: seq<T>, x: T, b: seq<T>, c: seq<T>)
    ensures var r := a + ([x] + b) + c;
            && |a| < |r| && r[|a|] == x && (|b| > 0 ==> r[|a| + 1] == b[0])
            && r == (a + [x]) + b + c && Without(r, |a|) == a + b + c
            && Without(r, |a|) + [x] == a + b + (c + [x])
  {
  }

  lemma ForwardStep<T>(s: seq<T>, hit: seq<bool>, i: nat, drop: bool)
    requires |hit| == |s| && i < |s|
    ensures var k, r := |Pick(s[..i], hit[..i], false)|, Forward(s, hit, i, drop);
            && k < |r| && r[k] == s[i] && (i + 1 < |s| ==> k + 1 < |r| && r[k + 1] == s[i + 1])
            && Forward(s, hit, i + 1, drop) ==
               if !hit[i] then r else Without(r, k) + (if drop then [] else [s[i]])
  {
    PickStep(s, hit, i, false);
    PickStep(s, hit, i, true);
    hide Pick, Without;
    var kept, gone := Pick(s[..i], hit[..i], false), Pick(s[..i], hit[..i], true);
    var c := if drop then [] else gone;
    assert s[i..] == [s[i]] + s[i + 1..];
    ForwardMove(kept, s[i], s[i + 1..], c);
    assert kept + [] == kept && gone + [] == gone;
  }

  /** The list when a walk towards the head has passed all but the first i elements of s. */
  function Backward<T>(s: seq<T>, hit: seq<bool>, i: nat): (r: seq<T>)
    requires |hit| == |s| && i <= |s|
    ensures forall x | x in r :: x in s
  {
    Pick(s[i..], hit[i..], true) + s[..i] + Pick(s[i..], hit[i..], false)
  }

  lemma {:induction false} PickFirst<T>(s: seq<T>, hit: seq<bool>, want: bool)
    requires |hit| == |s| > 0
    ensures Pick(s, hit, want) == (if hit[0] == want then [s[0]] else []) + Pick(s[1..], hit[1..], want)
  {
    var n := |s| - 1;
    if n > 0 {
      PickFirst(s[..n], hit[..n], want);
      assert s[..n][1..] == s[1..][..n - 1] && hit[..n][1..] == hit[1..][..n - 1];
    }
  }

  lemma BackwardStart<T>(s: seq<T>, hit: seq<bool>)
    requires |hit| == |s|
    ensures Backward(s, hit, |s|) == s
  {
  }

  /** p: moved to the head, a: ahead, x: at hand, q: kept. */
  lemma BackwardMove<T>(p: seq<T>, a: seq<T>, x: T, q: seq<T>)
    ensures var r, k := p + (a + [x]) + q, |p| + |a|;
            && k < |r| && r[k] == x && (|a| > 0 ==> r[k - 1] == a[|a| - 1])
            && r == p + a + ([x] + q) && Without(r, k) == p + a + q
            && [x] + Without(r, k) == ([x] + p) + a + q
  {
  }

  lemma BackwardStep<T>(s: seq<T>, hit: seq<bool>, i: nat)
    requires |hit| == |s| && i < |s|
    ensures var k, r := |Pick(s[i + 1..], hit[i + 1..], true)| + i, Backward(s, hit, i + 1);
            && k < |r| && r[k] == s[i] && (i > 0 ==> 0 < k && r[k - 1] == s[i - 1])
            && Backward(s, hit, i) == if !hit[i] then r else [s[i]] + Without(r, k)
  {
    PickFirst(s[i..], hit[i..], true);
    PickFirst(s[i..], hit[i..], false);
    hide Pick, Without;
    var p, q := Pick(s[i + 1..], hit[i + 1..], true), Pick(s[i + 1..], hit[i + 1..], false);
    assert s[i..][1..] == s[i + 1..] && hit[i..][1..] == hit[i + 1..];
    assert s[..i + 1] == s[..i] + [s[i]];
    BackwardMove(p, s[..i], s[i], q);
    assert [] + p == p && [] + q == q;
  }

  function Map(f: Entry -> Entry, s: seq<Entry>): (r: seq<Entry>)
    ensures |r| == |s| && forall i | 0 <= i < |s| :: r[i] == f(s[i])
  {
    seq(|s|, i requires 0 <= i < |s| => f(s[i]))
  }

  function Hits(rule: Rule, sel: Selection, list: seq<Entry>): (r: seq<bool>)
    ensures |r| == |list| && forall i | 0 <= i < |list| :: r[i] == Hit(rule, sel, list[i])
  {
    seq(|list|, i requires 0 <= i < |list| => Hit(rule, sel, list[i]))
  }

  /**
    A rule splits the list into the entries it hits and the others, each in their old order: Add
    and Order put the hit ones last, Delete puts them first, Kill drops them.
   */
  function ApplyRule(rule: Rule, sel: Selection, inGroup: bool, list: seq<Entry>): seq<Entry> {
    var hits := Hits(rule, sel, list);
    var hit := Map(e => Marked(rule, inGroup, e), Pick(list, hits, true));
    var others := Pick(list, hits, false);
    match rule
    case Add => others + hit
    case Order => others + hit
    case Delete => hit + others
    case Kill => others
  }

  /** The early return changes nothing that the loop would have changed. */
  lemma NothingSelected(rule: Rule, sel: Selection, inGroup: bool, list: seq<Entry>)
    requires SelectsNothing(sel)
    ensures ApplyRule(rule, sel, inGroup, list) == list
  {
    var hits := Hits(rule, sel, list);
    assert forall c: Cipher :: !Selects(sel, c);
    PickNone(list, hits);
  }

  lemma {:induction false} PickNone<T>(s: seq<T>, hit: seq<bool>)
    requires |hit| == |s| && forall i | 0 <= i < |s| :: !hit[i]
    ensures Pick(s, hit, false) == s && Pick(s, hit, true) == []
  {
    if s != [] {
      PickNone(s[..|s| - 1], hit[..|s| - 1]);
    }
  }
}
