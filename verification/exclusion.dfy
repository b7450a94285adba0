/** `is_excluded`: the operator's exclusion rules are case-insensitive
    substring patterns; a rule also matches with its colons removed, so a
    colon-separated hardware address rule covers the compact form too. */
module Exclusion {
  import opened Text
  import opened Ident

  /** One rule against one candidate: the lower-cased rule, or the
      lower-cased rule without its colons, occurs in the lower-cased
      candidate. The candidate keeps its colons. */
  predicate RuleMatches(rule: string, what: string) {
    var skip := Lower(rule);
    var w := Lower(what);
    Contains(w, skip) || Contains(w, RemoveChar(skip, ':'))
  }

  /** The rule loop, stopping at the first rule that matches. */
  function IsExcluded(rules: seq<string>, what: string): (b: bool)
    ensures b <==> exists k :: 0 <= k < |rules| && RuleMatches(rules[k], what)
  {
    if |rules| == 0 then false
    else if RuleMatches(rules[0], what) then true
    else
      var rest := IsExcluded(rules[1..], what);
      assert forall k :: 1 <= k < |rules| ==> rules[k] == rules[1..][k - 1];
      rest
  }

  /** The verdict for a rule list is the verdict of either part. */
  lemma {:induction false} ExcludedAppend(r1: seq<string>, r2: seq<string>, what: string)
    ensures IsExcluded(r1 + r2, what) <==> IsExcluded(r1, what) || IsExcluded(r2, what)
  {
    if IsExcluded(r1 + r2, what) {
      var k :| 0 <= k < |r1 + r2| && RuleMatches((r1 + r2)[k], what);
      if k < |r1| {
        assert RuleMatches(r1[k], what);
      } else {
        assert RuleMatches(r2[k - |r1|], what);
      }
    }
    if IsExcluded(r1, what) {
      var k :| 0 <= k < |r1| && RuleMatches(r1[k], what);
      assert (r1 + r2)[k] == r1[k];
    }
    if IsExcluded(r2, what) {
      var k :| 0 <= k < |r2| && RuleMatches(r2[k], what);
      assert (r1 + r2)[|r1| + k] == r2[k];
    }
  }

  /** Candidates are compared lower-cased: lower-casing one first changes
      nothing. */
  lemma ExcludedIgnoresCase(rules: seq<string>, what: string)
    ensures IsExcluded(rules, Lower(what)) <==> IsExcluded(rules, what)
  {
    LowerIdempotent(what);
    assert forall k :: 0 <= k < |rules| ==>
      (RuleMatches(rules[k], Lower(what)) <==> RuleMatches(rules[k], what));
  }

  /** An excluded candidate stays excluded inside any longer candidate. */
  lemma ExcludedWithin(rules: seq<string>, a: string, what: string, b: string)
    requires IsExcluded(rules, what)
    ensures IsExcluded(rules, a + what + b)
  {
    var k :| 0 <= k < |rules| && RuleMatches(rules[k], what);
    var skip := Lower(rules[k]);
    LowerAppend(a, what);
    LowerAppend(a + what, b);
    if Contains(Lower(what), skip) {
      ContainsWithin(Lower(a), Lower(what), Lower(b), skip);
    } else {
      ContainsWithin(Lower(a), Lower(what), Lower(b), RemoveChar(skip, ':'));
    }
    assert RuleMatches(rules[k], a + what + b);
  }

  /** A rule excludes every candidate that equals it up to case, or up to
      case and the rule's colons. */
  lemma RuleExcludesItself(rules: seq<string>, k: nat, what: string)
    requires k < |rules|
    requires Lower(what) == Lower(rules[k]) || Lower(what) == RemoveChar(Lower(rules[k]), ':')
    ensures IsExcluded(rules, what)
  {
    ContainsSelf(Lower(what));
    assert RuleMatches(rules[k], what);
  }

  /** A rule that is empty once its colons are gone (`""`, `":"`, ...)
      excludes every candidate. */
  lemma BlankRuleExcludesAll(rules: seq<string>, k: nat, what: string)
    requires k < |rules| && RemoveChar(Lower(rules[k]), ':') == ""
    ensures IsExcluded(rules, what)
  {
    assert OccursAt(Lower(what), "", 0);
    assert RuleMatches(rules[k], what);
  }

  /** A hardware-address rule excludes that address in any letter case,
      both colon-separated and compact. */
  lemma AddressRuleCoversBothForms(rules: seq<string>, k: nat, compact: string, what: string)
    requires k < |rules| && ':' !in compact && |compact| % 2 == 0
    requires Lower(rules[k]) == Canonical(compact)
    requires Lower(what) == Canonical(compact) || Lower(what) == compact
    ensures IsExcluded(rules, what)
  {
    CanonicalUncolon(compact);
    assert compact[..|compact|] == compact;
    RuleExcludesItself(rules, k, what);
  }

  /** The rule `AA:BB:CC:DD:EE:FF` excludes both `aa:bb:cc:dd:ee:ff` and
      `aabbccddeeff`. */
  lemma MacRuleExample(what: string)
    requires what == "aa:bb:cc:dd:ee:ff" || what == "aabbccddeeff"
    ensures IsExcluded(["AA:BB:CC:DD:EE:FF"], what)
  {
    LowerExamples();
    CanonicalExample();
    assert ':' !in "aabbccddeeff";
    AddressRuleCoversBothForms(["AA:BB:CC:DD:EE:FF"], 0, "aabbccddeeff", what);
  }

  /** The candidate is never stripped of its colons: a compact rule does not
      exclude the colon-separated address. */
  lemma CompactRuleExample()
    ensures !IsExcluded(["aabbccddeeff"], "aa:bb:cc:dd:ee:ff")
  {
    LowerExamples();
    RemoveCharAbsent("aabbccddeeff", ':');
    CompactNotInColonForm();
  }

  lemma LowerExamples()
    ensures Lower("AA:BB:CC:DD:EE:FF") == "aa:bb:cc:dd:ee:ff"
    ensures Lower("aa:bb:cc:dd:ee:ff") == "aa:bb:cc:dd:ee:ff"
    ensures Lower("aabbccddeeff") == "aabbccddeeff"
  {
  }

  lemma CompactNotInColonForm()
    ensures !Contains("aa:bb:cc:dd:ee:ff", "aabbccddeeff")
  {
    var w := "aa:bb:cc:dd:ee:ff";
    var skip := "aabbccddeeff";
    forall i | 0 <= i <= |w| - |skip|
      ensures !OccursAt(w, skip, i)
    {
      assert w[i..i + |skip|][5 - i] == w[5] == ':';
    }
  }
}
