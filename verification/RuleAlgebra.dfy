/** What adding a rule, an exception or a location does to the findings of a policy. */
module RuleAlgebra {
  import opened AppControl
  import opened AppControlTheorems

  /** Every hit of `f`, with its multiplicity, is a hit of `g`, and the unreadable rules are the same. */
  ghost predicate NoMoreHits(f: Findings, g: Findings) {
    && multiset(f.permitted) <= multiset(g.permitted)
    && multiset(f.adminScoped) <= multiset(g.adminScoped)
    && f.unreadable == g.unreadable
  }

  lemma MergeNoMore(f: Findings, g: Findings, h: Findings, k: Findings)
    requires NoMoreHits(f, g) && NoMoreHits(h, k)
    ensures NoMoreHits(Merge(f, h), Merge(g, k))
  {
  }

  lemma {:induction false} FewerLocationHits(m: Matcher, ctype: string, r: PathRule, t: PathRule, more: seq<string>,
                                             fewer: seq<string>,
                                             ls: seq<Probe>)
    requires forall d :: d in fewer ==> d in more
    requires t == r.(exceptions := t.exceptions)
    requires forall e :: e in r.exceptions ==> e in t.exceptions
    ensures multiset(LocationHits(m, ctype, t, more, ls)) <= multiset(LocationHits(m, ctype, r, fewer, ls))
  {
    if ls != [] {
      var n := |ls| - 1;
      FewerLocationHits(m, ctype, r, t, more, fewer, ls[..n]);
      PermitsLess(m, r, t, more, fewer, ls[n].path);
    }
  }

  lemma PermitsLess(m: Matcher, r: PathRule, t: PathRule, more: seq<string>, fewer: seq<string>, location: string)
    requires forall d :: d in fewer ==> d in more
    requires t == r.(exceptions := t.exceptions)
    requires forall e :: e in r.exceptions ==> e in t.exceptions
    ensures Permits(m, t, more, location) ==> Permits(m, r, fewer, location)
  {
    ContainsAnyGrows(m, fewer, more, location);
    NonBlankExact(r.exceptions);
    NonBlankExact(t.exceptions);
    ContainsAnyGrows(m, NonBlank(r.exceptions), NonBlank(t.exceptions), location);
  }

  lemma ContainsAnyGrows(m: Matcher, fewer: seq<string>, more: seq<string>, location: string)
    requires forall d :: d in fewer ==> d in more
    ensures ContainsAny(m, fewer, location) ==> ContainsAny(m, more, location)
  {
  }

  lemma FiledNoMore(ctype: string, r: PathRule, t: PathRule, more: seq<Hit>, fewer: seq<Hit>, aside: bool)
    requires t == r.(exceptions := t.exceptions) && multiset(fewer) <= multiset(more)
    ensures NoMoreHits(Filed(ctype, t, fewer, aside), Filed(ctype, r, more, aside))
  {
  }

  lemma FewerRuleHits(m: Matcher, ctype: string, r: PathRule, t: PathRule, more: seq<string>, fewer: seq<string>,
                      ls: seq<Probe>, failOnAdmin: bool)
    requires forall d :: d in fewer ==> d in more
    requires t == r.(exceptions := t.exceptions)
    requires forall e :: e in r.exceptions ==> e in t.exceptions
    ensures NoMoreHits(RuleFindings(m, ctype, t, more, ls, failOnAdmin),
                       RuleFindings(m, ctype, r, fewer, ls, failOnAdmin))
  {
    FewerLocationHits(m, ctype, r, t, more, fewer, ls);
    FiledNoMore(ctype, r, t, LocationHits(m, ctype, r, fewer, ls), LocationHits(m, ctype, t, more, ls),
                m.isAdmin(r.sid) && !failOnAdmin);
  }

  lemma {:induction false} FewerRulesHits(m: Matcher, ctype: string, rules: seq<PathRule>, more: seq<string>,
                                          fewer: seq<string>,
                                          ls: seq<Probe>, failOnAdmin: bool)
    requires forall d :: d in fewer ==> d in more
    ensures NoMoreHits(RulesFindings(m, ctype, rules, more, ls, failOnAdmin),
                       RulesFindings(m, ctype, rules, fewer, ls, failOnAdmin))
  {
    if rules != [] {
      var n := |rules| - 1;
      FewerRulesHits(m, ctype, rules[..n], more, fewer, ls, failOnAdmin);
      FewerRuleHits(m, ctype, rules[n], rules[n], more, fewer, ls, failOnAdmin);
    }
  }

  lemma {:induction false} RulesFindingsAppend(m: Matcher, ctype: string, a: seq<PathRule>, b: seq<PathRule>,
                                               denies: seq<string>,
                                               ls: seq<Probe>, failOnAdmin: bool)
    ensures RulesFindings(m, ctype, a + b, denies, ls, failOnAdmin)
         == Merge(RulesFindings(m, ctype, a, denies, ls, failOnAdmin),
                  RulesFindings(m, ctype, b, denies, ls, failOnAdmin))
  {
    if b == [] {
      assert a + b == a;
    } else {
      var n := |b| - 1;
      assert (a + b)[..|a + b| - 1] == a + b[..n];
      RulesFindingsAppend(m, ctype, a, b[..n], denies, ls, failOnAdmin);
      MergeAssociates(RulesFindings(m, ctype, a, denies, ls, failOnAdmin),
                      RulesFindings(m, ctype, b[..n], denies, ls, failOnAdmin),
                      RuleFindings(m, ctype, b[n], denies, ls, failOnAdmin));
    }
  }

  lemma {:induction false} AllFindingsAppend(m: Matcher, a: seq<Collection>, b: seq<Collection>, ls: seq<Probe>,
                                             failOnAdmin: bool)
    ensures AllFindings(m, a + b, ls, failOnAdmin)
         == Merge(AllFindings(m, a, ls, failOnAdmin), AllFindings(m, b, ls, failOnAdmin))
  {
    if b == [] {
      assert a + b == a;
    } else {
      var n := |b| - 1;
      assert (a + b)[..|a + b| - 1] == a + b[..n];
      AllFindingsAppend(m, a, b[..n], ls, failOnAdmin);
      MergeAssociates(AllFindings(m, a, ls, failOnAdmin), AllFindings(m, b[..n], ls, failOnAdmin),
                      CollectionFindings(m, b[n], ls, failOnAdmin));
    }
  }

  /** The findings of a policy are those before a collection, its own, and those after it. */
  lemma AllFindingsSplit(m: Matcher, cs: seq<Collection>, i: nat, ls: seq<Probe>, failOnAdmin: bool)
    requires i < |cs|
    ensures AllFindings(m, cs, ls, failOnAdmin)
         == Merge(Merge(AllFindings(m, cs[..i], ls, failOnAdmin), CollectionFindings(m, cs[i], ls, failOnAdmin)),
                  AllFindings(m, cs[i + 1..], ls, failOnAdmin))
  {
    assert cs == cs[..i + 1] + cs[i + 1..] && cs[..i + 1][..i] == cs[..i];
    AllFindingsAppend(m, cs[..i + 1], cs[i + 1..], ls, failOnAdmin);
  }

  /** Changing one collection changes the findings of no other. */
  lemma OnlyThatCollection(m: Matcher, cs: seq<Collection>, i: nat, c: Collection, ls: seq<Probe>, failOnAdmin: bool)
    requires i < |cs|
    ensures DifferOnlyAt(m, cs, cs[i := c], i, ls, failOnAdmin)
  {
    AllFindingsSplit(m, cs, i, ls, failOnAdmin);
    AllFindingsSplit(m, cs[i := c], i, ls, failOnAdmin);
    assert cs[i := c][..i] == cs[..i] && cs[i := c][i + 1..] == cs[i + 1..];
  }

  lemma NoMoreHitsItself(f: Findings)
    ensures NoMoreHits(f, f)
  {
  }

  /** So fewer hits in one collection are fewer hits in all. */
  lemma OnlyItsOwnCollection(m: Matcher, cs: seq<Collection>, i: nat, c: Collection, ls: seq<Probe>, failOnAdmin: bool)
    requires i < |cs|
    requires NoMoreHits(CollectionFindings(m, c, ls, failOnAdmin), CollectionFindings(m, cs[i], ls, failOnAdmin))
    ensures NoMoreHits(AllFindings(m, cs[i := c], ls, failOnAdmin), AllFindings(m, cs, ls, failOnAdmin))
    ensures DifferOnlyAt(m, cs, cs[i := c], i, ls, failOnAdmin)
  {
    var before, after := AllFindings(m, cs[..i], ls, failOnAdmin), AllFindings(m, cs[i + 1..], ls, failOnAdmin);
    var old_, new_ := CollectionFindings(m, cs[i], ls, failOnAdmin), CollectionFindings(m, c, ls, failOnAdmin);
    OnlyThatCollection(m, cs, i, c, ls, failOnAdmin);
    NoMoreHitsItself(before);
    NoMoreHitsItself(after);
    MergeNoMore(before, before, new_, old_);
    MergeNoMore(Merge(before, new_), Merge(before, old_), after, after);
  }

  function WithRule(c: Collection, n: nat, r: PathRule): Collection
    requires n <= |c.rules|
  {
    c.(rules := c.rules[..n] + [r] + c.rules[n..])
  }

  lemma {:induction false} GatherExact(rules: seq<PathRule>, patterns: PathRule -> seq<string>, p: string)
    ensures p in Gather(rules, patterns) <==> exists d :: d in rules && p in patterns(d)
  {
    if rules != [] {
      assert rules == [rules[0]] + rules[1..];
      GatherExact(rules[1..], patterns, p);
    }
  }

  /** A pattern is taken away exactly when some deny rule of the collection lists it. */
  lemma DeniesExact(rules: seq<PathRule>, p: string)
    ensures p in Denies(rules) <==> exists d :: d in rules && p in DenyPatterns(d)
  {
    GatherExact(rules, DENYING, p);
  }

  lemma {:induction false} GatherAppend(a: seq<PathRule>, b: seq<PathRule>, patterns: PathRule -> seq<string>)
    ensures Gather(a + b, patterns) == Gather(a, patterns) + Gather(b, patterns)
  {
    if a == [] {
      assert a + b == b;
    } else {
      assert (a + b)[1..] == a[1..] + b;
      GatherAppend(a[1..], b, patterns);
    }
  }

  lemma DeniesAppend(a: seq<PathRule>, b: seq<PathRule>)
    ensures Denies(a + b) == Denies(a) + Denies(b)
  {
    GatherAppend(a, b, DENYING);
  }

  lemma OneRuleDenies(r: PathRule)
    ensures Denies([r]) == DenyPatterns(r)
  {
    assert [r][1..] == [];
    assert Gather([r], DENYING) == DENYING(r) + Gather([r][1..], DENYING);
  }

  lemma DeniesInsert(a: seq<PathRule>, r: PathRule, b: seq<PathRule>)
    ensures Denies(a + [r] + b) == Denies(a) + DenyPatterns(r) + Denies(b)
  {
    DeniesAppend(a + [r], b);
    DeniesAppend(a, [r]);
    OneRuleDenies(r);
  }

  lemma NothingDenied(r: PathRule)
    ensures DenyPatterns(r) != [] ==> r.IsDeny()
  {
  }

  /** A rule slipped into a list adds its own findings between those of its neighbours. */
  lemma InsertRule(m: Matcher, ctype: string, a: seq<PathRule>, r: PathRule, b: seq<PathRule>, denies: seq<string>,
                   ls: seq<Probe>, failOnAdmin: bool)
    ensures RulesFindings(m, ctype, a + [r] + b, denies, ls, failOnAdmin)
         == Merge(Merge(RulesFindings(m, ctype, a, denies, ls, failOnAdmin),
                        RuleFindings(m, ctype, r, denies, ls, failOnAdmin)),
                  RulesFindings(m, ctype, b, denies, ls, failOnAdmin))
  {
    RulesFindingsAppend(m, ctype, a, [r], denies, ls, failOnAdmin);
    RulesFindingsAppend(m, ctype, a + [r], b, denies, ls, failOnAdmin);
    OneRule(m, ctype, r, denies, ls, failOnAdmin);
  }

  lemma DenyInCollection(m: Matcher, c: Collection, n: nat, d: PathRule, ls: seq<Probe>, failOnAdmin: bool)
    requires n <= |c.rules| && d.IsDeny()
    ensures NoMoreHits(CollectionFindings(m, WithRule(c, n, d), ls, failOnAdmin),
                       CollectionFindings(m, c, ls, failOnAdmin))
  {
    var k := WithRule(c, n, d);
    var before, after, denies := c.rules[..n], c.rules[n..], Denies(k.rules);
    assert c.rules == before + after;
    DeniesAppend(before, after);
    DeniesAppend(before, [d]);
    DeniesAppend(before + [d], after);
    InsertRule(m, c.ctype, before, d, after, denies, ls, failOnAdmin);
    RulesFindingsAppend(m, c.ctype, before, after, denies, ls, failOnAdmin);
    assert RuleFindings(m, c.ctype, d, denies, ls, failOnAdmin) == NOTHING;
    MergeAssociates(RulesFindings(m, c.ctype, before, denies, ls, failOnAdmin), NOTHING, NOTHING);
    FewerRulesHits(m, c.ctype, c.rules, denies, Denies(c.rules), ls, failOnAdmin);
  }

  /** The findings of `ds` and of `cs` are the same but for those of the collection at `i`. */
  ghost predicate DifferOnlyAt(m: Matcher, cs: seq<Collection>, ds: seq<Collection>, i: nat, ls: seq<Probe>,
                               failOnAdmin: bool)
    requires i < |cs| && i < |ds|
  {
    var before, after := AllFindings(m, cs[..i], ls, failOnAdmin), AllFindings(m, cs[i + 1..], ls, failOnAdmin);
    && AllFindings(m, cs, ls, failOnAdmin) == Merge(Merge(before, CollectionFindings(m, cs[i], ls, failOnAdmin)), after)
    && AllFindings(m, ds, ls, failOnAdmin) == Merge(Merge(before, CollectionFindings(m, ds[i], ls, failOnAdmin)), after)
  }

  /** Adding a deny rule anywhere in a collection only removes hits, and only that collection's. */
  lemma DenyOnlyRemoves(m: Matcher, cs: seq<Collection>, i: nat, n: nat, d: PathRule, ls: seq<Probe>, failOnAdmin: bool)
    requires i < |cs| && n <= |cs[i].rules| && d.IsDeny()
    ensures var ds := cs[i := WithRule(cs[i], n, d)];
            && NoMoreHits(AllFindings(m, ds, ls, failOnAdmin), AllFindings(m, cs, ls, failOnAdmin))
            && DifferOnlyAt(m, cs, ds, i, ls, failOnAdmin)
  {
    DenyInCollection(m, cs[i], n, d, ls, failOnAdmin);
    OnlyItsOwnCollection(m, cs, i, WithRule(cs[i], n, d), ls, failOnAdmin);
  }

  function WithException(c: Collection, n: nat, e: string): Collection
    requires n < |c.rules|
  {
    var r := c.rules[n];
    c.(rules := c.rules[..n] + [r.(exceptions := r.exceptions + [e])] + c.rules[n + 1..])
  }

  lemma DeniesIgnoreExceptions(a: seq<PathRule>, r: PathRule, t: PathRule, b: seq<PathRule>)
    requires t == r.(exceptions := t.exceptions)
    ensures Denies(a + [t] + b) == Denies(a + [r] + b)
  {
    DeniesInsert(a, t, b);
    DeniesInsert(a, r, b);
  }

  lemma ExceptionInCollection(m: Matcher, c: Collection, n: nat, e: string, ls: seq<Probe>, failOnAdmin: bool)
    requires n < |c.rules|
    ensures NoMoreHits(CollectionFindings(m, WithException(c, n, e), ls, failOnAdmin),
                       CollectionFindings(m, c, ls, failOnAdmin))
  {
    var r := c.rules[n];
    var t := r.(exceptions := r.exceptions + [e]);
    var a, b, denies := c.rules[..n], c.rules[n + 1..], Denies(c.rules);
    assert c.rules == a + [r] + b;
    DeniesIgnoreExceptions(a, r, t, b);
    InsertRule(m, c.ctype, a, r, b, denies, ls, failOnAdmin);
    InsertRule(m, c.ctype, a, t, b, denies, ls, failOnAdmin);
    FewerRuleHits(m, c.ctype, r, t, denies, denies, ls, failOnAdmin);
  }

  /** Adding an exception to a rule only removes hits, and only its collection's. */
  lemma ExceptionOnlyRemoves(m: Matcher, cs: seq<Collection>, i: nat, n: nat, e: string, ls: seq<Probe>,
                             failOnAdmin: bool)
    requires i < |cs| && n < |cs[i].rules|
    ensures var ds := cs[i := WithException(cs[i], n, e)];
            && NoMoreHits(AllFindings(m, ds, ls, failOnAdmin), AllFindings(m, cs, ls, failOnAdmin))
            && DifferOnlyAt(m, cs, ds, i, ls, failOnAdmin)
  {
    ExceptionInCollection(m, cs[i], n, e, ls, failOnAdmin);
    OnlyItsOwnCollection(m, cs, i, WithException(cs[i], n, e), ls, failOnAdmin);
  }

  lemma OneRule(m: Matcher, ctype: string, r: PathRule, denies: seq<string>, ls: seq<Probe>, failOnAdmin: bool)
    ensures RulesFindings(m, ctype, [r], denies, ls, failOnAdmin) == RuleFindings(m, ctype, r, denies, ls, failOnAdmin)
  {
    assert [r][..0] == [];
    MergeAssociates(RuleFindings(m, ctype, r, denies, ls, failOnAdmin), NOTHING, NOTHING);
  }

  /** The findings of `after` are those of `before` and `added` together, in some order. */
  ghost predicate Adds(before: Findings, added: Findings, after: Findings) {
    && multiset(after.permitted) == multiset(before.permitted) + multiset(added.permitted)
    && multiset(after.adminScoped) == multiset(before.adminScoped) + multiset(added.adminScoped)
    && multiset(after.unreadable) == multiset(before.unreadable) + multiset(added.unreadable)
  }

  lemma MergeInMiddle(a: Findings, r: Findings, b: Findings)
    ensures Adds(Merge(a, b), r, Merge(Merge(a, r), b))
  {
  }

  lemma AllowInCollection(m: Matcher, c: Collection, n: nat, r: PathRule, ls: seq<Probe>, failOnAdmin: bool)
    requires n <= |c.rules| && !r.IsDeny()
    ensures Adds(CollectionFindings(m, c, ls, failOnAdmin),
                 RuleFindings(m, c.ctype, r, Denies(c.rules), ls, failOnAdmin),
                 CollectionFindings(m, WithRule(c, n, r), ls, failOnAdmin))
  {
    var a, b, denies := c.rules[..n], c.rules[n..], Denies(c.rules);
    assert c.rules == a + b;
    NothingDenied(r);
    DeniesIgnoreAllow(a, r, b);
    InsertRule(m, c.ctype, a, r, b, denies, ls, failOnAdmin);
    RulesFindingsAppend(m, c.ctype, a, b, denies, ls, failOnAdmin);
    MergeInMiddle(RulesFindings(m, c.ctype, a, denies, ls, failOnAdmin),
                  RuleFindings(m, c.ctype, r, denies, ls, failOnAdmin),
                  RulesFindings(m, c.ctype, b, denies, ls, failOnAdmin));
  }

  lemma AddsAround(p: Findings, c: Findings, added: Findings, d: Findings, q: Findings)
    requires Adds(c, added, d)
    ensures Adds(Merge(Merge(p, c), q), added, Merge(Merge(p, d), q))
  {
  }

  /** Adding a rule that denies nothing, to any collection, adds exactly its own findings and takes nothing away. */
  lemma AllowOnlyAdds(m: Matcher, cs: seq<Collection>, i: nat, n: nat, r: PathRule, ls: seq<Probe>, failOnAdmin: bool)
    requires i < |cs| && n <= |cs[i].rules| && !r.IsDeny()
    ensures Adds(AllFindings(m, cs, ls, failOnAdmin),
                 RuleFindings(m, cs[i].ctype, r, Denies(cs[i].rules), ls, failOnAdmin),
                 AllFindings(m, cs[i := WithRule(cs[i], n, r)], ls, failOnAdmin))
  {
    var c := WithRule(cs[i], n, r);
    AllowInCollection(m, cs[i], n, r, ls, failOnAdmin);
    OnlyThatCollection(m, cs, i, c, ls, failOnAdmin);
    AddsAround(AllFindings(m, cs[..i], ls, failOnAdmin), CollectionFindings(m, cs[i], ls, failOnAdmin),
               RuleFindings(m, cs[i].ctype, r, Denies(cs[i].rules), ls, failOnAdmin),
               CollectionFindings(m, c, ls, failOnAdmin), AllFindings(m, cs[i + 1..], ls, failOnAdmin));
  }

  lemma DeniesIgnoreAllow(a: seq<PathRule>, r: PathRule, b: seq<PathRule>)
    requires DenyPatterns(r) == []
    ensures Denies(a + [r] + b) == Denies(a + b)
  {
    DeniesInsert(a, r, b);
    DeniesAppend(a, b);
  }

  lemma {:induction false} HitsAtAppend(a: seq<Probe>, b: seq<Probe>, passes: Probe -> bool, hit: Probe -> Hit)
    ensures HitsAt(a + b, passes, hit) == HitsAt(a, passes, hit) + HitsAt(b, passes, hit)
  {
    if b == [] {
      assert a + b == a;
    } else {
      assert (a + b)[..|a + b| - 1] == a + b[..|b| - 1];
      HitsAtAppend(a, b[..|b| - 1], passes, hit);
    }
  }

  lemma LocationHitsAppend(m: Matcher, ctype: string, r: PathRule, denies: seq<string>, a: seq<Probe>, b: seq<Probe>)
    ensures LocationHits(m, ctype, r, denies, a + b)
         == LocationHits(m, ctype, r, denies, a) + LocationHits(m, ctype, r, denies, b)
  {
    HitsAtAppend(a, b, Permitting(m, r, denies), HitsOf(ctype, r));
  }

  /** The hits of `both` are those of `f` and `g` together; which rules are unreadable is the same for all three. */
  ghost predicate Sums(f: Findings, g: Findings, both: Findings) {
    && multiset(both.permitted) == multiset(f.permitted) + multiset(g.permitted)
    && multiset(both.adminScoped) == multiset(f.adminScoped) + multiset(g.adminScoped)
    && both.unreadable == f.unreadable == g.unreadable
  }

  lemma SumsMerge(f: Findings, g: Findings, fg: Findings, h: Findings, k: Findings, hk: Findings)
    requires Sums(f, g, fg) && Sums(h, k, hk)
    ensures Sums(Merge(f, h), Merge(g, k), Merge(fg, hk))
  {
  }

  lemma FiledSums(ctype: string, r: PathRule, a: seq<Hit>, b: seq<Hit>, aside: bool)
    ensures Sums(Filed(ctype, r, a, aside), Filed(ctype, r, b, aside), Filed(ctype, r, a + b, aside))
  {
  }

  lemma RuleSums(m: Matcher, ctype: string, r: PathRule, denies: seq<string>, a: seq<Probe>, b: seq<Probe>,
                 failOnAdmin: bool)
    ensures Sums(RuleFindings(m, ctype, r, denies, a, failOnAdmin), RuleFindings(m, ctype, r, denies, b, failOnAdmin),
                 RuleFindings(m, ctype, r, denies, a + b, failOnAdmin))
  {
    LocationHitsAppend(m, ctype, r, denies, a, b);
    FiledSums(ctype, r, LocationHits(m, ctype, r, denies, a), LocationHits(m, ctype, r, denies, b),
              m.isAdmin(r.sid) && !failOnAdmin);
  }

  lemma {:induction false} RulesSum(m: Matcher, ctype: string, rules: seq<PathRule>, denies: seq<string>,
                                    a: seq<Probe>, b: seq<Probe>,
                                    failOnAdmin: bool)
    ensures Sums(RulesFindings(m, ctype, rules, denies, a, failOnAdmin),
                 RulesFindings(m, ctype, rules, denies, b, failOnAdmin),
                 RulesFindings(m, ctype, rules, denies, a + b, failOnAdmin))
  {
    if rules != [] {
      var rest, r := rules[..|rules| - 1], rules[|rules| - 1];
      RulesSum(m, ctype, rest, denies, a, b, failOnAdmin);
      RuleSums(m, ctype, r, denies, a, b, failOnAdmin);
      SumsMerge(RulesFindings(m, ctype, rest, denies, a, failOnAdmin),
                RulesFindings(m, ctype, rest, denies, b, failOnAdmin),
                RulesFindings(m, ctype, rest, denies, a + b, failOnAdmin),
                RuleFindings(m, ctype, r, denies, a, failOnAdmin), RuleFindings(m, ctype, r, denies, b, failOnAdmin),
                RuleFindings(m, ctype, r, denies, a + b, failOnAdmin));
    }
  }

  /** Looking at more locations, wherever they are listed, adds exactly their hits and takes nothing away. */
  lemma {:induction false} LocationOnlyAdds(m: Matcher, cs: seq<Collection>, a: seq<Probe>, b: seq<Probe>,
                                            failOnAdmin: bool)
    ensures Sums(AllFindings(m, cs, a, failOnAdmin), AllFindings(m, cs, b, failOnAdmin),
                 AllFindings(m, cs, a + b, failOnAdmin))
  {
    if cs != [] {
      var rest, c := cs[..|cs| - 1], cs[|cs| - 1];
      LocationOnlyAdds(m, rest, a, b, failOnAdmin);
      RulesSum(m, c.ctype, c.rules, Denies(c.rules), a, b, failOnAdmin);
      SumsMerge(AllFindings(m, rest, a, failOnAdmin), AllFindings(m, rest, b, failOnAdmin),
                AllFindings(m, rest, a + b, failOnAdmin),
                CollectionFindings(m, c, a, failOnAdmin), CollectionFindings(m, c, b, failOnAdmin),
                CollectionFindings(m, c, a + b, failOnAdmin));
    }
  }

  // ----- whose rule it is -------------------------------------------------------------------

  ghost predicate Moves(lenient: Findings, strict: Findings) {
    && multiset(strict.permitted) == multiset(lenient.permitted) + multiset(lenient.adminScoped)
    && strict.adminScoped == [] && strict.unreadable == lenient.unreadable
  }

  lemma MovesTogether(f: Findings, g: Findings, h: Findings, k: Findings)
    requires Moves(f, g) && Moves(h, k)
    ensures Moves(Merge(f, h), Merge(g, k))
  {
  }

  lemma AdminRuleMoves(m: Matcher, ctype: string, r: PathRule, denies: seq<string>, ls: seq<Probe>)
    ensures Moves(RuleFindings(m, ctype, r, denies, ls, false), RuleFindings(m, ctype, r, denies, ls, true))
  {
  }

  /** Counting administrators' rules moves their hits from one list to the other and changes nothing else. */
  lemma {:induction false} AdminRulesOnlyMove(m: Matcher, cs: seq<Collection>, ls: seq<Probe>)
    ensures Moves(AllFindings(m, cs, ls, false), AllFindings(m, cs, ls, true))
  {
    if cs != [] {
      var n := |cs| - 1;
      AdminRulesOnlyMove(m, cs[..n], ls);
      AdminRulesMoveIn(m, cs[n].ctype, cs[n].rules, Denies(cs[n].rules), ls);
      MovesTogether(AllFindings(m, cs[..n], ls, false), AllFindings(m, cs[..n], ls, true),
                    CollectionFindings(m, cs[n], ls, false), CollectionFindings(m, cs[n], ls, true));
    }
  }

  lemma {:induction false} AdminRulesMoveIn(m: Matcher, ctype: string, rules: seq<PathRule>, denies: seq<string>,
                                            ls: seq<Probe>)
    ensures Moves(RulesFindings(m, ctype, rules, denies, ls, false), RulesFindings(m, ctype, rules, denies, ls, true))
  {
    if rules != [] {
      var n := |rules| - 1;
      AdminRulesMoveIn(m, ctype, rules[..n], denies, ls);
      AdminRuleMoves(m, ctype, rules[n], denies, ls);
      MovesTogether(RulesFindings(m, ctype, rules[..n], denies, ls, false),
                    RulesFindings(m, ctype, rules[..n], denies, ls, true),
                    RuleFindings(m, ctype, rules[n], denies, ls, false),
                        RuleFindings(m, ctype, rules[n], denies, ls, true));
    }
  }

  /** Which rules could not be read has nothing to do with the locations looked at. */
  lemma {:induction false} UnreadableIgnoresLocations(m: Matcher, cs: seq<Collection>, ls: seq<Probe>, ms: seq<Probe>,
                                                      f: bool, g: bool)
    ensures AllFindings(m, cs, ls, f).unreadable == AllFindings(m, cs, ms, g).unreadable
  {
    if cs != [] {
      var c := cs[|cs| - 1];
      UnreadableIgnoresLocations(m, cs[..|cs| - 1], ls, ms, f, g);
      UnreadableRulesIgnoreLocations(m, c.ctype, c.rules, Denies(c.rules), ls, ms, f, g);
    }
  }

  lemma {:induction false} UnreadableRulesIgnoreLocations(m: Matcher, ctype: string, rules: seq<PathRule>,
                                                          denies: seq<string>,
                                                          ls: seq<Probe>, ms: seq<Probe>, f: bool, g: bool)
    ensures RulesFindings(m, ctype, rules, denies, ls, f).unreadable == RulesFindings(m, ctype, rules, denies, ms,
        g).unreadable
  {
    if rules != [] {
      UnreadableRulesIgnoreLocations(m, ctype, rules[..|rules| - 1], denies, ls, ms, f, g);
    }
  }
}
