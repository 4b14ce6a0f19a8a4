/** What the ism-1870 verdict means, and how it moves when rules or observations change. */
module AppControlTheorems {
  import opened Text
  import opened Lists
  import opened Contract
  import opened AppControl
  import opened PathRules
  import opened PathTheorems

  // ----- what was looked at --------------------------------------------------------------

  lemma {:induction false} WritableExact(ps: seq<Probe>)
    ensures forall p :: p in Writable(ps) <==> p in ps && IsWritable(p)
    ensures Denied(ps) > 0 <==> exists p :: p in ps && IsDenied(p)
  {
    if ps != [] {
      var rest, last := ps[..|ps| - 1], ps[|ps| - 1];
      assert ps == rest + [last];
      WritableExact(rest);
    }
  }

  // ----- what is found ----------------------------------------------------------------

  /** The collection's rule lets something run from the location. */
  ghost predicate Grants(m: Matcher, c: Collection, r: PathRule, l: Probe) {
    r in c.rules && r.IsAllow() && Permits(m, r, Denies(c.rules), l.path)
  }

  /** An allow rule that carries no condition anyone could read. */
  ghost predicate Unreadable(c: Collection, r: PathRule) {
    r in c.rules && r.IsAllow() && NonBlank(r.paths) == [] && r.nonPathConditions == 0
  }

  lemma {:induction false} HitsAtExact(ls: seq<Probe>, passes: Probe -> bool, hit: Probe -> Hit, h: Hit)
    ensures h in HitsAt(ls, passes, hit) <==> exists l :: l in ls && passes(l) && h == hit(l)
  {
    if ls != [] {
      var rest, last := ls[..|ls| - 1], ls[|ls| - 1];
      assert ls == rest + [last];
      HitsAtExact(rest, passes, hit, h);
    }
  }

  lemma LocationHitsExact(m: Matcher, ctype: string, r: PathRule, denies: seq<string>, ls: seq<Probe>, h: Hit)
    ensures h in LocationHits(m, ctype, r, denies, ls) <==>
            exists l :: l in ls && Permits(m, r, denies, l.path) && h == HitOf(ctype, r, l)
  {
    HitsAtExact(ls, Permitting(m, r, denies), HitsOf(ctype, r), h);
  }

  lemma {:induction false} NonBlankExact(ps: seq<string>)
    ensures forall p :: p in NonBlank(ps) <==> p in ps && Strip(p) != ""
  {
    if ps != [] {
      assert ps == [ps[0]] + ps[1..];
      NonBlankExact(ps[1..]);
    }
  }

  lemma NoPathsNoGrant(m: Matcher, r: PathRule, denies: seq<string>, location: string)
    ensures NonBlank(r.paths) == [] ==> !Permits(m, r, denies, location)
  {
  }

  lemma RuleFindingsExact(m: Matcher, ctype: string, r: PathRule, denies: seq<string>, ls: seq<Probe>,
                          failOnAdmin: bool, h: Hit)
    ensures var f := RuleFindings(m, ctype, r, denies, ls, failOnAdmin);
            var granted := exists l :: l in ls && r.IsAllow() && Permits(m, r, denies, l.path)
                                       && h == HitOf(ctype, r, l);
            && (h in f.permitted <==> granted && (failOnAdmin || !m.isAdmin(r.sid)))
            && (h in f.adminScoped <==> granted && !failOnAdmin && m.isAdmin(r.sid))
  {
    LocationHitsExact(m, ctype, r, denies, ls, h);
    forall l | l in ls ensures NonBlank(r.paths) == [] ==> !Permits(m, r, denies, l.path) {
      NoPathsNoGrant(m, r, denies, l.path);
    }
  }

  lemma {:induction false} RulesFindingsExact(m: Matcher, ctype: string, rules: seq<PathRule>, denies: seq<string>,
                                              ls: seq<Probe>, failOnAdmin: bool, h: Hit)
    ensures h in RulesFindings(m, ctype, rules, denies, ls, failOnAdmin).permitted <==>
            exists r :: r in rules && h in RuleFindings(m, ctype, r, denies, ls, failOnAdmin).permitted
    ensures h in RulesFindings(m, ctype, rules, denies, ls, failOnAdmin).adminScoped <==>
            exists r :: r in rules && h in RuleFindings(m, ctype, r, denies, ls, failOnAdmin).adminScoped
  {
    if rules != [] {
      var n := |rules| - 1;
      assert rules == rules[..n] + [rules[n]];
      RulesFindingsExact(m, ctype, rules[..n], denies, ls, failOnAdmin, h);
    }
  }

  lemma {:induction false} AllFindingsExact(m: Matcher, cs: seq<Collection>, ls: seq<Probe>, failOnAdmin: bool, h: Hit)
    ensures h in AllFindings(m, cs, ls, failOnAdmin).permitted <==>
            exists c :: c in cs && h in CollectionFindings(m, c, ls, failOnAdmin).permitted
    ensures h in AllFindings(m, cs, ls, failOnAdmin).adminScoped <==>
            exists c :: c in cs && h in CollectionFindings(m, c, ls, failOnAdmin).adminScoped
  {
    if cs != [] {
      var n := |cs| - 1;
      assert cs == cs[..n] + [cs[n]];
      AllFindingsExact(m, cs[..n], ls, failOnAdmin, h);
    }
  }

  /** A hit is reported exactly when some collection's rule grants some location, filed by whose rule it is. */
  lemma HitsExact(m: Matcher, cs: seq<Collection>, ls: seq<Probe>, failOnAdmin: bool, h: Hit)
    ensures h in AllFindings(m, cs, ls, failOnAdmin).permitted <==>
            exists c, r, l :: c in cs && l in ls && Grants(m, c, r, l) && h == HitOf(c.ctype, r, l)
                              && (failOnAdmin || !m.isAdmin(r.sid))
    ensures h in AllFindings(m, cs, ls, failOnAdmin).adminScoped <==>
            exists c, r, l :: c in cs && l in ls && Grants(m, c, r, l) && h == HitOf(c.ctype, r, l)
                              && !failOnAdmin && m.isAdmin(r.sid)
  {
    AllFindingsExact(m, cs, ls, failOnAdmin, h);
    forall c | c in cs
      ensures h in CollectionFindings(m, c, ls, failOnAdmin).permitted <==>
              exists r, l :: l in ls && Grants(m, c, r, l) && h == HitOf(c.ctype, r, l)
                             && (failOnAdmin || !m.isAdmin(r.sid))
      ensures h in CollectionFindings(m, c, ls, failOnAdmin).adminScoped <==>
              exists r, l :: l in ls && Grants(m, c, r, l) && h == HitOf(c.ctype, r, l)
                             && !failOnAdmin && m.isAdmin(r.sid)
    {
      CollectionHitsExact(m, c, ls, failOnAdmin, h);
    }
  }

  lemma CollectionHitsExact(m: Matcher, c: Collection, ls: seq<Probe>, failOnAdmin: bool, h: Hit)
    ensures h in CollectionFindings(m, c, ls, failOnAdmin).permitted <==>
            exists r, l :: l in ls && Grants(m, c, r, l) && h == HitOf(c.ctype, r, l)
                           && (failOnAdmin || !m.isAdmin(r.sid))
    ensures h in CollectionFindings(m, c, ls, failOnAdmin).adminScoped <==>
            exists r, l :: l in ls && Grants(m, c, r, l) && h == HitOf(c.ctype, r, l)
                           && !failOnAdmin && m.isAdmin(r.sid)
  {
    var denies := Denies(c.rules);
    RulesFindingsExact(m, c.ctype, c.rules, denies, ls, failOnAdmin, h);
    forall r | r in c.rules
      ensures var f := RuleFindings(m, c.ctype, r, denies, ls, failOnAdmin);
              var granted := exists l :: l in ls && Grants(m, c, r, l) && h == HitOf(c.ctype, r, l);
              && (h in f.permitted <==> granted && (failOnAdmin || !m.isAdmin(r.sid)))
              && (h in f.adminScoped <==> granted && !failOnAdmin && m.isAdmin(r.sid))
    {
      RuleFindingsExact(m, c.ctype, r, denies, ls, failOnAdmin, h);
    }
  }

  lemma {:induction false} UnreadableRulesExact(m: Matcher, ctype: string, rules: seq<PathRule>, denies: seq<string>,
                                                ls: seq<Probe>, failOnAdmin: bool)
    ensures RulesFindings(m, ctype, rules, denies, ls, failOnAdmin).unreadable == [] <==>
            forall r :: r in rules && r.IsAllow() && NonBlank(r.paths) == [] ==> r.nonPathConditions != 0
  {
    if rules != [] {
      var n := |rules| - 1;
      assert rules == rules[..n] + [rules[n]];
      UnreadableRulesExact(m, ctype, rules[..n], denies, ls, failOnAdmin);
    }
  }

  lemma CollectionUnreadableExact(m: Matcher, c: Collection, ls: seq<Probe>, failOnAdmin: bool)
    ensures CollectionFindings(m, c, ls, failOnAdmin).unreadable == [] <==> forall r :: !Unreadable(c, r)
  {
    UnreadableRulesExact(m, c.ctype, c.rules, Denies(c.rules), ls, failOnAdmin);
    assert (forall r :: !Unreadable(c, r)) <==>
           forall r :: r in c.rules && r.IsAllow() && NonBlank(r.paths) == [] ==> r.nonPathConditions != 0 by {
      if r :| r in c.rules && r.IsAllow() && NonBlank(r.paths) == [] && r.nonPathConditions == 0 {
        assert Unreadable(c, r);
      }
    }
  }

  /** Nothing is listed as unreadable exactly when every allow rule carries a condition. */
  lemma {:induction false} UnreadableExact(m: Matcher, cs: seq<Collection>, ls: seq<Probe>, failOnAdmin: bool)
    ensures AllFindings(m, cs, ls, failOnAdmin).unreadable == [] <==>
            forall c, r :: c in cs ==> !Unreadable(c, r)
  {
    if cs != [] {
      var n := |cs| - 1;
      assert cs == cs[..n] + [cs[n]];
      UnreadableExact(m, cs[..n], ls, failOnAdmin);
      CollectionUnreadableExact(m, cs[n], ls, failOnAdmin);
    }
  }

  // ----- the verdict --------------------------------------------------------------------

  ghost predicate Incomplete(p: Paths) {
    p.truncated || exists q :: q in p.probes + p.windowsWritable && IsDenied(q)
  }

  /** Some rule counted against the control grants a location that was found writable. */
  ghost predicate SomethingPermitted(s: State, p: Paths, failOnAdmin: bool) {
    exists c, r, l :: && c in s.collections && IsEnforced(c)
                      && l in p.probes + p.windowsWritable && IsWritable(l)
                      && Grants(Windows(HostRoot(p)), c, r, l) && (failOnAdmin || !IsAdminSid(r.sid))
  }

  ghost predicate SomethingUnreadable(s: State) {
    exists c, r :: c in s.collections && IsEnforced(c) && Unreadable(c, r)
  }

  ghost predicate SomethingEnforced(s: State) {
    exists c :: c in s.collections && IsEnforced(c)
  }

  ghost predicate SomethingWritable(p: Paths) {
    exists l :: l in p.probes + p.windowsWritable && IsWritable(l)
  }

  /** Something is permitted exactly when some collection, rule and location are. */
  lemma PermittedIn(m: Matcher, cs: seq<Collection>, ls: seq<Probe>, failOnAdmin: bool)
    ensures AllFindings(m, cs, ls, failOnAdmin).permitted != [] <==>
            exists c, r, l :: c in cs && l in ls && Grants(m, c, r, l) && (failOnAdmin || !m.isAdmin(r.sid))
  {
    var hits := AllFindings(m, cs, ls, failOnAdmin).permitted;
    if hits != [] {
      HitsExact(m, cs, ls, failOnAdmin, hits[0]);
    }
    if c, r, l :| c in cs && l in ls && Grants(m, c, r, l) && (failOnAdmin || !m.isAdmin(r.sid)) {
      HitsExact(m, cs, ls, failOnAdmin, HitOf(c.ctype, r, l));
    }
  }

  /** What the verdict is made from, in terms of what was collected. */
  lemma PermittedExact(s: State, p: Paths, failOnAdmin: bool)
    ensures Judge(s, p, failOnAdmin) ==
            Ruling(WdacEnforcing(s.wdac), SomethingEnforced(s), SomethingWritable(p), Incomplete(p),
                   SomethingUnreadable(s), SomethingPermitted(s, p, failOnAdmin))
  {
    var m := Windows(HostRoot(p));
    var cs, ls := EnforcedOnly(s.collections), Writable(p.probes + p.windowsWritable);
    WritableExact(p.probes + p.windowsWritable);
    NonEmpty(cs);
    NonEmpty(ls);
    PermittedIn(m, cs, ls, failOnAdmin);
    UnreadableExact(m, cs, ls, failOnAdmin);
  }

  /** When the verdict fails: nothing is enforced, or a writable location is permitted by a rule that counts. */
  lemma NotSatisfiedExact(s: State, p: Paths, failOnAdmin: bool)
    ensures Judge(s, p, failOnAdmin).status.NotSatisfied? <==>
            !WdacEnforcing(s.wdac) && (!SomethingEnforced(s) || SomethingPermitted(s, p, failOnAdmin))
  {
    PermittedExact(s, p, failOnAdmin);
  }

  /**
   Behind a failure with rules in force lies an allow rule that governs some path inside a writable location.
   Whether an exception or a deny takes that very path away again is not looked at.
   */
  lemma FailureHasWitness(s: State, p: Paths, failOnAdmin: bool)
    requires Judge(s, p, failOnAdmin).status.NotSatisfied? && SomethingEnforced(s)
    ensures exists c, r, l, pattern, e ::
              && c in s.collections && IsEnforced(c) && r in c.rules && r.IsAllow() && pattern in r.paths
              && l in p.probes + p.windowsWritable && IsWritable(l)
              && e in Expand(pattern, HostRoot(p)) && Overlaps(e, Normalise(l.path))
  {
    NotSatisfiedExact(s, p, failOnAdmin);
    var c, r, l :| && c in s.collections && IsEnforced(c)
                   && l in p.probes + p.windowsWritable && IsWritable(l)
                   && Grants(Windows(HostRoot(p)), c, r, l) && (failOnAdmin || !IsAdminSid(r.sid));
    var pattern :| pattern in NonBlank(r.paths) && Covers(pattern, l.path, HostRoot(p));
    NonBlankExact(r.paths);
    CoveredHasWitness(pattern, l.path, HostRoot(p));
    var e :| e in Expand(pattern, HostRoot(p)) && Overlaps(e, Normalise(l.path));
  }

  /**
   When it passes: a complete look, rules in force, and either nothing writable or every rule read and none
   permitting.
   */
  lemma SatisfiedExact(s: State, p: Paths, failOnAdmin: bool)
    ensures Judge(s, p, failOnAdmin).status.Satisfied? <==>
            && !WdacEnforcing(s.wdac) && SomethingEnforced(s) && !Incomplete(p)
            && (SomethingWritable(p) ==> !SomethingUnreadable(s) && !SomethingPermitted(s, p, failOnAdmin))
  {
    PermittedExact(s, p, failOnAdmin);
  }

  /** The order in which more evidence moves a verdict. */
  function Standing(r: CheckResult): nat {
    match r.status
    case Satisfied => 2
    case NotSatisfied => 0
    case _ => 1
  }

  /** Seeing more writable locations, or knowing the look to be less complete, only ever lowers the verdict. */
  lemma MoreEvidenceNeverHelps(s: State, p: Paths, q: Paths, failOnAdmin: bool)
    requires p.windowsRoot == q.windowsRoot
    requires forall l :: l in p.probes + p.windowsWritable && IsWritable(l) ==> l in q.probes + q.windowsWritable
    requires Incomplete(p) ==> Incomplete(q)
    ensures Standing(Judge(s, q, failOnAdmin)) <= Standing(Judge(s, p, failOnAdmin))
  {
    NotSatisfiedExact(s, p, failOnAdmin);
    NotSatisfiedExact(s, q, failOnAdmin);
    SatisfiedExact(s, p, failOnAdmin);
    SatisfiedExact(s, q, failOnAdmin);
    if SomethingPermitted(s, p, failOnAdmin) {
      var c, r, l :| && c in s.collections && IsEnforced(c)
                     && l in p.probes + p.windowsWritable && IsWritable(l)
                     && Grants(Windows(HostRoot(p)), c, r, l) && (failOnAdmin || !IsAdminSid(r.sid));
      assert SomethingPermitted(s, q, failOnAdmin);
    }
  }

  /** An incomplete look can fail but never pass: it turns a pass into no verdict and leaves a failure alone. */
  lemma IncompleteLookNeverPasses(s: State, p: Paths, q: Paths, failOnAdmin: bool)
    requires p.windowsRoot == q.windowsRoot && Incomplete(q)
    requires forall l :: IsWritable(l) ==> (l in p.probes + p.windowsWritable <==> l in q.probes + q.windowsWritable)
    ensures !Judge(s, q, failOnAdmin).status.Satisfied?
    ensures Judge(s, q, failOnAdmin).status.NotSatisfied? <==> Judge(s, p, failOnAdmin).status.NotSatisfied?
  {
    SatisfiedExact(s, q, failOnAdmin);
    NotSatisfiedExact(s, p, failOnAdmin);
    NotSatisfiedExact(s, q, failOnAdmin);
    assert SomethingPermitted(s, p, failOnAdmin) <==> SomethingPermitted(s, q, failOnAdmin);
  }

  /** A list of probes with denied ones slipped in at one place. */
  function SlippedIn(ps: seq<Probe>, denied: seq<Probe>, i: nat): seq<Probe>
    requires i <= |ps|
  {
    ps[..i] + denied + ps[i..]
  }

  lemma SlippedInHas(ps: seq<Probe>, denied: seq<Probe>, i: nat)
    requires i <= |ps|
    ensures forall l :: l in SlippedIn(ps, denied, i) <==> l in ps || l in denied
  {
    assert ps == ps[..i] + ps[i..];
  }

  /** In particular: a truncated walk, or denied probes slipped in anywhere, in either list. */
  lemma TruncationAndDeniedProbes(s: State, p: Paths, d: seq<Probe>, i: nat, e: seq<Probe>, j: nat, truncated: bool,
                                  failOnAdmin: bool)
    requires i <= |p.probes| && j <= |p.windowsWritable| && forall l :: l in d + e ==> IsDenied(l)
    requires truncated || d != [] || e != []
    ensures var q := Paths(p.windowsRoot, SlippedIn(p.probes, d, i), SlippedIn(p.windowsWritable, e, j),
                           p.truncated || truncated);
            && !Judge(s, q, failOnAdmin).status.Satisfied?
            && (Judge(s, q, failOnAdmin).status.NotSatisfied? <==> Judge(s, p, failOnAdmin).status.NotSatisfied?)
  {
    var q := Paths(p.windowsRoot, SlippedIn(p.probes, d, i), SlippedIn(p.windowsWritable, e, j),
                   p.truncated || truncated);
    SlippedInHas(p.probes, d, i);
    SlippedInHas(p.windowsWritable, e, j);
    assert forall l :: l in q.probes + q.windowsWritable <==> l in p.probes + p.windowsWritable || l in d + e;
    if d + e != [] {
      assert (d + e)[0] in d + e;
    }
    IncompleteLookNeverPasses(s, p, q, failOnAdmin);
  }

  // ----- how a verdict is made --------------------------------------------------------------

  /** Every verdict is one its constructor grants: it carries evidence. */
  lemma JudgeIsConstructed(s: State, p: Paths, failOnAdmin: bool)
    ensures var r := Judge(s, p, failOnAdmin);
            && (r.status.Satisfied? ==> SatisfiedOn(r.evidence, Partial) == Ok(r))
            && (r.status.NotSatisfied? ==> NotSatisfiedOn(r.evidence, Partial) == Ok(r))
            && (r.status.Satisfied? || r.status.NotSatisfied?
                || (r.status.Unassessed? && r == UnassessedFor(r.reason.value, r.evidence)))
  {
    assert |BASE_EVIDENCE| == 8 && |RULE_EVIDENCE| == 11;
  }
}
