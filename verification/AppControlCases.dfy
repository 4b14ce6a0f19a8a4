/** The ism-1870 verdict read off the collected fields, branch by branch. */
module AppControlCases {
  import opened Text
  import opened Contract
  import opened PathRules
  import opened AppControl
  import opened AppControlTheorems
  import opened RuleAlgebra

  // ----- rules ---------------------------------------------------------------------------

  /** One of the texts, other than a blank one, is a pattern that contains the whole location. */
  ghost predicate TakenAway(patterns: seq<string>, location: string, root: string) {
    exists e :: e in patterns && Strip(e) != "" && Contains(e, location, root)
  }

  ghost predicate Given(patterns: seq<string>, location: string, root: string) {
    exists e :: e in patterns && Strip(e) != "" && Covers(e, location, root)
  }

  /** Some deny rule of the collection takes the whole location away. */
  ghost predicate Refused(rules: seq<PathRule>, location: string, root: string) {
    exists d :: d in rules && Lower(d.action) == "deny" && TakenAway(d.paths, location, root)
  }

  lemma CoversExactly(patterns: seq<string>, location: string, root: string)
    ensures CoversAny(Windows(root), NonBlank(patterns), location) <==> Given(patterns, location, root)
    ensures ContainsAny(Windows(root), NonBlank(patterns), location) <==> TakenAway(patterns, location, root)
  {
    NonBlankExact(patterns);
  }

  lemma DeniedExactly(rules: seq<PathRule>, location: string, root: string)
    ensures ContainsAny(Windows(root), Denies(rules), location) <==> Refused(rules, location, root)
  {
    var m := Windows(root);
    if e :| e in Denies(rules) && m.contains(e, location) {
      DeniesExact(rules, e);
      var d :| d in rules && e in DenyPatterns(d);
      NonBlankExact(d.paths);
      assert TakenAway(d.paths, location, root);
    }
    if d :| d in rules && Lower(d.action) == "deny" && TakenAway(d.paths, location, root) {
      var e :| e in d.paths && Strip(e) != "" && Contains(e, location, root);
      NonBlankExact(d.paths);
      DeniesExact(rules, e);
      assert m.contains(e, location);
    }
  }

  /**
   A rule grants a location exactly when it is an allow rule, one of its patterns covers the location, and none of its
   exceptions and no deny rule of its collection contains it.
   */
  lemma GrantsExact(c: Collection, r: PathRule, l: Probe, root: string)
    ensures Grants(Windows(root), c, r, l) <==>
            && r in c.rules && Lower(r.action) == "allow" && Given(r.paths, l.path, root)
            && !TakenAway(r.exceptions, l.path, root) && !Refused(c.rules, l.path, root)
  {
    CoversExactly(r.paths, l.path, root);
    CoversExactly(r.exceptions, l.path, root);
    DeniedExactly(c.rules, l.path, root);
  }

  /** What a listed hit says: which rule of which collection reaches which location, and what that location is. */
  lemma HitTells(cs: seq<Collection>, ls: seq<Probe>, root: string, failOnAdmin: bool, h: Hit)
    requires h in AllFindings(Windows(root), cs, ls, failOnAdmin).permitted
    ensures exists c, r, l :: && c in cs && r in c.rules && l in ls && Given(r.paths, l.path, root)
                              && h.collection == c.ctype && h.rule == r.name && h.sid == r.sid
                              && h.location == l.path && h.role == l.role
                              && forall p :: p in h.paths <==> p in r.paths && Strip(p) != ""
  {
    HitsExact(Windows(root), cs, ls, failOnAdmin, h);
    var c, r, l :| c in cs && l in ls && Grants(Windows(root), c, r, l) && h == HitOf(c.ctype, r, l);
    GrantsExact(c, r, l, root);
    NonBlankExact(r.paths);
  }

  // ----- the verdict -----------------------------------------------------------------------

  /** A second mechanism that enforces, in either mode, leaves no verdict to reach. */
  lemma WdacSuspends(s: State, p: Paths, failOnAdmin: bool)
    ensures s.wdac.policyStatus == 2 || s.wdac.usermodeStatus == 2 <==>
            Judge(s, p, failOnAdmin).reason == Some(InsufficientPrivilege)
  {
  }

  /** Without it, a host on which no collection with rules is enabled fails. */
  lemma NothingEnforcedFails(s: State, p: Paths, failOnAdmin: bool)
    requires s.wdac.policyStatus != 2 && s.wdac.usermodeStatus != 2
    requires forall c :: c in s.collections ==> c.mode != "Enabled" || c.ruleCount <= 0
    ensures Judge(s, p, failOnAdmin).status == NotSatisfied
  {
    NotSatisfiedExact(s, p, failOnAdmin);
  }

  /** A complete look that found nothing writable passes, whatever the rules say. */
  lemma NothingWritablePasses(s: State, p: Paths, failOnAdmin: bool, c: Collection)
    requires s.wdac.policyStatus != 2 && s.wdac.usermodeStatus != 2
    requires c in s.collections && c.mode == "Enabled" && c.ruleCount > 0
    requires !p.truncated && forall l :: l in p.probes + p.windowsWritable ==>
                               l.access != "denied" && l.nonAdminWritable != Some(true)
    ensures Judge(s, p, failOnAdmin).status == Satisfied
  {
    assert IsEnforced(c);
    SatisfiedExact(s, p, failOnAdmin);
  }

  /** An incomplete look with nothing to hold against the host reaches no verdict, and says so. */
  lemma IncompleteLookIsPartial(s: State, p: Paths, failOnAdmin: bool, c: Collection)
    requires s.wdac.policyStatus != 2 && s.wdac.usermodeStatus != 2
    requires c in s.collections && c.mode == "Enabled" && c.ruleCount > 0
    requires p.truncated || exists l :: l in p.probes + p.windowsWritable && l.access == "denied"
    requires !SomethingUnreadable(s) && !SomethingPermitted(s, p, failOnAdmin)
    ensures Judge(s, p, failOnAdmin).status == Unassessed
         && Judge(s, p, failOnAdmin).reason == Some(PartialPopulation)
  {
    assert IsEnforced(c);
    if l :| l in p.probes + p.windowsWritable && l.access == "denied" {
      assert IsDenied(l);
    }
    PermittedExact(s, p, failOnAdmin);
  }

  /** With something writable, nothing permitted and a rule nobody could read, no verdict is reached. */
  lemma UnreadableRuleIsCollectionError(s: State, p: Paths, failOnAdmin: bool, c: Collection, r: PathRule, l: Probe)
    requires s.wdac.policyStatus != 2 && s.wdac.usermodeStatus != 2
    requires c in s.collections && c.mode == "Enabled" && c.ruleCount > 0
    requires r in c.rules && Lower(r.action) == "allow" && r.nonPathConditions == 0
    requires forall e :: e in r.paths ==> Strip(e) == ""
    requires l in p.probes + p.windowsWritable && l.access != "denied" && l.nonAdminWritable == Some(true)
    requires !SomethingPermitted(s, p, failOnAdmin)
    ensures Judge(s, p, failOnAdmin).status == Unassessed
         && Judge(s, p, failOnAdmin).reason == Some(CollectionError)
  {
    NonBlankExact(r.paths);
    if NonBlank(r.paths) != [] {
      assert NonBlank(r.paths)[0] in NonBlank(r.paths);
    }
    assert IsEnforced(c) && Unreadable(c, r) && IsWritable(l);
    PermittedExact(s, p, failOnAdmin);
  }

  /** A host that reports no Windows directory is taken to have the usual one. */
  lemma UsualRoot(s: State, p: Paths, failOnAdmin: bool)
    requires p.windowsRoot == ""
    ensures Judge(s, p, failOnAdmin) == Judge(s, p.(windowsRoot := "C:\\Windows"), failOnAdmin)
  {
  }
}
