/** Whose rules are set aside as administrators', and what an allow rule of anybody else does to the verdict. */
module AdminSids {
  import opened Text
  import opened Blanks
  import opened Contract
  import opened PathRules
  import opened PathTheorems
  import opened Ancestry
  import opened ExpandTheorems
  import opened AppControl
  import opened AppControlTheorems
  import opened AppControlCases

  // ----- texts -----------------------------------------------------------------------------

  lemma {:induction false} UpperJoins(a: string, b: string)
    ensures Upper(a + b) == Upper(a) + Upper(b)
  {
  }

  /** Capitals change nothing in a text of digits, and make none. */
  lemma UpperOfDigits(x: string, digits: string)
    requires forall c :: c in digits ==> IsDigit(c)
    ensures Upper(x) == digits <==> x == digits
  {
    if Upper(x) == digits {
      forall i | 0 <= i < |x| ensures x[i] == digits[i] {
        assert digits[i] in digits && Upper(x)[i] == UpperChar(x[i]);
      }
    }
    if x == digits {
      forall i | 0 <= i < |x| ensures Upper(x)[i] == digits[i] {
        assert digits[i] in digits;
      }
    }
  }

  lemma UpperKeepsDashesOut(x: string)
    requires '-' !in x
    ensures '-' !in Upper(x)
  {
    forall i | 0 <= i < |x| ensures Upper(x)[i] != '-' {
      assert x[i] in x;
    }
  }

  // ----- administrators --------------------------------------------------------------------------

  /** How a SID is compared: without outer blanks, in capitals. */
  function Plain(sid: string): string {
    Upper(Strip(sid))
  }

  /** `stem`, whatever follows it up to a dash, and one of the last parts. */
  ghost predicate EndsIn(s: string, stem: string, last: set<string>) {
    exists d, r :: EndsInPart(s, stem, d, r, last)
  }

  ghost predicate EndsInPart(s: string, stem: string, d: string, r: string, last: set<string>) {
    r in last && (d == "" || d[0] == '-') && s == stem + d + "-" + r
  }

  lemma LastPartEnds(s: string, stem: string, last: set<string>)
    requires stem + "-" <= s && AfterLast(s, '-') in last
    ensures EndsIn(s, stem, last)
  {
    var r := AfterLast(s, '-');
    DashBefore(s, stem, r);
    BetweenEnds(s, stem, r);
    assert EndsInPart(s, stem, s[|stem|..|s| - |r| - 1], r, last);
  }

  lemma DashBefore(s: string, stem: string, r: string)
    requires stem + "-" <= s && |r| <= |s| && r == s[|s| - |r|..] && '-' !in r
    ensures |r| + |stem| < |s|
  {
    assert s[|stem|] == (stem + "-")[|stem|] == '-';
    forall i | |s| - |r| <= i < |s| ensures s[i] != '-' {
      assert s[i] == r[i - (|s| - |r|)] && r[i - (|s| - |r|)] in r;
    }
  }

  lemma BetweenEnds(s: string, stem: string, r: string)
    requires stem + "-" <= s && |r| + |stem| < |s| && r == s[|s| - |r|..] && s[|s| - |r| - 1] == '-'
    ensures var d := s[|stem|..|s| - |r| - 1];
            (d == "" || d[0] == '-') && s == stem + d + "-" + r
  {
    assert s[|stem|] == (stem + "-")[|stem|] == '-';
    assert stem == s[..|stem|];
  }

  lemma EndsByLastPart(s: string, stem: string, last: set<string>)
    requires EndsIn(s, stem, last) && forall r :: r in last ==> '-' !in r
    ensures stem + "-" <= s && AfterLast(s, '-') in last
  {
    var d, r :| EndsInPart(s, stem, d, r, last);
    TailOf(stem + d, r);
    assert s[|stem|] == '-';
  }

  lemma TailOf(front: string, r: string)
    requires '-' !in r
    ensures AfterLast(front + "-" + r, '-') == r
  {
    var s := front + "-" + r;
    forall i | |front| + 1 <= i < |s| ensures s[i] != '-' {
      assert s[i] == r[i - |front| - 1] && s[i] in r;
    }
    AfterLastAt(s, '-', |front| + 1);
  }

  /** The three service accounts, and the four built-in groups of administrators and operators. */
  ghost predicate IsNamed(s: string) {
    || s == "S-1-5-18" || s == "S-1-5-19" || s == "S-1-5-20"
    || s == "S-1-5-32-544" || s == "S-1-5-32-549" || s == "S-1-5-32-550" || s == "S-1-5-32-551"
  }

  /** The domain administrator, and the domain's four groups of administrators. */
  ghost predicate IsDomainRole(r: string) {
    r == "500" || r == "512" || r == "518" || r == "519" || r == "520"
  }

  /** A SID is set aside exactly when it is one of the named ones or a domain's SID that ends in such a role. */
  lemma AdminExact(sid: string)
    ensures IsAdminSid(sid) <==> IsNamed(Plain(sid)) || EndsIn(Plain(sid), "S-1-5-21", ADMIN_RIDS)
  {
    RolesExact();
    assert "S-1-5-21" + "-" == "S-1-5-21-";
    if EndsIn(Plain(sid), "S-1-5-21", ADMIN_RIDS) {
      EndsByLastPart(Plain(sid), "S-1-5-21", ADMIN_RIDS);
    }
    if "S-1-5-21" + "-" <= Plain(sid) && AfterLast(Plain(sid), '-') in ADMIN_RIDS {
      LastPartEnds(Plain(sid), "S-1-5-21", ADMIN_RIDS);
    }
    NamedExact(Plain(sid));
  }

  lemma NamedExact(s: string)
    ensures s in ADMIN_SIDS <==> IsNamed(s)
  {
  }

  lemma RolesExact()
    ensures forall r :: r in ADMIN_RIDS <==> IsDomainRole(r)
    ensures forall r :: r in ADMIN_RIDS ==> '-' !in r && forall c :: c in r ==> IsDigit(c)
  {
  }

  /** Spelling does not matter: case and outer blanks. */
  lemma SpellingDoesNotMatter(sid: string, a: string, other: string, b: string)
    requires Upper(sid) == Upper(other) && forall c :: c in a + b ==> IsSpace(c)
    ensures IsAdminSid(a + other + b) <==> IsAdminSid(sid)
  {
    StripOuter(a, other, b);
    UpperOfStrip(sid, other);
  }

  lemma UpperOfStrip(p: string, q: string)
    requires Upper(p) == Upper(q)
    ensures Plain(p) == Plain(q)
  {
    UpperAlike(p, q);
    StripUnder(UpperChar, p, q);
    UpperAlike(Strip(p), Strip(q));
  }

  /** A domain's SID is set aside exactly when its last part, without blanks, is one of the five roles. */
  lemma DomainSidExact(d: string, r: string)
    requires '-' !in r
    ensures IsAdminSid("S-1-5-21-" + d + "-" + r) <==> IsDomainRole(StripRight(r))
  {
    var stem := "S-1-5-21-";
    DomainSidPlain(stem, d, r);
    RolesInCapitals(StripRight(r));
    ByLastPart(stem, stem + d + "-" + r);
  }

  lemma DomainSidPlain(stem: string, d: string, r: string)
    requires stem == "S-1-5-21-" && '-' !in r
    ensures stem <= Plain(stem + d + "-" + r)
    ensures AfterLast(Plain(stem + d + "-" + r), '-') == Upper(StripRight(r))
  {
    var t := StripRight(r);
    StemIsUpper(stem);
    InFront(stem, d, r);
    assert forall c :: c in t ==> c in r;
    UpperKeepsDashesOut(t);
    UpperJoins(stem + d + "-", t);
    UpperJoins(stem + d, "-");
    UpperJoins(stem, d);
    TailOf(stem + Upper(d), Upper(t));
  }

  lemma InFront(stem: string, d: string, r: string)
    requires stem != "" && !IsSpace(stem[0])
    ensures Strip(stem + d + "-" + r) == stem + d + "-" + StripRight(r)
  {
    StripRightOfTail(stem + d + "-", r);
    assert (stem + d + "-" + r)[0] == stem[0];
  }

  lemma StemIsUpper(stem: string)
    requires stem == "S-1-5-21-"
    ensures stem != "" && !IsSpace(stem[0]) && Upper(stem) == stem && Upper("-") == "-"
  {
  }

  lemma ByLastPart(stem: string, sid: string)
    requires stem == "S-1-5-21-" && stem <= Plain(sid)
    ensures IsAdminSid(sid) <==> IsDomainRole(AfterLast(Plain(sid), '-'))
  {
    NamedExact(Plain(sid));
    NoneIsNamed(stem, Plain(sid));
    RolesExact();
  }

  lemma NoneIsNamed(stem: string, s: string)
    requires stem == "S-1-5-21-" && stem <= s
    ensures !IsNamed(s)
  {
    assert s[6] == '2' && s[7] == '1';
  }

  lemma RolesInCapitals(t: string)
    ensures IsDomainRole(Upper(t)) <==> IsDomainRole(t)
  {
    UpperOfDigits(t, "500");
    UpperOfDigits(t, "512");
    UpperOfDigits(t, "518");
    UpperOfDigits(t, "519");
    UpperOfDigits(t, "520");
  }

  /** The principals that stand for every user. */
  ghost predicate IsBroad(sid: string) {
    || sid == "S-1-1-0"        // Everyone
    || sid == "S-1-5-11"       // Authenticated Users
    || sid == "S-1-5-32-545"   // Users
  }

  /** Everyone, Authenticated Users and Users count as standard users; Administrators do not. */
  lemma BroadPrincipalsCount(sid: string)
    ensures IsBroad(sid) ==> !IsAdminSid(sid)
    ensures sid == "S-1-5-32-544" ==> IsAdminSid(sid)
  {
    NamedExact(sid);
    if IsBroad(sid) || sid == "S-1-5-32-544" {
      BroadIsSidText(sid);
      PlainAlready(sid);
    }
    if IsBroad(sid) {
      BroadIsNotNamed(sid, "S-1-5-21-");
    }
  }

  /** Text as SIDs are written: neither blanks nor small letters. */
  predicate IsSidText(s: string) {
    forall i :: 0 <= i < |s| ==> !IsSpace(s[i]) && !('a' <= s[i] <= 'z')
  }

  lemma PlainAlready(s: string)
    requires IsSidText(s)
    ensures Plain(s) == s
  {
    BareIsStripped(s);
    forall i | 0 <= i < |s| ensures Upper(s)[i] == s[i] {
    }
  }

  lemma BroadIsSidText(sid: string)
    requires IsBroad(sid) || sid == "S-1-5-32-544"
    ensures IsSidText(sid)
  {
  }

  lemma BroadIsNotNamed(sid: string, stem: string)
    requires IsBroad(sid) && stem == "S-1-5-21-"
    ensures !IsNamed(sid) && !(stem <= sid)
  {
    assert |stem| == 9 && stem[6] == '2';
    assert |sid| < 9 || (sid[6] == '3' && sid[11] == '5' && sid[10] == '4');
    assert |sid| == 8 ==> sid[6] == '1' && sid[7] == '1';
  }

  // ----- the verdict -----------------------------------------------------------------------------

  /** An enforced collection's allow rule of a broad principal reaches the location, and nothing takes it away. */
  ghost predicate OpensTo(c: Collection, r: PathRule, location: string, root: string) {
    && c.mode == "Enabled" && c.ruleCount > 0 && r in c.rules && Lower(r.action) == "allow" && IsBroad(r.sid)
    && Given(r.paths, location, root) && !TakenAway(r.exceptions, location, root) && !Refused(c.rules, location, root)
  }

  /** An allow rule for everyone over a location users can write to fails the control, wherever else the look ended. */
  lemma BroadAllowFails(s: State, p: Paths, c: Collection, r: PathRule, l: Probe, failOnAdmin: bool)
    requires s.wdac.policyStatus != 2 && s.wdac.usermodeStatus != 2
    requires c in s.collections && OpensTo(c, r, l.path, HostRoot(p))
    requires l in p.probes + p.windowsWritable && l.access != "denied" && l.nonAdminWritable == Some(true)
    ensures Judge(s, p, failOnAdmin).status == NotSatisfied
  {
    BroadPrincipalsCount(r.sid);
    GrantsExact(c, r, l, HostRoot(p));
    CountedGrantFails(s, p, c, r, l, failOnAdmin);
  }

  lemma CountedGrantFails(s: State, p: Paths, c: Collection, r: PathRule, l: Probe, failOnAdmin: bool)
    requires !WdacEnforcing(s.wdac) && c in s.collections && IsEnforced(c)
    requires l in p.probes + p.windowsWritable && IsWritable(l)
    requires Grants(Windows(HostRoot(p)), c, r, l) && !IsAdminSid(r.sid)
    ensures Judge(s, p, failOnAdmin).status.NotSatisfied?
  {
    assert SomethingPermitted(s, p, failOnAdmin);
    NotSatisfiedExact(s, p, failOnAdmin);
  }

  /** AppLocker's default path rule for the Windows directory: everyone may run what lies in it. */
  ghost predicate IsDefaultRule(r: PathRule, pattern: string) {
    && Lower(r.action) == "allow" && r.sid == "S-1-1-0" && r.exceptions == []
    && pattern in r.paths && pattern == "%WINDIR%\\*"
  }

  lemma DefaultPatternCovers(pattern: string, rest: string, location: string, windowsRoot: string)
    requires pattern == "%WINDIR%\\*" && rest == "\\*" && '%' !in RootOf(windowsRoot)
    requires Simple(RootOf(windowsRoot), RootOf(windowsRoot)) && AtOrBelow(RootOf(windowsRoot), Normalise(location))
    ensures Strip(pattern) != "" && Covers(pattern, location, windowsRoot)
  {
    DefaultPatternForm(pattern, rest, RootOf(windowsRoot));
    BelowRootIsCovered(pattern, rest, location, windowsRoot);
  }

  lemma BelowRootIsCovered(pattern: string, rest: string, location: string, windowsRoot: string)
    requires '%' !in RootOf(windowsRoot) && '%' !in rest
    requires Written(pattern) && pattern == Substitutions(RootOf(windowsRoot))[0].variable + rest
    requires Simple(RootOf(windowsRoot) + rest, RootOf(windowsRoot))
    requires AtOrBelow(RootOf(windowsRoot), Normalise(location))
    ensures Covers(pattern, location, windowsRoot)
  {
    WrittenIsNormal(pattern);
    ExpandsBelowRoot(pattern, rest, windowsRoot);
    InDirectory(RootOf(windowsRoot), Expand(pattern, windowsRoot), Normalise(location));
  }

  lemma ExpandsBelowRoot(pattern: string, rest: string, windowsRoot: string)
    requires '%' !in RootOf(windowsRoot) && '%' !in rest
    requires Normalise(pattern) == Substitutions(RootOf(windowsRoot))[0].variable + rest
    ensures |Expand(pattern, windowsRoot)| == 1 && Expand(pattern, windowsRoot)[0] == RootOf(windowsRoot) + rest
  {
    ExpandMeaning(0, rest, pattern, windowsRoot);
  }

  lemma DefaultPatternForm(pattern: string, rest: string, root: string)
    requires pattern == "%WINDIR%\\*" && rest == "\\*" && root != ""
    ensures Written(pattern) && Strip(pattern) != "" && '%' !in rest
    ensures pattern == Substitutions(root)[0].variable + rest
    ensures Simple(root, root) ==> Simple(root + rest, root)
  {
    IsWritten(pattern);
    BareIsStripped(pattern);
  }

  lemma IsWritten(pattern: string)
    requires pattern == "%WINDIR%\\*"
    ensures Written(pattern) && HasBareEnds(pattern)
  {
  }

  lemma InDirectory(dir: string, es: seq<string>, loc: string)
    requires |es| == 1 && Simple(es[0], dir) && AtOrBelow(dir, loc)
    ensures SomeContains(es, loc)
  {
    SimpleRulesAreExact(es[0], dir, loc);
  }

  lemma OpensByPattern(c: Collection, r: PathRule, pattern: string, location: string, root: string)
    requires c.mode == "Enabled" && c.ruleCount > 0 && r in c.rules && Lower(r.action) == "allow" && IsBroad(r.sid)
    requires pattern in r.paths && Strip(pattern) != "" && Covers(pattern, location, root) && r.exceptions == []
    requires forall q :: q in c.rules ==> Lower(q.action) != "deny"
    ensures OpensTo(c, r, location, root)
  {
    assert Given(r.paths, location, root);
  }

  /** So that rule, with nothing denied, fails a host whose users can write anywhere in the Windows directory. */
  lemma DefaultRuleFails(s: State, p: Paths, c: Collection, r: PathRule, pattern: string, l: Probe, failOnAdmin: bool)
    requires s.wdac.policyStatus != 2 && s.wdac.usermodeStatus != 2
    requires c in s.collections && c.mode == "Enabled" && c.ruleCount > 0
    requires r in c.rules && IsDefaultRule(r, pattern)
    requires forall q :: q in c.rules ==> Lower(q.action) != "deny"
    requires l in p.probes + p.windowsWritable && l.access != "denied" && l.nonAdminWritable == Some(true)
    requires var root := RootOf(HostRoot(p)); '%' !in root && Simple(root, root) && AtOrBelow(root, Normalise(l.path))
    ensures Judge(s, p, failOnAdmin).status == NotSatisfied
  {
    DefaultPatternCovers(pattern, "\\*", l.path, HostRoot(p));
    OpensByPattern(c, r, pattern, l.path, HostRoot(p));
    BroadAllowFails(s, p, c, r, l, failOnAdmin);
  }
}
