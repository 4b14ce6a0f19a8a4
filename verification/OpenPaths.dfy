/** Whether a reported location holds a path that really may be run. */
module OpenPaths {
  import opened Text
  import opened Contract
  import opened PathRules
  import opened PathTheorems
  import opened Ancestry
  import opened AppControl
  import opened AppControlTheorems
  import opened RuleAlgebra

  // ----- open paths ----------------------------------------------------------------------

  /** Some pattern of the list contains the path, which is in normal form. */
  predicate ListContains(patterns: seq<string>, q: string, root: string) {
    exists p | p in patterns :: SomeContains(Expand(p, root), q)
  }

  /** An exception of the rule or a deny of its collection contains the path. */
  predicate Excluded(r: PathRule, denies: seq<string>, q: string, root: string) {
    ListContains(NonBlank(r.exceptions), q, root) || ListContains(denies, q, root)
  }

  /** A path at or below the location that the rule allows and nothing takes away. */
  ghost predicate IsOpen(r: PathRule, denies: seq<string>, location: string, root: string, q: string) {
    AtOrBelow(Normalise(location), q) && ListContains(NonBlank(r.paths), q, root) && !Excluded(r, denies, q, root)
  }

  ghost predicate HasOpenPath(r: PathRule, denies: seq<string>, location: string, root: string) {
    exists q :: IsOpen(r, denies, location, root, q)
  }

  /** A directory below the location that some pattern of the rule names and nothing takes away. */
  ghost predicate NamesOpenBelow(r: PathRule, denies: seq<string>, loc: string, root: string, a: string) {
    && loc + "\\" <= a && !Excluded(r, denies, a, root)
    && exists p, e :: p in NonBlank(r.paths) && e in Expand(p, root) && e != "" && Names(e, a)
  }

  lemma ListContainsDownwards(patterns: seq<string>, dir: string, q: string, root: string)
    requires ListContains(patterns, dir, root) && AtOrBelow(dir, q)
    ensures ListContains(patterns, q, root)
  {
    var p :| p in patterns && SomeContains(Expand(p, root), dir);
    var e :| e in Expand(p, root) && CandidateContains(e, dir);
    ContainsClosedDownwards(e, dir, q);
    assert SomeContains(Expand(p, root), q);
  }

  lemma ExcludedDownwards(r: PathRule, denies: seq<string>, dir: string, q: string, root: string)
    requires AtOrBelow(dir, q)
    ensures Excluded(r, denies, dir, root) ==> Excluded(r, denies, q, root)
  {
    if ListContains(NonBlank(r.exceptions), dir, root) { ListContainsDownwards(NonBlank(r.exceptions), dir, q, root); }
    if ListContains(denies, dir, root) { ListContainsDownwards(denies, dir, q, root); }
  }

  lemma NamedIsContained(e: string, a: string)
    requires e != "" && Names(e, a)
    ensures CandidateContains(e, a)
  {
    ContainsExact(e, a);
    assert a[..|a|] == a;
  }

  /** Where a candidate contains a path at or below the location: at the location, or by a name below it. */
  lemma ContainedFrom(e: string, loc: string, q: string)
    requires AtOrBelow(loc, q) && CandidateContains(e, q)
    ensures CandidateContains(e, loc) || exists a :: loc + "\\" <= a && AtOrBelow(a, q) && Names(e, a)
  {
    ContainsExact(e, q);
    ContainsExact(e, loc);
    var k :| 0 <= k <= |q| && (k == |q| || q[k] == '\\') && Names(e, q[..k]);
    if k <= |loc| {
      assert q[..k] == loc[..k] && (k < |loc| ==> loc[k] == q[k]);
      assert NamesAnAncestor(e, loc);
    } else {
      assert loc + "\\" <= q[..k];
      assert AtOrBelow(q[..k], q);
    }
  }

  lemma OpenHasName(r: PathRule, denies: seq<string>, location: string, root: string, q: string)
    requires IsOpen(r, denies, location, root, q)
    ensures ListContains(NonBlank(r.paths), Normalise(location), root)
            || exists a :: NamesOpenBelow(r, denies, Normalise(location), root, a)
  {
    var p :| p in NonBlank(r.paths) && SomeContains(Expand(p, root), q);
    var e :| e in Expand(p, root) && CandidateContains(e, q);
    OpenFrom(r, denies, Normalise(location), root, q, p, e);
  }

  lemma OpenFrom(r: PathRule, denies: seq<string>, loc: string, root: string, q: string, p: string, e: string)
    requires p in NonBlank(r.paths) && e in Expand(p, root) && CandidateContains(e, q)
    requires AtOrBelow(loc, q) && !Excluded(r, denies, q, root)
    ensures ListContains(NonBlank(r.paths), loc, root) || exists a :: NamesOpenBelow(r, denies, loc, root, a)
  {
    ContainedFrom(e, loc, q);
    if CandidateContains(e, loc) {
      assert SomeContains(Expand(p, root), loc);
    } else {
      var a :| loc + "\\" <= a && AtOrBelow(a, q) && Names(e, a);
      NameBelowIsOpen(r, denies, loc, root, q, p, e, a);
    }
  }

  lemma NameBelowIsOpen(r: PathRule, denies: seq<string>, loc: string, root: string, q: string, p: string, e: string,
                        a: string)
    requires p in NonBlank(r.paths) && e in Expand(p, root) && e != "" && Names(e, a)
    requires loc + "\\" <= a && AtOrBelow(a, q) && !Excluded(r, denies, q, root)
    ensures NamesOpenBelow(r, denies, loc, root, a)
  {
    ExcludedDownwards(r, denies, a, q, root);
  }

  lemma NameIsOpen(r: PathRule, denies: seq<string>, location: string, root: string, a: string)
    requires NamesOpenBelow(r, denies, Normalise(location), root, a)
    ensures IsOpen(r, denies, location, root, a)
  {
    var p, e :| p in NonBlank(r.paths) && e in Expand(p, root) && e != "" && Names(e, a);
    NamedIsContained(e, a);
    assert SomeContains(Expand(p, root), a);
  }

  lemma PermittedIsNotExcluded(r: PathRule, denies: seq<string>, location: string, root: string)
    requires Permits(Windows(root), r, denies, location)
    ensures !Excluded(r, denies, Normalise(location), root)
  {
    var m := Windows(root);
    assert forall p :: m.contains(p, location) == Contains(p, location, root);
  }

  /**
   When a reported location holds a path that is allowed, not excepted and not denied: when the rule contains the
   whole location, or names something below it that no exception and no deny contains.
   */
  lemma OpenPathExact(r: PathRule, denies: seq<string>, location: string, root: string)
    requires Permits(Windows(root), r, denies, location)
    ensures HasOpenPath(r, denies, location, root) <==>
            || ListContains(NonBlank(r.paths), Normalise(location), root)
            || exists a :: NamesOpenBelow(r, denies, Normalise(location), root, a)
  {
    var loc := Normalise(location);
    PermittedIsNotExcluded(r, denies, location, root);
    if ListContains(NonBlank(r.paths), loc, root) {
      assert IsOpen(r, denies, location, root, loc);
    }
    if a :| NamesOpenBelow(r, denies, loc, root, a) {
      NameIsOpen(r, denies, location, root, a);
    }
    if q :| IsOpen(r, denies, location, root, q) {
      OpenHasName(r, denies, location, root, q);
    }
  }

  // ----- rules for plain directories ------------------------------------------------------------

  /** The directory of a rule written `X` or `X\*`. */
  function DirectoryOf(e: string): string {
    if EndsInAnything(e) then e[..|e| - 2] else e
  }

  ghost predicate PlainRule(r: PathRule, root: string) {
    forall p, e :: p in NonBlank(r.paths) && e in Expand(p, root) ==> Simple(e, DirectoryOf(e))
  }

  /** Some directory of the rule lies below the location and no exception and no deny contains it. */
  ghost predicate OpenDirectoryBelow(r: PathRule, denies: seq<string>, loc: string, root: string) {
    exists p, e :: p in NonBlank(r.paths) && e in Expand(p, root)
                   && loc + "\\" <= DirectoryOf(e) && !Excluded(r, denies, DirectoryOf(e), root)
  }

  lemma PlainNameBelow(r: PathRule, denies: seq<string>, loc: string, root: string, a: string)
    requires PlainRule(r, root) && NamesOpenBelow(r, denies, loc, root, a)
    ensures ListContains(NonBlank(r.paths), loc, root) || OpenDirectoryBelow(r, denies, loc, root)
  {
    var p, e :| p in NonBlank(r.paths) && e in Expand(p, root) && e != "" && Names(e, a);
    var dir := DirectoryOf(e);
    SimpleNames(e, dir, a);
    ExcludedDownwards(r, denies, dir, a, root);
    Related(dir, loc, a);
    SimpleRulesAreExact(e, dir, loc);
    if AtOrBelow(dir, loc) {
      assert SomeContains(Expand(p, root), loc);
    } else {
      assert loc + "\\" <= dir;
    }
  }

  lemma PlainDirectoryBelow(r: PathRule, denies: seq<string>, loc: string, root: string)
    requires PlainRule(r, root) && OpenDirectoryBelow(r, denies, loc, root)
    ensures exists a :: NamesOpenBelow(r, denies, loc, root, a)
  {
    var p, e :| p in NonBlank(r.paths) && e in Expand(p, root)
                && loc + "\\" <= DirectoryOf(e) && !Excluded(r, denies, DirectoryOf(e), root);
    SimpleNames(e, DirectoryOf(e), DirectoryOf(e));
    assert NamesOpenBelow(r, denies, loc, root, DirectoryOf(e));
  }

  /** For rules of plain directories: contained, or one of the directories lies below and is not taken away itself. */
  lemma PlainOpenPathExact(r: PathRule, denies: seq<string>, location: string, root: string)
    requires Permits(Windows(root), r, denies, location) && PlainRule(r, root)
    ensures HasOpenPath(r, denies, location, root) <==>
            ListContains(NonBlank(r.paths), Normalise(location), root)
                || OpenDirectoryBelow(r, denies, Normalise(location), root)
  {
    var loc := Normalise(location);
    OpenPathExact(r, denies, location, root);
    if a :| NamesOpenBelow(r, denies, loc, root, a) {
      PlainNameBelow(r, denies, loc, root, a);
    }
    if OpenDirectoryBelow(r, denies, loc, root) {
      PlainDirectoryBelow(r, denies, loc, root);
    }
  }

  // ----- a failure without an open path -------------------------------------------------------------

  lemma OneNonBlank(dir: string)
    requires Normalise(dir) != ""
    ensures NonBlank([dir]) == [dir]
  {
    assert Strip(dir) != "" by {
      if Strip(dir) == "" { EmptyForm(dir); }
    }
    assert [dir][1..] == [];
  }

  lemma EmptyForm(dir: string)
    requires Strip(dir) == ""
    ensures Normalise(dir) == ""
  {
    assert ReplaceChar("", '/', '\\') == "" && Upper("") == "" && TrimSeparators("") == "";
  }

  /**
   A rule and a deny for one and the same directory: the directory above is reported, though nothing in it is
   open.
   */
  lemma DeniedDirectoryIsReported(r: PathRule, dir: string, location: string, root: string)
    requires '%' !in dir && Simple(Normalise(dir), Normalise(dir)) && Normalise(location) + "\\" <= Normalise(dir)
    requires r.paths == [dir] && r.exceptions == []
    ensures Permits(Windows(root), r, [dir], location) && !HasOpenPath(r, [dir], location, root)
  {
    OneNonBlank(dir);
    DirectoryBelowIsCovered(dir, location, root);
    ReportedPlainly(Windows(root), r, dir, location);
    forall q ensures !IsOpen(r, [dir], location, root, q) {
      NothingOpen(r, dir, location, root, q);
    }
  }

  lemma DirectoryBelowIsCovered(dir: string, location: string, root: string)
    requires '%' !in dir && Simple(Normalise(dir), Normalise(dir)) && Normalise(location) + "\\" <= Normalise(dir)
    ensures Covers(dir, location, root) && !Contains(dir, location, root)
  {
    OneCandidate(dir, location, root);
    DirectoryBelow(Normalise(dir), Normalise(location));
  }

  lemma DirectoryBelow(e: string, loc: string)
    requires Simple(e, e) && loc + "\\" <= e
    ensures CandidateCovers(e, loc) && !CandidateContains(e, loc)
  {
    SimpleRulesAreExact(e, e, loc);
  }

  lemma NothingOpen(r: PathRule, dir: string, location: string, root: string, q: string)
    requires NonBlank(r.paths) == [dir]
    ensures !IsOpen(r, [dir], location, root, q)
  {
  }

  lemma ReportedPlainly(m: Matcher, r: PathRule, dir: string, location: string)
    requires NonBlank(r.paths) == [dir] && r.exceptions == []
    requires m.covers(dir, location) && !m.contains(dir, location)
    ensures Permits(m, r, [dir], location)
  {
    assert dir in NonBlank(r.paths);
    assert NonBlank(r.exceptions) == [];
  }

  lemma AllowIsNoDeny(r: PathRule)
    requires r.IsAllow()
    ensures !r.IsDeny()
  {
    assert |"allow"| == 5 && |"deny"| == 4;
  }

  lemma DeniesOfPair(a: PathRule, d: PathRule)
    requires a.IsAllow() && d.IsDeny()
    ensures Denies([a, d]) == NonBlank(d.paths)
  {
    AllowIsNoDeny(a);
    assert [a, d] == [a] + [d];
    DeniesAppend([a], [d]);
    OneRuleDenies(a);
    OneRuleDenies(d);
  }

  /** So the check fails on a host whose rules leave no path open, at that location or at any other. */
  lemma FailsThoughAllIsDenied(s: State, p: Paths, c: Collection, a: PathRule, d: PathRule, dir: string, l: Probe,
                               failOnAdmin: bool)
    requires !WdacEnforcing(s.wdac) && s.collections == [c] && IsEnforced(c) && c.rules == [a, d]
    requires a.IsAllow() && d.IsDeny() && a.paths == [dir] && d.paths == [dir] && a.exceptions == []
    requires !IsAdminSid(a.sid)
    requires '%' !in dir && Simple(Normalise(dir), Normalise(dir)) && Normalise(l.path) + "\\" <= Normalise(dir)
    requires l in p.probes + p.windowsWritable && IsWritable(l)
    ensures Judge(s, p, failOnAdmin).status.NotSatisfied?
    ensures forall r, location :: r in c.rules && r.IsAllow() ==>
              !HasOpenPath(r, Denies(c.rules), location, HostRoot(p))
  {
    OneNonBlank(dir);
    DeniesOfPair(a, d);
    DeniedDirectoryIsReported(a, dir, l.path, HostRoot(p));
    assert a in c.rules && c in s.collections;
    assert Grants(Windows(HostRoot(p)), c, a, l);
    NotSatisfiedExact(s, p, failOnAdmin);
    forall r, location | r in c.rules && r.IsAllow() ensures !HasOpenPath(r, Denies(c.rules), location, HostRoot(p)) {
      NothingOpenAnywhere(a, d, r, dir, location, HostRoot(p));
    }
  }

  lemma NothingOpenAnywhere(a: PathRule, d: PathRule, r: PathRule, dir: string, location: string, root: string)
    requires d.IsDeny() && NonBlank(a.paths) == [dir] && r in [a, d] && r.IsAllow()
    ensures !HasOpenPath(r, [dir], location, root)
  {
    AllowIsNoDeny(r);
    forall q ensures !IsOpen(r, [dir], location, root, q) {
      NothingOpen(r, dir, location, root, q);
    }
  }

  /** For instance `C:\USERS\A` below a writable `C:\USERS`. */
  lemma DeniedExample(r: PathRule, dir: string, location: string, root: string)
    requires dir == "C:\\USERS\\A" && location == "C:\\USERS" && r.paths == [dir] && r.exceptions == []
    ensures Permits(Windows(root), r, [dir], location) && !HasOpenPath(r, [dir], location, root)
  {
    ExampleForms(dir, location);
    DeniedDirectoryIsReported(r, dir, location, root);
  }

  lemma ExampleForms(dir: string, location: string)
    requires dir == "C:\\USERS\\A" && location == "C:\\USERS"
    ensures Normalise(dir) == dir && Normalise(location) == location
    ensures '%' !in dir && Simple(dir, dir) && location + "\\" <= dir
  {
    UsersForm();
    BelowUsers(dir);
    WrittenIsNormal(dir);
    UsersAbove(dir, location);
  }

  lemma UsersAbove(dir: string, location: string)
    requires dir == "C:\\USERS\\A" && location == "C:\\USERS"
    ensures location + "\\" <= dir
  {
    assert dir == location + "\\" + "A";
  }

  lemma BelowUsers(dir: string)
    requires dir == "C:\\USERS\\A"
    ensures Written(dir) && '%' !in dir && Simple(dir, dir)
  {
    assert |dir| == 10 && dir[9] == 'A';
  }
}
