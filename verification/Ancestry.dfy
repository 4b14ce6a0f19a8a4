/** Rules for one plain directory, against the directories a path really lies in. */
module Ancestry {
  import opened Text
  import opened Glob
  import opened PathRules
  import opened PathTheorems
  import opened ExpandTheorems

  predicate EndsInSeparator(t: string) {
    t != "" && t[|t| - 1] == '\\'
  }

  /** A directory with exactly one separator behind its name; a drive root has its own. */
  function WithSeparator(dir: string): string {
    if EndsInSeparator(dir) then dir else dir + "\\"
  }

  /** `loc` is `dir` or lies in it. */
  predicate IsAncestor(dir: string, loc: string) {
    loc == dir || WithSeparator(dir) <= loc
  }

  /** `loc` lies in a root that keeps its separator, one name below it. */
  predicate JustBelowRoot(root: string, loc: string) {
    EndsInSeparator(root) && root <= loc && |root| < |loc| && loc[|root|] != '\\'
  }

  /** `loc` is `dir` without some of the separators it ends in, down to a bare one; its mere name does not count. */
  predicate AmongSeparators(loc: string, dir: string) {
    loc <= dir && |StripSeparators(dir)| <= |loc| < |dir| && (loc != StripSeparators(dir) || loc == "")
  }

  // ----- rules without a wildcard -------------------------------------------------

  /** The code's own test of a rule without a wildcard. */
  lemma PlainContains(e: string, loc: string)
    requires e != "" && !HasWildcard(e)
    ensures CandidateContains(e, loc) <==> AtOrBelow(e, loc)
  {
    ContainsExact(e, loc);
    assert Trimmed(e) == "" by {
      assert e[|e| - 1] in e && !IsWildcard(e[|e| - 1]);
    }
    forall k | 0 <= k <= |loc| ensures Names(e, loc[..k]) <==> loc[..k] == e {
      LiteralMatch(e, loc[..k]);
    }
    if AtOrBelow(e, loc) {
      assert loc[..|e|] == e;
    }
  }

  lemma PlainStem(e: string)
    requires !HasWildcard(e)
    ensures Stem(e) == StripSeparators(e)
  {
    LiteralBeforeWildcard(e, "");
    assert e + "" == e;
  }

  /** A plain rule contains what lies in its directory, except just below a root that keeps its separator. */
  lemma PlainContainsExact(e: string, loc: string)
    requires e != "" && !HasWildcard(e)
    ensures (CandidateContains(e, loc) <==> IsAncestor(e, loc)) <==> !JustBelowRoot(e, loc)
  {
    PlainContains(e, loc);
    if EndsInSeparator(e) && e <= loc && |e| < |loc| {
      assert e + "\\" <= loc <==> loc[|e|] == '\\';
    }
  }

  lemma {:induction false} OnlySeparatorsGo(t: string)
    ensures forall i :: |StripSeparators(t)| <= i < |t| ==> t[i] == '\\'
  {
    if t != "" && t[|t| - 1] == '\\' {
      OnlySeparatorsGo(t[..|t| - 1]);
    }
  }

  lemma NarrowerIsAncestor(e: string, loc: string)
    requires !HasWildcard(e)
    ensures CandidateNarrower(e, loc) ==> IsAncestor(loc, e)
  {
    PlainStem(e);
  }

  lemma AncestorIsNarrower(e: string, loc: string)
    requires !HasWildcard(e) && loc != e && !JustBelowRoot(loc, e)
    ensures IsAncestor(loc, e) ==> CandidateNarrower(e, loc) || AmongSeparators(loc, e)
  {
    PlainStem(e);
    if IsAncestor(loc, e) {
      assert loc + "\\" <= e;
      assert e[..|loc|] == loc;
    }
  }

  lemma AmongIsNotNarrower(e: string, loc: string)
    requires !HasWildcard(e) && AmongSeparators(loc, e)
    ensures IsAncestor(loc, e) && !CandidateNarrower(e, loc) && !AtOrBelow(e, loc) && !JustBelowRoot(loc, e)
  {
    PlainStem(e);
    OnlySeparatorsGo(e);
    assert e[..|loc|] == loc;
    assert loc != "" && |loc| > |Stem(e)| ==> loc[|loc| - 1] == e[|loc| - 1] == '\\';
    assert e[|loc|] == '\\';
    assert loc == "" ==> e[..1] == "\\";
  }

  /**
   Coverage by a plain rule is being related either way, except across a root that keeps its separator, and between a
   directory and itself with fewer of the separators it ends in.
   */
  lemma PlainCoversExact(e: string, loc: string)
    requires e != "" && !HasWildcard(e)
    ensures (CandidateCovers(e, loc) <==> IsAncestor(e, loc) || IsAncestor(loc, e))
            <==> !JustBelowRoot(e, loc) && !JustBelowRoot(loc, e) && !AmongSeparators(loc, e)
  {
    PlainContainsExact(e, loc);
    PlainContains(e, loc);
    NarrowerIsAncestor(e, loc);
    PlainStem(e);
    if AmongSeparators(loc, e) {
      AmongIsNotNarrower(e, loc);
    } else if loc != e && !JustBelowRoot(loc, e) {
      AncestorIsNarrower(e, loc);
    }
  }

  /** The same for a rule written `dir` or `dir\*`: contained is what lies in it, and only a root above it is missed. */
  lemma SimpleRulesByAncestry(e: string, dir: string, loc: string)
    requires Simple(e, dir)
    ensures CandidateContains(e, loc) <==> IsAncestor(dir, loc)
    ensures (CandidateCovers(e, loc) <==> IsAncestor(dir, loc) || IsAncestor(loc, dir)) <==> !JustBelowRoot(loc, dir)
  {
    SimpleRulesAreExact(e, dir, loc);
    if EndsInSeparator(loc) && loc <= dir && |loc| < |dir| {
      assert loc + "\\" <= dir <==> dir[|loc|] == '\\';
    }
  }

  // ----- on patterns and locations as they are written --------------------------------

  /** Folding brings in no character but a back-slash and capitals. */
  lemma FoldKeepsOut(p: string, c: char)
    requires c !in p && c != '\\' && !('A' <= c <= 'Z')
    ensures c !in Upper(ReplaceChar(p, '/', '\\'))
  {
    forall i | 0 <= i < |p| ensures Upper(ReplaceChar(p, '/', '\\'))[i] != c {
      assert p[i] in p;
    }
  }

  lemma NormaliseKeepsOut(p: string, c: char)
    requires c !in p && c != '\\' && !('A' <= c <= 'Z')
    ensures c !in Normalise(p)
  {
    assert c !in Strip(p) by {
      assert forall d :: d in StripLeft(p) ==> d in p;
    }
    FoldKeepsOut(Strip(p), c);
  }

  /** A rule that mentions no variable stands for itself. */
  lemma PlainExpansion(pattern: string, windowsRoot: string)
    requires '%' !in pattern
    ensures Expand(pattern, windowsRoot) == [Normalise(pattern)]
  {
    var text, subs := Normalise(pattern), Substitutions(RootOf(windowsRoot));
    NormaliseKeepsOut(pattern, '%');
    NoVariables(text, subs);
    ExpandFixed(pattern, windowsRoot, subs);
  }

  lemma NoVariables(text: string, subs: seq<Substitution>)
    requires '%' !in text
    ensures !Occurs(text, REMOVABLE) && !Occurs(text, HOT) && SubstituteAll([text], subs) == [text]
  {
    AbsentWithoutPercent(text, REMOVABLE);
    AbsentWithoutPercent(text, HOT);
    SubstituteNothing([text], subs);
  }

  lemma OneCandidate(pattern: string, location: string, windowsRoot: string)
    requires '%' !in pattern
    ensures Contains(pattern, location, windowsRoot) <==> CandidateContains(Normalise(pattern), Normalise(location))
    ensures Covers(pattern, location, windowsRoot) <==> CandidateCovers(Normalise(pattern), Normalise(location))
  {
    PlainExpansion(pattern, windowsRoot);
    OfOneCandidate(Normalise(pattern), Normalise(location));
  }

  lemma OfOneCandidate(e: string, loc: string)
    ensures SomeContains([e], loc) <==> CandidateContains(e, loc)
    ensures SomeNarrower([e], loc) <==> CandidateNarrower(e, loc)
  {
    assert e in [e];
  }

  lemma NormaliseKeepsPlain(pattern: string)
    requires !HasWildcard(pattern)
    ensures !HasWildcard(Normalise(pattern))
  {
    NormaliseKeepsOut(pattern, '*');
    NormaliseKeepsOut(pattern, '?');
  }

  /** What a rule without wildcard or variable makes of a location, exactly. */
  lemma PlainRulesExact(pattern: string, location: string, windowsRoot: string)
    requires '%' !in pattern && !HasWildcard(pattern)
    requires Normalise(pattern) != ""
    ensures var dir, loc := Normalise(pattern), Normalise(location);
            && ((Contains(pattern, location, windowsRoot) <==> IsAncestor(dir, loc)) <==> !JustBelowRoot(dir, loc))
            && ((Covers(pattern, location, windowsRoot) <==> IsAncestor(dir, loc) || IsAncestor(loc, dir))
                <==> !JustBelowRoot(dir, loc) && !JustBelowRoot(loc, dir) && !AmongSeparators(loc, dir))
  {
    OneCandidate(pattern, location, windowsRoot);
    NormaliseKeepsPlain(pattern);
    PlainContainsExact(Normalise(pattern), Normalise(location));
    PlainCoversExact(Normalise(pattern), Normalise(location));
  }

  /** Both tests tell ancestry of the location. */
  ghost predicate TellsAncestry(pattern: string, location: string, windowsRoot: string) {
    var dir, loc := Normalise(pattern), Normalise(location);
    && (Contains(pattern, location, windowsRoot) <==> IsAncestor(dir, loc))
    && (Covers(pattern, location, windowsRoot) <==> IsAncestor(dir, loc) || IsAncestor(loc, dir))
  }

  lemma JustBelow(pattern: string)
    requires EndsInSeparator(Normalise(pattern))
    ensures var location := Normalise(pattern) + "A";
            && Normalise(location) == location && !EndsInSeparator(location)
            && JustBelowRoot(Normalise(pattern), location)
  {
    var dir := Normalise(pattern);
    NormaliseClean(dir + "A");
    assert TrimSeparators(dir + "A") == dir + "A";
  }

  /**
   A rule without wildcard or variable is judged by ancestry at every location that does not itself end in a separator
   exactly when its normalised directory does not end in one.
   */
  lemma PlainPatternAgrees(pattern: string, windowsRoot: string)
    requires '%' !in pattern && !HasWildcard(pattern) && Normalise(pattern) != ""
    ensures (forall location | !EndsInSeparator(Normalise(location)) ::
               TellsAncestry(pattern, location, windowsRoot)) <==> !EndsInSeparator(Normalise(pattern))
  {
    if EndsInSeparator(Normalise(pattern)) {
      JustBelow(pattern);
      RootsDisagree(pattern, Normalise(pattern) + "A", windowsRoot);
    } else {
      forall location | !EndsInSeparator(Normalise(location)) ensures TellsAncestry(pattern, location, windowsRoot) {
        OthersAgree(pattern, location, windowsRoot);
      }
    }
  }

  lemma RootsDisagree(pattern: string, location: string, windowsRoot: string)
    requires '%' !in pattern && !HasWildcard(pattern) && Normalise(pattern) != ""
    requires JustBelowRoot(Normalise(pattern), Normalise(location))
    ensures !TellsAncestry(pattern, location, windowsRoot)
  {
    PlainRulesExact(pattern, location, windowsRoot);
  }

  lemma OthersAgree(pattern: string, location: string, windowsRoot: string)
    requires '%' !in pattern && !HasWildcard(pattern) && Normalise(pattern) != ""
    requires !EndsInSeparator(Normalise(pattern)) && !EndsInSeparator(Normalise(location))
    ensures TellsAncestry(pattern, location, windowsRoot)
  {
    PlainRulesExact(pattern, location, windowsRoot);
    NothingAmong(Normalise(location), Normalise(pattern));
  }

  lemma NothingAmong(loc: string, dir: string)
    requires !EndsInSeparator(dir)
    ensures !AmongSeparators(loc, dir)
  {
  }

  // ----- the drive root -----------------------------------------------------------------

  /** A rule for a root reaches nothing one name below it, and a rule one name below is not seen from the root. */
  lemma RootsAreMissed(pattern: string, location: string, windowsRoot: string)
    requires '%' !in pattern && !HasWildcard(pattern)
    requires Normalise(pattern) != ""
    ensures JustBelowRoot(Normalise(pattern), Normalise(location)) ==>
              && IsAncestor(Normalise(pattern), Normalise(location))
              && !Contains(pattern, location, windowsRoot) && !Covers(pattern, location, windowsRoot)
    ensures JustBelowRoot(Normalise(location), Normalise(pattern)) ==>
              && IsAncestor(Normalise(location), Normalise(pattern))
              && !Covers(pattern, location, windowsRoot)
  {
    PlainRulesExact(pattern, location, windowsRoot);
  }

  /** Text in the form every comparison is made in, and without blanks. */
  predicate Written(t: string) {
    && t != "" && (|t| > 3 ==> t[|t| - 1] != '\\')
    && forall c | c in t :: c != '/' && !('a' <= c <= 'z') && !IsSpace(c)
  }

  lemma WrittenIsNormal(t: string)
    requires Written(t)
    ensures Normalise(t) == t
  {
    assert forall i :: 0 <= i < |t| ==> t[i] in t;
    NormaliseClean(t);
  }

  lemma RootForm()
    ensures Normalise("C:\\") == "C:\\"
  {
    WrittenIsNormal("C:\\");
  }

  lemma UsersForm()
    ensures Normalise("C:\\USERS") == "C:\\USERS"
  {
    var t := "C:\\USERS";
    assert |t| == 8 && t[7] == 'S';
    WrittenIsNormal(t);
  }

  lemma RootIsPlain()
    ensures JustBelowRoot("C:\\", "C:\\USERS")
    ensures !HasWildcard("C:\\") && '%' !in "C:\\" && !HasWildcard("C:\\USERS") && '%' !in "C:\\USERS"
  {
    assert "C:\\USERS"[7] == 'S' && "C:\\USERS"[3] == 'U' && "C:\\"[2] == '\\' && "C:\\"[1] == ':';
    assert "C:\\" <= "C:\\USERS";
  }

  /** So a rule for `C:\` itself neither contains nor covers `C:\USERS`. */
  lemma DriveRootRuleIsMissed(windowsRoot: string)
    ensures !Contains("C:\\", "C:\\USERS", windowsRoot) && !Covers("C:\\", "C:\\USERS", windowsRoot)
  {
    RootForm();
    UsersForm();
    RootIsPlain();
    RootsAreMissed("C:\\", "C:\\USERS", windowsRoot);
  }

  lemma StarForm(pattern: string, dir: string)
    requires pattern == "C:\\USERS\\*" && dir == "C:\\USERS"
    ensures Written(pattern) && '%' !in pattern && Simple(pattern, dir)
  {
    assert pattern[9] == '*' && dir[7] == 'S';
    assert pattern == dir + "\\*";
  }

  lemma StarRuleIsMissed(pattern: string, dir: string, location: string, windowsRoot: string)
    requires '%' !in pattern && Simple(Normalise(pattern), dir)
    requires JustBelowRoot(Normalise(location), dir)
    ensures !Covers(pattern, location, windowsRoot) && IsAncestor(Normalise(location), dir)
  {
    var e, loc := Normalise(pattern), Normalise(location);
    OneCandidate(pattern, location, windowsRoot);
    StarIsMissed(e, dir, loc);
  }

  lemma StarIsMissed(e: string, dir: string, loc: string)
    requires Simple(e, dir) && JustBelowRoot(loc, dir)
    ensures !CandidateCovers(e, loc) && IsAncestor(loc, dir)
  {
    SimpleRulesByAncestry(e, dir, loc);
  }

  lemma RootHoldsUsers(root: string, dir: string)
    requires root == "C:\\" && dir == "C:\\USERS"
    ensures Normalise(root) == root && JustBelowRoot(root, dir)
  {
    RootForm();
    RootIsPlain();
  }

  /** And a rule for `C:\USERS\*` is not seen to permit anything in a writable `C:\`. */
  lemma DriveRootLocationIsMissed(pattern: string, dir: string, location: string, windowsRoot: string)
    requires pattern == "C:\\USERS\\*" && dir == "C:\\USERS" && location == "C:\\"
    ensures !Covers(pattern, location, windowsRoot) && IsAncestor(Normalise(location), dir)
  {
    StarForm(pattern, dir);
    WrittenIsNormal(pattern);
    RootHoldsUsers(location, dir);
    StarRuleIsMissed(pattern, dir, location, windowsRoot);
  }

  /** Written with a star, a rule for a drive root contains all that lies on the drive. */
  lemma DriveRootWithStar(drive: string, loc: string)
    requires drive != "" && !HasWildcard(drive) && !EndsInSeparator(drive)
    ensures CandidateContains(drive + "\\" + "*", loc) <==> loc == drive || IsAncestor(drive + "\\", loc)
  {
    assert drive + "\\" + "*" == drive + "\\*";
    SimpleRulesAreExact(drive + "\\*", drive, loc);
  }
}
