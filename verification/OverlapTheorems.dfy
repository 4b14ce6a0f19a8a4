/** What covering is meant to detect, and exactly which overlaps it misses. */
module OverlapTheorems {
  import opened Glob
  import opened PathRules
  import opened PathTheorems
  import opened Ancestry

  // ----- when a pattern reaches into a location ------------------------------------

  /** Some beginning of the pattern matches the location with a separator behind it. */
  ghost predicate ReachesInto(e: string, loc: string) {
    exists k :: 0 <= k <= |e| && Match(e[..k], loc + "\\")
  }

  /** Whatever begins a matched text is matched by some beginning of the pattern. */
  lemma {:induction false} MatchBeginning(p: string, s: string, t: string) returns (k: nat)
    requires Match(p, s + t)
    ensures k <= |p| && Match(p[..k], s)
    decreases |p| + |s|
  {
    if s == "" {
      k := 0;
    } else {
      assert (s + t)[1..] == s[1..] + t;
      if p[0] == '*' && Match(p[1..], s + t) {
        var j := MatchBeginning(p[1..], s, t);
        k := j + 1;
        assert p[..k][1..] == p[1..][..j];
      } else if p[0] == '*' {
        var j := MatchBeginning(p, s[1..], t);
        k := if j == 0 then 1 else j;
        if j == 0 { StarMatchesAll(s); assert p[..1] == "*"; }
      } else {
        var j := MatchBeginning(p[1..], s[1..], t);
        k := j + 1;
        assert p[..k][1..] == p[1..][..j];
      }
    }
  }

  lemma ReachingOverlaps(e: string, loc: string)
    requires ReachesInto(e, loc)
    ensures Overlaps(e, loc)
  {
    var k :| 0 <= k <= |e| && Match(e[..k], loc + "\\");
    var q := MatchedBelow(e, k, loc + "\\");
    MatchedIsGoverned(e, loc, q);
  }

  /** A text that the whole pattern matches, beyond what its beginning matches. */
  lemma MatchedBelow(e: string, k: nat, s: string) returns (q: string)
    requires k <= |e| && Match(e[..k], s)
    ensures s <= q && Match(e, q)
  {
    var tail := Instance(e[k..], 'X');
    q := s + tail;
    InstanceMatches(e[k..], 'X');
    MatchAppend(e[..k], e[k..], s, tail);
    assert e[..k] + e[k..] == e;
  }

  lemma MatchedIsGoverned(e: string, loc: string, q: string)
    requires loc + "\\" <= q && Match(e, q)
    ensures Overlaps(e, loc)
  {
    assert e != "";
    assert AtOrBelow(loc, q) && CandidateContains(e, q);
  }

  lemma NamedBelowReaches(e: string, loc: string, a: string)
    requires loc + "\\" <= a && Names(e, a)
    ensures ReachesInto(e, loc)
  {
    var s := loc + "\\";
    var t := a[|s|..];
    assert a == s + t;
    if Match(e, a) {
      var k := MatchBeginning(e, s, t);
    } else {
      var k := MatchBeginning(Trimmed(e), s, t);
      assert Trimmed(e)[..k] == e[..k];
    }
  }

  /** Exactly when a pattern governs something at or below a location. */
  lemma OverlapsExact(e: string, loc: string)
    ensures Overlaps(e, loc) <==> CandidateContains(e, loc) || ReachesInto(e, loc)
  {
    if CandidateContains(e, loc) { assert AtOrBelow(loc, loc); }
    if ReachesInto(e, loc) { ReachingOverlaps(e, loc); }
    if Overlaps(e, loc) {
      var q :| AtOrBelow(loc, q) && CandidateContains(e, q);
      ContainsExact(e, q);
      ContainsExact(e, loc);
      var k :| 0 <= k <= |q| && (k == |q| || q[k] == '\\') && Names(e, q[..k]);
      if k <= |loc| {
        assert q[..k] == loc[..k] && (k < |loc| ==> loc[k] == q[k]);
        assert NamesAnAncestor(e, loc);
      } else {
        assert loc + "\\" <= q[..k];
        NamedBelowReaches(e, loc, q[..k]);
      }
    }
  }

  // ----- what covering misses ----------------------------------------------------------

  /** The location does not reach past the literal stem. */
  predicate WithinStem(e: string, loc: string) {
    Stem(e) != "" && |loc| <= |Stem(e)|
  }

  /**
   Covering agrees with overlapping exactly within the stem, when contained, or when the pattern does not reach
   in.
   */
  lemma CoversAgreesExact(e: string, loc: string)
    ensures (CandidateCovers(e, loc) <==> Overlaps(e, loc))
            <==> WithinStem(e, loc) || CandidateContains(e, loc) || !ReachesInto(e, loc)
  {
    CoversExact(e, loc);
    OverlapsExact(e, loc);
  }

  /** Some directory the rule stands for governs something at or below the location. */
  ghost predicate PatternOverlaps(pattern: string, location: string, windowsRoot: string) {
    exists e :: e in Expand(pattern, windowsRoot) && Overlaps(e, Normalise(location))
  }

  lemma CoversByCandidate(pattern: string, location: string, windowsRoot: string)
    ensures Covers(pattern, location, windowsRoot) <==>
            exists e :: e in Expand(pattern, windowsRoot) && CandidateCovers(e, Normalise(location))
  {
  }

  /** The same of `_covers` itself, over all the directories a rule stands for. */
  lemma PatternCoversExact(pattern: string, location: string, windowsRoot: string)
    ensures var es, loc := Expand(pattern, windowsRoot), Normalise(location);
            (Covers(pattern, location, windowsRoot) <==> PatternOverlaps(pattern, location, windowsRoot)) <==>
              || Contains(pattern, location, windowsRoot)
              || (exists e :: e in es && WithinStem(e, loc) && ReachesInto(e, loc))
              || (forall e :: e in es ==> !ReachesInto(e, loc))
  {
    var es, loc := Expand(pattern, windowsRoot), Normalise(location);
    CoversByCandidate(pattern, location, windowsRoot);
    forall e | e in es
      ensures Overlaps(e, loc) <==> CandidateContains(e, loc) || ReachesInto(e, loc)
      ensures CandidateCovers(e, loc) <==> CandidateContains(e, loc) || (WithinStem(e, loc) && ReachesInto(e, loc))
    {
      OverlapsExact(e, loc);
      CoversExact(e, loc);
    }
  }

  /** A whole family that is missed: a wildcard in mid-path hides what lies beyond it. */
  lemma MidPathIsMissed(lit: string, x: string, pattern: string, location: string, windowsRoot: string)
    requires lit != "" && !HasWildcard(lit) && lit[|lit| - 1] != '\\' && x != "" && 'T' !in lit + x
    requires '%' !in pattern && Normalise(pattern) == lit + "*" + "\\T" && Normalise(location) == lit + x
    ensures PatternOverlaps(pattern, location, windowsRoot) && !Covers(pattern, location, windowsRoot)
  {
    WildcardInMidPathIsMissed(lit, x);
    PlainExpansion(pattern, windowsRoot);
    OneCandidate(pattern, location, windowsRoot);
    assert Normalise(pattern) in Expand(pattern, windowsRoot);
  }

  lemma MidPathPattern()
    ensures Written("C:\\U*\\T") && '%' !in "C:\\U*\\T"
  {
    assert "C:\\U*\\T"[6] == 'T';
  }

  lemma MidPathParts(lit: string, x: string)
    requires lit == "C:\\U" && x == "SERS"
    ensures lit != "" && !HasWildcard(lit) && lit[|lit| - 1] != '\\' && x != "" && 'T' !in lit + x
    ensures lit + "*" + "\\T" == "C:\\U*\\T" && lit + x == "C:\\USERS"
  {
    assert |lit| == 4 && lit[3] == 'U';
  }

  /** For instance `C:\U*\T` governs `C:\USERS\T`, yet `C:\USERS` is not covered. */
  lemma MidPathExample(pattern: string, location: string, windowsRoot: string)
    requires pattern == "C:\\U*\\T" && location == "C:\\USERS"
    ensures PatternOverlaps(pattern, location, windowsRoot) && !Covers(pattern, location, windowsRoot)
  {
    var lit, x := "C:\\U", "SERS";
    MidPathParts(lit, x);
    MidPathPattern();
    WrittenIsNormal(pattern);
    UsersForm();
    MidPathIsMissed(lit, x, pattern, location, windowsRoot);
  }
}
