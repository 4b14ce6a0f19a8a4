/** What the path-rule engine promises: normal forms, full carve-outs and partial coverage. */
module PathTheorems {
  import opened Text
  import opened Blanks
  import opened Glob
  import opened PathRules

  // ----- normal forms ---------------------------------------------------------

  /** Once outer blanks are gone, a blank sits right before the trailing separators. */
  predicate BlankBeforeSeparators(path: string) {
    var body := TrimSeparators(ReplaceChar(Strip(path), '/', '\\'));
    body != "" && IsSpace(body[|body| - 1])
  }

  lemma {:induction false} TrimSeparatorsOfUpper(t: string)
    ensures TrimSeparators(Upper(t)) == Upper(TrimSeparators(t))
  {
    if |t| > 3 && t[|t| - 1] == '\\' {
      assert Upper(t)[..|t| - 1] == Upper(t[..|t| - 1]);
      TrimSeparatorsOfUpper(t[..|t| - 1]);
    }
  }

  lemma {:induction false} FoldedAlready(t: string)
    requires forall i :: 0 <= i < |t| ==> t[i] != '/' && !('a' <= t[i] <= 'z')
    ensures Upper(ReplaceChar(t, '/', '\\')) == t
  {
    assert ReplaceChar(t, '/', '\\') == t;
    assert Upper(t) == t;
  }

  lemma {:induction false} TrimmedAlready(t: string)
    ensures TrimSeparators(TrimSeparators(t)) == TrimSeparators(t)
  {
    if |t| > 3 && t[|t| - 1] == '\\' {
      TrimmedAlready(t[..|t| - 1]);
    }
  }

  /** What a second round does to text that is folded, trimmed and does not begin with a blank. */
  lemma NormaliseAgain(r: string)
    requires forall i :: 0 <= i < |r| ==> r[i] != '/' && !('a' <= r[i] <= 'z')
    requires (r != "" ==> !IsSpace(r[0])) && TrimSeparators(r) == r
    ensures Normalise(r) == r <==> r == "" || !IsSpace(r[|r| - 1])
  {
    StripOfFront(r);
    if Strip(r) == r {
      FoldedAlready(r);
    } else {
      assert |Normalise(r)| <= |Strip(r)| < |r|;
    }
  }

  lemma EndOfNormalised(path: string)
    ensures var r := Normalise(path); r != "" && IsSpace(r[|r| - 1]) <==> BlankBeforeSeparators(path)
    ensures TrimSeparators(Normalise(path)) == Normalise(path)
  {
    var t := ReplaceChar(Strip(path), '/', '\\');
    var body := TrimSeparators(t);
    TrimSeparatorsOfUpper(t);
    TrimmedAlready(Upper(t));
    UpperEnd(body);
  }

  lemma UpperEnd(t: string)
    ensures t != "" ==> (IsSpace(Upper(t)[|t| - 1]) <==> IsSpace(t[|t| - 1]))
  {
  }

  /** Normalising twice is normalising once, except when a blank precedes the trailing separators. */
  lemma NormaliseIdempotent(path: string)
    ensures Normalise(Normalise(path)) == Normalise(path) <==> !BlankBeforeSeparators(path)
  {
    EndOfNormalised(path);
    NormaliseAgain(Normalise(path));
  }

  /** Stripping text that does not begin with a blank only concerns its end. */
  lemma StripOfFront(r: string)
    requires r != "" ==> !IsSpace(r[0])
    ensures |Strip(r)| <= |r|
    ensures Strip(r) == r <==> r == "" || !IsSpace(r[|r| - 1])
    ensures Strip(r) != r ==> |Strip(r)| < |r|
  {
    assert StripLeft(r) == r;
  }

  /** Text already folded and free of outer blanks only loses its trailing separators. */
  lemma NormaliseClean(t: string)
    requires t != "" && !IsSpace(t[0]) && !IsSpace(t[|t| - 1])
    requires forall i :: 0 <= i < |t| ==> t[i] != '/' && !('a' <= t[i] <= 'z')
    ensures Normalise(t) == TrimSeparators(t)
  {
    FoldedAlready(t);
    assert Strip(t) == t;
  }

  /** The failing kind: a blank between the name and its separator takes two rounds to go. */
  lemma NormaliseTwiceDiffers(dir: string)
    requires |dir| >= 3 && !IsSpace(dir[0]) && !IsSpace(dir[|dir| - 1]) && dir[|dir| - 1] != '\\'
    requires forall i :: 0 <= i < |dir| ==> dir[i] != '/' && !('a' <= dir[i] <= 'z')
    ensures Normalise(dir + " \\") == dir + " " && Normalise(dir + " ") == dir
  {
    TrimOne(dir + " ");
    assert dir + " \\" == dir + " " + "\\";
    NormaliseClean(dir + " \\");
    NormaliseClean(dir);
    StripOneBlank(dir);
  }

  lemma TrimOne(t: string)
    requires |t| > 3 && t[|t| - 1] != '\\'
    ensures TrimSeparators(t + "\\") == t
  {
    assert (t + "\\")[..|t|] == t;
  }

  lemma StripOneBlank(t: string)
    requires t != "" && !IsSpace(t[0]) && !IsSpace(t[|t| - 1])
    ensures Strip(t + " ") == Strip(t) == t
  {
    assert StripLeft(t + " ") == t + " ";
    assert (t + " ")[..|t|] == t;
    assert StripRight(t + " ") == StripRight(t) == t;
  }

  function Fold(path: string): string {
    Upper(ReplaceChar(path, '/', '\\'))
  }

  function FoldChar(c: char): char {
    UpperChar(if c == '/' then '\\' else c)
  }

  lemma FoldAlike(p: string, q: string)
    ensures Fold(p) == Fold(q) <==> SameUnder(FoldChar, p, q)
  {
    assert |p| == |Fold(p)| && |q| == |Fold(q)|;
    if Fold(p) == Fold(q) {
      forall i | 0 <= i < |p| ensures FoldChar(p[i]) == FoldChar(q[i]) {
        assert Fold(p)[i] == Fold(q)[i];
      }
    }
  }

  /** Spellings of one directory that differ in case or slash direction normalise alike. */
  lemma SameDirectory(p: string, q: string)
    requires Fold(p) == Fold(q)
    ensures Normalise(p) == Normalise(q)
  {
    FoldAlike(p, q);
    StripUnder(FoldChar, p, q);
    FoldAlike(Strip(p), Strip(q));
  }

  // ----- full carve-outs --------------------------------------------------------

  /** `loc` is the directory `dir` or lies below it. */
  predicate AtOrBelow(dir: string, loc: string) {
    loc == dir || dir + "\\" <= loc
  }

  /** The pattern names `a` itself: `X` and `X\*` both name X. */
  predicate Names(e: string, a: string) {
    Match(e, a) || (Trimmed(e) != "" && Match(Trimmed(e), a))
  }

  /** `e` names `loc` or a directory above it: the meaning of a full carve-out. */
  ghost predicate NamesAnAncestor(e: string, loc: string) {
    exists k :: 0 <= k <= |loc| && (k == |loc| || loc[k] == '\\') && Names(e, loc[..k])
  }

  lemma BackslashStar(t: string)
    ensures Match("\\*", t) <==> (t != "" && t[0] == '\\')
  {
    assert "\\*"[1..] == "*";
    if t != "" {
      StarMatchesAll(t[1..]);
    }
  }

  lemma ContainedIsNamed(e: string, loc: string)
    requires CandidateContains(e, loc)
    ensures NamesAnAncestor(e, loc)
  {
    var trim := Trimmed(e);
    assert loc[..|loc|] == loc;
    if Match(e + "\\*", loc) {
      var k := MatchSplit(e, "\\*", loc);
      BackslashStar(loc[k..]);
    } else if !HasWildcard(e) && e + "\\" <= loc {
      LiteralMatch(e, loc[..|e|]);
      assert Names(e, loc[..|e|]) && loc[|e|] == '\\';
    } else if trim != "" && !HasWildcard(trim) && trim + "\\" <= loc {
      LiteralMatch(trim, loc[..|trim|]);
      assert Names(e, loc[..|trim|]) && loc[|trim|] == '\\';
    } else {
      if !HasWildcard(e) { LiteralMatch(e, loc); }
      if !HasWildcard(trim) { LiteralMatch(trim, loc); }
      assert Names(e, loc[..|loc|]);
    }
  }

  lemma NamedAboveIsContained(e: string, loc: string, k: nat)
    requires e != "" && k < |loc| && loc[k] == '\\' && Names(e, loc[..k])
    ensures CandidateContains(e, loc)
  {
    var trim := Trimmed(e);
    var p := if Match(e, loc[..k]) then e else trim;
    BackslashStar(loc[k..]);
    assert loc[..k] + loc[k..] == loc;
    assert p == trim ==> trim == "" || trim + "\\*" == e;
    MatchAppend(p, "\\*", loc[..k], loc[k..]);
  }

  /** The tests of `_contains` amount to one: the pattern names the location or an ancestor of it. */
  lemma ContainsExact(e: string, loc: string)
    ensures CandidateContains(e, loc) <==> e != "" && NamesAnAncestor(e, loc)
  {
    assert loc[..|loc|] == loc;
    if CandidateContains(e, loc) {
      ContainedIsNamed(e, loc);
    }
    if e != "" {
      if k :| 0 <= k < |loc| && loc[k] == '\\' && Names(e, loc[..k]) {
        NamedAboveIsContained(e, loc, k);
      }
    }
  }

  /** Carving out a directory carves out everything below it. */
  lemma ContainsClosedDownwards(e: string, dir: string, loc: string)
    requires CandidateContains(e, dir) && AtOrBelow(dir, loc)
    ensures CandidateContains(e, loc)
  {
    ContainsExact(e, dir);
    ContainsExact(e, loc);
    var k :| 0 <= k <= |dir| && (k == |dir| || dir[k] == '\\') && Names(e, dir[..k]);
    assert dir <= loc;
    assert loc[..k] == dir[..k];
  }

  /** The same for a rule's pattern, whichever variables it expands. */
  lemma CarveOutReachesDown(pattern: string, dir: string, loc: string, windowsRoot: string)
    requires Contains(pattern, dir, windowsRoot) && AtOrBelow(Normalise(dir), Normalise(loc))
    ensures Contains(pattern, loc, windowsRoot)
  {
    var e :| e in Expand(pattern, windowsRoot) && CandidateContains(e, Normalise(dir));
    ContainsClosedDownwards(e, Normalise(dir), Normalise(loc));
  }

  // ----- partial coverage -------------------------------------------------------

  /** Some path at or below `loc` is governed by the pattern: what "covers" is meant to detect. */
  ghost predicate Overlaps(e: string, loc: string) {
    exists q :: AtOrBelow(loc, q) && CandidateContains(e, q)
  }

  lemma {:induction false} LiteralOfPrefix(e: string, p: string)
    requires p <= e
    ensures if HasWildcard(p) then Literal(p) == Literal(e) else p <= Literal(e)
  {
    if p == "" {
    } else if IsWildcard(p[0]) {
      assert p[0] in p;
    } else {
      assert e[0] == p[0] && p[1..] <= e[1..];
      LiteralOfPrefix(e[1..], p[1..]);
      assert HasWildcard(p) <==> HasWildcard(p[1..]) by {
        assert p == [p[0]] + p[1..];
      }
    }
  }

  /** The stem of `X\*` without a wildcard in X is X, less its trailing separators. */
  lemma StemOfTrimmed(e: string, trim: string)
    requires e == trim + "\\*" && !HasWildcard(trim)
    ensures Stem(e) <= trim
  {
    assert e == (trim + "\\") + "*";
    LiteralBeforeWildcard(trim + "\\", "*");
    assert (trim + "\\")[..|trim|] == trim;
  }

  /** Any text a pattern names starts with the pattern's stem. */
  lemma NamedStartsWithStem(e: string, a: string)
    requires Names(e, a)
    ensures Stem(e) <= a
  {
    if Match(e, a) {
      MatchStartsWithLiteral(e, a);
    } else {
      var trim := Trimmed(e);
      MatchStartsWithLiteral(trim, a);
      LiteralOfPrefix(e, trim);
      if !HasWildcard(trim) {
        LiteralMatch(trim, a);
        StemOfTrimmed(e, trim);
      }
    }
  }

  /** The narrower-than test is sound: it exhibits a path inside the location that the rule governs. */
  lemma NarrowerOverlaps(e: string, loc: string)
    requires CandidateNarrower(e, loc)
    ensures Overlaps(e, loc)
  {
    var q := Instance(e, '\\');
    InstanceMatches(e, '\\');
    assert CandidateContains(e, q);
    StemIsAbove(e, q);
    if loc != Stem(e) {
      assert AtOrBelow(loc, Stem(e));
      AboveIsTransitive(loc, Stem(e), q);
    }
  }

  /** The stem of a pattern is a directory above any text that puts a separator where its first wildcard is. */
  lemma StemIsAbove(e: string, q: string)
    requires Literal(e) <= q && |q| == |e| && (|Literal(e)| < |e| ==> q[|Literal(e)|] == '\\')
    ensures AtOrBelow(Stem(e), q)
  {
    var l, t := Literal(e), Stem(e);
    if |t| < |l| {
      assert l[|t|] == '\\' == q[|t|];
      assert t + "\\" <= q;
    } else if |l| < |e| {
      assert t + "\\" <= q;
    } else {
      assert t == q;
    }
  }

  /** What an overlap looks like when the location does not reach past the stem. */
  lemma OverlapWithinStem(e: string, loc: string)
    requires Overlaps(e, loc) && Stem(e) != "" && |loc| <= |Stem(e)|
    ensures CandidateNarrower(e, loc)
  {
    var q :| AtOrBelow(loc, q) && CandidateContains(e, q);
    ContainsExact(e, q);
    var k :| 0 <= k <= |q| && (k == |q| || q[k] == '\\') && Names(e, q[..k]);
    NamedStartsWithStem(e, q[..k]);
    assert Stem(e) <= q && loc <= q;
    if |loc| < |Stem(e)| {
      assert Stem(e)[|loc|] == q[|loc|] == '\\';
    }
  }

  /**
   Exactly what `_covers` decides, for every pattern and location. Up to the end of the stem it
   detects every overlap; past the stem, or without one, it only sees full containment.
   */
  lemma CoversExact(e: string, loc: string)
    ensures CandidateCovers(e, loc) <==>
            if Stem(e) != "" && |loc| <= |Stem(e)| then Overlaps(e, loc) else CandidateContains(e, loc)
  {
    if CandidateNarrower(e, loc) {
      NarrowerOverlaps(e, loc);
    }
    if Stem(e) != "" && |loc| <= |Stem(e)| {
      if CandidateContains(e, loc) {
        assert AtOrBelow(loc, loc);
      }
      if Overlaps(e, loc) {
        OverlapWithinStem(e, loc);
      }
    }
  }

  /** No finding without a witness: a covered location holds a path the rule governs. */
  lemma CoveredHasWitness(pattern: string, location: string, windowsRoot: string)
    requires Covers(pattern, location, windowsRoot)
    ensures exists e :: e in Expand(pattern, windowsRoot) && Overlaps(e, Normalise(location))
  {
    var loc := Normalise(location);
    if Contains(pattern, location, windowsRoot) {
      var e :| e in Expand(pattern, windowsRoot) && CandidateContains(e, loc);
      assert AtOrBelow(loc, loc);
    } else {
      var e :| e in Expand(pattern, windowsRoot) && CandidateNarrower(e, loc);
      NarrowerOverlaps(e, loc);
    }
  }

  /** Coverage spreads to a parent directory as long as the parent does not reach past the stem. */
  lemma CoversParent(e: string, parent: string, loc: string)
    requires CandidateCovers(e, loc) && AtOrBelow(parent, loc)
    requires Stem(e) != "" && |parent| <= |Stem(e)|
    ensures CandidateCovers(e, parent)
  {
    CoversExact(e, loc);
    CoversExact(e, parent);
    if CandidateContains(e, loc) {
      assert Overlaps(e, parent);
    } else {
      var q :| AtOrBelow(loc, q) && CandidateContains(e, q);
      assert AtOrBelow(parent, q);
    }
  }

  /** Past the stem it need not spread: a wildcard in mid-path hides what lies beyond it. */
  lemma WildcardInMidPathIsMissed(lit: string, x: string)
    requires lit != "" && !HasWildcard(lit) && lit[|lit| - 1] != '\\' && x != "" && 'T' !in lit + x
    ensures Overlaps(lit + "*" + "\\T", lit + x) && !CandidateCovers(lit + "*" + "\\T", lit + x)
  {
    var e, loc := lit + "*" + "\\T", lit + x;
    LiteralMatch(lit, lit);
    StarMatchesAll(x);
    MatchAppend(lit, "*", lit, x);
    LiteralMatch("\\T", "\\T");
    MatchAppend(lit + "*", "\\T", loc, "\\T");
    assert loc + "\\" <= loc + "\\T";
    assert AtOrBelow(loc, loc + "\\T");
    assert lit + ("*" + "\\T") == e;
    LiteralBeforeWildcard(lit, "*" + "\\T");
    assert StripSeparators(lit) == lit;
    ContainsExact(e, loc);
    if k :| 0 <= k <= |loc| && (k == |loc| || loc[k] == '\\') && Names(e, loc[..k]) {
      MatchEndsWithLiteral(lit + "*", "\\T", loc[..k]);
    }
  }

  // ----- simple rules -----------------------------------------------------------

  /** A rule for one plain directory: `X` or `X\*`, with no wildcard in X. */
  predicate Simple(e: string, dir: string) {
    dir != "" && !HasWildcard(dir) && dir[|dir| - 1] != '\\' && (e == dir || e == dir + "\\*")
  }

  lemma SimpleNames(e: string, dir: string, a: string)
    requires Simple(e, dir)
    ensures Names(e, a) ==> AtOrBelow(dir, a)
    ensures a == dir ==> Names(e, a)
    ensures Stem(e) == dir
  {
    LiteralMatch(dir, a);
    if e == dir {
      LiteralBeforeWildcard(dir, "");
      assert dir + "" == dir;
      assert e[|e| - 1] in e && !IsWildcard(e[|e| - 1]);
    } else {
      assert dir + "\\*" == (dir + "\\") + "*";
      LiteralBeforeWildcard(dir + "\\", "*");
      assert (dir + "\\")[..|dir|] == dir;
      assert StripSeparators(dir) == dir;
      if Match(e, a) {
        MatchStartsWithLiteral(e, a);
      }
    }
  }

  /** On a simple rule, containing is being an ancestor, and covering is being related either way. */
  lemma SimpleRulesAreExact(e: string, dir: string, loc: string)
    requires Simple(e, dir)
    ensures CandidateContains(e, loc) <==> AtOrBelow(dir, loc)
    ensures CandidateCovers(e, loc) <==> AtOrBelow(dir, loc) || AtOrBelow(loc, dir)
  {
    ContainsExact(e, loc);
    if k :| 0 <= k <= |loc| && (k == |loc| || loc[k] == '\\') && Names(e, loc[..k]) {
      SimpleNames(e, dir, loc[..k]);
      assert loc[..k] <= loc;
    }
    if AtOrBelow(dir, loc) {
      SimpleNames(e, dir, loc[..|dir|]);
      assert NamesAnAncestor(e, loc);
    }
    SimpleNames(e, dir, dir);
  }

  /** So a simple rule that covers a location covers every directory above it. */
  lemma SimpleRulesCoverParents(e: string, dir: string, parent: string, loc: string)
    requires Simple(e, dir) && CandidateCovers(e, loc) && AtOrBelow(parent, loc)
    ensures CandidateCovers(e, parent)
  {
    SimpleRulesAreExact(e, dir, loc);
    SimpleRulesAreExact(e, dir, parent);
    if AtOrBelow(dir, loc) {
      Related(dir, parent, loc);
    } else {
      AboveIsTransitive(parent, loc, dir);
    }
  }

  lemma AboveIsTransitive(p: string, q: string, r: string)
    requires AtOrBelow(p, q) && AtOrBelow(q, r)
    ensures AtOrBelow(p, r)
  {
  }

  /** Of two paths above a third, one is above the other. */
  lemma Related(p: string, q: string, r: string)
    requires AtOrBelow(p, r) && AtOrBelow(q, r)
    ensures AtOrBelow(p, q) || AtOrBelow(q, p)
  {
    assert p == r[..|p|] && q == r[..|q|];
    if |p| < |q| {
      assert p + "\\" == r[..|p| + 1] == q[..|p| + 1];
    } else if |q| < |p| {
      assert q + "\\" == r[..|q| + 1] == p[..|q| + 1];
    }
  }
}
