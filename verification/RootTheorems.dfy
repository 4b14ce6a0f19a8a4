/** Which Windows directories let expansion spell a variable anew. */
module RootTheorems {
  import opened Text
  import opened PathRules
  import opened ExpandTheorems
  import opened Ancestry

  // ----- texts with three stretches between four `%` --------------------------------

  function Three(m: string, x: string, n: string): string {
    "%" + m + ("%" + x + "%") + n + "%"
  }

  /** An occurrence of a variable starts and ends at neighbouring `%`. */
  lemma OccurrenceIn(s: string, u: Variable, i: nat)
    requires OccursAt(s, u, i) && i <= |s|
    ensures var last := i + |u| - 1;
            i < last < |s| && s[i] == s[last] == '%' && u == s[i..last + 1] && forall j :: i < j < last ==> s[j] != '%'
  {
    var last := i + |u| - 1;
    assert s[i..][0] == s[i] && s[i..][|u| - 1] == s[last] == u[1..][|u| - 2];
    forall j | i < j < last ensures s[j] != '%' {
      assert s[j] == s[i..][j - i] == u[j - i] == u[1..][j - i - 1];
    }
  }

  /** The only variables such a text holds are its stretches. */
  lemma VariablesOfThree(m: string, x: string, n: string, u: Variable)
    requires '%' !in m && '%' !in x && '%' !in n
    ensures Occurs(Three(m, x, n), u) ==> u in {"%" + m + "%", "%" + x + "%", "%" + n + "%"}
  {
    var s := Three(m, x, n);
    if i :| 0 <= i <= |s| && OccursAt(s, u, i) {
      var last := i + |u| - 1;
      OccurrenceIn(s, u, i);
      NeighboursOfThree(m, x, n, i, last);
      StretchesOfThree(m, x, n);
    }
  }

  lemma StretchesOfThree(m: string, x: string, n: string)
    ensures var s, p1, p2 := Three(m, x, n), |m| + 1, |m| + |x| + 2;
            s[0..p1 + 1] == "%" + m + "%" && s[p1..p2 + 1] == "%" + x + "%" && s[p2..|s|] == "%" + n + "%"
  {
  }

  lemma NeighboursOfThree(m: string, x: string, n: string, i: nat, last: nat)
    requires '%' !in m && '%' !in x && '%' !in n && i < last < |Three(m, x, n)|
    requires Three(m, x, n)[i] == Three(m, x, n)[last] == '%'
    requires forall j :: i < j < last ==> Three(m, x, n)[j] != '%'
    ensures var p1, p2 := |m| + 1, |m| + |x| + 2;
            (i == 0 && last == p1) || (i == p1 && last == p2) || (i == p2 && last == |Three(m, x, n)| - 1)
  {
    PercentsOfThree(m, x, n, i);
    PercentsOfThree(m, x, n, last);
    PercentsOfThree(m, x, n, |m| + 1);
    PercentsOfThree(m, x, n, |m| + |x| + 2);
  }

  lemma PercentsOfThree(m: string, x: string, n: string, i: nat)
    requires '%' !in m && '%' !in x && '%' !in n && i < |Three(m, x, n)|
    ensures Three(m, x, n)[i] == '%' <==> i in {0, |m| + 1, |m| + |x| + 2, |m| + |x| + |n| + 3}
  {
    var s := Three(m, x, n);
    assert 0 < i <= |m| ==> s[i] == m[i - 1] && m[i - 1] in m;
    assert |m| + 1 < i < |m| + |x| + 2 ==> s[i] == x[i - |m| - 2] && x[i - |m| - 2] in x;
    assert |m| + |x| + 2 < i < |m| + |x| + |n| + 3 ==> s[i] == n[i - |m| - |x| - 3] && n[i - |m| - |x| - 3] in n;
  }

  // ----- spelling a variable anew ----------------------------------------------------

  const WINDIR_NAME := "WINDIR"

  lemma WindirIsNamed()
    ensures WINDIR == "%" + WINDIR_NAME + "%" && '%' !in WINDIR_NAME
  {
  }

  /** Replacing the middle stretch of such a text. */
  lemma ReplaceMiddle(m: string, n: string, d: string)
    requires '%' !in m && '%' !in n && m != WINDIR_NAME && n != WINDIR_NAME
    ensures Replace(Three(m, WINDIR_NAME, n), WINDIR, d) == "%" + m + d + n + "%"
  {
    var tail := n + "%";
    var rest := WINDIR + tail;
    SpelledOut(m, n, d);
    FrontIsName(m, rest);
    ReplaceKeepsFirst('%', m + rest, WINDIR, d);
    ReplaceSkips(m, rest, WINDIR, d);
    ReplaceTakesFirst(tail, WINDIR, d);
    ReplaceSkips(n, "%", WINDIR, d);
    ReplaceLastPercent(d);
  }

  lemma SpelledOut(m: string, n: string, d: string)
    ensures Three(m, WINDIR_NAME, n) == "%" + (m + (WINDIR + (n + "%")))
    ensures "%" + m + d + n + "%" == "%" + (m + (d + (n + "%")))
  {
    WindirIsNamed();
  }

  lemma FrontIsName(m: string, rest: string)
    requires '%' !in m && rest != "" && rest[0] == '%'
    ensures WINDIR <= "%" + (m + rest) ==> m == WINDIR_NAME
  {
    WindirIsNamed();
    var s := "%" + (m + rest);
    if WINDIR <= s {
      assert forall k :: 0 <= k < |m| ==> s[k + 1] == m[k] && m[k] in m;
      assert s[|m| + 1] == '%';
      assert forall k :: 0 <= k < 6 ==> s[k + 1] == WINDIR[k + 1] == WINDIR_NAME[k] && WINDIR_NAME[k] in WINDIR_NAME;
      assert s[7] == WINDIR[7] == '%';
      assert |m| == 6;
    }
  }

  lemma ReplaceLastPercent(d: string)
    ensures Replace("%", WINDIR, d) == "%"
  {
    assert "%"[1..] == "";
  }

  // ----- what a root leaves behind ----------------------------------------------------

  /** The variables that no later substitution removes. */
  const LASTING := {WINDIR, REMOVABLE, HOT}

  /** `w` is the variable whose name is `m`, the root and `n` in a row. */
  predicate SpelledBy(w: Variable, m: string, root: string, n: string) {
    w in LASTING && root != "" && '%' !in m && '%' !in root && '%' !in n && w == "%" + m + root + n + "%"
  }

  lemma LastingNames()
    ensures WINDIR[1] == 'W' && WINDIR[6] == 'R' && |WINDIR| == 8
    ensures REMOVABLE[1] == 'R' && REMOVABLE[9] == 'E' && |REMOVABLE| == 11
    ensures HOT[1] == 'H' && HOT[3] == 'T' && |HOT| == 5
    ensures Written(WINDIR) && Written(REMOVABLE) && Written(HOT)
  {
  }

  /** Lasting variables differ in their first and in their last letter. */
  lemma LastingDiffer(u: Variable, w: Variable)
    requires u in LASTING && w in LASTING
    ensures |u| > 2 && |w| > 2
    ensures u[1] == w[1] || u[|u| - 2] == w[|w| - 2] ==> u == w
  {
    LastingNames();
  }

  lemma ShorterStretch(w: Variable, m: string, root: string, n: string, u: Variable)
    requires SpelledBy(w, m, root, n) && u in LASTING
    ensures u != "%" + m + "%" && u != "%" + n + "%"
  {
    LastingDiffer(u, w);
    var front, back := "%" + m + "%", "%" + n + "%";
    assert |front| < |w| && |back| < |w|;
    assert m != "" ==> front[1] == m[0] == w[1];
    assert n != "" ==> back[|back| - 2] == n[|n| - 1] == w[|w| - 2];
  }

  lemma NothingToRefuse(w: Variable, m: string, root: string, n: string)
    requires SpelledBy(w, m, root, n)
    ensures !Occurs(Three(m, WINDIR_NAME, n), REMOVABLE) && !Occurs(Three(m, WINDIR_NAME, n), HOT)
  {
    WindirIsNamed();
    LastingNames();
    ShorterStretch(w, m, root, n, REMOVABLE);
    ShorterStretch(w, m, root, n, HOT);
    VariablesOfThree(m, WINDIR_NAME, n, REMOVABLE);
    VariablesOfThree(m, WINDIR_NAME, n, HOT);
  }

  lemma ThreeIsWritten(w: Variable, m: string, root: string, n: string)
    requires SpelledBy(w, m, root, n)
    ensures Written(Three(m, WINDIR_NAME, n))
  {
    LastingNames();
    WindirIsNamed();
    var s := Three(m, WINDIR_NAME, n);
    assert s[|s| - 1] == '%';
    forall c | c in s ensures c in w || c in WINDIR {
    }
  }

  lemma NotTheWhole(w: Variable, m: string, root: string, n: string)
    requires SpelledBy(w, m, root, n)
    ensures m != WINDIR_NAME && n != WINDIR_NAME
  {
    WindirIsNamed();
    ShorterStretch(w, m, root, n, WINDIR);
  }

  /** Substituting into a text that is itself a lasting variable changes nothing. */
  lemma LastingStays(w: Variable, root: string, subs: seq<Substitution>)
    requires w in LASTING && subs == Substitutions(root)
    ensures SubstituteAll([w], subs[1..]) == [w]
  {
    LastingNames();
    LaterNames(root, subs);
    NothingOccurs(w, subs[1..]);
  }

  lemma LaterNames(root: string, subs: seq<Substitution>)
    requires subs == Substitutions(root)
    ensures forall s :: s in subs[1..] ==> s.variable !in LASTING
  {
    LastingNames();
    assert SYSTEM32[1] == 'S' && OSDRIVE[1] == 'O' && PROGRAMFILES[1] == 'P';
  }

  lemma NothingOccurs(w: Variable, subs: seq<Substitution>)
    requires w in LASTING && forall s :: s in subs ==> s.variable !in LASTING
    ensures SubstituteAll([w], subs) == [w]
    decreases |subs|
  {
    if subs != [] {
      assert w + "" == w && subs[0] in subs;
      VariableOccursOnlyAsItself(w, "", subs[0].variable);
      assert Substitute([w], subs[0]) == [w];
      NothingOccurs(w, subs[1..]);
    }
  }

  lemma FirstSubstitution(w: Variable, m: string, root: string, n: string, subs: seq<Substitution>)
    requires SpelledBy(w, m, root, n) && subs == Substitutions(root)
    ensures Substitute([Three(m, WINDIR_NAME, n)], subs[0]) == [w]
  {
    var s := Three(m, WINDIR_NAME, n);
    NotTheWhole(w, m, root, n);
    ReplaceMiddle(m, n, root);
    WindirIsNamed();
    OneValue(s, subs[0], root);
    assert OccursAt(s, WINDIR, |m| + 1);
  }

  lemma OneValue(s: string, sub: Substitution, value: string)
    requires sub.values == [value]
    ensures Occurs(s, sub.variable) ==> Substitute([s], sub) == [Replace(s, sub.variable, value)]
  {
    assert s in [s] && [s][1..] == [] && [value][1..] == [];
    assert ReplaceByEach(s, sub.variable, [value]) == [Replace(s, sub.variable, value)];
    assert ReplaceInAll([s], sub.variable, [value]) == [Replace(s, sub.variable, value)];
  }

  /** A root that is part of a lasting variable's name spells that variable out of a pattern. */
  lemma RootSpells(w: Variable, m: string, root: string, n: string, windowsRoot: string)
    requires SpelledBy(w, m, root, n) && root == RootOf(windowsRoot)
    ensures Expand(Three(m, WINDIR_NAME, n), windowsRoot) == [w]
  {
    var s, subs := Three(m, WINDIR_NAME, n), Substitutions(root);
    ThreeIsWritten(w, m, root, n);
    WrittenIsNormal(s);
    NothingToRefuse(w, m, root, n);
    FirstSubstitution(w, m, root, n, subs);
    LastingStays(w, root, subs);
    ExpandFixed(s, windowsRoot, subs);
  }

  lemma CutOut(w: string, i: nat, j: nat)
    requires 1 <= i <= j < |w|
    ensures w == [w[0]] + w[1..i] + w[i..j] + w[j..|w| - 1] + [w[|w| - 1]]
  {
  }

  lemma NoPercentInside(w: Variable, i: nat, j: nat)
    requires 1 <= i <= j < |w|
    ensures '%' !in w[i..j] && w[0] == w[|w| - 1] == '%'
  {
    forall k | i <= k < j ensures w[k] != '%' {
      assert w[k] == w[1..][k - 1];
    }
    assert w[|w| - 1] == w[1..][|w| - 2];
  }

  lemma SpellingAt(w: Variable, root: string, i: nat) returns (m: string, n: string)
    requires root != "" && '%' !in root && i <= |w| && OccursAt(w, root, i)
    ensures '%' !in m && '%' !in n && w == "%" + m + root + n + "%"
  {
    var j := i + |root|;
    InsideVariable(w, root, i);
    NoPercentInside(w, 1, i);
    NoPercentInside(w, j, |w| - 1);
    CutOut(w, i, j);
    m, n := w[1..i], w[j..|w| - 1];
  }

  lemma SpellingOf(w: Variable, root: string) returns (m: string, n: string)
    requires w in LASTING && root != "" && '%' !in root && Occurs(w, root)
    ensures SpelledBy(w, m, root, n)
  {
    var i :| 0 <= i <= |w| && OccursAt(w, root, i);
    m, n := SpellingAt(w, root, i);
  }

  /** Text without `%` occurs in a variable only inside its name. */
  lemma InsideVariable(w: Variable, root: string, i: nat)
    requires root != "" && '%' !in root && i <= |w| && OccursAt(w, root, i)
    ensures 1 <= i && i + |root| < |w| && w[i..i + |root|] == root
  {
    var j := i + |root|;
    assert w[i..][..|root|] == w[i..j] == root;
    assert w[i] == root[0] && w[j - 1] == root[|root| - 1];
    assert root[0] in root && root[|root| - 1] in root;
    assert w[0] == '%' && w[|w| - 1] == w[1..][|w| - 2] == '%';
  }

  lemma HasItself(w: string)
    ensures !NoneHas([w], w)
  {
    assert OccursAt(w, w, 0) && w in [w];
  }

  lemma RootLeaves(w: Variable, windowsRoot: string) returns (pattern: string)
    requires w in LASTING && '%' !in RootOf(windowsRoot) && Occurs(w, RootOf(windowsRoot))
    ensures !NoneHas(Expand(pattern, windowsRoot), w)
  {
    var m, n := SpellingOf(w, RootOf(windowsRoot));
    RootSpells(w, m, RootOf(windowsRoot), n, windowsRoot);
    pattern := Three(m, WINDIR_NAME, n);
    HasItself(w);
  }

  /** Expanding the pattern on that host leaves the variable `w` somewhere. */
  ghost predicate Leaves(windowsRoot: string, pattern: string, w: string) {
    !NoneHas(Expand(pattern, windowsRoot), w)
  }

  lemma LastingHolding(root: string) returns (w: Variable)
    requires !SpellsNothing(root)
    ensures w in LASTING && Occurs(w, root)
  {
    if Occurs(WINDIR, root) {
      w := WINDIR;
    } else if Occurs(REMOVABLE, root) {
      w := REMOVABLE;
    } else {
      w := HOT;
    }
  }

  lemma SomethingLeft(windowsRoot: string) returns (pattern: string, w: Variable)
    requires '%' !in RootOf(windowsRoot) && !SpellsNothing(RootOf(windowsRoot))
    ensures w in LASTING && Leaves(windowsRoot, pattern, w)
  {
    w := LastingHolding(RootOf(windowsRoot));
    pattern := RootLeaves(w, windowsRoot);
  }

  lemma LastingIsVariable(w: Variable)
    requires w in LASTING
    ensures w in VARIABLES
  {
  }

  /**
   For roots without `%`: some pattern is left with a variable exactly when the root is part of a lasting one's
   name.
   */
  lemma NoVariableLeftExact(windowsRoot: string)
    requires '%' !in RootOf(windowsRoot)
    ensures (exists pattern, w: Variable :: w in VARIABLES && Leaves(windowsRoot, pattern, w))
            <==> !SpellsNothing(RootOf(windowsRoot))
  {
    if SpellsNothing(RootOf(windowsRoot)) {
      forall pattern, w: Variable | w in VARIABLES ensures !Leaves(windowsRoot, pattern, w) {
        NoVariableLeft(pattern, windowsRoot, w);
      }
    } else {
      var pattern, w := SomethingLeft(windowsRoot);
      LastingIsVariable(w);
    }
  }

  /** For instance, with root `DIR`, `%WIN%WINDIR%%` expands to the variable `%WINDIR%` itself. */
  lemma UncleanRootLeavesVariable(pattern: string, windowsRoot: string, w: Variable)
    requires pattern == "%WIN%WINDIR%%" && windowsRoot == "DIR" && w == WINDIR
    ensures Expand(pattern, windowsRoot) == [w]
  {
    var m, n := DirParts(pattern, windowsRoot, w);
    SpelledWhole(w, pattern, m, windowsRoot, n);
  }

  lemma SpelledWhole(w: Variable, pattern: string, m: string, root: string, n: string)
    requires SpelledBy(w, m, root, n) && RootOf(root) == root && pattern == Three(m, WINDIR_NAME, n)
    ensures Expand(pattern, root) == [w]
  {
    RootSpells(w, m, root, n, root);
  }

  lemma DirParts(pattern: string, root: string, w: Variable) returns (m: string, n: string)
    requires pattern == "%WIN%WINDIR%%" && root == "DIR" && w == WINDIR
    ensures SpelledBy(w, m, root, n) && RootOf(root) == root && pattern == Three(m, WINDIR_NAME, n)
  {
    m, n := "WIN", "";
    DirIsWritten(root);
    DirSpells(m, root, n, pattern);
  }

  lemma DirIsWritten(root: string)
    requires root == "DIR"
    ensures RootOf(root) == root && '%' !in root
  {
    WrittenIsNormal(root);
  }

  lemma DirSpells(m: string, root: string, n: string, pattern: string)
    requires m == "WIN" && root == "DIR" && n == "" && pattern == "%WIN%WINDIR%%"
    ensures pattern == Three(m, WINDIR_NAME, n) && SpelledBy(WINDIR, m, root, n)
  {
    WindirIsNamed();
    assert WINDIR_NAME == m + root;
  }
}
