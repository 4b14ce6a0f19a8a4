/** What expanding the AppLocker variables of a rule yields. */
module ExpandTheorems {
  import opened Text
  import opened PathRules

  /** A value that cannot help to spell the variable `w`: no `%` of its own, and no part of `w`. */
  ghost predicate Safe(value: string, w: string) {
    '%' !in value && !Occurs(w, value)
  }

  /** A value that is recognisably a path. */
  predicate Clean(v: string) {
    '%' !in v && exists c | c in v :: IsPathMark(c)
  }

  lemma OccursHas(w: string, v: string, c: char)
    ensures Occurs(w, v) && c in v ==> c in w
  {
    if i :| 0 <= i <= |w| && OccursAt(w, v, i) {
      assert forall k :: 0 <= k < |v| ==> v[k] == w[i..][k] == w[i + k];
    }
  }

  lemma CleanIsSafe(v: string, w: Variable)
    requires Clean(v)
    ensures Safe(v, w)
  {
    var c :| c in v && IsPathMark(c);
    assert c !in w by {
      assert forall k :: 0 < k < |w| ==> w[k] == w[1..][k - 1];
    }
    OccursHas(w, v, c);
  }

  /** The text is how a variable ends. */
  predicate EndOf(t: string, w: string) {
    |t| <= |w| && t == w[|w| - |t|..]
  }

  /** A safe value cannot supply the end of the variable. */
  lemma NoEndInSafe(value: string, rest: string, t: string, w: string)
    requires Safe(value, w) && t != "" && t[|t| - 1] == '%' && EndOf(t, w)
    ensures !(t <= value + rest)
  {
    if |t| <= |value| {
      assert (value + rest)[|t| - 1] == value[|t| - 1];
      assert value[|t| - 1] in value;
    } else {
      ValueInside(value, rest, t, w);
    }
  }

  lemma ValueInside(value: string, rest: string, t: string, w: string)
    requires |value| < |t| && EndOf(t, w)
    ensures t <= value + rest ==> Occurs(w, value)
  {
    if t <= value + rest {
      assert value <= t;
      assert OccursAt(w, value, |w| - |t|);
    }
  }

  /** So the end of a variable at the front of replaced text was there before. */
  lemma {:induction false} TailSurvives(s: string, v: Variable, value: string, t: string, w: string)
    requires Safe(value, w) && IsNameTail(t) && EndOf(t, w) && t <= Replace(s, v, value)
    ensures t <= s
  {
    if v <= s {
      NoEndInSafe(value, Replace(s[|v|..], v, value), t, w);
    } else if |t| > 1 {
      assert t[1..] <= Replace(s[1..], v, value);
      TailSurvives(s[1..], v, value, t[1..], w);
      assert s == [s[0]] + s[1..] && t == [t[0]] + t[1..];
    }
  }

  /** A variable absent from `value + rest` at the front, and from `rest`, is absent altogether. */
  lemma {:induction false} OccursAfterSafe(value: string, rest: string, w: Variable)
    requires '%' !in value && Occurs(value + rest, w)
    ensures Occurs(rest, w)
  {
    forall j | 0 <= j < |value| ensures !OccursAt(value + rest, w, j) {
      assert (value + rest)[j..][0] == value[j] && value[j] in value;
    }
    var i :| 0 <= i <= |value + rest| && OccursAt(value + rest, w, i);
    assert (value + rest)[i..] == rest[i - |value|..];
    assert OccursAt(rest, w, i - |value|);
  }

  lemma FrontSurvives(s: string, v: Variable, value: string, w: Variable)
    requires Safe(value, w) && s != "" && !(v <= s) && w <= Replace(s, v, value)
    ensures w <= s
  {
    assert w[1..] <= Replace(s[1..], v, value);
    TailSurvives(s[1..], v, value, w[1..], w);
    assert w == [w[0]] + w[1..] && s == [s[0]] + s[1..];
  }

  /** Replacing by a safe value removes the variable itself and brings in no other. */
  lemma {:induction false} ReplaceRemoves(s: string, v: Variable, value: string, w: Variable)
    requires Safe(value, w)
    requires w == v || !Occurs(s, w)
    ensures !Occurs(Replace(s, v, value), w)
  {
    var r := Replace(s, v, value);
    if s == "" {
    } else if v <= s {
      if w != v && Occurs(s[|v|..], w) {
        OccursInSuffix(s, |v|, w);
      }
      ReplaceRemoves(s[|v|..], v, value, w);
      if Occurs(r, w) {
        OccursAfterSafe(value, Replace(s[|v|..], v, value), w);
      }
    } else {
      OccursInRest(s, w);
      ReplaceRemoves(s[1..], v, value, w);
      OccursInRest(r, w);
      assert r[1..] == Replace(s[1..], v, value);
      if w <= r {
        FrontSurvives(s, v, value, w);
      }
    }
  }

  // ----- over the candidate list ------------------------------------------------

  ghost predicate NoneHas(cs: seq<string>, w: string) {
    forall c :: c in cs ==> !Occurs(c, w)
  }

  ghost predicate SafeSubstitution(sub: Substitution, w: string) {
    forall v :: v in sub.values ==> Safe(v, w)
  }

  lemma {:induction false} ReplaceInAllRemoves(cs: seq<string>, sub: Substitution, w: Variable)
    requires SafeSubstitution(sub, w)
    requires w == sub.variable || NoneHas(cs, w)
    ensures NoneHas(ReplaceInAll(cs, sub.variable, sub.values), w)
  {
    if cs != [] {
      assert forall c :: c in cs[1..] ==> c in cs;
      ReplaceInAllRemoves(cs[1..], sub, w);
      assert cs[0] in cs;
      forall d | d in ReplaceByEach(cs[0], sub.variable, sub.values)
        ensures !Occurs(d, w)
      {
        var i :| 0 <= i < |sub.values| && d == Replace(cs[0], sub.variable, sub.values[i]);
        ReplaceRemoves(cs[0], sub.variable, sub.values[i], w);
      }
    }
  }

  lemma {:induction false} SubstituteAllRemoves(cs: seq<string>, subs: seq<Substitution>, w: Variable)
    requires forall s :: s in subs ==> SafeSubstitution(s, w)
    requires NoneHas(cs, w) || exists s :: s in subs && s.variable == w
    ensures NoneHas(SubstituteAll(cs, subs), w)
    decreases |subs|
  {
    if subs != [] {
      var sub := subs[0];
      assert sub in subs && forall s :: s in subs[1..] ==> s in subs;
      if NoneHas(cs, w) || sub.variable == w {
        ReplaceInAllRemoves(cs, sub, w);
      } else {
        var s :| s in subs && s.variable == w;
        assert s in subs[1..];
      }
      SubstituteAllRemoves(Substitute(cs, sub), subs[1..], w);
    }
  }

  lemma DriveIsClean(root: string)
    requires '%' !in root
    ensures Clean(DriveOf(root))
  {
    var drive := DriveOf(root);
    assert drive[1] == ':' && IsPathMark(drive[1]);
    assert drive[0] != '%' by {
      if |root| > 1 { assert root[0] in root; }
    }
  }

  lemma BelowIsClean(v: string, tail: string)
    requires '%' !in v && Clean(tail)
    ensures Clean(v + tail)
  {
    var c :| c in tail && IsPathMark(c);
    assert c in v + tail;
  }

  /** All values but the root itself are paths. */
  lemma OthersAreClean(root: string)
    requires '%' !in root
    ensures var subs := Substitutions(root);
            forall k, v :: 1 <= k < 4 && v in subs[k].values ==> Clean(v)
  {
    var drive := DriveOf(root);
    DriveIsClean(root);
    TailsAreClean();
    BelowIsClean(root, "\\SYSTEM32");
    BelowIsClean(root, "\\SYSWOW64");
    BelowIsClean(drive, "\\PROGRAM FILES");
    BelowIsClean(drive, "\\PROGRAM FILES (X86)");
  }

  lemma TailsAreClean()
    ensures Clean("\\SYSTEM32") && Clean("\\SYSWOW64") && Clean("\\PROGRAM FILES") && Clean("\\PROGRAM FILES (X86)")
  {
    SeparatorFirst("\\SYSTEM32");
    SeparatorFirst("\\SYSWOW64");
    SeparatorFirst("\\PROGRAM FILES");
    SeparatorFirst("\\PROGRAM FILES (X86)");
  }

  lemma SeparatorFirst(t: string)
    requires t != "" && t[0] == '\\' && '%' !in t
    ensures Clean(t)
  {
    assert t[0] in t && IsPathMark(t[0]);
  }

  /** AppLocker's variables, the two it expands to nothing included. */
  const VARIABLES := {WINDIR, SYSTEM32, OSDRIVE, PROGRAMFILES, REMOVABLE, HOT}

  /** Whether the root can help to spell a variable that is not replaced afterwards. */
  ghost predicate SpellsNothing(root: string) {
    !Occurs(WINDIR, root) && !Occurs(REMOVABLE, root) && !Occurs(HOT, root)
  }

  lemma SafeAgainst(root: string, w: Variable, subs: seq<Substitution>)
    requires '%' !in root && subs == Substitutions(root)
    ensures forall s :: s in subs[1..] ==> SafeSubstitution(s, w)
  {
    OthersAreClean(root);
    forall k, v | 1 <= k < 4 && v in subs[k].values ensures Safe(v, w) {
      CleanIsSafe(v, w);
    }
  }

  /** After the first substitution, whatever it left of the later variables is removed. */
  lemma LaterVariablesGo(text: string, root: string, w: Variable, subs: seq<Substitution>)
    requires '%' !in root && subs == Substitutions(root) && w in {SYSTEM32, OSDRIVE, PROGRAMFILES}
    ensures NoneHas(SubstituteAll([text], subs), w)
  {
    SafeAgainst(root, w, subs);
    assert exists s :: s in subs[1..] && s.variable == w by {
      assert subs[1..][0] == subs[1] && subs[1..][1] == subs[2] && subs[1..][2] == subs[3];
    }
    SubstituteAllRemoves(Substitute([text], subs[0]), subs[1..], w);
  }

  lemma FirstVariablesGo(text: string, root: string, w: Variable, subs: seq<Substitution>)
    requires '%' !in root && SpellsNothing(root) && subs == Substitutions(root)
    requires w == WINDIR || (w in {REMOVABLE, HOT} && !Occurs(text, w))
    ensures NoneHas(SubstituteAll([text], subs), w)
  {
    SafeAgainst(root, w, subs);
    assert subs[0].values == [root] && SafeSubstitution(subs[0], w);
    assert forall s :: s in subs ==> s == subs[0] || s in subs[1..];
    assert subs[0] in subs && subs[0].variable == WINDIR;
    SubstituteAllRemoves([text], subs, w);
  }

  lemma VariableGoes(text: string, root: string, w: Variable, subs: seq<Substitution>)
    requires '%' !in root && SpellsNothing(root) && subs == Substitutions(root) && w in VARIABLES
    requires !Occurs(text, REMOVABLE) && !Occurs(text, HOT)
    ensures NoneHas(SubstituteAll([text], subs), w)
  {
    if w == WINDIR || w == REMOVABLE || w == HOT {
      FirstVariablesGo(text, root, w, subs);
    } else {
      LaterVariablesGo(text, root, w, subs);
    }
  }

  /** If the root, free of `%`, is part of no such variable's name, no expanded pattern holds an AppLocker variable. */
  lemma NoVariableLeft(pattern: string, windowsRoot: string, w: Variable)
    requires '%' !in RootOf(windowsRoot) && SpellsNothing(RootOf(windowsRoot)) && w in VARIABLES
    ensures NoneHas(Expand(pattern, windowsRoot), w)
  {
    var root, text := RootOf(windowsRoot), Normalise(pattern);
    var subs := Substitutions(root);
    if Occurs(text, REMOVABLE) || Occurs(text, HOT) {
      ExpandNothing(pattern, windowsRoot);
    } else {
      VariableGoes(text, root, w, subs);
      ExpandFixed(pattern, windowsRoot, subs);
    }
  }

  lemma ExpandFixed(pattern: string, windowsRoot: string, subs: seq<Substitution>)
    requires subs == Substitutions(RootOf(windowsRoot))
    ensures !Occurs(Normalise(pattern), REMOVABLE) && !Occurs(Normalise(pattern), HOT) ==>
              Expand(pattern, windowsRoot) == SubstituteAll([Normalise(pattern)], subs)
  {
  }

  lemma ExpandNothing(pattern: string, windowsRoot: string)
    requires Occurs(Normalise(pattern), REMOVABLE) || Occurs(Normalise(pattern), HOT)
    ensures Expand(pattern, windowsRoot) == []
  {
  }

  lemma {:induction false} ReplaceSkips(p: string, s: string, v: Variable, value: string)
    requires '%' !in p
    ensures Replace(p + s, v, value) == p + Replace(s, v, value)
  {
    if p == "" {
      assert p + s == s;
    } else {
      assert (p + s)[0] == p[0] && p[0] in p;
      assert (p + s)[1..] == p[1..] + s;
      ReplaceSkips(p[1..], s, v, value);
    }
  }

  // ----- how many, and which --------------------------------------------------

  lemma ReplaceInAllNext(cs: seq<string>, variable: Variable, values: seq<string>)
    requires cs != []
    ensures |ReplaceInAll(cs, variable, values)| == |values| + |ReplaceInAll(cs[1..], variable, values)|
  {
  }

  lemma OneMore(n: nat, k: nat)
    ensures (n + 1) * k == k + n * k
  {
  }

  lemma {:induction false} ReplaceInAllCount(cs: seq<string>, variable: Variable, values: seq<string>)
    ensures |ReplaceInAll(cs, variable, values)| == |cs| * |values|
  {
    if cs != [] {
      ReplaceInAllNext(cs, variable, values);
      ReplaceInAllCount(cs[1..], variable, values);
      OneMore(|cs| - 1, |values|);
    }
  }

  lemma SubstituteCount(cs: seq<string>, sub: Substitution)
    ensures |Substitute(cs, sub)| == |cs| || |Substitute(cs, sub)| == |cs| * |sub.values|
  {
    ReplaceInAllCount(cs, sub.variable, sub.values);
  }

  /** A rule stands for nothing, or for one, two or four directories. */
  lemma ExpandCount(pattern: string, windowsRoot: string)
    ensures |Expand(pattern, windowsRoot)| in {0, 1, 2, 4}
  {
    var subs := Substitutions(RootOf(windowsRoot));
    SubstitutionSizes(RootOf(windowsRoot));
    CountFour([Normalise(pattern)], subs);
    ExpandIs(pattern, windowsRoot, subs);
  }

  lemma SubstitutionSizes(root: string)
    ensures var subs := Substitutions(root);
            |subs| == 4 && |subs[0].values| == |subs[2].values| == 1 && |subs[1].values| == |subs[3].values| == 2
  {
  }

  lemma ExpandIs(pattern: string, windowsRoot: string, subs: seq<Substitution>)
    requires subs == Substitutions(RootOf(windowsRoot))
    ensures |Expand(pattern, windowsRoot)| in {0, |SubstituteAll([Normalise(pattern)], subs)|}
  {
  }

  lemma CountFour(c0: seq<string>, subs: seq<Substitution>)
    requires |c0| == 1 && |subs| == 4
    requires |subs[0].values| == |subs[2].values| == 1 && |subs[1].values| == |subs[3].values| == 2
    ensures |SubstituteAll(c0, subs)| in {1, 2, 4}
  {
    var c1 := Substitute(c0, subs[0]);
    var c2 := Substitute(c1, subs[1]);
    var c3 := Substitute(c2, subs[2]);
    SubstituteCount(c0, subs[0]);
    SubstituteCount(c1, subs[1]);
    SubstituteCount(c2, subs[2]);
    SubstituteCount(c3, subs[3]);
    UnfoldFour(c0, subs);
  }

  lemma UnfoldFour(cs: seq<string>, subs: seq<Substitution>)
    requires |subs| == 4
    ensures SubstituteAll(cs, subs) ==
            Substitute(Substitute(Substitute(Substitute(cs, subs[0]), subs[1]), subs[2]), subs[3])
  {
    var c1 := Substitute(cs, subs[0]);
    var c2 := Substitute(c1, subs[1]);
    var c3 := Substitute(c2, subs[2]);
    assert SubstituteAll(c3, subs[1..][1..][1..]) == Substitute(c3, subs[3]);
    assert SubstituteAll(c2, subs[1..][1..]) == SubstituteAll(c3, subs[1..][1..][1..]);
    assert SubstituteAll(c1, subs[1..]) == SubstituteAll(c2, subs[1..][1..]);
  }

  lemma {:induction false} AbsentWithoutPercent(s: string, w: Variable)
    requires '%' !in s
    ensures !Occurs(s, w)
  {
    forall i | 0 <= i <= |s| ensures !OccursAt(s, w, i) {
      assert i < |s| ==> s[i..][0] in s;
    }
  }

  lemma SubstituteNothing(cs: seq<string>, subs: seq<Substitution>)
    requires forall c :: c in cs ==> '%' !in c
    ensures SubstituteAll(cs, subs) == cs
    decreases |subs|
  {
    if subs != [] {
      forall c | c in cs ensures !Occurs(c, subs[0].variable) {
        AbsentWithoutPercent(c, subs[0].variable);
      }
      SubstituteNothing(cs, subs[1..]);
    }
  }

  /** The directories a variable's values make out of the rest of a rule. */
  function Resolved(values: seq<string>, rest: string): (r: seq<string>)
    ensures |r| == |values|
    ensures forall i :: 0 <= i < |values| ==> r[i] == values[i] + rest
  {
    if values == [] then [] else [values[0] + rest] + Resolved(values[1..], rest)
  }

  lemma {:induction false} ReplaceLeading(v: Variable, values: seq<string>, rest: string)
    requires '%' !in rest
    ensures ReplaceByEach(v + rest, v, values) == Resolved(values, rest)
  {
    if values != [] {
      assert v + rest != "" && (v + rest)[|v|..] == rest;
      ReplaceAbsent(rest, v, values[0]);
      ReplaceLeading(v, values[1..], rest);
    }
  }

  lemma SubstituteLeading(sub: Substitution, rest: string)
    requires '%' !in rest
    ensures Substitute([sub.variable + rest], sub) == Resolved(sub.values, rest)
  {
    var text := sub.variable + rest;
    assert OccursAt(text, sub.variable, 0);
    assert text in [text];
    ReplaceLeading(sub.variable, sub.values, rest);
    assert ReplaceInAll([text][1..], sub.variable, sub.values) == [];
    assert Substitute([text], sub) == ReplaceByEach([text][0], sub.variable, sub.values) + [];
  }

  /** A rule that starts with a variable governs exactly the directories that variable stands for. */
  lemma {:induction false} LeadingVariable(sub: Substitution, rest: string, subs: seq<Substitution>, k: nat)
    requires k < |subs| && subs[k] == sub && '%' !in rest
    requires forall v :: v in sub.values ==> '%' !in v
    requires forall j :: 0 <= j < k ==> !Occurs(sub.variable + rest, subs[j].variable)
    ensures SubstituteAll([sub.variable + rest], subs) == Resolved(sub.values, rest)
    decreases k
  {
    var text := sub.variable + rest;
    if k == 0 {
      SubstituteLeading(sub, rest);
      var next := Resolved(sub.values, rest);
      forall c | c in next ensures '%' !in c {
        var i :| 0 <= i < |next| && next[i] == c;
        assert sub.values[i] in sub.values;
      }
      SubstituteNothing(next, subs[1..]);
    } else {
      assert Substitute([text], subs[0]) == [text];
      LeadingVariable(sub, rest, subs[1..], k - 1);
    }
  }

  lemma {:induction false} VariableOccursOnlyAsItself(v: Variable, rest: string, w: Variable)
    requires '%' !in rest
    ensures Occurs(v + rest, w) ==> w == v
  {
    if i :| 0 <= i <= |v + rest| && OccursAt(v + rest, w, i) {
      var last := i + |w| - 1;
      assert (v + rest)[i] == w[0] == '%' && (v + rest)[last] == w[1..][|w| - 2] == '%';
      assert forall j :: |v| <= j < |v + rest| ==> (v + rest)[j] == rest[j - |v|] && rest[j - |v|] in rest;
      assert forall j :: 0 < j < |v| - 1 ==> v[j] == v[1..][j - 1] != '%';
      assert i == 0 && last == |v| - 1;
      assert w == (v + rest)[i..][..|w|] == v;
    }
  }

  lemma VariablesDiffer(root: string, k: nat)
    requires k < 4
    ensures var v := Substitutions(root)[k].variable;
            v != REMOVABLE && v != HOT && forall j :: 0 <= j < k ==> Substitutions(root)[j].variable != v
  {
    assert WINDIR[1] == 'W' && SYSTEM32[1] == 'S' && OSDRIVE[1] == 'O' && PROGRAMFILES[1] == 'P';
    assert REMOVABLE[1] == 'R' && HOT[1] == 'H';
  }

  /** What a rule `%VAR%rest` stands for, for each of AppLocker's variables. */
  lemma ExpandMeaning(k: nat, rest: string, pattern: string, windowsRoot: string)
    requires k < 4 && '%' !in RootOf(windowsRoot) && '%' !in rest
    requires Normalise(pattern) == Substitutions(RootOf(windowsRoot))[k].variable + rest
    ensures Expand(pattern, windowsRoot) == Resolved(Substitutions(RootOf(windowsRoot))[k].values, rest)
  {
    var root := RootOf(windowsRoot);
    NoRemovable(k, rest, root);
    SubstituteMeaning(k, rest, root);
  }

  lemma NoRemovable(k: nat, rest: string, root: string)
    requires k < 4 && '%' !in rest
    ensures var text := Substitutions(root)[k].variable + rest;
            !Occurs(text, REMOVABLE) && !Occurs(text, HOT)
  {
    var v := Substitutions(root)[k].variable;
    VariablesDiffer(root, k);
    VariableOccursOnlyAsItself(v, rest, REMOVABLE);
    VariableOccursOnlyAsItself(v, rest, HOT);
  }

  lemma ValuesHaveNoPercent(root: string, subs: seq<Substitution>, k: nat)
    requires k < 4 && '%' !in root && subs == Substitutions(root)
    ensures forall v :: v in subs[k].values ==> '%' !in v
  {
    forall v | v in subs[k].values ensures '%' !in v {
      if k == 0 {
        RootIsOnlyValue(root, subs, v);
      } else {
        OtherIsClean(root, subs, k, v);
      }
    }
  }

  lemma RootIsOnlyValue(root: string, subs: seq<Substitution>, v: string)
    requires subs == Substitutions(root)
    ensures v in subs[0].values ==> v == root
  {
    assert subs[0].values == [root];
  }

  lemma OtherIsClean(root: string, subs: seq<Substitution>, k: nat, v: string)
    requires 1 <= k < 4 && '%' !in root && subs == Substitutions(root) && v in subs[k].values
    ensures Clean(v)
  {
    OthersAreClean(root);
  }

  lemma SubstituteMeaning(k: nat, rest: string, root: string)
    requires k < 4 && '%' !in root && '%' !in rest
    ensures var sub := Substitutions(root)[k];
            SubstituteAll([sub.variable + rest], Substitutions(root)) == Resolved(sub.values, rest)
  {
    var subs := Substitutions(root);
    VariablesDiffer(root, k);
    forall j | 0 <= j < k ensures !Occurs(subs[k].variable + rest, subs[j].variable) {
      VariableOccursOnlyAsItself(subs[k].variable, rest, subs[j].variable);
    }
    ValuesHaveNoPercent(root, subs, k);
    LeadingVariable(subs[k], rest, subs, k);
  }
}
