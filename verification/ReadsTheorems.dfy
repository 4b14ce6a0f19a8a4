/** The read-set analysis only ever gains, and misses no literal key on a chain from a fact. */
module ReadsTheorems {
  import opened Reads

  // ----- monotony ------------------------------------------------------------------------

  ghost predicate Below(s: State, t: State) {
    s.derived <= t.derived && s.keys <= t.keys && s.facts <= t.facts && s.helpers <= t.helpers
  }

  lemma {:induction false} DerivedGrows(small: set<string>, large: set<string>, n: Node)
    requires small <= large && IsDerived(small, n)
    ensures IsDerived(large, n)
    decreases n
  {
    match n
    case Call(func, _, _) => if func.attr != "fact" { DerivedGrows(small, large, func.value); }
    case Attribute(value, _) => DerivedGrows(small, large, value);
    case Subscript(value, _) => DerivedGrows(small, large, value);
    case BoolOp(values) =>
      var v :| v in values && IsDerived(small, v);
      DerivedGrows(small, large, v);
    case IfExp(_, body, orelse) =>
      if IsDerived(small, body) { DerivedGrows(small, large, body); } else { DerivedGrows(small, large, orelse); }
    case _ =>
  }

  lemma {:induction false} GeneratorsGrow(small: set<string>, large: set<string>, gens: seq<Node>)
    requires small <= large
    ensures NoteGenerators(small, gens) <= NoteGenerators(large, gens) && small <= NoteGenerators(small, gens)
  {
    if gens != [] {
      var rest, g := gens[..|gens| - 1], gens[|gens| - 1];
      GeneratorsGrow(small, large, rest);
      if g.Comprehension? && IsDerived(NoteGenerators(small, rest), g.iter) {
        DerivedGrows(NoteGenerators(small, rest), NoteGenerators(large, rest), g.iter);
      }
    }
  }

  lemma HelperArgsGrow(small: set<string>, large: set<string>, func: Node, args: seq<Node>)
    requires small <= large
    ensures HelperArgs(small, func, args) <= HelperArgs(large, func, args)
  {
    forall i: nat | i < |args| && IsDerived(small, args[i]) ensures IsDerived(large, args[i]) {
      DerivedGrows(small, large, args[i]);
    }
  }

  lemma NoteGrows(s: State, t: State, n: Node)
    requires Below(s, t)
    ensures Below(Note(s, n), Note(t, n)) && Below(s, Note(s, n))
  {
    match n
    case Assign(_, value) => if IsDerived(s.derived, value) { DerivedGrows(s.derived, t.derived, value); }
    case For(_, iter, _) => if IsDerived(s.derived, iter) { DerivedGrows(s.derived, t.derived, iter); }
    case Comprehension(_, iter, _) => if IsDerived(s.derived, iter) { DerivedGrows(s.derived, t.derived, iter); }
    case Comp(_, generators) => GeneratorsGrow(s.derived, t.derived, generators);
    case Call(func, args, _) =>
      HelperArgsGrow(s.derived, t.derived, func, args);
      if func.Attribute? && IsDerived(s.derived, func.value) { DerivedGrows(s.derived, t.derived, func.value); }
    case Subscript(value, _) => if IsDerived(s.derived, value) { DerivedGrows(s.derived, t.derived, value); }
    case _ =>
  }

  /** Starting from more, the visitor ends with more; and it never loses what it started with. */
  lemma {:induction false} VisitGrows(s: State, t: State, n: Node)
    requires Below(s, t)
    ensures Below(Visited(s, n), Visited(t, n)) && Below(s, Visited(s, n))
    decreases n, 1
  {
    NoteGrows(s, t, n);
    VisitAllGrows(Note(s, n), Note(t, n), n, |n.Children()|);
  }

  lemma {:induction false} VisitAllGrows(s: State, t: State, parent: Node, k: nat)
    requires k <= |parent.Children()| && Below(s, t)
    ensures Below(VisitedAll(s, parent, k), VisitedAll(t, parent, k)) && Below(s, VisitedAll(s, parent, k))
    decreases parent, 0, k
  {
    if k > 0 {
      ChildIsSmaller(parent, k - 1);
      VisitAllGrows(s, t, parent, k - 1);
      VisitGrows(VisitedAll(s, parent, k - 1), VisitedAll(t, parent, k - 1), parent.Children()[k - 1]);
    }
  }

  // ----- completeness ------------------------------------------------------------------------

  /** `m` occurs in `n`: it is `n`, or occurs in one of its children. */
  ghost predicate OccursIn(m: Node, n: Node)
    decreases n
  {
    m == n || exists i :: 0 <= i < |n.Children()| && SmallerChild(n, i) && OccursIn(m, n.Children()[i])
  }

  ghost predicate SmallerChild(n: Node, i: nat)
    requires i < |n.Children()|
    ensures SmallerChild(n, i) ==> n.Children()[i] < n
  {
    n.Children()[i] < n
  }

  /** Wherever a node sits in a tree, the visit reaches it with at least the names known at the start. */
  lemma {:induction false} VisitReaches(s: State, n: Node, m: Node)
    requires OccursIn(m, n)
    ensures exists t :: Below(s, t) && Below(Note(t, m), Visited(s, n))
    decreases n
  {
    if m == n {
      VisitAllGrows(Note(s, n), Note(s, n), n, |n.Children()|);
      assert Below(s, s) && Below(Note(s, m), Visited(s, n));
    } else {
      var i :| 0 <= i < |n.Children()| && SmallerChild(n, i) && OccursIn(m, n.Children()[i]);
      var before := VisitedAll(Note(s, n), n, i);
      VisitReaches(before, n.Children()[i], m);
      var t :| Below(before, t) && Below(Note(t, m), Visited(before, n.Children()[i]));
      ReachedInChild(s, n, i, t, Note(t, m));
    }
  }

  /** What is reached in a child is reached in its parent, from at least the names known at the start. */
  lemma ReachedInChild(s: State, n: Node, i: nat, t: State, noted: State)
    requires i < |n.Children()|
    requires Below(VisitedAll(Note(s, n), n, i), t)
    requires Below(noted, Visited(VisitedAll(Note(s, n), n, i), n.Children()[i]))
    ensures Below(s, t) && Below(noted, Visited(s, n))
  {
    var start := Note(s, n);
    NoteGrows(s, s, n);
    VisitAllGrows(start, start, n, i);
    ChildIsSmaller(n, i);
    LaterChildren(start, n, i + 1, |n.Children()|);
    BelowIsTransitive(s, start, VisitedAll(start, n, i));
    BelowIsTransitive(s, VisitedAll(start, n, i), t);
    BelowIsTransitive(noted, VisitedAll(start, n, i + 1), Visited(s, n));
  }

  lemma BelowIsTransitive(s: State, t: State, u: State)
    requires Below(s, t) && Below(t, u)
    ensures Below(s, u)
  {
  }

  lemma {:induction false} LaterChildren(s: State, parent: Node, j: nat, k: nat)
    requires j <= k <= |parent.Children()|
    ensures Below(VisitedAll(s, parent, j), VisitedAll(s, parent, k))
    decreases k
  {
    if j < k {
      ChildIsSmaller(parent, k - 1);
      LaterChildren(s, parent, j, k - 1);
      var t := VisitedAll(s, parent, k - 1);
      VisitGrows(t, t, parent.Children()[k - 1]);
      BelowIsTransitive(VisitedAll(s, parent, j), t, VisitedAll(s, parent, k));
    }
  }

  /** A chain of `.get`, attribute and subscript steps rooted at a `.fact(...)` call or at one of the given names. */
  predicate IsChain(roots: set<string>, n: Node)
    decreases n
  {
    match n
    case Name(id) => id in roots
    case Call(func, _, _) =>
      func.Attribute? && (func.attr == "fact" || (func.attr == "get" && IsChain(roots, func.value)))
    case Attribute(value, _) => IsChain(roots, value)
    case Subscript(value, _) => IsChain(roots, value)
    case _ => false
  }

  lemma {:induction false} ChainsAreDerived(roots: set<string>, derived: set<string>, n: Node)
    requires IsChain(roots, n) && roots <= derived
    ensures IsDerived(derived, n)
    decreases n
  {
    match n
    case Call(func, _, _) => if func.attr != "fact" { ChainsAreDerived(roots, derived, func.value); }
    case Attribute(value, _) => ChainsAreDerived(roots, derived, value);
    case Subscript(value, _) => ChainsAreDerived(roots, derived, value);
    case _ =>
  }

  /** The node reads the literal key off the expression: `base.get("key", ...)` or `base["key"]`. */
  predicate ReadsKey(n: Node, base: Node, key: string) {
    || (n.Call? && n.func.Attribute? && n.func.attr == "get" && n.func.value == base && n.args != []
        && Literal(n.args[0]) == key && key != "")
    || (n.Subscript? && n.value == base && Literal(n.slice) == key && key != "")
  }

  /** Every literal key read off a chain, anywhere in the tree, is reported. */
  lemma ChainReadsReported(s: State, tree: Node, m: Node, base: Node, key: string)
    requires OccursIn(m, tree) && ReadsKey(m, base, key) && IsChain(s.derived, base)
    ensures key in Visited(s, tree).keys
  {
    VisitReaches(s, tree, m);
    var t :| Below(s, t) && Below(Note(t, m), Visited(s, tree));
    ChainsAreDerived(s.derived, t.derived, base);
    assert key in Note(t, m).keys;
  }

  // ----- two passes ------------------------------------------------------------------------------

  lemma {:induction false} SecondKeysHas(helpers: set<HelperArg>, fs: seq<Node>, f: Node, key: string)
    requires (forall g :: g in fs ==> g.FunctionDef?) && f in fs
    requires Seeds(helpers, f) != {} && key in BodyState(Seeds(helpers, f), f.stmts).keys
    ensures key in SecondKeys(helpers, fs)
  {
    var rest, last := fs[..|fs| - 1], fs[|fs| - 1];
    assert fs == rest + [last];
    if f != last {
      SecondKeysHas(helpers, rest, f, key);
    }
  }

  lemma ChildOccurs(stmts: seq<Node>, j: nat, m: Node)
    requires j < |stmts| && OccursIn(m, stmts[j])
    ensures OccursIn(m, Other(stmts))
  {
    var n := Other(stmts);
    assert n.Children() == stmts;
    ChildIsSmaller(n, j);
    assert SmallerChild(n, j) && OccursIn(m, n.Children()[j]);
  }

  /**
   A read inside a helper is reported too: whatever the helper's body reads off a chain from a parameter
   that the first pass saw receive something derived.
   */
  lemma HelperReadsReported(tree: Node, fs: seq<Node>, f: Node, i: nat, j: nat, m: Node, base: Node, key: string)
    requires (forall g :: g in fs ==> g.FunctionDef?) && f in fs && i < |f.params| && j < |f.stmts|
    requires HelperArg(f.name, i) in Visited(State({}, {}, {}, {}), tree).helpers
    requires OccursIn(m, f.stmts[j]) && ReadsKey(m, base, key) && IsChain({f.params[i]}, base)
    ensures key in SecondKeys(Visited(State({}, {}, {}, {}), tree).helpers, fs)
  {
    var helpers := Visited(State({}, {}, {}, {}), tree).helpers;
    var seeds := Seeds(helpers, f);
    assert f.params[i] in seeds;
    ChildOccurs(f.stmts, j, m);
    RootsGrow({f.params[i]}, seeds, base);
    ChainReadsReported(State(seeds, {}, {}, {}), Other(f.stmts), m, base, key);
    SecondKeysHas(helpers, fs, f, key);
  }

  lemma {:induction false} RootsGrow(small: set<string>, large: set<string>, n: Node)
    requires IsChain(small, n) && small <= large
    ensures IsChain(large, n)
    decreases n
  {
    match n
    case Call(func, _, _) => if func.attr != "fact" { RootsGrow(small, large, func.value); }
    case Attribute(value, _) => RootsGrow(small, large, value);
    case Subscript(value, _) => RootsGrow(small, large, value);
    case _ =>
  }
}
