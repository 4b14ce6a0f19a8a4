/** The other side of the read-set analysis: what it reports is really read, and off something reached from a fact. */
module ReadsExact {
  import opened Reads
  import opened ReadsTheorems

  // ----- occurrence -----------------------------------------------------------------------

  lemma ChildOf(n: Node, i: nat)
    requires i < |n.Children()|
    ensures OccursIn(n.Children()[i], n)
  {
    ChildIsSmaller(n, i);
    assert SmallerChild(n, i) && OccursIn(n.Children()[i], n.Children()[i]);
  }

  lemma {:induction false} OccursDeeper(m: Node, n: Node, tree: Node)
    requires OccursIn(m, n) && OccursIn(n, tree)
    ensures OccursIn(m, tree)
    decreases tree
  {
    if n != tree {
      var i :| 0 <= i < |tree.Children()| && SmallerChild(tree, i) && OccursIn(n, tree.Children()[i]);
      OccursDeeper(m, n, tree.Children()[i]);
    }
  }

  lemma ChildOccursIn(n: Node, i: nat, tree: Node)
    requires i < |n.Children()| && OccursIn(n, tree)
    ensures OccursIn(n.Children()[i], tree)
  {
    ChildOf(n, i);
    OccursDeeper(n.Children()[i], n, tree);
  }

  // ----- fact keys --------------------------------------------------------------------------

  /** The node is a `.fact("key", ...)` call. */
  predicate AsksFor(m: Node, key: string) {
    m.Call? && m.func.Attribute? && m.func.attr == "fact" && m.args != [] && Literal(m.args[0]) == key && key != ""
  }

  ghost predicate SomethingAsksFor(tree: Node, key: string) {
    exists m :: OccursIn(m, tree) && AsksFor(m, key)
  }

  lemma NoteFacts(s: State, n: Node, key: string)
    ensures key in Note(s, n).facts <==> key in s.facts || AsksFor(n, key)
  {
  }

  lemma {:induction false} FactsWithin(s: State, n: Node, tree: Node, key: string)
    requires OccursIn(n, tree) && key in Visited(s, n).facts
    ensures key in s.facts || SomethingAsksFor(tree, key)
    decreases n, 1
  {
    NoteFacts(s, n, key);
    FactsWithinAll(Note(s, n), n, |n.Children()|, tree, key);
  }

  lemma {:induction false} FactsWithinAll(s: State, parent: Node, k: nat, tree: Node, key: string)
    requires k <= |parent.Children()| && OccursIn(parent, tree) && key in VisitedAll(s, parent, k).facts
    ensures key in s.facts || SomethingAsksFor(tree, key)
    decreases parent, 0, k
  {
    if k > 0 {
      ChildIsSmaller(parent, k - 1);
      ChildOccursIn(parent, k - 1, tree);
      FactsWithin(VisitedAll(s, parent, k - 1), parent.Children()[k - 1], tree, key);
      if key in VisitedAll(s, parent, k - 1).facts {
        FactsWithinAll(s, parent, k - 1, tree, key);
      }
    }
  }

  /** A visit reports exactly the keys of the `.fact` calls in the tree, besides those it started with. */
  lemma FactsExact(s: State, tree: Node, key: string)
    ensures key in Visited(s, tree).facts <==> key in s.facts || SomethingAsksFor(tree, key)
  {
    if key in Visited(s, tree).facts {
      FactsWithin(s, tree, tree, key);
    }
    VisitGrows(s, s, tree);
    if m :| OccursIn(m, tree) && AsksFor(m, key) {
      VisitReaches(s, tree, m);
      var t :| Below(s, t) && Below(Note(t, m), Visited(s, tree));
      NoteFacts(t, m, key);
    }
  }

  // ----- what is reached from a fact ----------------------------------------------------------

  /** The node is a known name, or a `.fact(...)` call. */
  predicate IsRoot(names: set<string>, m: Node) {
    (m.Name? && m.id in names) || (m.Call? && m.func.Attribute? && m.func.attr == "fact")
  }

  /** Nothing is derived that does not hold a known name or a `.fact` call; known names and such calls are. */
  lemma {:induction false} DerivedHasRoot(names: set<string>, n: Node)
    ensures IsDerived(names, n) ==> exists m :: OccursIn(m, n) && IsRoot(names, m)
    ensures IsRoot(names, n) ==> IsDerived(names, n)
    decreases n
  {
    if IsDerived(names, n) {
      if IsRoot(names, n) {
        assert OccursIn(n, n);
      } else {
        var i := DerivedChild(names, n);
        DerivedHasRoot(names, n.Children()[i]);
        var m :| OccursIn(m, n.Children()[i]) && IsRoot(names, m);
        ChildOf(n, i);
        OccursDeeper(m, n.Children()[i], n);
      }
    }
  }

  /** A `.get` call is derived through the object it is called on, which is the child of its function. */
  lemma GetIsDerived(names: set<string>, n: Node)
    requires n.Call? && IsDerived(names, n) && !IsRoot(names, n)
    ensures n.func.Attribute? && n.func.attr == "get" && IsDerived(names, n.func)
  {
  }

  lemma DerivedChild(names: set<string>, n: Node) returns (i: nat)
    requires IsDerived(names, n) && !IsRoot(names, n)
    ensures i < |n.Children()| && IsDerived(names, n.Children()[i]) && n.Children()[i] < n
  {
    match n
    case Call(func, _, _) =>
      GetIsDerived(names, n);
      i := 0;
    case Attribute(_, _) => i := 0;
    case Subscript(_, _) => i := 0;
    case BoolOp(values) => i :| 0 <= i < |values| && IsDerived(names, values[i]);
    case IfExp(_, body, _) => i := if IsDerived(names, body) then 1 else 2;
    ChildIsSmaller(n, i);
  }

  /** The node binds the name to the value of the expression, or to each of its elements in turn. */
  predicate BindsName(m: Node, source: Node, x: string) {
    || (m.Assign? && m.value == source
        && exists t | t in m.targets :: t == Name(x) || (t.TupleOf? && Name(x) in t.elts))
    || (m.For? && m.iter == source && m.target == Name(x))
    || (m.Comprehension? && m.iter == source && m.target == Name(x))
  }

  /** Whatever is bound in the tree to something reached from a fact is among the names. */
  ghost predicate ClosedUnderBinding(names: set<string>, tree: Node) {
    forall m, source, x :: OccursIn(m, tree) && BindsName(m, source, x) && IsDerived(names, source) ==> x in names
  }

  /** The node hands the expression at that position to the function of that name. */
  predicate Hands(m: Node, h: HelperArg, arg: Node) {
    m.Call? && m.func == Name(h.name) && h.index < |m.args| && m.args[h.index] == arg
  }

  ghost predicate SomethingReads(names: set<string>, tree: Node, key: string) {
    exists m, base :: OccursIn(m, tree) && ReadsKey(m, base, key) && IsDerived(names, base)
  }

  ghost predicate SomethingHands(names: set<string>, tree: Node, h: HelperArg) {
    exists m, arg :: OccursIn(m, tree) && Hands(m, h, arg) && IsDerived(names, arg)
  }

  /** All that was gained from `s` to `t` is accounted for by the tree and the names. */
  ghost predicate Accounted(names: set<string>, tree: Node, s: State, t: State) {
    && t.derived <= names
    && (forall k :: k in t.keys ==> k in s.keys || SomethingReads(names, tree, k))
    && (forall h :: h in t.helpers ==> h in s.helpers || SomethingHands(names, tree, h))
  }

  lemma {:induction false} GeneratorsWithin(names: set<string>, tree: Node, derived: set<string>, gens: seq<Node>)
    requires ClosedUnderBinding(names, tree) && derived <= names && forall g :: g in gens ==> OccursIn(g, tree)
    ensures NoteGenerators(derived, gens) <= names
  {
    if gens != [] {
      var rest, g := gens[..|gens| - 1], gens[|gens| - 1];
      GeneratorsWithin(names, tree, derived, rest);
      BindingWithin(names, tree, NoteGenerators(derived, rest), g);
    }
  }

  lemma BindingWithin(names: set<string>, tree: Node, derived: set<string>, m: Node)
    requires ClosedUnderBinding(names, tree) && derived <= names && OccursIn(m, tree)
    ensures (m.Comprehension? || m.For?) && IsDerived(derived, m.iter) ==> NameOf(m.target) <= names
    ensures m.Assign? && IsDerived(derived, m.value) ==> forall t :: t in m.targets ==> TargetNames(t) <= names
  {
    if (m.Comprehension? || m.For?) && IsDerived(derived, m.iter) {
      DerivedGrows(derived, names, m.iter);
      if m.target.Name? {
        assert BindsName(m, m.iter, m.target.id);
      }
    }
    if m.Assign? && IsDerived(derived, m.value) {
      DerivedGrows(derived, names, m.value);
      forall t, x | t in m.targets && x in TargetNames(t) ensures x in names {
        assert BindsName(m, m.value, x);
      }
    }
  }

  lemma NoteDerived(names: set<string>, tree: Node, s: State, n: Node)
    requires ClosedUnderBinding(names, tree) && s.derived <= names && OccursIn(n, tree)
    ensures Note(s, n).derived <= names
  {
    BindingWithin(names, tree, s.derived, n);
    if n.Comp? {
      forall g | g in n.generators ensures OccursIn(g, tree) {
        var i :| 0 <= i < |n.generators| && n.generators[i] == g;
        assert n.Children()[|n.elements| + i] == g;
        ChildOccursIn(n, |n.elements| + i, tree);
      }
      GeneratorsWithin(names, tree, s.derived, n.generators);
    }
  }

  lemma NoteKeys(names: set<string>, tree: Node, s: State, n: Node, key: string)
    requires s.derived <= names && OccursIn(n, tree) && key in Note(s, n).keys
    ensures key in s.keys || SomethingReads(names, tree, key)
  {
    if key !in s.keys {
      var base := if n.Call? then n.func.value else n.value;
      DerivedGrows(s.derived, names, base);
      assert ReadsKey(n, base, key);
    }
  }

  lemma NoteHelpers(names: set<string>, tree: Node, s: State, n: Node, h: HelperArg)
    requires s.derived <= names && OccursIn(n, tree) && h in Note(s, n).helpers
    ensures h in s.helpers || SomethingHands(names, tree, h)
  {
    if h !in s.helpers {
      DerivedGrows(s.derived, names, n.args[h.index]);
      assert Hands(n, h, n.args[h.index]);
    }
  }

  lemma NoteAccounted(names: set<string>, tree: Node, s: State, t: State, n: Node)
    requires ClosedUnderBinding(names, tree) && OccursIn(n, tree) && Accounted(names, tree, s, t)
    ensures Accounted(names, tree, s, Note(t, n))
  {
    NoteDerived(names, tree, t, n);
    forall k | k in Note(t, n).keys ensures k in s.keys || SomethingReads(names, tree, k) {
      NoteKeys(names, tree, t, n, k);
    }
    forall h | h in Note(t, n).helpers ensures h in s.helpers || SomethingHands(names, tree, h) {
      NoteHelpers(names, tree, t, n, h);
    }
  }

  lemma {:induction false} VisitAccounted(names: set<string>, tree: Node, s: State, t: State, n: Node)
    requires ClosedUnderBinding(names, tree) && OccursIn(n, tree) && Accounted(names, tree, s, t)
    ensures Accounted(names, tree, s, Visited(t, n))
    decreases n, 1
  {
    NoteAccounted(names, tree, s, t, n);
    VisitAllAccounted(names, tree, s, Note(t, n), n, |n.Children()|);
  }

  lemma {:induction false} VisitAllAccounted(names: set<string>, tree: Node, s: State, t: State, parent: Node, k: nat)
    requires k <= |parent.Children()|
    requires ClosedUnderBinding(names, tree) && OccursIn(parent, tree) && Accounted(names, tree, s, t)
    ensures Accounted(names, tree, s, VisitedAll(t, parent, k))
    decreases parent, 0, k
  {
    if k > 0 {
      ChildIsSmaller(parent, k - 1);
      ChildOccursIn(parent, k - 1, tree);
      VisitAllAccounted(names, tree, s, t, parent, k - 1);
      VisitAccounted(names, tree, s, VisitedAll(t, parent, k - 1), parent.Children()[k - 1]);
    }
  }

  /**
   Whatever a visit reports, it found on something reached from a fact: for any names that hold those known at the start
   and are closed under the tree's bindings, every key reported is read off an expression derived from them.
   */
  lemma KeysAreRead(names: set<string>, s: State, tree: Node, key: string)
    requires s.derived <= names && ClosedUnderBinding(names, tree)
    ensures Visited(s, tree).derived <= names
    ensures key in Visited(s, tree).keys ==> key in s.keys || SomethingReads(names, tree, key)
  {
    assert Accounted(names, tree, s, s);
    VisitAccounted(names, tree, s, s, tree);
  }

  // ----- both passes ----------------------------------------------------------------------------

  lemma {:induction false} FunctionsOccur(tree: Node, f: Node)
    requires f in Functions(tree)
    ensures f.FunctionDef? && OccursIn(f, tree)
    decreases tree, 1
  {
    if f in FunctionsIn(tree, |tree.Children()|) {
      FunctionsInOccur(tree, |tree.Children()|, f);
    }
  }

  lemma {:induction false} FunctionsInOccur(parent: Node, k: nat, f: Node)
    requires k <= |parent.Children()| && f in FunctionsIn(parent, k)
    ensures f.FunctionDef? && OccursIn(f, parent)
    decreases parent, 0, k
  {
    ChildIsSmaller(parent, k - 1);
    if f in FunctionsIn(parent, k - 1) {
      FunctionsInOccur(parent, k - 1, f);
    } else {
      FunctionsOccur(parent.Children()[k - 1], f);
      assert SmallerChild(parent, k - 1);
    }
  }

  /** What occurs in a function's body occurs in the tree, and the body adds nothing but itself. */
  lemma BodyOccurs(f: Node, m: Node, tree: Node)
    requires f.FunctionDef? && OccursIn(f, tree) && OccursIn(m, Other(f.stmts))
    ensures m == Other(f.stmts) || OccursIn(m, tree)
  {
    var body := Other(f.stmts);
    if m != body {
      var j :| 0 <= j < |body.Children()| && SmallerChild(body, j) && OccursIn(m, body.Children()[j]);
      StatementOccurs(f, j, tree);
      OccursDeeper(m, f.stmts[j], tree);
    }
  }

  lemma StatementOccurs(f: Node, j: nat, tree: Node)
    requires f.FunctionDef? && OccursIn(f, tree) && j < |f.stmts|
    ensures OccursIn(f.stmts[j], tree)
  {
    assert f.Children()[|f.header| + j] == f.stmts[j];
    ChildOccursIn(f, |f.header| + j, tree);
  }

  lemma {:induction false} FromSomeBody(helpers: set<HelperArg>, fs: seq<Node>)
    requires forall f :: f in fs ==> f.FunctionDef?
    ensures forall k :: k in SecondKeys(helpers, fs) ==>
              exists f :: f in fs && k in BodyState(Seeds(helpers, f), f.stmts).keys
    ensures forall k :: k in SecondFacts(helpers, fs) ==>
              exists f :: f in fs && k in BodyState(Seeds(helpers, f), f.stmts).facts
  {
    if fs != [] {
      var rest, last := fs[..|fs| - 1], fs[|fs| - 1];
      assert fs == rest + [last];
      FromSomeBody(helpers, rest);
    }
  }

  /** The module's fact keys, over both passes, are exactly those of its `.fact` calls. */
  lemma FactKeysExact(tree: Node, fs: seq<Node>, key: string)
    requires forall f :: f in fs <==> f in Functions(tree)
    requires forall f :: f in fs ==> f.FunctionDef?
    ensures var first := Visited(State({}, {}, {}, {}), tree);
            key in first.facts + SecondFacts(first.helpers, fs) <==> SomethingAsksFor(tree, key)
  {
    var start := State({}, {}, {}, {});
    var first := Visited(start, tree);
    FactsExact(start, tree, key);
    FromSomeBody(first.helpers, fs);
    if key in SecondFacts(first.helpers, fs) {
      var f :| f in fs && key in BodyState(Seeds(first.helpers, f), f.stmts).facts;
      FactsExact(State(Seeds(first.helpers, f), {}, {}, {}), Other(f.stmts), key);
      var m :| OccursIn(m, Other(f.stmts)) && AsksFor(m, key);
      FunctionsOccur(tree, f);
      BodyOccurs(f, m, tree);
    }
  }

  /** A parameter whose function is handed something derived by position is among the names. */
  ghost predicate ClosedUnderCalls(names: set<string>, tree: Node) {
    forall f: Node, i: nat | f in Functions(tree) && f.FunctionDef? && i < |f.params| ::
      SomethingHands(names, tree, HelperArg(f.name, i)) ==> f.params[i] in names
  }

  lemma SeedsWithin(names: set<string>, tree: Node, helpers: set<HelperArg>, f: Node)
    requires ClosedUnderCalls(names, tree) && f in Functions(tree) && f.FunctionDef?
    requires forall h :: h in helpers ==> SomethingHands(names, tree, h)
    ensures Seeds(helpers, f) <= names
  {
    forall i: nat | i < |f.params| && HelperArg(f.name, i) in helpers ensures f.params[i] in names {
      assert SomethingHands(names, tree, HelperArg(f.name, i));
    }
  }

  lemma BodyIsClosed(names: set<string>, tree: Node, f: Node)
    requires ClosedUnderBinding(names, tree) && f.FunctionDef? && OccursIn(f, tree)
    ensures ClosedUnderBinding(names, Other(f.stmts))
  {
    forall m, source, x | OccursIn(m, Other(f.stmts)) && BindsName(m, source, x) && IsDerived(names, source)
      ensures x in names
    {
      BodyOccurs(f, m, tree);
    }
  }

  lemma BodyKeysAreRead(names: set<string>, tree: Node, seeds: set<string>, f: Node, key: string)
    requires ClosedUnderBinding(names, tree) && f.FunctionDef? && OccursIn(f, tree) && seeds <= names
    requires key in BodyState(seeds, f.stmts).keys
    ensures SomethingReads(names, tree, key)
  {
    BodyIsClosed(names, tree, f);
    KeysAreRead(names, State(seeds, {}, {}, {}), Other(f.stmts), key);
    var m, base :| OccursIn(m, Other(f.stmts)) && ReadsKey(m, base, key) && IsDerived(names, base);
    BodyOccurs(f, m, tree);
  }

  /**
   Every key the module is said to read, in either pass, is read in it off an expression derived from names closed under
   its bindings and its calls.
   */
  lemma ReportedKeysAreRead(names: set<string>, tree: Node, fs: seq<Node>, key: string)
    requires forall f :: f in fs <==> f in Functions(tree)
    requires forall f :: f in fs ==> f.FunctionDef?
    requires ClosedUnderBinding(names, tree) && ClosedUnderCalls(names, tree)
    ensures var first := Visited(State({}, {}, {}, {}), tree);
            key in first.keys + SecondKeys(first.helpers, fs) ==> SomethingReads(names, tree, key)
  {
    var start := State({}, {}, {}, {});
    var first := Visited(start, tree);
    VisitAccounted(names, tree, start, start, tree);
    FromSomeBody(first.helpers, fs);
    if key in SecondKeys(first.helpers, fs) {
      var f :| f in fs && key in BodyState(Seeds(first.helpers, f), f.stmts).keys;
      FunctionsOccur(tree, f);
      SeedsWithin(names, tree, first.helpers, f);
      BodyKeysAreRead(names, tree, Seeds(first.helpers, f), f, key);
    }
  }
}
