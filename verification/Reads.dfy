/** Which keys a module reads off collected facts, from its syntax tree. */
module Reads {
  import opened Text

  /** The parts of a Python syntax tree the visitor tells apart; any other node is its children in order. */
  datatype Node =
    | Name(id: string)
    | Const(text: Option<string>)
    | Attribute(value: Node, attr: string)
    | Subscript(value: Node, slice: Node)
    | Call(func: Node, args: seq<Node>, keywords: seq<Node>)
    | BoolOp(values: seq<Node>)
    | IfExp(test: Node, body: Node, orelse: Node)
    | Assign(targets: seq<Node>, value: Node)
    | For(target: Node, iter: Node, rest: seq<Node>)
    | TupleOf(elts: seq<Node>)
    | Comprehension(target: Node, iter: Node, ifs: seq<Node>)
    | Comp(elements: seq<Node>, generators: seq<Node>)
    | FunctionDef(name: string, params: seq<string>, header: seq<Node>, stmts: seq<Node>, footer: seq<Node>)
    | Other(children: seq<Node>)
  {
    /** `generic_visit`: the child nodes in field order. */
    function Children(): seq<Node> {
      match this
      case Name(_) => []
      case Const(_) => []
      case Attribute(value, _) => [value]
      case Subscript(value, slice) => [value, slice]
      case Call(func, args, keywords) => [func] + args + keywords
      case BoolOp(values) => values
      case IfExp(test, body, orelse) => [test, body, orelse]
      case Assign(targets, value) => targets + [value]
      case For(target, iter, rest) => [target, iter] + rest
      case TupleOf(elts) => elts
      case Comprehension(target, iter, ifs) => [target, iter] + ifs
      case Comp(elements, generators) => elements + generators
      case FunctionDef(_, _, header, stmts, footer) => header + stmts + footer
      case Other(children) => children
    }
  }

  /** The argument position of a helper function that was handed a fact-derived expression. */
  datatype HelperArg = HelperArg(name: string, index: nat)

  datatype State = State(derived: set<string>, keys: set<string>, facts: set<string>, helpers: set<HelperArg>)

  function Literal(n: Node): string {
    if n.Const? && n.text.Some? then n.text.value else ""
  }

  /** The expression is a fact, a fact's value, or reached from one. */
  predicate IsDerived(derived: set<string>, n: Node)
    decreases n
  {
    match n
    case Name(id) => id in derived
    case Call(func, _, _) =>
      func.Attribute? && (func.attr == "fact" || (func.attr == "get" && IsDerived(derived, func.value)))
    case Attribute(value, _) => IsDerived(derived, value)
    case Subscript(value, _) => IsDerived(derived, value)
    case BoolOp(values) => exists v | v in values :: IsDerived(derived, v)
    case IfExp(_, body, orelse) => IsDerived(derived, body) || IsDerived(derived, orelse)
    case _ => false
  }

  /** The names an assignment target binds: itself, or the names of a tuple. */
  function TargetNames(t: Node): set<string> {
    if t.Name? then {t.id}
    else if t.TupleOf? then set e | e in t.elts && e.Name? :: e.id
    else {}
  }

  function NameOf(t: Node): set<string> {
    if t.Name? then {t.id} else {}
  }

  /** The targets of comprehension clauses over derived iterables, clause after clause. */
  function NoteGenerators(derived: set<string>, gens: seq<Node>): set<string> {
    if gens == [] then derived
    else
      var before, g := NoteGenerators(derived, gens[..|gens| - 1]), gens[|gens| - 1];
      if g.Comprehension? && IsDerived(before, g.iter) then before + NameOf(g.target) else before
  }

  function NonEmpty(s: string): set<string> {
    if s == "" then {} else {s}
  }

  function HelperArgs(derived: set<string>, func: Node, args: seq<Node>): set<HelperArg> {
    if func.Name? then set i: nat | i < |args| && IsDerived(derived, args[i]) :: HelperArg(func.id, i) else {}
  }

  /** What a node adds to the state before its children are visited. */
  function Note(s: State, n: Node): State {
    match n
    case Assign(targets, value) =>
      if IsDerived(s.derived, value)
      then s.(derived := s.derived + set t, x | t in targets && x in TargetNames(t) :: x)
      else s
    case For(target, iter, _) =>
      if IsDerived(s.derived, iter) then s.(derived := s.derived + NameOf(target)) else s
    case Comprehension(target, iter, _) =>
      if IsDerived(s.derived, iter) then s.(derived := s.derived + NameOf(target)) else s
    case Comp(_, generators) => s.(derived := NoteGenerators(s.derived, generators))
    case Call(func, args, _) =>
      s.(facts := s.facts + (if func.Attribute? && func.attr == "fact" && args != [] then NonEmpty(Literal(args[0]))
                             else {}),
         keys := s.keys + (if func.Attribute? && func.attr == "get" && args != [] && IsDerived(s.derived, func.value)
                           then NonEmpty(Literal(args[0])) else {}),
         helpers := s.helpers + HelperArgs(s.derived, func, args))
    case Subscript(value, slice) =>
      s.(keys := s.keys + if IsDerived(s.derived, value) then NonEmpty(Literal(slice)) else {})
    case _ => s
  }

  function Visited(s: State, n: Node): State
    decreases n, 1
  {
    VisitedAll(Note(s, n), n, |n.Children()|)
  }

  /** After the first `k` children of `parent`. */
  function VisitedAll(s: State, parent: Node, k: nat): State
    requires k <= |parent.Children()|
    decreases parent, 0, k
  {
    if k == 0 then s
    else
      ChildIsSmaller(parent, k - 1);
      Visited(VisitedAll(s, parent, k - 1), parent.Children()[k - 1])
  }

  lemma ChildIsSmaller(parent: Node, i: nat)
    requires i < |parent.Children()|
    ensures parent.Children()[i] < parent
  {
    var cs, c := parent.Children(), parent.Children()[i];
    match parent
    case Call(func, args, keywords) =>
      if i > 0 {
        assert c == if i - 1 < |args| then args[i - 1] else keywords[i - 1 - |args|];
      }
    case For(_, _, rest) => if i >= 2 { assert c == rest[i - 2]; }
    case Comprehension(_, _, ifs) => if i >= 2 { assert c == ifs[i - 2]; }
    case Assign(targets, _) => if i < |targets| { assert c == targets[i]; }
    case Comp(elements, generators) => assert c == if i < |elements| then elements[i] else generators[i - |elements|];
    case FunctionDef(_, _, header, stmts, footer) =>
      assert c == if i < |header| then header[i]
                  else if i < |header| + |stmts| then stmts[i - |header|]
                  else footer[i - |header| - |stmts|];
    case _ =>
  }

  /** The visitor, whose four collections only its own traversal updates. */
  class FactReadVisitor {
    var derived: set<string>
    var keys: set<string>
    var facts: set<string>
    var helpers: set<HelperArg>

    ghost function Contents(): State
      reads this
    {
      State(derived, keys, facts, helpers)
    }

    constructor (seeded: set<string>)
      ensures Contents() == State(seeded, {}, {}, {})
    {
      derived, keys, facts, helpers := seeded, {}, {}, {};
    }

    method Visit(n: Node)
      modifies this
      ensures Contents() == Visited(old(Contents()), n)
      decreases n
    {
      if n.Assign? {
        if IsDerived(derived, n.value) {
          derived := derived + set t, x | t in n.targets && x in TargetNames(t) :: x;
        }
      } else if n.For? || n.Comprehension? {
        if IsDerived(derived, n.iter) {
          derived := derived + NameOf(n.target);
        }
      } else if n.Comp? {
        var before := derived;
        for i := 0 to |n.generators|
          invariant derived == NoteGenerators(before, n.generators[..i])
          invariant keys == old(keys) && facts == old(facts) && helpers == old(helpers)
        {
          assert n.generators[..i + 1][..i] == n.generators[..i];
          var g := n.generators[i];
          if g.Comprehension? && IsDerived(derived, g.iter) {
            derived := derived + NameOf(g.target);
          }
        }
        assert n.generators[..|n.generators|] == n.generators;
      } else if n.Call? {
        if n.func.Attribute? && n.func.attr == "fact" && n.args != [] {
          facts := facts + NonEmpty(Literal(n.args[0]));
        }
        if n.func.Attribute? && n.func.attr == "get" && n.args != [] && IsDerived(derived, n.func.value) {
          keys := keys + NonEmpty(Literal(n.args[0]));
        }
        helpers := helpers + HelperArgs(derived, n.func, n.args);
      } else if n.Subscript? {
        if IsDerived(derived, n.value) {
          keys := keys + NonEmpty(Literal(n.slice));
        }
      }
      ghost var noted := Contents();
      assert noted == Note(old(Contents()), n);
      var children := n.Children();
      for k := 0 to |children|
        invariant Contents() == VisitedAll(noted, n, k)
      {
        ChildIsSmaller(n, k);
        Visit(children[k]);
      }
    }
  }

  // ----- two passes -----------------------------------------------------------------------

  /** Every function definition in a tree. */
  ghost function Functions(n: Node): set<Node>
    decreases n, 1
  {
    (if n.FunctionDef? then {n} else {}) + FunctionsIn(n, |n.Children()|)
  }

  ghost function FunctionsIn(parent: Node, k: nat): set<Node>
    requires k <= |parent.Children()|
    decreases parent, 0, k
  {
    if k == 0 then {}
    else
      ChildIsSmaller(parent, k - 1);
      FunctionsIn(parent, k - 1) + Functions(parent.Children()[k - 1])
  }

  /** The parameters of a function that a first pass saw receive something derived. */
  function Seeds(helpers: set<HelperArg>, f: Node): set<string>
    requires f.FunctionDef?
  {
    set i: nat | i < |f.params| && HelperArg(f.name, i) in helpers :: f.params[i]
  }

  /** A function's statements, visited from its seeded parameters alone. */
  function BodyState(seeds: set<string>, stmts: seq<Node>): State {
    Visited(State(seeds, {}, {}, {}), Other(stmts))
  }

  datatype Result = Result(keys: set<string>, facts: set<string>)

  /** `reads_in_source` over a parsed module: its functions come in any order. */
  method ReadsInSource(tree: Node, functions: seq<Node>) returns (r: Result)
    requires forall f :: f in functions <==> f in Functions(tree)
    requires forall f :: f in functions ==> f.FunctionDef?
    ensures var first := Visited(State({}, {}, {}, {}), tree);
            && r.keys == first.keys + SecondKeys(first.helpers, functions)
            && r.facts == first.facts + SecondFacts(first.helpers, functions)
  {
    var visitor := new FactReadVisitor({});
    visitor.Visit(tree);
    ghost var first := visitor.Contents();
    var helpers, keys, facts := visitor.helpers, visitor.keys, visitor.facts;
    for i := 0 to |functions|
      invariant keys == first.keys + SecondKeys(helpers, functions[..i])
      invariant facts == first.facts + SecondFacts(helpers, functions[..i])
    {
      assert functions[..i + 1][..i] == functions[..i];
      var f := functions[i];
      var seeds := Seeds(helpers, f);
      if seeds == {} { continue; }
      var inner := new FactReadVisitor(seeds);
      inner.Visit(Other(f.stmts));
      keys, facts := keys + inner.keys, facts + inner.facts;
    }
    assert functions[..|functions|] == functions;
    return Result(keys, facts);
  }

  function SecondKeys(helpers: set<HelperArg>, fs: seq<Node>): set<string>
    requires forall f :: f in fs ==> f.FunctionDef?
  {
    if fs == [] then {}
    else
      var f := fs[|fs| - 1];
      SecondKeys(helpers, fs[..|fs| - 1])
      + if Seeds(helpers, f) == {} then {} else BodyState(Seeds(helpers, f), f.stmts).keys
  }

  function SecondFacts(helpers: set<HelperArg>, fs: seq<Node>): set<string>
    requires forall f :: f in fs ==> f.FunctionDef?
  {
    if fs == [] then {}
    else
      var f := fs[|fs| - 1];
      SecondFacts(helpers, fs[..|fs| - 1])
      + if Seeds(helpers, f) == {} then {} else BodyState(Seeds(helpers, f), f.stmts).facts
  }
}
