/** The accumulating walk against a pure account of a tree, and what a digest cannot tell apart. */
module DigestTheorems {
  import opened Text
  import opened Json
  import opened Digest

  // ----- a tree as the set of its visits ------------------------------------------------

  datatype Visit = Visit(path: string, node: Json)

  /** Every node of `v` with the path it is filed under; no order among them. */
  ghost function Visits(c: Lens, v: Json, path: string): set<Visit>
    decreases v
  {
    {Visit(path, v)} +
    match v
    case Obj(fields) => FieldVisits(c, fields, path)
    case Arr(items) => ItemVisits(c, items, path)
    case _ => {}
  }

  ghost function FieldVisits(c: Lens, fields: seq<Field>, path: string): set<Visit>
    decreases fields
  {
    if fields == [] then {}
    else
      var f := fields[|fields| - 1];
      FieldVisits(c, fields[..|fields| - 1], path) + Visits(c, f.value, ChildPath(c, path, f.key))
  }

  ghost function ItemVisits(c: Lens, items: seq<Json>, path: string): set<Visit>
    decreases items
  {
    if items == [] then {}
    else ItemVisits(c, items[..|items| - 1], path) + Visits(c, items[|items| - 1], path + "[]")
  }

  ghost function PathsOf(vs: set<Visit>): set<string> {
    set x | x in vs :: x.path
  }

  /** The lengths of the lists found at a path. */
  ghost function ListsAt(vs: set<Visit>, q: string): set<nat> {
    set x | x in vs && x.path == q && x.node.Arr? :: |x.node.items|
  }

  ghost function TagsAt(vs: set<Visit>, q: string): set<Tag> {
    set x | x in vs && x.path == q :: TagOf(x.node)
  }

  ghost predicate OnlyScalarsAt(vs: set<Visit>, q: string) {
    forall x :: x in vs && x.path == q ==> x.node.IsScalar()
  }

  // ----- the walk, seen as a sum over visits -----------------------------------------------

  function CountAt(m: Paths, q: string): Option<nat> {
    if q in m then m[q].n else None
  }

  function TypesAt(m: Paths, q: string): set<Tag> {
    if q in m then m[q].types else {}
  }

  /** `after` is the largest of the count before and the given lengths, and absent when there is none. */
  ghost predicate IsMax(before: Option<nat>, lengths: set<nat>, after: Option<nat>) {
    && (after.None? <==> before.None? && lengths == {})
    && (after.Some? ==> before == after || after.value in lengths)
    && (after.Some? && before.Some? ==> before.value <= after.value)
    && (after.Some? ==> forall k :: k in lengths ==> k <= after.value)
  }

  /** What recording the visits `vs` does to a map. */
  ghost predicate Accounts(c: Lens, m: Paths, vs: set<Visit>, r: Paths) {
    && r.Keys == m.Keys + PathsOf(vs)
    && (forall q :: q !in c.keyspaces ==> IsMax(CountAt(m, q), ListsAt(vs, q), CountAt(r, q)))
    && (forall q :: q !in c.keyspaces && OnlyScalarsAt(vs, q) ==> TypesAt(r, q) == TypesAt(m, q) + TagsAt(vs, q))
  }

  lemma AccountsNothing(c: Lens, m: Paths)
    ensures Accounts(c, m, {}, m)
  {
  }

  lemma MaxJoins(a: Option<nat>, s: set<nat>, b: Option<nat>, t: set<nat>, r: Option<nat>)
    requires IsMax(a, s, b) && IsMax(b, t, r)
    ensures IsMax(a, s + t, r)
  {
  }

  lemma VisitsJoin(v: set<Visit>, w: set<Visit>, q: string)
    ensures PathsOf(v + w) == PathsOf(v) + PathsOf(w)
    ensures ListsAt(v + w, q) == ListsAt(v, q) + ListsAt(w, q)
    ensures TagsAt(v + w, q) == TagsAt(v, q) + TagsAt(w, q)
    ensures OnlyScalarsAt(v + w, q) <==> OnlyScalarsAt(v, q) && OnlyScalarsAt(w, q)
  {
  }

  lemma AccountsJoin(c: Lens, m: Paths, v: set<Visit>, n: Paths, w: set<Visit>, r: Paths)
    requires Accounts(c, m, v, n) && Accounts(c, n, w, r)
    ensures Accounts(c, m, v + w, r)
  {
    VisitsJoin(v, w, "");
    forall q | q !in c.keyspaces
      ensures IsMax(CountAt(m, q), ListsAt(v + w, q), CountAt(r, q))
      ensures OnlyScalarsAt(v + w, q) ==> TypesAt(r, q) == TypesAt(m, q) + TagsAt(v + w, q)
    {
      VisitsJoin(v, w, q);
      MaxJoins(CountAt(m, q), ListsAt(v, q), CountAt(n, q), ListsAt(w, q), CountAt(r, q));
    }
  }

  lemma OneVisit(path: string, v: Json, q: string)
    ensures PathsOf({Visit(path, v)}) == {path}
    ensures ListsAt({Visit(path, v)}, q) == if q == path && v.Arr? then {|v.items|} else {}
    ensures TagsAt({Visit(path, v)}, q) == if q == path then {TagOf(v)} else {}
    ensures OnlyScalarsAt({Visit(path, v)}, q) <==> (q == path ==> v.IsScalar())
  {
    var x := Visit(path, v);
    assert x in {x};
    if v.Arr? && q == path {
      assert |v.items| in ListsAt({x}, q);
    }
  }

  function Note(c: Lens, m: Paths, v: Json, path: string): Paths {
    match v
    case Obj(fields) => NoteMap(c, m, path, fields)
    case Arr(items) => NoteList(m, path, |items|)
    case _ => NoteScalar(m, path, TagOf(v))
  }

  /** The node's own entry accounts for the visit to the node itself. */
  lemma NotesAccount(c: Lens, m: Paths, v: Json, path: string, r: Paths)
    requires r == Note(c, m, v, path)
    ensures Accounts(c, m, {Visit(path, v)}, r)
  {
    forall q
      ensures q in r <==> q in m || q == path
      ensures q !in c.keyspaces ==> IsMax(CountAt(m, q), ListsAt({Visit(path, v)}, q), CountAt(r, q))
      ensures q !in c.keyspaces && OnlyScalarsAt({Visit(path, v)}, q) ==>
                TypesAt(r, q) == TypesAt(m, q) + TagsAt({Visit(path, v)}, q)
    {
      OneVisit(path, v, q);
    }
    OneVisit(path, v, path);
    assert r.Keys == m.Keys + {path};
  }

  lemma {:induction false} RecordAccounts(c: Lens, m: Paths, v: Json, path: string)
    ensures Accounts(c, m, Visits(c, v, path), Record(c, m, v, path))
    decreases v
  {
    var own := {Visit(path, v)};
    match v
    case Obj(fields) =>
      var n := NoteMap(c, m, path, fields);
      NotesAccount(c, m, v, path, n);
      RecordFieldsAccounts(c, n, fields, path);
      AccountsJoin(c, m, own, n, FieldVisits(c, fields, path), Record(c, m, v, path));
    case Arr(items) =>
      var n := NoteList(m, path, |items|);
      NotesAccount(c, m, v, path, n);
      RecordItemsAccounts(c, n, items, path);
      AccountsJoin(c, m, own, n, ItemVisits(c, items, path), Record(c, m, v, path));
    case _ =>
      NotesAccount(c, m, v, path, Record(c, m, v, path));
      assert Visits(c, v, path) == own;
  }

  lemma {:induction false} RecordFieldsAccounts(c: Lens, m: Paths, fields: seq<Field>, path: string)
    ensures Accounts(c, m, FieldVisits(c, fields, path), RecordFields(c, m, fields, path))
    decreases fields
  {
    if fields == [] {
      AccountsNothing(c, m);
    } else {
      var f, rest := fields[|fields| - 1], fields[..|fields| - 1];
      var n, child := RecordFields(c, m, rest, path), ChildPath(c, path, f.key);
      RecordFieldsAccounts(c, m, rest, path);
      RecordAccounts(c, n, f.value, child);
      AccountsJoin(c, m, FieldVisits(c, rest, path), n, Visits(c, f.value, child), Record(c, n, f.value, child));
    }
  }

  lemma {:induction false} RecordItemsAccounts(c: Lens, m: Paths, items: seq<Json>, path: string)
    ensures Accounts(c, m, ItemVisits(c, items, path), RecordItems(c, m, items, path))
    decreases items
  {
    if items == [] {
      AccountsNothing(c, m);
    } else {
      var v, rest := items[|items| - 1], items[..|items| - 1];
      var n := RecordItems(c, m, rest, path);
      RecordItemsAccounts(c, m, rest, path);
      RecordAccounts(c, n, v, path + "[]");
      AccountsJoin(c, m, ItemVisits(c, rest, path), n, Visits(c, v, path + "[]"), Record(c, n, v, path + "[]"));
    }
  }

  /** From an empty map the recorded paths are exactly those of the tree. */
  lemma PathsExact(c: Lens, v: Json, path: string)
    ensures Record(c, map[], v, path).Keys == PathsOf(Visits(c, v, path))
  {
    RecordAccounts(c, map[], v, path);
  }

  /** A count is present exactly where a list occurs, and is the length of the longest one. */
  lemma CountExact(c: Lens, v: Json, path: string, q: string)
    requires q !in c.keyspaces
    ensures var lengths, n := ListsAt(Visits(c, v, path), q), CountAt(Record(c, map[], v, path), q);
            && (n.None? <==> lengths == {})
            && (n.Some? ==> n.value in lengths && forall k :: k in lengths ==> k <= n.value)
  {
    RecordAccounts(c, map[], v, path);
  }

  /** Where only scalars occur, the type is the set of the types observed. */
  lemma TypesExact(c: Lens, v: Json, path: string, q: string)
    requires q !in c.keyspaces && OnlyScalarsAt(Visits(c, v, path), q)
    ensures TypesAt(Record(c, map[], v, path), q) == TagsAt(Visits(c, v, path), q)
  {
    RecordAccounts(c, map[], v, path);
  }

  // ----- counts at any path ---------------------------------------------------------------

  /** The sizes of the lists and mappings found at a path. */
  ghost function SizesAt(vs: set<Visit>, q: string): set<nat> {
    set x | x in vs && x.path == q && !x.node.IsScalar() :: SizeOf(x.node)
  }

  function SizeOf(v: Json): nat {
    match v
    case Obj(fields) => |fields|
    case Arr(items) => |items|
    case _ => 0
  }

  /** Any new count is the size of something visited, or was there before. */
  ghost predicate CountsFrom(before: Option<nat>, sizes: set<nat>, after: Option<nat>) {
    after.None? || after == before || after.value in sizes
  }

  lemma SizesJoin(v: set<Visit>, w: set<Visit>, q: string, a: Option<nat>, b: Option<nat>, r: Option<nat>)
    requires CountsFrom(a, SizesAt(v, q), b) && CountsFrom(b, SizesAt(w, q), r)
    ensures CountsFrom(a, SizesAt(v + w, q), r)
  {
  }

  lemma NoteCounts(c: Lens, m: Paths, v: Json, path: string, q: string)
    ensures CountsFrom(CountAt(m, q), SizesAt({Visit(path, v)}, q), CountAt(Note(c, m, v, path), q))
  {
    assert Visit(path, v) in {Visit(path, v)};
    assert q == path && !v.IsScalar() ==> SizeOf(v) in SizesAt({Visit(path, v)}, q);
  }

  lemma {:induction false} RecordCounts(c: Lens, m: Paths, v: Json, path: string, q: string)
    ensures CountsFrom(CountAt(m, q), SizesAt(Visits(c, v, path), q), CountAt(Record(c, m, v, path), q))
    decreases v
  {
    var own, n := {Visit(path, v)}, Note(c, m, v, path);
    NoteCounts(c, m, v, path, q);
    match v
    case Obj(fields) =>
      FieldCounts(c, n, fields, path, q);
      SizesJoin(own, FieldVisits(c, fields, path), q, CountAt(m, q), CountAt(n, q), CountAt(Record(c, m, v, path), q));
    case Arr(items) =>
      ItemCounts(c, n, items, path, q);
      SizesJoin(own, ItemVisits(c, items, path), q, CountAt(m, q), CountAt(n, q), CountAt(Record(c, m, v, path), q));
    case _ =>
      assert Visits(c, v, path) == own;
  }

  lemma {:induction false} FieldCounts(c: Lens, m: Paths, fields: seq<Field>, path: string, q: string)
    ensures CountsFrom(CountAt(m, q), SizesAt(FieldVisits(c, fields, path), q),
                       CountAt(RecordFields(c, m, fields, path), q))
    decreases fields
  {
    if fields != [] {
      var f, rest := fields[|fields| - 1], fields[..|fields| - 1];
      var n, child := RecordFields(c, m, rest, path), ChildPath(c, path, f.key);
      FieldCounts(c, m, rest, path, q);
      RecordCounts(c, n, f.value, child, q);
      SizesJoin(FieldVisits(c, rest, path), Visits(c, f.value, child), q, CountAt(m, q), CountAt(n, q),
                CountAt(Record(c, n, f.value, child), q));
    }
  }

  lemma {:induction false} ItemCounts(c: Lens, m: Paths, items: seq<Json>, path: string, q: string)
    ensures CountsFrom(CountAt(m, q), SizesAt(ItemVisits(c, items, path), q),
                       CountAt(RecordItems(c, m, items, path), q))
    decreases items
  {
    if items != [] {
      var v, rest := items[|items| - 1], items[..|items| - 1];
      var n := RecordItems(c, m, rest, path);
      ItemCounts(c, m, rest, path, q);
      RecordCounts(c, n, v, path + "[]", q);
      SizesJoin(ItemVisits(c, rest, path), Visits(c, v, path + "[]"), q, CountAt(m, q), CountAt(n, q),
                CountAt(Record(c, n, v, path + "[]"), q));
    }
  }

  // ----- order ------------------------------------------------------------------------------

  /** Every part of `v`, at any depth, has a counterpart in `w`; lists have the same length. */
  ghost predicate Within(v: Json, w: Json)
    decreases v
  {
    match v
    case Obj(fields) => w.Obj? && FieldsWithin(fields, w.fields)
    case Arr(items) => w.Arr? && |items| == |w.items| && ItemsWithin(items, w.items)
    case _ => TagOf(v) == TagOf(w)
  }

  ghost predicate FieldsWithin(fs: seq<Field>, gs: seq<Field>)
    decreases fs
  {
    forall f :: f in fs ==> exists g :: g in gs && f.key == g.key && Within(f.value, g.value)
  }

  ghost predicate ItemsWithin(vs: seq<Json>, ws: seq<Json>)
    decreases vs
  {
    forall v :: v in vs ==> exists w :: w in ws && Within(v, w)
  }

  /**
   At every depth `v` and `w` have the same kinds of parts, in whatever order: reordering keeps this, and so does
   exchanging parts that have the same kinds of parts themselves.
   */
  ghost predicate Shuffled(v: Json, w: Json) {
    Within(v, w) && Within(w, v)
  }

  lemma {:induction false} WithinItself(v: Json)
    ensures Within(v, v)
    decreases v
  {
    match v
    case Obj(fields) => forall f | f in fields ensures Within(f.value, f.value) { WithinItself(f.value); }
    case Arr(items) => forall x | x in items ensures Within(x, x) { WithinItself(x); }
    case _ =>
  }

  /** In particular, a list whose elements are permuted. */
  lemma PermutedListIsShuffled(xs: seq<Json>, ys: seq<Json>)
    requires multiset(xs) == multiset(ys)
    ensures Shuffled(Arr(xs), Arr(ys))
  {
    assert |xs| == |multiset(xs)| == |multiset(ys)| == |ys|;
    forall x | x in xs ensures x in ys && Within(x, x) { assert x in multiset(xs); WithinItself(x); }
    forall y | y in ys ensures y in xs && Within(y, y) { assert y in multiset(ys); WithinItself(y); }
  }

  /** Two nodes a digest entry cannot tell apart. */
  predicate LooksLike(v: Json, w: Json) {
    TagOf(v) == TagOf(w) && (v.Arr? ==> |v.items| == |w.items|)
  }

  lemma {:induction false} FieldVisitsHas(c: Lens, fields: seq<Field>, path: string, x: Visit)
    ensures x in FieldVisits(c, fields, path) <==>
            exists f :: f in fields && x in Visits(c, f.value, ChildPath(c, path, f.key))
  {
    if fields != [] {
      assert fields == fields[..|fields| - 1] + [fields[|fields| - 1]];
      FieldVisitsHas(c, fields[..|fields| - 1], path, x);
    }
  }

  lemma {:induction false} ItemVisitsHas(c: Lens, items: seq<Json>, path: string, x: Visit)
    ensures x in ItemVisits(c, items, path) <==> exists v :: v in items && x in Visits(c, v, path + "[]")
  {
    if items != [] {
      var rest, last := items[..|items| - 1], items[|items| - 1];
      assert items == rest + [last];
      ItemVisitsHas(c, rest, path, x);
      if x in Visits(c, last, path + "[]") {
        assert last in items;
      }
    }
  }

  /** Every visit to a value has a counterpart among the visits to its shuffle. */
  lemma {:induction false} Counterpart(c: Lens, v: Json, w: Json, path: string, x: Visit) returns (y: Visit)
    requires Within(v, w) && x in Visits(c, v, path)
    ensures y in Visits(c, w, path) && y.path == x.path && LooksLike(x.node, y.node)
    decreases v
  {
    if x == Visit(path, v) {
      y := Visit(path, w);
    } else if v.Obj? {
      FieldVisitsHas(c, v.fields, path, x);
      var f :| f in v.fields && x in Visits(c, f.value, ChildPath(c, path, f.key));
      var g :| g in w.fields && f.key == g.key && Within(f.value, g.value);
      y := Counterpart(c, f.value, g.value, ChildPath(c, path, f.key), x);
      FieldVisitsHas(c, w.fields, path, y);
    } else {
      ItemVisitsHas(c, v.items, path, x);
      var e :| e in v.items && x in Visits(c, e, path + "[]");
      var d :| d in w.items && Within(e, d);
      y := Counterpart(c, e, d, path + "[]", x);
      ItemVisitsHas(c, w.items, path, y);
    }
  }

  lemma WithinIncludes(c: Lens, v: Json, w: Json, path: string, q: string)
    requires Within(v, w)
    ensures var vs, ws := Visits(c, v, path), Visits(c, w, path);
            && PathsOf(vs) <= PathsOf(ws) && ListsAt(vs, q) <= ListsAt(ws, q) && TagsAt(vs, q) <= TagsAt(ws, q)
            && (OnlyScalarsAt(ws, q) ==> OnlyScalarsAt(vs, q))
  {
    var ws := Visits(c, w, path);
    forall x | x in Visits(c, v, path)
      ensures x.path in PathsOf(ws)
      ensures x.path == q ==> TagOf(x.node) in TagsAt(ws, q)
      ensures x.path == q && x.node.Arr? ==> |x.node.items| in ListsAt(ws, q)
      ensures x.path == q && OnlyScalarsAt(ws, q) ==> x.node.IsScalar()
    {
      var y := Counterpart(c, v, w, path, x);
    }
  }

  /** Paths, counts and scalar types do not depend on the order of list elements or of mapping entries. */
  lemma OrderIndependent(c: Lens, v: Json, w: Json, path: string, q: string)
    requires Shuffled(v, w)
    ensures var r, s := Record(c, map[], v, path), Record(c, map[], w, path);
            && r.Keys == s.Keys
            && (q !in c.keyspaces ==> CountAt(r, q) == CountAt(s, q))
            && (q !in c.keyspaces && OnlyScalarsAt(Visits(c, v, path), q) ==> TypesAt(r, q) == TypesAt(s, q))
  {
    WithinIncludes(c, v, w, path, q);
    WithinIncludes(c, w, v, path, q);
    RecordAccounts(c, map[], v, path);
    RecordAccounts(c, map[], w, path);
  }

  lemma TwoItems(c: Lens, m: Paths, v: Json, w: Json, path: string)
    ensures RecordItems(c, m, [v, w], path) == Record(c, Record(c, m, v, path + "[]"), w, path + "[]")
  {
    assert [v, w][..1] == [v] && [v][..0] == [];
    assert RecordItems(c, m, [v], path) == Record(c, RecordItems(c, m, [], path), v, path + "[]");
  }

  /**
   Where scalars and containers share a path the type does depend on it: the container only counts when it comes
   first.
   */
  lemma MixedPathDependsOnOrder(c: Lens, n: int)
    ensures var p := "p";
            && TypesAt(Record(c, map[], Arr([Int(n), Arr([])]), p), p + "[]") == {TInt}
            && TypesAt(Record(c, map[], Arr([Arr([]), Int(n)]), p), p + "[]") == {TList, TInt}
  {
    var p := "p";
    var e := Arr([]);
    var m := NoteList(map[], p, 2);
    TwoItems(c, m, Int(n), e, p);
    TwoItems(c, m, e, Int(n), p);
    assert RecordItems(c, Record(c, m, Int(n), p + "[]"), [], p) == Record(c, m, Int(n), p + "[]");
  }

  // ----- what a digest cannot tell apart ---------------------------------------------------------

  /**
   Same shape under a lens: same keys where keys are field names, same hashes where they are content,
   and scalars of the same type. Nothing is said of the scalars themselves.
   */
  ghost predicate Alike(c: Lens, v: Json, w: Json, path: string)
    decreases v
  {
    match v
    case Obj(fields) =>
      && w.Obj? && |fields| == |w.fields|
      && (path in c.keyspaces ==> KeyHashes(c, fields) == KeyHashes(c, w.fields))
      && (path !in c.keyspaces ==> forall i :: 0 <= i < |fields| ==> fields[i].key == w.fields[i].key)
      && FieldsAlike(c, fields, w.fields, path)
    case Arr(items) => w.Arr? && |items| == |w.items| && ItemsAlike(c, items, w.items, path)
    case _ => TagOf(v) == TagOf(w)
  }

  ghost predicate FieldsAlike(c: Lens, fs: seq<Field>, gs: seq<Field>, path: string)
    requires |fs| == |gs|
    decreases fs
  {
    forall i :: 0 <= i < |fs| ==> Alike(c, fs[i].value, gs[i].value, ChildPath(c, path, fs[i].key))
  }

  ghost predicate ItemsAlike(c: Lens, vs: seq<Json>, ws: seq<Json>, path: string)
    requires |vs| == |ws|
    decreases vs
  {
    forall i :: 0 <= i < |vs| ==> Alike(c, vs[i], ws[i], path + "[]")
  }

  /** The walk leaves the same record of two values that are alike, whatever it had recorded before. */
  lemma {:induction false} AlikeRecordsAlike(c: Lens, m: Paths, v: Json, w: Json, path: string)
    requires Alike(c, v, w, path)
    ensures Record(c, m, v, path) == Record(c, m, w, path)
    decreases v
  {
    match v
    case Obj(fields) =>
      assert NoteMap(c, m, path, fields) == NoteMap(c, m, path, w.fields);
      AlikeFields(c, NoteMap(c, m, path, fields), fields, w.fields, path);
    case Arr(items) => AlikeItems(c, NoteList(m, path, |items|), items, w.items, path);
    case _ =>
  }

  lemma LastFieldAlike(c: Lens, fs: seq<Field>, gs: seq<Field>, path: string)
    requires |fs| == |gs| > 0 && FieldsAlike(c, fs, gs, path)
    ensures FieldsAlike(c, fs[..|fs| - 1], gs[..|gs| - 1], path)
    ensures Alike(c, fs[|fs| - 1].value, gs[|gs| - 1].value, ChildPath(c, path, fs[|fs| - 1].key))
  {
  }

  lemma {:induction false} AlikeFields(c: Lens, m: Paths, fs: seq<Field>, gs: seq<Field>, path: string)
    requires |fs| == |gs| && FieldsAlike(c, fs, gs, path)
    requires path !in c.keyspaces ==> forall i :: 0 <= i < |fs| ==> fs[i].key == gs[i].key
    ensures RecordFields(c, m, fs, path) == RecordFields(c, m, gs, path)
    decreases fs
  {
    if fs != [] {
      var n := |fs| - 1;
      LastFieldAlike(c, fs, gs, path);
      AlikeFields(c, m, fs[..n], gs[..n], path);
      assert ChildPath(c, path, fs[n].key) == ChildPath(c, path, gs[n].key);
      AlikeRecordsAlike(c, RecordFields(c, m, fs[..n], path), fs[n].value, gs[n].value, ChildPath(c, path, fs[n].key));
    }
  }

  lemma {:induction false} AlikeItems(c: Lens, m: Paths, vs: seq<Json>, ws: seq<Json>, path: string)
    requires |vs| == |ws| && ItemsAlike(c, vs, ws, path)
    ensures RecordItems(c, m, vs, path) == RecordItems(c, m, ws, path)
    decreases vs
  {
    if vs != [] {
      var n := |vs| - 1;
      AlikeItems(c, m, vs[..n], ws[..n], path);
      AlikeRecordsAlike(c, RecordItems(c, m, vs[..n], path), vs[n], ws[n], path + "[]");
    }
  }

  /** Every scalar replaced by one fixed value of its type. */
  function Erase(v: Json): Json
    decreases v
  {
    match v
    case Null => Null
    case Bool(_) => Bool(false)
    case Int(_) => Int(0)
    case Float(_) => Float("0")
    case Str(_) => Str("")
    case Arr(items) => Arr(EraseItems(items))
    case Obj(fields) => Obj(EraseFields(fields))
  }

  function EraseItems(items: seq<Json>): (r: seq<Json>)
    ensures |r| == |items|
    decreases items
  {
    if items == [] then [] else EraseItems(items[..|items| - 1]) + [Erase(items[|items| - 1])]
  }

  function EraseFields(fields: seq<Field>): (r: seq<Field>)
    ensures |r| == |fields|
    decreases fields
  {
    if fields == [] then []
    else
      var f := fields[|fields| - 1];
      EraseFields(fields[..|fields| - 1]) + [Field(f.key, Erase(f.value))]
  }

  /** The record of a value is the record of its erasure: no scalar reaches it. */
  lemma {:induction false} RecordFactorsThroughErasure(c: Lens, m: Paths, v: Json, path: string)
    ensures Record(c, m, v, path) == Record(c, m, Erase(v), path)
    decreases v
  {
    match v
    case Obj(fields) =>
      NoteErased(c, m, fields, path);
      FieldsFactor(c, NoteMap(c, m, path, fields), fields, path);
    case Arr(items) => ItemsFactor(c, NoteList(m, path, |items|), items, path);
    case _ =>
  }

  lemma NoteErased(c: Lens, m: Paths, fields: seq<Field>, path: string)
    ensures NoteMap(c, m, path, fields) == NoteMap(c, m, path, EraseFields(fields))
  {
    ErasedKeys(c, fields);
  }

  lemma {:induction false} ErasedKeys(c: Lens, fields: seq<Field>)
    ensures KeyHashes(c, EraseFields(fields)) == KeyHashes(c, fields)
  {
    if fields != [] {
      ErasedKeys(c, fields[..|fields| - 1]);
      var f := fields[|fields| - 1];
      EraseLast(EraseFields(fields[..|fields| - 1]), Field(f.key, Erase(f.value)));
    }
  }

  lemma EraseLast<T>(s: seq<T>, x: T)
    ensures (s + [x])[..|s|] == s
  {
  }

  lemma {:induction false} FieldsFactor(c: Lens, m: Paths, fields: seq<Field>, path: string)
    ensures RecordFields(c, m, fields, path) == RecordFields(c, m, EraseFields(fields), path)
    decreases fields
  {
    if fields != [] {
      var f, rest := fields[|fields| - 1], fields[..|fields| - 1];
      FieldsFactor(c, m, rest, path);
      RecordFactorsThroughErasure(c, RecordFields(c, m, rest, path), f.value, ChildPath(c, path, f.key));
      EraseLast(EraseFields(rest), Field(f.key, Erase(f.value)));
    }
  }

  lemma {:induction false} ItemsFactor(c: Lens, m: Paths, items: seq<Json>, path: string)
    ensures RecordItems(c, m, items, path) == RecordItems(c, m, EraseItems(items), path)
    decreases items
  {
    if items != [] {
      var v, rest := items[|items| - 1], items[..|items| - 1];
      ItemsFactor(c, m, rest, path);
      RecordFactorsThroughErasure(c, RecordItems(c, m, rest, path), v, path + "[]");
      EraseLast(EraseItems(rest), Erase(v));
    }
  }

  /** Two bundles that agree on their header, platform, tier and fact keys, and whose facts are alike under the lens. */
  ghost predicate BundlesAlike(c: Lens, a: Bundle, b: Bundle) {
    && a.header == b.header && a.subject.platform == b.subject.platform && a.subject.tier == b.subject.tier
    && a.facts.Keys == b.facts.Keys
    && forall k :: k in a.facts ==>
         && a.facts[k].source == b.facts[k].source && a.facts[k].partial == b.facts[k].partial
         && CollectionError(a.facts[k].meta) == CollectionError(b.facts[k].meta)
         && Alike(c, a.facts[k].value, b.facts[k].value, k)
         && Alike(c, MetaValue(a.facts[k].meta), MetaValue(b.facts[k].meta), k + ".@meta")
  }

  /** Nothing else of a bundle reaches its digest: neither leaf values, nor content keys unhashed, nor the asset id. */
  lemma DigestLeaksNothing(c: Lens, a: Bundle, b: Bundle)
    requires BundlesAlike(c, a, b)
    ensures BodyOf(c, a) == BodyOf(c, b)
  {
    forall k | k in a.facts ensures FactDigestOf(c, k, a.facts[k]) == FactDigestOf(c, k, b.facts[k]) {
      var r, s := a.facts[k], b.facts[k];
      AlikeRecordsAlike(c, map[], r.value, s.value, k);
      AlikeRecordsAlike(c, Record(c, map[], r.value, k), MetaValue(r.meta), MetaValue(s.meta), k + ".@meta");
    }
  }
}
