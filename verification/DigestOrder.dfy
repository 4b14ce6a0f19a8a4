/** The type a digest gives a path, from the order in which the walk comes by. */
module DigestOrder {
  import opened Text
  import opened Lists
  import opened Json
  import opened Digest
  import opened DigestTheorems

  // ----- the visits in order ------------------------------------------------------------

  /** The nodes of `v` in the order of the walk. */
  ghost function OrderedVisits(c: Lens, v: Json, path: string): seq<Visit>
    decreases v
  {
    [Visit(path, v)] +
    match v
    case Obj(fields) => OrderedFields(c, fields, path)
    case Arr(items) => OrderedItems(c, items, path)
    case _ => []
  }

  ghost function OrderedFields(c: Lens, fields: seq<Field>, path: string): seq<Visit>
    decreases fields
  {
    if fields == [] then []
    else
      var f := fields[|fields| - 1];
      OrderedFields(c, fields[..|fields| - 1], path) + OrderedVisits(c, f.value, ChildPath(c, path, f.key))
  }

  ghost function OrderedItems(c: Lens, items: seq<Json>, path: string): seq<Visit>
    decreases items
  {
    if items == [] then []
    else OrderedItems(c, items[..|items| - 1], path) + OrderedVisits(c, items[|items| - 1], path + "[]")
  }

  /** The first visit to a path. */
  ghost function FirstAt(vs: seq<Visit>, q: string): Option<Visit> {
    if vs == [] then None
    else
      var before := FirstAt(vs[..|vs| - 1], q);
      if before.Some? then before else if vs[|vs| - 1].path == q then Some(vs[|vs| - 1]) else None
  }

  /** The types of the scalars among the visits to a path. */
  ghost function ScalarTags(vs: seq<Visit>, q: string): set<Tag> {
    if vs == [] then {}
    else
      var x := vs[|vs| - 1];
      ScalarTags(vs[..|vs| - 1], q) + if x.path == q && x.node.IsScalar() then {TagOf(x.node)} else {}
  }

  ghost function ContainerTag(x: Visit): set<Tag> {
    if x.node.IsScalar() then {} else {TagOf(x.node)}
  }

  /** The types a path is given: those of its scalars, and that of a container which comes first. */
  ghost function TypesOf(vs: seq<Visit>, q: string): set<Tag> {
    ScalarTags(vs, q) + if FirstAt(vs, q).Some? then ContainerTag(FirstAt(vs, q).value) else {}
  }

  // ----- what one visit does ---------------------------------------------------------------

  function TypeEntry(m: Paths, q: string): Option<set<Tag>> {
    if q in m then Some(m[q].types) else None
  }

  ghost function After(before: Option<set<Tag>>, x: Visit, q: string): Option<set<Tag>> {
    if x.path != q then before
    else if before.None? then Some({TagOf(x.node)})
    else if x.node.IsScalar() then Some(before.value + {TagOf(x.node)})
    else before
  }

  ghost function AfterAll(before: Option<set<Tag>>, vs: seq<Visit>, q: string): Option<set<Tag>> {
    if vs == [] then before else After(AfterAll(before, vs[..|vs| - 1], q), vs[|vs| - 1], q)
  }

  lemma AfterOne(before: Option<set<Tag>>, x: Visit, q: string)
    ensures AfterAll(before, [x], q) == After(before, x, q)
  {
    assert [x][..0] == [];
    assert AfterAll(before, [], q) == before;
  }

  lemma {:induction false} AfterAppend(before: Option<set<Tag>>, a: seq<Visit>, b: seq<Visit>, q: string)
    ensures AfterAll(before, a + b, q) == AfterAll(AfterAll(before, a, q), b, q)
  {
    if b == [] {
      assert a + b == a;
    } else {
      assert (a + b)[..|a + b| - 1] == a + b[..|b| - 1];
      AfterAppend(before, a, b[..|b| - 1], q);
    }
  }

  lemma NoteTypes(c: Lens, m: Paths, v: Json, path: string, q: string)
    requires q !in c.keyspaces
    ensures TypeEntry(Note(c, m, v, path), q) == After(TypeEntry(m, q), Visit(path, v), q)
  {
  }

  /** Outside content keyspaces the recorded type is what the visits make of it, one after the other. */
  lemma {:induction false} RecordTypes(c: Lens, m: Paths, v: Json, path: string, q: string)
    requires q !in c.keyspaces
    ensures TypeEntry(Record(c, m, v, path), q) == AfterAll(TypeEntry(m, q), OrderedVisits(c, v, path), q)
    decreases v
  {
    var own, n := [Visit(path, v)], Note(c, m, v, path);
    NoteTypes(c, m, v, path, q);
    AfterOne(TypeEntry(m, q), Visit(path, v), q);
    match v
    case Obj(fields) =>
      FieldTypes(c, n, fields, path, q);
      AfterAppend(TypeEntry(m, q), own, OrderedFields(c, fields, path), q);
    case Arr(items) =>
      ItemTypes(c, n, items, path, q);
      AfterAppend(TypeEntry(m, q), own, OrderedItems(c, items, path), q);
    case _ =>
      assert OrderedVisits(c, v, path) == own;
  }

  lemma {:induction false} FieldTypes(c: Lens, m: Paths, fields: seq<Field>, path: string, q: string)
    requires q !in c.keyspaces
    ensures TypeEntry(RecordFields(c, m, fields, path), q)
        == AfterAll(TypeEntry(m, q), OrderedFields(c, fields, path), q)
    decreases fields
  {
    if fields != [] {
      var f, rest := fields[|fields| - 1], fields[..|fields| - 1];
      var child := ChildPath(c, path, f.key);
      FieldTypes(c, m, rest, path, q);
      RecordTypes(c, RecordFields(c, m, rest, path), f.value, child, q);
      AfterAppend(TypeEntry(m, q), OrderedFields(c, rest, path), OrderedVisits(c, f.value, child), q);
    }
  }

  lemma {:induction false} ItemTypes(c: Lens, m: Paths, items: seq<Json>, path: string, q: string)
    requires q !in c.keyspaces
    ensures TypeEntry(RecordItems(c, m, items, path), q) == AfterAll(TypeEntry(m, q), OrderedItems(c, items, path), q)
    decreases items
  {
    if items != [] {
      var v, rest := items[|items| - 1], items[..|items| - 1];
      ItemTypes(c, m, rest, path, q);
      RecordTypes(c, RecordItems(c, m, rest, path), v, path + "[]", q);
      AfterAppend(TypeEntry(m, q), OrderedItems(c, rest, path), OrderedVisits(c, v, path + "[]"), q);
    }
  }

  lemma {:induction false} AfterAllIs(vs: seq<Visit>, q: string)
    ensures AfterAll(None, vs, q) == if FirstAt(vs, q).None? then None else Some(TypesOf(vs, q))
    ensures FirstAt(vs, q).None? ==> ScalarTags(vs, q) == {}
  {
    if vs != [] {
      var rest, x := vs[..|vs| - 1], vs[|vs| - 1];
      AfterAllIs(rest, q);
      if x.path == q {
        var tag := {TagOf(x.node)};
        var seen := if FirstAt(rest, q).Some? then ContainerTag(FirstAt(rest, q).value) else {};
        assert x.node.IsScalar() ==> ScalarTags(vs, q) == ScalarTags(rest, q) + tag;
        assert (ScalarTags(rest, q) + tag) + seen == (ScalarTags(rest, q) + seen) + tag;
        assert {} + tag == tag + {} == tag && ScalarTags(rest, q) + {} == ScalarTags(rest, q);
      } else {
        assert ScalarTags(rest, q) + {} == ScalarTags(rest, q);
      }
    }
  }

  /**
   The type at any path outside content keyspaces: its scalars' types, and the first visitor's if that is a
   container.
   */
  lemma TypesByOrder(c: Lens, v: Json, path: string, q: string)
    requires q !in c.keyspaces
    ensures TypesAt(Record(c, map[], v, path), q) == TypesOf(OrderedVisits(c, v, path), q)
  {
    RecordTypes(c, map[], v, path, q);
    AfterAllIs(OrderedVisits(c, v, path), q);
  }

  // ----- ordered and unordered ----------------------------------------------------------------

  lemma {:induction false} OrderedHas(c: Lens, v: Json, path: string, x: Visit)
    ensures x in OrderedVisits(c, v, path) <==> x in Visits(c, v, path)
    decreases v
  {
    match v
    case Obj(fields) => OrderedFieldsHas(c, fields, path, x);
    case Arr(items) => OrderedItemsHas(c, items, path, x);
    case _ =>
  }

  lemma {:induction false} OrderedFieldsHas(c: Lens, fields: seq<Field>, path: string, x: Visit)
    ensures x in OrderedFields(c, fields, path) <==> x in FieldVisits(c, fields, path)
    decreases fields
  {
    if fields != [] {
      var f := fields[|fields| - 1];
      OrderedFieldsHas(c, fields[..|fields| - 1], path, x);
      OrderedHas(c, f.value, ChildPath(c, path, f.key), x);
    }
  }

  lemma {:induction false} OrderedItemsHas(c: Lens, items: seq<Json>, path: string, x: Visit)
    ensures x in OrderedItems(c, items, path) <==> x in ItemVisits(c, items, path)
    decreases items
  {
    if items != [] {
      OrderedItemsHas(c, items[..|items| - 1], path, x);
      OrderedHas(c, items[|items| - 1], path + "[]", x);
    }
  }

  lemma {:induction false} ScalarTagsExact(vs: seq<Visit>, q: string, t: Tag)
    ensures t in ScalarTags(vs, q) <==> exists x :: x in vs && x.path == q && x.node.IsScalar() && TagOf(x.node) == t
  {
    if vs != [] {
      var rest, last := vs[..|vs| - 1], vs[|vs| - 1];
      assert vs == rest + [last];
      ScalarTagsExact(rest, q, t);
    }
  }

  lemma {:induction false} FirstAtExact(vs: seq<Visit>, q: string)
    ensures FirstAt(vs, q).Some? ==> FirstAt(vs, q).value in vs && FirstAt(vs, q).value.path == q
    ensures FirstAt(vs, q).None? ==> forall x :: x in vs ==> x.path != q
  {
    if vs != [] {
      var rest, last := vs[..|vs| - 1], vs[|vs| - 1];
      assert vs == rest + [last];
      FirstAtExact(rest, q);
    }
  }

  lemma {:induction false} FirstAtAppend(a: seq<Visit>, b: seq<Visit>, q: string)
    ensures FirstAt(a + b, q) == if FirstAt(a, q).Some? then FirstAt(a, q) else FirstAt(b, q)
  {
    if b == [] {
      assert a + b == a;
    } else {
      assert (a + b)[..|a + b| - 1] == a + b[..|b| - 1];
      FirstAtAppend(a, b[..|b| - 1], q);
    }
  }

  // ----- any visit can come first -----------------------------------------------------------------

  lemma {:induction false} LongerBelow(c: Lens, v: Json, path: string, x: Visit)
    requires x in Visits(c, v, path)
    ensures |x.path| >= |path| && (x == Visit(path, v) || |x.path| > |path|)
    decreases v
  {
    if x == Visit(path, v) {
    } else if v.Obj? {
      FieldVisitsHas(c, v.fields, path, x);
      var f :| f in v.fields && x in Visits(c, f.value, ChildPath(c, path, f.key));
      LongerBelow(c, f.value, ChildPath(c, path, f.key), x);
    } else {
      ItemVisitsHas(c, v.items, path, x);
      var e :| e in v.items && x in Visits(c, e, path + "[]");
      LongerBelow(c, e, path + "[]", x);
    }
  }

  lemma {:induction false} OrderedFieldsCons(c: Lens, f: Field, rest: seq<Field>, path: string)
    ensures OrderedFields(c, [f] + rest, path)
         == OrderedVisits(c, f.value, ChildPath(c, path, f.key)) + OrderedFields(c, rest, path)
  {
    if rest == [] {
      assert [f] + rest == [f] && [f][..0] == [];
    } else {
      var init, last := rest[..|rest| - 1], rest[|rest| - 1];
      assert ([f] + rest)[..|rest|] == [f] + init;
      OrderedFieldsCons(c, f, init, path);
      Joined(OrderedVisits(c, f.value, ChildPath(c, path, f.key)), OrderedFields(c, init, path),
             OrderedVisits(c, last.value, ChildPath(c, path, last.key)));
    }
  }

  lemma {:induction false} OrderedItemsCons(c: Lens, v: Json, rest: seq<Json>, path: string)
    ensures OrderedItems(c, [v] + rest, path) == OrderedVisits(c, v, path + "[]") + OrderedItems(c, rest, path)
  {
    if rest == [] {
      assert [v] + rest == [v] && [v][..0] == [];
    } else {
      var init, last := rest[..|rest| - 1], rest[|rest| - 1];
      assert ([v] + rest)[..|rest|] == [v] + init;
      OrderedItemsCons(c, v, init, path);
      Joined(OrderedVisits(c, v, path + "[]"), OrderedItems(c, init, path), OrderedVisits(c, last, path + "[]"));
    }
  }

  // ----- reordering -------------------------------------------------------------------------------

  /** `f` sends each of `n` places to a place of its own. */
  ghost predicate Rearranges(f: seq<nat>, n: nat) {
    && |f| == n && (forall i :: 0 <= i < n ==> f[i] < n)
    && (forall i, j :: 0 <= i < j < n ==> f[i] != f[j])
    && forall j :: 0 <= j < n ==> j in f
  }

  /** `w` is `v` with the elements of lists and the entries of mappings put in another order, at any depth. */
  ghost predicate Reordered(v: Json, w: Json)
    decreases v
  {
    match v
    case Obj(fields) =>
      w.Obj? && |w.fields| == |fields|
      && exists f :: Rearranges(f, |fields|)
                     && forall i :: 0 <= i < |fields| ==>
                          w.fields[f[i]].key == fields[i].key && Reordered(fields[i].value, w.fields[f[i]].value)
    case Arr(items) =>
      w.Arr? && |w.items| == |items|
      && exists f :: Rearranges(f, |items|)
                     && forall i :: 0 <= i < |items| ==> Reordered(items[i], w.items[f[i]])
    case _ => w == v
  }

  lemma {:induction false} ReorderedIsWithin(v: Json, w: Json)
    requires Reordered(v, w)
    ensures Within(v, w) && Within(w, v)
    decreases v
  {
    match v
    case Obj(fields) =>
      var f :| Rearranges(f, |fields|)
               && forall i :: 0 <= i < |fields| ==>
                    w.fields[f[i]].key == fields[i].key && Reordered(fields[i].value, w.fields[f[i]].value);
      forall i | 0 <= i < |fields|
        ensures Within(fields[i].value, w.fields[f[i]].value) && Within(w.fields[f[i]].value, fields[i].value)
      {
        ReorderedIsWithin(fields[i].value, w.fields[f[i]].value);
      }
      FieldsGo(fields, w.fields, f);
      FieldsCome(fields, w.fields, f);
    case Arr(items) =>
      var f :| Rearranges(f, |items|) && forall i :: 0 <= i < |items| ==> Reordered(items[i], w.items[f[i]]);
      forall i | 0 <= i < |items| ensures Within(items[i], w.items[f[i]]) && Within(w.items[f[i]], items[i]) {
        ReorderedIsWithin(items[i], w.items[f[i]]);
      }
      ItemsGo(items, w.items, f);
      ItemsCome(items, w.items, f);
    case _ =>
  }

  lemma FieldsGo(fs: seq<Field>, gs: seq<Field>, f: seq<nat>)
    requires |gs| == |fs| && Rearranges(f, |fs|)
    requires forall i :: 0 <= i < |fs| ==> gs[f[i]].key == fs[i].key && Within(fs[i].value, gs[f[i]].value)
    ensures FieldsWithin(fs, gs)
  {
    forall x | x in fs ensures exists g :: g in gs && x.key == g.key && Within(x.value, g.value) {
      var i :| 0 <= i < |fs| && fs[i] == x;
      assert gs[f[i]] in gs;
    }
  }

  lemma FieldsCome(fs: seq<Field>, gs: seq<Field>, f: seq<nat>)
    requires |gs| == |fs| && Rearranges(f, |fs|)
    requires forall i :: 0 <= i < |fs| ==> gs[f[i]].key == fs[i].key && Within(gs[f[i]].value, fs[i].value)
    ensures FieldsWithin(gs, fs)
  {
    forall g | g in gs ensures exists x :: x in fs && g.key == x.key && Within(g.value, x.value) {
      var j :| 0 <= j < |gs| && gs[j] == g;
      assert j in f;
      var i :| 0 <= i < |fs| && f[i] == j;
      assert fs[i] in fs;
    }
  }

  lemma ItemsGo(vs: seq<Json>, ws: seq<Json>, f: seq<nat>)
    requires |ws| == |vs| && Rearranges(f, |vs|)
    requires forall i :: 0 <= i < |vs| ==> Within(vs[i], ws[f[i]])
    ensures ItemsWithin(vs, ws)
  {
    forall v | v in vs ensures exists w :: w in ws && Within(v, w) {
      var i :| 0 <= i < |vs| && vs[i] == v;
      assert ws[f[i]] in ws;
    }
  }

  lemma ItemsCome(vs: seq<Json>, ws: seq<Json>, f: seq<nat>)
    requires |ws| == |vs| && Rearranges(f, |vs|)
    requires forall i :: 0 <= i < |vs| ==> Within(ws[f[i]], vs[i])
    ensures ItemsWithin(ws, vs)
  {
    forall w | w in ws ensures exists v :: v in vs && Within(w, v) {
      var j :| 0 <= j < |ws| && ws[j] == w;
      assert j in f;
      var i :| 0 <= i < |vs| && f[i] == j;
      assert vs[i] in vs;
    }
  }

  /** A reordering has the same kinds of parts everywhere. */
  lemma ReorderedIsShuffled(v: Json, w: Json)
    requires Reordered(v, w)
    ensures Shuffled(v, w)
  {
    ReorderedIsWithin(v, w);
  }

  function Identity(n: nat): (f: seq<nat>)
    ensures |f| == n && forall i :: 0 <= i < n ==> f[i] == i
  {
    if n == 0 then [] else Identity(n - 1) + [n - 1]
  }

  lemma IdentityRearranges(n: nat)
    ensures Rearranges(Identity(n), n)
  {
    forall j | 0 <= j < n ensures j in Identity(n) {
      assert Identity(n)[j] == j;
    }
  }

  lemma {:induction false} ReorderedItself(v: Json)
    ensures Reordered(v, v)
    decreases v
  {
    match v
    case Obj(fields) =>
      IdentityRearranges(|fields|);
      forall i | 0 <= i < |fields| ensures Reordered(fields[i].value, fields[i].value) {
        ReorderedItself(fields[i].value);
      }
      FieldsReordered(fields, fields, Identity(|fields|));
    case Arr(items) =>
      IdentityRearranges(|items|);
      forall i | 0 <= i < |items| ensures Reordered(items[i], items[i]) {
        ReorderedItself(items[i]);
      }
      ItemsReordered(items, items, Identity(|items|));
    case _ =>
  }

  /** Where each of `n` places goes when the one at `i` is moved to the front. */
  function ToFront(i: nat, n: nat): (f: seq<nat>)
    requires i < n
    ensures |f| == n && forall k :: 0 <= k < n ==> f[k] == if k < i then k + 1 else if k == i then 0 else k
  {
    seq(n, k => if k < i then k + 1 else if k == i then 0 else k)
  }

  lemma ToFrontRearranges(i: nat, n: nat)
    requires i < n
    ensures Rearranges(ToFront(i, n), n)
  {
    var f := ToFront(i, n);
    forall j | 0 <= j < n ensures j in f {
      var k := if j == 0 then i else if j <= i then j - 1 else j;
      assert f[k] == j;
    }
  }

  /** Moving one entry to the front, itself reordered, reorders a mapping. */
  lemma FieldToFront(fields: seq<Field>, i: nat, w: Json)
    requires i < |fields| && Reordered(fields[i].value, w)
    ensures Reordered(Obj(fields), Obj([Field(fields[i].key, w)] + (fields[..i] + fields[i + 1..])))
  {
    var gs, f := [Field(fields[i].key, w)] + (fields[..i] + fields[i + 1..]), ToFront(i, |fields|);
    ToFrontRearranges(i, |fields|);
    forall k | 0 <= k < |fields|
      ensures gs[f[k]].key == fields[k].key && Reordered(fields[k].value, gs[f[k]].value)
    {
      MovedTo(fields, i, Field(fields[i].key, w), k);
      if k != i { ReorderedItself(fields[k].value); }
    }
    FieldsReordered(fields, gs, f);
  }

  lemma MovedTo<T>(xs: seq<T>, i: nat, x: T, k: nat)
    requires i < |xs| && k < |xs|
    ensures ([x] + (xs[..i] + xs[i + 1..]))[ToFront(i, |xs|)[k]] == if k == i then x else xs[k]
  {
  }

  lemma FieldsReordered(fs: seq<Field>, gs: seq<Field>, f: seq<nat>)
    requires |gs| == |fs| && Rearranges(f, |fs|)
    requires forall k :: 0 <= k < |fs| ==> gs[f[k]].key == fs[k].key && Reordered(fs[k].value, gs[f[k]].value)
    ensures Reordered(Obj(fs), Obj(gs))
  {
  }

  lemma ItemsReordered(vs: seq<Json>, ws: seq<Json>, f: seq<nat>)
    requires |ws| == |vs| && Rearranges(f, |vs|)
    requires forall k :: 0 <= k < |vs| ==> Reordered(vs[k], ws[f[k]])
    ensures Reordered(Arr(vs), Arr(ws))
  {
  }

  lemma ItemToFront(items: seq<Json>, i: nat, w: Json)
    requires i < |items| && Reordered(items[i], w)
    ensures Reordered(Arr(items), Arr([w] + (items[..i] + items[i + 1..])))
  {
    var ws, f := [w] + (items[..i] + items[i + 1..]), ToFront(i, |items|);
    ToFrontRearranges(i, |items|);
    forall k | 0 <= k < |items| ensures Reordered(items[k], ws[f[k]]) {
      MovedTo(items, i, w, k);
      if k != i { ReorderedItself(items[k]); }
    }
    ItemsReordered(items, ws, f);
  }

  /** Nothing of the same path comes before what is first below the first child. */
  lemma FirstBelow(c: Lens, v: Json, path: string, q: string, child: seq<Visit>, rest: seq<Visit>)
    requires OrderedVisits(c, v, path) == [Visit(path, v)] + (child + rest)
    requires path != q && FirstAt(child, q).Some?
    ensures FirstAt(OrderedVisits(c, v, path), q) == FirstAt(child, q)
  {
    FirstAtAppend([Visit(path, v)], child + rest, q);
    FirstAtAppend(child, rest, q);
    assert [Visit(path, v)][..0] == [];
    assert FirstAt([Visit(path, v)], q).None?;
  }

  /** A mapping with one entry brought to the front comes first where that entry does. */
  lemma FieldBrought(c: Lens, fields: seq<Field>, i: nat, u: Json, path: string, q: string) returns (w: Json)
    requires i < |fields| && Reordered(fields[i].value, u) && path != q
    requires FirstAt(OrderedVisits(c, u, ChildPath(c, path, fields[i].key)), q).Some?
    ensures Reordered(Obj(fields), w)
    ensures FirstAt(OrderedVisits(c, w, path), q) == FirstAt(OrderedVisits(c, u, ChildPath(c, path, fields[i].key)), q)
  {
    var front, others := Field(fields[i].key, u), fields[..i] + fields[i + 1..];
    w := Obj([front] + others);
    FieldToFront(fields, i, u);
    OrderedFieldsCons(c, front, others, path);
    FirstBelow(c, w, path, q, OrderedVisits(c, u, ChildPath(c, path, front.key)), OrderedFields(c, others, path));
  }

  lemma ItemBrought(c: Lens, items: seq<Json>, i: nat, u: Json, path: string, q: string) returns (w: Json)
    requires i < |items| && Reordered(items[i], u) && path != q && FirstAt(OrderedVisits(c, u, path + "[]"), q).Some?
    ensures Reordered(Arr(items), w)
    ensures FirstAt(OrderedVisits(c, w, path), q) == FirstAt(OrderedVisits(c, u, path + "[]"), q)
  {
    var others := items[..i] + items[i + 1..];
    w := Arr([u] + others);
    ItemToFront(items, i, u);
    OrderedItemsCons(c, u, others, path);
    FirstBelow(c, w, path, q, OrderedVisits(c, u, path + "[]"), OrderedItems(c, others, path));
  }

  lemma OwnVisitIsFirst(c: Lens, v: Json, path: string)
    ensures FirstAt(OrderedVisits(c, v, path), path) == Some(Visit(path, v))
  {
    var own := [Visit(path, v)];
    FirstAtAppend(own, OrderedVisits(c, v, path)[1..], path);
    assert OrderedVisits(c, v, path) == own + OrderedVisits(c, v, path)[1..] && own[..0] == [];
    assert FirstAt(own, path) == Some(own[0]);
  }

  /** Of any visit to a value, some reordering of the value makes a visit of the same kind the first of its path. */
  lemma {:induction false} BringFirst(c: Lens, v: Json, path: string, x: Visit) returns (w: Json)
    requires x in Visits(c, v, path)
    ensures Reordered(v, w)
    ensures var first := FirstAt(OrderedVisits(c, w, path), x.path);
            first.Some? && TagOf(first.value.node) == TagOf(x.node)
    decreases v
  {
    LongerBelow(c, v, path, x);
    if x == Visit(path, v) {
      w := v;
      ReorderedItself(v);
      OwnVisitIsFirst(c, v, path);
    } else if v.Obj? {
      FieldVisitsHas(c, v.fields, path, x);
      var f :| f in v.fields && x in Visits(c, f.value, ChildPath(c, path, f.key));
      var i :| 0 <= i < |v.fields| && v.fields[i] == f;
      var u := BringFirst(c, f.value, ChildPath(c, path, f.key), x);
      w := FieldBrought(c, v.fields, i, u, path, x.path);
    } else {
      ItemVisitsHas(c, v.items, path, x);
      var e :| e in v.items && x in Visits(c, e, path + "[]");
      var i :| 0 <= i < |v.items| && v.items[i] == e;
      var u := BringFirst(c, e, path + "[]", x);
      w := ItemBrought(c, v.items, i, u, path, x.path);
    }
  }

  // ----- when the order is of no account ------------------------------------------------------------

  /** Everything at the path is of one kind: all scalars, all lists, or all mappings. */
  ghost predicate OneKindAt(vs: set<Visit>, q: string) {
    forall x, y :: x in vs && x.path == q && y in vs && y.path == q ==> ContainerTag(x) == ContainerTag(y)
  }

  lemma ScalarByTag(v: Json, w: Json)
    requires TagOf(v) == TagOf(w)
    ensures v.IsScalar() == w.IsScalar()
  {
  }

  lemma ScalarCarries(c: Lens, v: Json, w: Json, path: string, x: Visit)
    requires Within(v, w) && x in OrderedVisits(c, v, path) && x.node.IsScalar()
    ensures TagOf(x.node) in ScalarTags(OrderedVisits(c, w, path), x.path)
  {
    OrderedHas(c, v, path, x);
    var y := Counterpart(c, v, w, path, x);
    OrderedHas(c, w, path, y);
    ScalarByTag(x.node, y.node);
    ScalarTagsExact(OrderedVisits(c, w, path), x.path, TagOf(x.node));
  }

  lemma SomeScalars(c: Lens, v: Json, w: Json, path: string, q: string)
    requires Within(v, w)
    ensures ScalarTags(OrderedVisits(c, v, path), q) <= ScalarTags(OrderedVisits(c, w, path), q)
  {
    var vs := OrderedVisits(c, v, path);
    forall t | t in ScalarTags(vs, q) ensures t in ScalarTags(OrderedVisits(c, w, path), q) {
      ScalarTagsExact(vs, q, t);
      var x :| x in vs && x.path == q && x.node.IsScalar() && TagOf(x.node) == t;
      ScalarCarries(c, v, w, path, x);
    }
  }

  lemma SameScalars(c: Lens, v: Json, w: Json, path: string, q: string)
    requires Shuffled(v, w)
    ensures ScalarTags(OrderedVisits(c, v, path), q) == ScalarTags(OrderedVisits(c, w, path), q)
  {
    SomeScalars(c, v, w, path, q);
    SomeScalars(c, w, v, path, q);
  }

  /** Types at a path where everything is of one kind: those found there. */
  lemma OneKindTypes(c: Lens, v: Json, path: string, q: string)
    requires OneKindAt(Visits(c, v, path), q)
    ensures TypesOf(OrderedVisits(c, v, path), q) == TagsAt(Visits(c, v, path), q)
  {
    var vs := OrderedVisits(c, v, path);
    FirstAtExact(vs, q);
    var first := FirstAt(vs, q);
    if first.Some? { OrderedHas(c, v, path, first.value); }
    forall t ensures t in TypesOf(vs, q) <==> t in TagsAt(Visits(c, v, path), q) {
      ScalarTagsExact(vs, q, t);
      forall x ensures x in vs <==> x in Visits(c, v, path) { OrderedHas(c, v, path, x); }
      if t in TagsAt(Visits(c, v, path), q) {
        var x :| x in Visits(c, v, path) && x.path == q && TagOf(x.node) == t;
        assert ContainerTag(x) == ContainerTag(first.value);
      }
    }
  }

  /**
   Exactly where the order of list elements and mapping entries is of no account for the type of a path: where
   everything filed under the path is of one kind.
   */
  lemma TypesIndependentExact(c: Lens, v: Json, path: string, q: string)
    requires q !in c.keyspaces
    ensures (forall w | Reordered(v, w) ::
               TypesAt(Record(c, map[], w, path), q) == TypesAt(Record(c, map[], v, path), q))
            <==> OneKindAt(Visits(c, v, path), q)
  {
    if OneKindAt(Visits(c, v, path), q) {
      forall w | Reordered(v, w)
        ensures TypesAt(Record(c, map[], w, path), q) == TypesAt(Record(c, map[], v, path), q)
      {
        ReorderedIsShuffled(v, w);
        TypesByOrder(c, v, path, q);
        TypesByOrder(c, w, path, q);
        OneKindShuffled(c, v, w, path, q);
        OneKindTypes(c, v, path, q);
        OneKindTypes(c, w, path, q);
        WithinIncludes(c, v, w, path, q);
        WithinIncludes(c, w, v, path, q);
      }
    } else {
      var u, w := DifferentTypes(c, v, path, q);
    }
  }

  lemma OneKindShuffled(c: Lens, v: Json, w: Json, path: string, q: string)
    requires OneKindAt(Visits(c, v, path), q) && Within(w, v)
    ensures OneKindAt(Visits(c, w, path), q)
  {
    forall x, y | x in Visits(c, w, path) && x.path == q && y in Visits(c, w, path) && y.path == q
      ensures ContainerTag(x) == ContainerTag(y)
    {
      var a := Counterpart(c, w, v, path, x);
      var b := Counterpart(c, w, v, path, y);
      assert ContainerTag(a) == ContainerTag(b);
    }
  }

  /**
   A reordering whose first visitor is of the kind of `x` has the scalars' types and that of `x` if it is a
   container.
   */
  lemma TypesWithFirst(c: Lens, v: Json, path: string, x: Visit) returns (w: Json)
    requires x.path !in c.keyspaces && x in Visits(c, v, path)
    ensures Reordered(v, w)
    ensures TypesAt(Record(c, map[], w, path), x.path)
         == ScalarTags(OrderedVisits(c, v, path), x.path) + ContainerTag(x)
  {
    w := BringFirst(c, v, path, x);
    ReorderedIsShuffled(v, w);
    TypesByOrder(c, w, path, x.path);
    SameScalars(c, v, w, path, x.path);
    ScalarByTag(FirstAt(OrderedVisits(c, w, path), x.path).value.node, x.node);
  }

  lemma DifferentTypes(c: Lens, v: Json, path: string, q: string) returns (u: Json, w: Json)
    requires q !in c.keyspaces && !OneKindAt(Visits(c, v, path), q)
    ensures Reordered(v, u) && Reordered(v, w)
    ensures TypesAt(Record(c, map[], u, path), q) != TypesAt(Record(c, map[], w, path), q)
  {
    var x, y :| x in Visits(c, v, path) && x.path == q && y in Visits(c, v, path) && y.path == q
                && ContainerTag(x) != ContainerTag(y);
    u := TypesWithFirst(c, v, path, x);
    w := TypesWithFirst(c, v, path, y);
    NoContainerIsScalar(OrderedVisits(c, v, path), q);
    DifferentSums(ScalarTags(OrderedVisits(c, v, path), q), x, y);
  }

  lemma DifferentSums(s: set<Tag>, x: Visit, y: Visit)
    requires TList !in s && TMap !in s && ContainerTag(x) != ContainerTag(y)
    ensures s + ContainerTag(x) != s + ContainerTag(y)
  {
    assert forall t :: t in ContainerTag(x) + ContainerTag(y) ==> t in {TList, TMap};
    if t :| t in ContainerTag(x) && t !in ContainerTag(y) {
      assert t in s + ContainerTag(x) && t !in s + ContainerTag(y);
    } else {
      var u :| u in ContainerTag(y) && u !in ContainerTag(x);
      assert u in s + ContainerTag(y) && u !in s + ContainerTag(x);
    }
  }

  lemma NoContainerIsScalar(vs: seq<Visit>, q: string)
    ensures TList !in ScalarTags(vs, q) && TMap !in ScalarTags(vs, q)
  {
    ScalarTagsExact(vs, q, TList);
    ScalarTagsExact(vs, q, TMap);
  }
}
