/** What the digest of a bundle tells of content keys, under the lens it is really made with. */
module DigestKeys {
  import opened Text
  import opened Json
  import opened Digest
  import opened DigestTheorems

  /** The two mappings whose keys are collected content. */
  ghost predicate IsContent(path: string) {
    path == "windows.browsers.java_surface.javasoft" || path == "windows.browsers.policy.rows[].values"
  }

  /** A content key travels as the label and sixteen characters of its salted digest, and nothing else of it does. */
  lemma KeyLensExact(sha256: string -> string, salt: string, key: string, other: string -> string, seasoning: string,
                     word: string)
    ensures KeyLens(sha256, salt).hash(key) == KeyLens(other, seasoning).hash(word) <==>
            ShownAlike(sha256(salt + key), other(seasoning + word), 16)
    ensures |KeyLens(sha256, salt).hash(key)| <= 23 && "sha256:" <= KeyLens(sha256, salt).hash(key)
  {
    var d, e := sha256(salt + key), other(seasoning + word);
    var h, k := KeyLens(sha256, salt).hash(key), KeyLens(other, seasoning).hash(word);
    assert h[7..] == if |d| > 16 then d[..16] else d;
    assert k[7..] == if |e| > 16 then e[..16] else e;
  }

  lemma ContentExact(sha256: string -> string, salt: string, path: string)
    ensures path in KeyLens(sha256, salt).keyspaces <==> IsContent(path)
  {
  }

  /** Values of one kind: the same for scalars and containers. */
  ghost predicate SameKind(v: Json, w: Json) {
    && (v.Null? <==> w.Null?) && (v.Bool? <==> w.Bool?) && (v.Int? <==> w.Int?) && (v.Float? <==> w.Float?)
    && (v.Str? <==> w.Str?) && (v.Arr? <==> w.Arr?) && (v.Obj? <==> w.Obj?)
  }

  /** The path an entry of the mapping at `path` is compared under. */
  ghost function Below(path: string, key: string): string {
    if IsContent(path) then path + ".*" else path + "." + key
  }

  /**
   Of one shape: the same kinds throughout, lists of one length, mappings of the same keys, and content mappings whose
   keys agree in what is shown of their salted digests.
   */
  ghost predicate SameShape(sha256: string -> string, salt: string, v: Json, w: Json, path: string)
    decreases v
  {
    SameKind(v, w) &&
    match v
    case Obj(fields) =>
      |fields| == |w.fields|
      && forall i :: 0 <= i < |fields| ==>
           && KeysAlike(sha256, salt, fields[i].key, w.fields[i].key, path)
           && SameShape(sha256, salt, fields[i].value, w.fields[i].value, Below(path, fields[i].key))
    case Arr(items) =>
      |items| == |w.items|
      && forall i :: 0 <= i < |items| ==> SameShape(sha256, salt, items[i], w.items[i], path + "[]")
    case _ => true
  }

  ghost predicate KeysAlike(sha256: string -> string, salt: string, key: string, other: string, path: string) {
    if IsContent(path) then ShownAlike(sha256(salt + key), sha256(salt + other), 16) else key == other
  }

  lemma {:induction false} KeyHashesAlike(c: Lens, fs: seq<Field>, gs: seq<Field>)
    requires |fs| == |gs| && forall i :: 0 <= i < |fs| ==> c.hash(fs[i].key) == c.hash(gs[i].key)
    ensures KeyHashes(c, fs) == KeyHashes(c, gs)
  {
    if fs != [] {
      var n := |fs| - 1;
      assert c.hash(fs[n].key) == c.hash(gs[n].key);
      KeyHashesAlike(c, fs[..n], gs[..n]);
    }
  }

  lemma KeysAreAlike(sha256: string -> string, salt: string, v: Json, w: Json, path: string)
    requires v.Obj? && SameShape(sha256, salt, v, w, path)
    ensures var c := KeyLens(sha256, salt);
            && (path in c.keyspaces ==> KeyHashes(c, v.fields) == KeyHashes(c, w.fields))
            && (path !in c.keyspaces ==> forall i :: 0 <= i < |v.fields| ==> v.fields[i].key == w.fields[i].key)
  {
    var c := KeyLens(sha256, salt);
    ContentExact(sha256, salt, path);
    if IsContent(path) {
      forall i | 0 <= i < |v.fields| ensures c.hash(v.fields[i].key) == c.hash(w.fields[i].key) {
        assert KeysAlike(sha256, salt, v.fields[i].key, w.fields[i].key, path);
        KeyLensExact(sha256, salt, v.fields[i].key, sha256, salt, w.fields[i].key);
      }
      KeyHashesAlike(c, v.fields, w.fields);
    }
  }

  lemma BelowIsChild(sha256: string -> string, salt: string, path: string, key: string)
    ensures Below(path, key) == ChildPath(KeyLens(sha256, salt), path, key)
  {
    ContentExact(sha256, salt, path);
  }

  lemma {:induction false} SameShapeIsAlike(sha256: string -> string, salt: string, v: Json, w: Json, path: string)
    requires SameShape(sha256, salt, v, w, path)
    ensures Alike(KeyLens(sha256, salt), v, w, path)
    decreases v
  {
    var c := KeyLens(sha256, salt);
    match v
    case Obj(fields) =>
      KeysAreAlike(sha256, salt, v, w, path);
      forall i | 0 <= i < |fields|
        ensures Alike(c, fields[i].value, w.fields[i].value, ChildPath(c, path, fields[i].key))
      {
        BelowIsChild(sha256, salt, path, fields[i].key);
        SameShapeIsAlike(sha256, salt, fields[i].value, w.fields[i].value, Below(path, fields[i].key));
      }
    case Arr(items) =>
      forall i | 0 <= i < |items| ensures Alike(c, items[i], w.items[i], path + "[]") {
        SameShapeIsAlike(sha256, salt, items[i], w.items[i], path + "[]");
      }
    case _ =>
  }

  /** Bundles that agree but for their asset ids and whose facts are of one shape. */
  ghost predicate BundlesOfOneShape(sha256: string -> string, salt: string, a: Bundle, b: Bundle) {
    && a.header == b.header && a.subject.platform == b.subject.platform && a.subject.tier == b.subject.tier
    && a.facts.Keys == b.facts.Keys
    && forall k :: k in a.facts ==>
         && a.facts[k].source == b.facts[k].source && a.facts[k].partial == b.facts[k].partial
         && CollectionError(a.facts[k].meta) == CollectionError(b.facts[k].meta)
         && SameShape(sha256, salt, a.facts[k].value, b.facts[k].value, k)
         && SameShape(sha256, salt, MetaValue(a.facts[k].meta), MetaValue(b.facts[k].meta), k + ".@meta")
  }

  /**
   The digest the tool makes of a bundle tells only its shape: no value, no asset id, and of a content key sixteen
   characters of its salted digest.
   */
  lemma DigestTellsShapeOnly(sha256: string -> string, salt: string, a: Bundle, b: Bundle)
    requires BundlesOfOneShape(sha256, salt, a, b)
    ensures BodyOf(KeyLens(sha256, salt), a) == BodyOf(KeyLens(sha256, salt), b)
  {
    var c := KeyLens(sha256, salt);
    forall k | k in a.facts
      ensures Alike(c, a.facts[k].value, b.facts[k].value, k)
      ensures Alike(c, MetaValue(a.facts[k].meta), MetaValue(b.facts[k].meta), k + ".@meta")
    {
      SameShapeIsAlike(sha256, salt, a.facts[k].value, b.facts[k].value, k);
      SameShapeIsAlike(sha256, salt, MetaValue(a.facts[k].meta), MetaValue(b.facts[k].meta), k + ".@meta");
    }
    DigestLeaksNothing(c, a, b);
  }

  // ----- mappings ----------------------------------------------------------------------

  /** The entry of a path is the same in both maps, or in neither. */
  ghost predicate SameAt(m: Paths, n: Paths, q: string) {
    (q in m <==> q in n) && (q in m ==> m[q] == n[q])
  }

  /** A walk leaves every path shorter than its own as it was. */
  lemma {:induction false} ShorterStays(c: Lens, m: Paths, v: Json, path: string, q: string)
    requires |q| < |path|
    ensures SameAt(m, Record(c, m, v, path), q)
    decreases v
  {
    match v
    case Obj(fields) => FieldsStay(c, NoteMap(c, m, path, fields), fields, path, q);
    case Arr(items) => ItemsStay(c, NoteList(m, path, |items|), items, path, q);
    case _ =>
  }

  lemma {:induction false} FieldsStay(c: Lens, m: Paths, fields: seq<Field>, path: string, q: string)
    requires |q| <= |path|
    ensures SameAt(m, RecordFields(c, m, fields, path), q)
    decreases fields
  {
    if fields != [] {
      var rest, f := fields[..|fields| - 1], fields[|fields| - 1];
      FieldsStay(c, m, rest, path, q);
      ShorterStays(c, RecordFields(c, m, rest, path), f.value, ChildPath(c, path, f.key), q);
    }
  }

  lemma {:induction false} ItemsStay(c: Lens, m: Paths, items: seq<Json>, path: string, q: string)
    requires |q| <= |path|
    ensures SameAt(m, RecordItems(c, m, items, path), q)
    decreases items
  {
    if items != [] {
      var rest, v := items[..|items| - 1], items[|items| - 1];
      ItemsStay(c, m, rest, path, q);
      ShorterStays(c, RecordItems(c, m, rest, path), v, path + "[]", q);
    }
  }

  /** How many of the keys have the hash. */
  function KeysWith(c: Lens, fields: seq<Field>, hash: string): nat {
    if fields == [] then 0
    else KeysWith(c, fields[1..], hash) + if c.hash(fields[0].key) == hash then 1 else 0
  }

  lemma {:induction false} KeysWithNext(c: Lens, rest: seq<Field>, f: Field, hash: string)
    ensures KeysWith(c, rest + [f], hash) == KeysWith(c, rest, hash) + if c.hash(f.key) == hash then 1 else 0
  {
    if rest == [] {
      assert [] + [f] == [f] && [f][1..] == [];
    } else {
      assert (rest + [f])[1..] == rest[1..] + [f];
      KeysWithNext(c, rest[1..], f, hash);
    }
  }

  lemma {:induction false} KeyHashesExact(c: Lens, fields: seq<Field>, hash: string)
    ensures KeyHashes(c, fields)[hash] == KeysWith(c, fields, hash)
  {
    if fields != [] {
      var rest, f := fields[..|fields| - 1], fields[|fields| - 1];
      assert fields == rest + [f];
      KeyHashesExact(c, rest, hash);
      KeysWithNext(c, rest, f, hash);
    }
  }

  /** A content mapping leaves its size and the hash of each of its keys, any other mapping that it is one. */
  lemma MappingRecorded(c: Lens, m: Paths, fields: seq<Field>, path: string, hash: string)
    ensures path in Record(c, m, Obj(fields), path)
    ensures path in c.keyspaces ==>
              var e := Record(c, m, Obj(fields), path)[path];
              e.types == {TMap} && e.keyspace == Some(Data) && e.n == Some(|fields|)
              && e.hashes[hash] == KeysWith(c, fields, hash)
    ensures path !in c.keyspaces && path !in m ==>
              Record(c, m, Obj(fields), path)[path] == Entry({TMap}, None, Some(Schema), multiset{})
  {
    FieldsStay(c, NoteMap(c, m, path, fields), fields, path, path);
    KeyHashesExact(c, fields, hash);
  }

  // ----- what is told of errors and types --------------------------------------------------

  /** What Python takes for false. */
  ghost predicate IsNothing(v: Json) {
    || v == Null || v == Bool(false) || v == Int(0) || v == Str("") || v == Arr([]) || v == Obj([])
    || (v.Float? && (v.repr == "0.0" || v.repr == "-0.0"))
  }

  /** A fact is marked when the first `collection_error` in its meta holds something. */
  lemma ErrorExact(fields: seq<Field>, key: string)
    requires key == "collection_error"
    ensures CollectionError(Some(fields)) <==>
            exists i :: && 0 <= i < |fields| && fields[i].key == key && !IsNothing(fields[i].value)
                        && forall j :: 0 <= j < i ==> fields[j].key != key
    ensures !CollectionError(None)
  {
    FirstHeld(fields, key);
    TruthExact(Lookup(fields, key));
  }

  lemma TruthExact(v: Json)
    ensures Truthy(v) <==> !IsNothing(v)
  {
  }

  lemma {:induction false} FirstHeld(fields: seq<Field>, key: string)
    ensures Lookup(fields, key) == Null || exists i :: FirstAt(fields, key, i) && Lookup(fields, key) == fields[i].value
    ensures forall i :: FirstAt(fields, key, i) ==> Lookup(fields, key) == fields[i].value
  {
    if fields != [] {
      var rest := fields[1..];
      FirstHeld(rest, key);
      if fields[0].key == key {
        assert FirstAt(fields, key, 0);
      } else {
        forall i | FirstAt(rest, key, i) ensures FirstAt(fields, key, i + 1) {
          LaterFirst(fields, key, i + 1);
        }
        forall i | FirstAt(fields, key, i) ensures FirstAt(rest, key, i - 1) {
          LaterFirst(fields, key, i);
        }
      }
    }
  }

  ghost predicate FirstAt(fields: seq<Field>, key: string, i: int) {
    0 <= i < |fields| && fields[i].key == key && forall j :: 0 <= j < i ==> fields[j].key != key
  }

  lemma LaterFirst(fields: seq<Field>, key: string, i: int)
    requires fields != [] && fields[0].key != key
    ensures FirstAt(fields, key, i) <==> FirstAt(fields[1..], key, i - 1)
  {
    if FirstAt(fields[1..], key, i - 1) {
      forall j | 0 <= j < i ensures fields[j].key != key {
        assert j > 0 ==> fields[1..][j - 1].key != key;
      }
    }
    if FirstAt(fields, key, i) {
      forall j | 0 <= j < i - 1 ensures fields[1..][j].key != key {
        assert fields[j + 1].key != key;
      }
    }
  }

  /** A scalar on its own is recorded by its type alone. */
  lemma ScalarRecorded(c: Lens, v: Json, path: string)
    requires v.IsScalar()
    ensures var m := Record(c, map[], v, path);
            && m.Keys == {path} && m[path].n.None? && m[path].keyspace.None? && m[path].hashes == multiset{}
            && (m[path].types == {TNull} <==> v.Null?) && (m[path].types == {TBool} <==> v.Bool?)
            && (m[path].types == {TInt} <==> v.Int?) && (m[path].types == {TFloat} <==> v.Float?)
            && (m[path].types == {TStr} <==> v.Str?)
  {
    var m := Record(c, map[], v, path);
    assert m == map[path := Entry({TagOf(v)}, None, None, multiset{})];
    assert TagOf(v) in m[path].types;
  }
}
