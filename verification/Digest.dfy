/** Reducing a fact bundle to its shape: key paths, types and counts, and no values. */
module Digest {
  import opened Text
  import opened Json

  // ----- what a digest records of a path ---------------------------------------------

  datatype Tag = TNull | TBool | TInt | TFloat | TStr | TList | TMap

  function TagOf(v: Json): Tag {
    match v
    case Null => TNull
    case Bool(_) => TBool
    case Int(_) => TInt
    case Float(_) => TFloat
    case Str(_) => TStr
    case Arr(_) => TList
    case Obj(_) => TMap
  }

  datatype Keyspace = Schema | Data

  /**
   One path's entry. `types` stands for the sorted names joined by bars, `hashes` for the sorted
   list of key hashes.
   */
  datatype Entry = Entry(types: set<Tag>, n: Option<nat>, keyspace: Option<Keyspace>, hashes: multiset<string>)

  type Paths = map<string, Entry>

  const DATA_KEYSPACES := { "windows.browsers.java_surface.javasoft", "windows.browsers.policy.rows[].values" }

  /** The paths whose keys are collected content, and the salted hash such keys travel under. */
  datatype Lens = Lens(keyspaces: set<string>, hash: string -> string)

  function KeyHashes(c: Lens, fields: seq<Field>): multiset<string> {
    if fields == [] then multiset{}
    else KeyHashes(c, fields[..|fields| - 1]) + multiset{c.hash(fields[|fields| - 1].key)}
  }

  // ----- the walk ---------------------------------------------------------------------

  /** Where an entry of the mapping at `path` is filed: under its key, or under `.*` when keys are content. */
  function ChildPath(c: Lens, path: string, key: string): string {
    if path in c.keyspaces then path + ".*" else path + "." + key
  }

  /** A mapping's own entry: written afresh for a content keyspace, kept if present otherwise. */
  function NoteMap(c: Lens, out: Paths, path: string, fields: seq<Field>): Paths {
    if path in c.keyspaces then out[path := Entry({TMap}, Some(|fields|), Some(Data), KeyHashes(c, fields))]
    else if path in out then out
    else out[path := Entry({TMap}, None, Some(Schema), multiset{})]
  }

  /** A list's own entry: the largest count seen at the path. */
  function NoteList(out: Paths, path: string, count: nat): Paths {
    var e := if path in out then out[path] else Entry({TList}, Some(0), None, multiset{});
    var n := if e.n.Some? then e.n.value else 0;
    out[path := e.(n := Some(if n >= count then n else count))]
  }

  /** A scalar's entry: its type joins those already seen at the path. */
  function NoteScalar(out: Paths, path: string, tag: Tag): Paths {
    if path in out then out[path := out[path].(types := out[path].types + {tag})]
    else out[path := Entry({tag}, None, None, multiset{})]
  }

  function Record(c: Lens, out: Paths, v: Json, path: string): Paths
    decreases v
  {
    match v
    case Obj(fields) => RecordFields(c, NoteMap(c, out, path, fields), fields, path)
    case Arr(items) => RecordItems(c, NoteList(out, path, |items|), items, path)
    case _ => NoteScalar(out, path, TagOf(v))
  }

  function RecordFields(c: Lens, out: Paths, fields: seq<Field>, path: string): Paths
    decreases fields
  {
    if fields == [] then out
    else
      var f := fields[|fields| - 1];
      Record(c, RecordFields(c, out, fields[..|fields| - 1], path), f.value, ChildPath(c, path, f.key))
  }

  function RecordItems(c: Lens, out: Paths, items: seq<Json>, path: string): Paths
    decreases items
  {
    if items == [] then out
    else Record(c, RecordItems(c, out, items[..|items| - 1], path), items[|items| - 1], path + "[]")
  }

  lemma RecordNextField(c: Lens, out: Paths, fields: seq<Field>, i: nat, path: string)
    requires i < |fields|
    ensures RecordFields(c, out, fields[..i + 1], path)
         == Record(c, RecordFields(c, out, fields[..i], path), fields[i].value, ChildPath(c, path, fields[i].key))
  {
    assert fields[..i + 1][..i] == fields[..i];
  }

  lemma RecordNextItem(c: Lens, out: Paths, items: seq<Json>, i: nat, path: string)
    requires i < |items|
    ensures RecordItems(c, out, items[..i + 1], path) == Record(c, RecordItems(c, out, items[..i], path), items[i],
                                                                path + "[]")
  {
    assert items[..i + 1][..i] == items[..i];
  }

  lemma NoteKnownScalar(out: Paths, path: string, tag: Tag)
    requires path in out && out[path].types == {tag}
    ensures NoteScalar(out, path, tag) == out
  {
    assert out[path].types + {tag} == out[path].types;
    assert out[path := out[path]] == out;
  }

  /** The map every call of the walk writes into. */
  class Recorder {
    var out: Paths
    const lens: Lens

    constructor (c: Lens)
      ensures out == map[] && lens == c
    {
      out, lens := map[], c;
    }

    method Walk(node: Json, path: string)
      modifies this
      ensures out == Record(lens, old(out), node, path)
      decreases node
    {
      if node.Obj? {
        if path in lens.keyspaces {
          out := out[path := Entry({TMap}, Some(|node.fields|), Some(Data), KeyHashes(lens, node.fields))];
        } else if path !in out {
          out := out[path := Entry({TMap}, None, Some(Schema), multiset{})];
        }
        ghost var start := out;
        for i := 0 to |node.fields|
          invariant out == RecordFields(lens, start, node.fields[..i], path)
        {
          RecordNextField(lens, start, node.fields, i, path);
          Walk(node.fields[i].value, ChildPath(lens, path, node.fields[i].key));
        }
        assert node.fields[..|node.fields|] == node.fields;
        return;
      }
      if node.Arr? {
        var entry := if path in out then out[path] else Entry({TList}, Some(0), None, multiset{});
        var n := if entry.n.Some? then entry.n.value else 0;
        out := out[path := entry.(n := Some(if n >= |node.items| then n else |node.items|))];
        ghost var start := out;
        for i := 0 to |node.items|
          invariant out == RecordItems(lens, start, node.items[..i], path)
        {
          RecordNextItem(lens, start, node.items, i, path);
          Walk(node.items[i], path + "[]");
        }
        assert node.items[..|node.items|] == node.items;
        return;
      }
      if path !in out {
        out := out[path := Entry({TagOf(node)}, None, None, multiset{})];
      } else if out[path].types != {TagOf(node)} {
        out := out[path := out[path].(types := out[path].types + {TagOf(node)})];
      } else {
        NoteKnownScalar(out, path, TagOf(node));
      }
    }
  }

  // ----- bundles ------------------------------------------------------------------------

  /** A fact as the bundle file holds it; its meta is a mapping or missing. */
  datatype FactRecord = FactRecord(value: Json, meta: Option<seq<Field>>, source: string, partial: bool)

  datatype Subject = Subject(assetId: string, platform: string, tier: string)

  datatype Header = Header(runId: string, collected: string, redactionPolicy: string, marking: Json)

  datatype Bundle = Bundle(header: Header, subject: Subject, facts: map<string, FactRecord>)

  datatype FactDigest = FactDigest(source: string, partial: bool, collectionError: bool, paths: Paths)

  /** Everything a digest says except its own hash. There is no place in it for an asset id. */
  datatype Body = Body(header: Header, platform: string, tier: string, facts: map<string, FactDigest>)

  datatype Digest = Digest(body: Body, selfSha: string)

  function MetaValue(meta: Option<seq<Field>>): Json {
    if meta.Some? then Obj(meta.value) else Null
  }

  /** The first value a mapping holds for a key. */
  function Lookup(fields: seq<Field>, key: string): Json {
    if fields == [] then Null else if fields[0].key == key then fields[0].value else Lookup(fields[1..], key)
  }

  function CollectionError(meta: Option<seq<Field>>): bool {
    meta.Some? && Truthy(Lookup(meta.value, "collection_error"))
  }

  function RecordPaths(c: Lens, key: string, r: FactRecord): Paths {
    Record(c, Record(c, map[], r.value, key), MetaValue(r.meta), key + ".@meta")
  }

  function FactDigestOf(c: Lens, key: string, r: FactRecord): FactDigest {
    FactDigest(r.source, r.partial, CollectionError(r.meta), RecordPaths(c, key, r))
  }

  function FactDigests(c: Lens, facts: map<string, FactRecord>): map<string, FactDigest> {
    map k | k in facts :: FactDigestOf(c, k, facts[k])
  }

  function BodyOf(c: Lens, b: Bundle): Body {
    Body(b.header, b.subject.platform, b.subject.tier,
         FactDigests(c, b.facts))
  }

  /** The salted hash keys travel under: sixteen hex digits of it. */
  function KeyLens(sha256: string -> string, salt: string): Lens {
    Lens(DATA_KEYSPACES,
         k => var digest := sha256(salt + k); "sha256:" + if |digest| > 16 then digest[..16] else digest)
  }

  /** One fact: its value and its meta, walked into one map. */
  method DigestFact(c: Lens, key: string, r: FactRecord) returns (d: FactDigest)
    ensures d == FactDigestOf(c, key, r)
  {
    var rec := new Recorder(c);
    rec.Walk(r.value, key);
    rec.Walk(MetaValue(r.meta), key + ".@meta");
    return FactDigest(r.source, r.partial, CollectionError(r.meta), rec.out);
  }

  /** The loop over the facts of a bundle. */
  method DigestFacts(c: Lens, facts: map<string, FactRecord>) returns (out: map<string, FactDigest>)
    ensures out == FactDigests(c, facts)
  {
    var todo := facts.Keys;
    out := map[];
    while todo != {}
      invariant todo <= facts.Keys && out.Keys == facts.Keys - todo
      invariant forall k :: k in out ==> out[k] == FactDigestOf(c, k, facts[k])
      decreases todo
    {
      var key :| key in todo;
      var digest := DigestFact(c, key, facts[key]);
      out := out[key := digest];
      todo := todo - {key};
    }
  }

  /** `digest_bundle`; `selfHash` is the hash of the canonical text of a body. */
  method DigestBundle(b: Bundle, salt: string, sha256: string -> string, selfHash: Body -> string)
    returns (r: Result<Digest, string>)
    ensures salt == "" <==> r.Err?
    ensures r.Ok? ==> r.value.body == BodyOf(KeyLens(sha256, salt), b) && r.value.selfSha == selfHash(r.value.body)
  {
    if salt == "" { return Err("a salt is required"); }
    var facts := DigestFacts(KeyLens(sha256, salt), b.facts);
    var body := Body(b.header, b.subject.platform, b.subject.tier, facts);
    return Ok(Digest(body, selfHash(body)));
  }
}
