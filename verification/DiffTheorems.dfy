/** What a reconciliation that comes out clean has established. */
module DiffTheorems {
  import opened Text
  import opened Lists
  import opened Json
  import opened Digest
  import opened DigestTheorems
  import opened Diff

  // ----- path names ---------------------------------------------------------------------

  lemma {:induction false} MarkersGo(a: string, b: string, marker: string)
    requires |marker| == 2 && marker[1] !in b
    ensures Replace(a + b, marker, "") == Replace(a, marker, "") + b
  {
    if a == "" {
      assert a + b == b;
      NoMarkers(b, marker);
    } else if marker <= a {
      var t := a[2..];
      assert a == marker + t && a + b == marker + (t + b);
      MarkersGo(t, b, marker);
      ReplaceTakesFirst(t, marker, "");
      ReplaceTakesFirst(t + b, marker, "");
    } else {
      var c, t := a[0], a[1..];
      NoNewMarker(a, b, marker);
      assert a == [c] + t && a + b == [c] + (t + b);
      MarkersGo(t, b, marker);
      ReplaceKeepsFirst(c, t, marker, "");
      ReplaceKeepsFirst(c, t + b, marker, "");
      Joined([c], Replace(t, marker, ""), b);
    }
  }

  lemma NoNewMarker(a: string, b: string, marker: string)
    requires |marker| == 2 && marker[1] !in b && a != "" && !(marker <= a)
    ensures !(marker <= a + b)
  {
    if |a| == 1 && b != "" {
      assert (a + b)[1] == b[0] && b[0] in b;
    } else if |a| >= 2 {
      assert (a + b)[..2] == a[..2];
    }
  }

  lemma {:induction false} NoMarkers(b: string, marker: string)
    requires |marker| == 2 && marker[1] !in b
    ensures Replace(b, marker, "") == b
  {
    if |b| >= 2 {
      assert b[1] in b;
    }
    if b != "" {
      NoMarkers(b[1..], marker);
    }
  }

  lemma {:induction false} MarkerAtEndGoes(a: string, marker: string)
    requires |marker| == 2 && marker[0] != marker[1]
    ensures Replace(a + marker, marker, "") == Replace(a, marker, "")
  {
    if a == "" {
      assert a + marker == marker && marker[2..] == "";
    } else {
      assert (a + marker)[1..] == a[1..] + marker;
      MarkerAtEndGoes(a[1..], marker);
      if |a| >= 2 {
        assert (a + marker)[2..] == a[2..] + marker;
        MarkerAtEndGoes(a[2..], marker);
      } else {
        assert (a + marker)[1] == marker[0];
      }
    }
  }

  /** A field name that carries no marker of its own. */
  predicate PlainName(key: string) {
    key != "" && '.' !in key && '*' !in key && ']' !in key
  }

  lemma LeafOfCleaned(a: string, key: string)
    requires PlainName(key)
    ensures !EndsWith(a + "." + key, ".*") && AfterLast(a + "." + key, '.') == key
  {
    var s := a + "." + key;
    assert s[|s| - 1] == key[|key| - 1] && key[|key| - 1] in key;
    assert s[|s| - 2..][1] == s[|s| - 1];
    AfterLastAt(s, '.', |a| + 1);
  }

  /** A path's leaf is the field it ends in, whether or not the field holds a list. */
  lemma LeafIsLastField(prefix: string, key: string)
    requires PlainName(key)
    ensures Leaf(prefix + "." + key) == key && Leaf(prefix + "." + key + "[]") == key
    ensures Leaf(prefix + "." + key + ".*") == key
  {
    var cleaned := Replace(prefix, "[]", "");
    assert prefix + "." + key == prefix + ("." + key) && cleaned + ("." + key) == cleaned + "." + key;
    MarkersGo(prefix, "." + key, "[]");
    MarkerAtEndGoes(prefix + "." + key, "[]");
    LeafOfCleaned(cleaned, key);
    LeafOfWildcard(prefix, key);
  }

  lemma LeafOfWildcard(prefix: string, key: string)
    requires PlainName(key)
    ensures Leaf(prefix + "." + key + ".*") == key
  {
    var tail, cleaned := "." + key + ".*", Replace(prefix, "[]", "");
    MarkersGo(prefix, tail, "[]");
    Joined(prefix, ".", key);
    Joined(prefix, "." + key, ".*");
    Joined(cleaned, ".", key);
    Joined(cleaned, "." + key, ".*");
    LeafOfCleaned(cleaned, key);
    WildcardGoes(cleaned + "." + key);
  }

  lemma WildcardGoes(s: string)
    ensures EndsWith(s + ".*", ".*") && (s + ".*")[..|s + ".*"| - 2] == s
  {
  }

  // ----- floors ---------------------------------------------------------------------------

  predicate Meets(paths: Paths, r: Requirement) {
    r.path in paths && (r.minN.Some? ==> CountOf(paths[r.path]) >= r.minN.value)
  }

  /** The fact was collected whole and every requirement on its paths is met. */
  ghost predicate MeetsFloor(facts: map<string, FactDigest>, f: Floor) {
    && f.fact in facts && !facts[f.fact].partial && !facts[f.fact].collectionError
    && forall r :: r in f.requirements ==> Meets(facts[f.fact].paths, r)
  }

  lemma {:induction false} RequirementsExact(fact: string, paths: Paths, rs: seq<Requirement>)
    ensures RequirementsFailures(fact, paths, rs) == [] <==> forall r :: r in rs ==> Meets(paths, r)
  {
    if rs != [] {
      var rest, last := rs[..|rs| - 1], rs[|rs| - 1];
      assert rs == rest + [last];
      RequirementsExact(fact, paths, rest);
      assert RequirementFailures(fact, paths, last) == [] <==> Meets(paths, last);
      assert forall r :: r in rs <==> r in rest || r == last;
    }
  }

  lemma FloorExact(facts: map<string, FactDigest>, f: Floor)
    ensures FloorFailures(facts, f) == [] <==> MeetsFloor(facts, f)
  {
    if f.fact in facts {
      RequirementsExact(f.fact, facts[f.fact].paths, f.requirements);
    }
  }

  /** No failure is reported exactly when every floor is met. */
  lemma {:induction false} FloorsExact(facts: map<string, FactDigest>, floors: seq<Floor>)
    ensures Failures(facts, floors) == [] <==> forall f :: f in floors ==> MeetsFloor(facts, f)
  {
    if floors != [] {
      var rest, last := floors[..|floors| - 1], floors[|floors| - 1];
      assert floors == rest + [last];
      FloorsExact(facts, rest);
      FloorExact(facts, last);
      assert forall f :: f in floors <==> f in rest || f == last;
    }
  }

  /** The count recorded at a path, zero where there is none. */
  function Recorded(paths: Paths, path: string): nat
    requires path in paths
  {
    if paths[path].n.Some? then paths[path].n.value else 0
  }

  /** What is reported of one requirement: the path is missing, or counts too few, and then how many of how many. */
  ghost predicate Reports(x: Failure, fact: string, paths: Paths, r: Requirement) {
    && x.fact == fact && x.path == r.path
    && if r.path !in paths then x.problem == PathAbsent
       else r.minN.Some? && Recorded(paths, r.path) < r.minN.value
            && x.problem == TooFew(Recorded(paths, r.path), r.minN.value)
  }

  lemma {:induction false} RequirementsReport(fact: string, paths: Paths, rs: seq<Requirement>, x: Failure)
    ensures x in RequirementsFailures(fact, paths, rs) <==> exists r :: r in rs && Reports(x, fact, paths, r)
  {
    if rs != [] {
      var rest, last := rs[..|rs| - 1], rs[|rs| - 1];
      assert rs == rest + [last];
      RequirementsReport(fact, paths, rest, x);
      OneReport(fact, paths, last, x);
    }
  }

  lemma OneReport(fact: string, paths: Paths, r: Requirement, x: Failure)
    ensures x in RequirementFailures(fact, paths, r) <==> Reports(x, fact, paths, r)
  {
  }

  /** What is reported of one floor: the fact is missing, or incomplete, or a requirement on its paths is unmet. */
  ghost predicate ReportsFloor(x: Failure, facts: map<string, FactDigest>, f: Floor) {
    if f.fact !in facts then x == Failure(f.fact, f.fact, FactAbsent)
    else
      || (x == Failure(f.fact, f.fact, Incomplete) && (facts[f.fact].partial || facts[f.fact].collectionError))
      || exists r :: r in f.requirements && Reports(x, f.fact, facts[f.fact].paths, r)
  }

  /** A failure is listed exactly when some floor calls for it, and says why. */
  lemma {:induction false} FailuresExact(facts: map<string, FactDigest>, floors: seq<Floor>, x: Failure)
    ensures x in Failures(facts, floors) <==> exists f :: f in floors && ReportsFloor(x, facts, f)
  {
    if floors != [] {
      var rest, last := floors[..|floors| - 1], floors[|floors| - 1];
      assert floors == rest + [last];
      FailuresExact(facts, rest, x);
      OneFloor(facts, last, x);
    }
  }

  lemma OneFloor(facts: map<string, FactDigest>, f: Floor, x: Failure)
    ensures x in FloorFailures(facts, f) <==> ReportsFloor(x, facts, f)
  {
    if f.fact in facts {
      RequirementsReport(f.fact, facts[f.fact].paths, f.requirements, x);
    }
  }

  /** The visits a fact record gives rise to, value and meta together. */
  ghost function RecordVisits(c: Lens, key: string, r: FactRecord): set<Visit> {
    Visits(c, r.value, key) + Visits(c, MetaValue(r.meta), key + ".@meta")
  }

  lemma RecordPathsAccount(c: Lens, key: string, r: FactRecord)
    ensures Accounts(c, map[], RecordVisits(c, key, r), RecordPaths(c, key, r))
  {
    var m := Record(c, map[], r.value, key);
    RecordAccounts(c, map[], r.value, key);
    RecordAccounts(c, m, MetaValue(r.meta), key + ".@meta");
    AccountsJoin(c, map[], Visits(c, r.value, key), m, Visits(c, MetaValue(r.meta), key + ".@meta"),
                 RecordPaths(c, key, r));
  }

  /** A list of at least `n` elements occurs at the path. */
  ghost predicate HoldsList(vs: set<Visit>, q: string, n: int) {
    exists x :: x in vs && x.path == q && x.node.Arr? && |x.node.items| >= n
  }

  /** A list or mapping of at least `n` elements occurs at the path. */
  ghost predicate HoldsMany(vs: set<Visit>, q: string, n: int) {
    exists x :: x in vs && x.path == q && !x.node.IsScalar() && SizeOf(x.node) >= n
  }

  /**
   When the floors hold of a bundle's digest, every floored fact was collected, complete and free of collection
   errors.
   */
  lemma FloorsMeanCollected(c: Lens, b: Bundle, floors: seq<Floor>, f: Floor)
    requires Failures(BodyOf(c, b).facts, floors) == [] && f in floors
    ensures f.fact in b.facts && !b.facts[f.fact].partial && !CollectionError(b.facts[f.fact].meta)
  {
    FloorsExact(BodyOf(c, b).facts, floors);
    assert MeetsFloor(BodyOf(c, b).facts, f);
  }

  lemma RecordPathsCount(c: Lens, key: string, r: FactRecord, q: string)
    ensures CountsFrom(None, SizesAt(RecordVisits(c, key, r), q), CountAt(RecordPaths(c, key, r), q))
  {
    var m := Record(c, map[], r.value, key);
    RecordCounts(c, map[], r.value, key, q);
    RecordCounts(c, m, MetaValue(r.meta), key + ".@meta", q);
    SizesJoin(Visits(c, r.value, key), Visits(c, MetaValue(r.meta), key + ".@meta"), q, None, CountAt(m, q),
              CountAt(RecordPaths(c, key, r), q));
  }

  /**
   Floors mean evidence: every floored path occurs in its fact, and one floored above zero holds a list that long, or,
   where keys are content, possibly a mapping that large.
   */
  lemma FloorsMeanEvidence(c: Lens, b: Bundle, floors: seq<Floor>, f: Floor, r: Requirement)
    requires Failures(BodyOf(c, b).facts, floors) == [] && f in floors && r in f.requirements
    ensures f.fact in b.facts && r.path in PathsOf(RecordVisits(c, f.fact, b.facts[f.fact]))
    ensures r.minN.Some? && r.minN.value > 0 ==>
              var vs := RecordVisits(c, f.fact, b.facts[f.fact]);
              if r.path in c.keyspaces then HoldsMany(vs, r.path, r.minN.value) else HoldsList(vs, r.path, r.minN.value)
  {
    var facts := BodyOf(c, b).facts;
    FloorsExact(facts, floors);
    assert MeetsFloor(facts, f) && Meets(facts[f.fact].paths, r);
    var vs := RecordVisits(c, f.fact, b.facts[f.fact]);
    RecordPathsAccount(c, f.fact, b.facts[f.fact]);
    RecordPathsCount(c, f.fact, b.facts[f.fact], r.path);
    if r.minN.Some? && r.minN.value > 0 {
      var n := CountAt(facts[f.fact].paths, r.path).value;
      assert n in SizesAt(vs, r.path);
      assert r.path !in c.keyspaces ==> n in ListsAt(vs, r.path);
    }
  }

  // ----- the three legs ----------------------------------------------------------------------

  lemma DisjointSizes<T>(a: set<T>, b: set<T>, c: set<T>)
    requires a !! b && a !! c && b !! c
    ensures |a + b + c| == |a| + |b| + |c|
  {
  }

  /** Each read key is filed exactly once: as known, as a hard failure, or for review. */
  lemma ReadsPartition(readKeys: Reads, known: set<string>, carried: set<string>)
    ensures readKeys.Keys * known + Unread(readKeys, known, carried) + Untried(readKeys, known, carried)
        == readKeys.Keys
    ensures |readKeys.Keys * known| + |Unread(readKeys, known, carried)| + |Untried(readKeys, known, carried)|
        == |readKeys.Keys|
  {
    var seen, unread, untried := readKeys.Keys * known, Unread(readKeys, known, carried),
        Untried(readKeys, known, carried);
    DisjointSizes(seen, unread, untried);
    assert seen + unread + untried == readKeys.Keys;
  }

  /** A larger corpus has every path of the smaller one. */
  ghost predicate Enlarges(small: map<string, FactDigest>, large: map<string, FactDigest>) {
    forall k, p :: k in small && p in small[k].paths ==> k in large && p in large[k].paths
  }

  /** Enlarging the fixture corpus never creates a hard failure. */
  lemma MoreFixturesNeverFail(lab: map<string, FactDigest>, small: map<string, FactDigest>,
                              large: map<string, FactDigest>,
                              readKeys: Reads)
    requires Enlarges(small, large)
    ensures Unread(readKeys, KnownKeys(lab, large), lab.Keys) <= Unread(readKeys, KnownKeys(lab, small), lab.Keys)
  {
    forall key | key in LeafKeys(small) ensures key in LeafKeys(large) {
      var k, p :| k in small && p in small[k].paths && Leaf(p) == key;
      assert k in large && p in large[k].paths;
    }
  }

  /** The lab carries a fact some reader of the key reaches for. */
  ghost predicate Carried(lab: map<string, FactDigest>, readKeys: Reads, key: string) {
    key in readKeys && exists fact :: fact in readKeys[key] && fact in lab
  }

  /**
   The defect the comparison exists for: a key nothing emits, read off a fact the lab carried, is reported and fails the
   run, and no other key is. One read only off facts the lab did not carry is left for review.
   */
  lemma UnreadFails(lab: map<string, FactDigest>, fixtures: map<string, FactDigest>, readKeys: Reads,
                    floors: seq<Floor>, key: string)
    ensures var r := ReportOf(lab, fixtures, readKeys, floors);
            var emitted := Emitted(lab, key) || Emitted(fixtures, key);
            && (key in r.unreadable <==> key in readKeys && !emitted && Carried(lab, readKeys, key))
            && (key in r.unexercised <==> key in readKeys && !emitted && !Carried(lab, readKeys, key))
            && (key in r.unreadable ==> !r.ok)
  {
    KnownExact(lab, fixtures);
    LegsExact(readKeys, KnownKeys(lab, fixtures), lab.Keys);
    if key in readKeys {
      assert ReadOff(readKeys, key, lab.Keys) <==> Carried(lab, readKeys, key);
    }
  }

  /** The run is clean exactly when every floor is met and every key read off a carried fact is emitted somewhere. */
  lemma CleanExact(lab: map<string, FactDigest>, fixtures: map<string, FactDigest>, readKeys: Reads, floors: seq<Floor>)
    ensures ReportOf(lab, fixtures, readKeys, floors).ok <==>
            && (forall f :: f in floors ==> MeetsFloor(lab, f))
            && forall key :: Carried(lab, readKeys, key) ==> Emitted(lab, key) || Emitted(fixtures, key)
  {
    FloorsExact(lab, floors);
    var unreadable := ReportOf(lab, fixtures, readKeys, floors).unreadable;
    forall key ensures key in unreadable <==>
                       Carried(lab, readKeys, key) && !Emitted(lab, key) && !Emitted(fixtures, key) {
      UnreadFails(lab, fixtures, readKeys, floors, key);
    }
    assert unreadable == {} <==> forall key :: key !in unreadable;
  }

  /** Some fact of the digest has the path. */
  ghost predicate HasPath(facts: map<string, FactDigest>, path: string) {
    exists fact :: fact in facts && path in facts[fact].paths
  }

  /** Up to their first dot both names are the same. */
  ghost predicate SameArea(a: string, b: string) {
    BeforeFirst(a, '.') == BeforeFirst(b, '.')
  }

  /** Left for review: paths only the lab has, and paths only the fixtures have in areas the lab has facts of. */
  lemma ReviewExact(lab: map<string, FactDigest>, fixtures: map<string, FactDigest>, readKeys: Reads,
                    floors: seq<Floor>, path: string)
    ensures var r := ReportOf(lab, fixtures, readKeys, floors);
            && (path in r.onlyInLab <==> HasPath(lab, path) && !HasPath(fixtures, path))
            && (path in r.onlyInFixtures <==>
                HasPath(fixtures, path) && !HasPath(lab, path) && exists fact :: fact in lab && SameArea(fact, path))
  {
    assert path in AllPaths(lab) <==> HasPath(lab, path);
    assert path in AllPaths(fixtures) <==> HasPath(fixtures, path);
    var prefixes := set f | f in lab :: BeforeFirst(f, '.');
    assert BeforeFirst(path, '.') in prefixes <==> exists fact :: fact in lab && SameArea(fact, path);
  }

  /** A key some lab bundle really holds as a field never fails the run. */
  lemma HeldFieldNeverFails(c: Lens, b: Bundle, fixtures: map<string, FactDigest>, readKeys: Reads,
                            fact: string, prefix: string, key: string)
    requires fact in b.facts && key in readKeys && PlainName(key)
    requires prefix + "." + key in PathsOf(RecordVisits(c, fact, b.facts[fact]))
    ensures key !in Unread(readKeys, KnownKeys(BodyOf(c, b).facts, fixtures), BodyOf(c, b).facts.Keys)
  {
    RecordPathsAccount(c, fact, b.facts[fact]);
    LeafIsLastField(prefix, key);
    var facts := BodyOf(c, b).facts;
    assert prefix + "." + key in facts[fact].paths;
    assert key in LeafKeys(facts);
  }
}
