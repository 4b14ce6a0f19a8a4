/** Reconciling a lab digest with the fixture corpus and with what the evaluators read. */
module Diff {
  import opened Text
  import opened Json
  import opened Digest

  // ----- path names -------------------------------------------------------------------

  predicate EndsWith(s: string, t: string) {
    |t| <= |s| && s[|s| - |t|..] == t
  }

  /** The final key name of a digest path, without list and wildcard markers. */
  function Leaf(path: string): string {
    var cleaned := Replace(path, "[]", "");
    var bare := if EndsWith(cleaned, ".*") then cleaned[..|cleaned| - 2] else cleaned;
    AfterLast(bare, '.')
  }

  /** The leaves of every path of every fact of a digest. */
  function LeafKeys(facts: map<string, FactDigest>): set<string> {
    set k, p | k in facts && p in facts[k].paths :: Leaf(p)
  }

  // ----- floors ------------------------------------------------------------------------

  datatype Requirement = Requirement(path: string, minN: Option<int>)

  datatype Floor = Floor(fact: string, requirements: seq<Requirement>)

  datatype Problem = FactAbsent | Incomplete | PathAbsent | TooFew(n: nat, floor: int)

  datatype Failure = Failure(fact: string, path: string, problem: Problem)

  function CountOf(e: Entry): nat {
    if e.n.Some? then e.n.value else 0
  }

  function RequirementFailures(fact: string, paths: Paths, r: Requirement): seq<Failure> {
    if r.path !in paths then [Failure(fact, r.path, PathAbsent)]
    else if r.minN.Some? && CountOf(paths[r.path]) < r.minN.value
    then [Failure(fact, r.path, TooFew(CountOf(paths[r.path]), r.minN.value))]
    else []
  }

  function RequirementsFailures(fact: string, paths: Paths, rs: seq<Requirement>): seq<Failure> {
    if rs == [] then []
    else RequirementsFailures(fact, paths, rs[..|rs| - 1]) + RequirementFailures(fact, paths, rs[|rs| - 1])
  }

  function FloorFailures(facts: map<string, FactDigest>, f: Floor): seq<Failure> {
    if f.fact !in facts then [Failure(f.fact, f.fact, FactAbsent)]
    else
      (if facts[f.fact].partial || facts[f.fact].collectionError then [Failure(f.fact, f.fact, Incomplete)] else [])
      + RequirementsFailures(f.fact, facts[f.fact].paths, f.requirements)
  }

  function Failures(facts: map<string, FactDigest>, floors: seq<Floor>): seq<Failure> {
    if floors == [] then []
    else Failures(facts, floors[..|floors| - 1]) + FloorFailures(facts, floors[|floors| - 1])
  }

  /** The requirements of one floor, against the paths of its fact. */
  method CheckRequirements(fact: string, paths: Paths, rs: seq<Requirement>) returns (failures: seq<Failure>)
    ensures failures == RequirementsFailures(fact, paths, rs)
  {
    failures := [];
    for j := 0 to |rs|
      invariant failures == RequirementsFailures(fact, paths, rs[..j])
    {
      assert rs[..j + 1][..j] == rs[..j];
      if rs[j].path !in paths {
        failures := failures + [Failure(fact, rs[j].path, PathAbsent)];
        continue;
      }
      var n := CountOf(paths[rs[j].path]);
      if rs[j].minN.Some? && n < rs[j].minN.value {
        failures := failures + [Failure(fact, rs[j].path, TooFew(n, rs[j].minN.value))];
      }
    }
    assert rs[..|rs|] == rs;
  }

  /** `check_floors`; the floors come in the order of their fact keys. */
  method CheckFloors(facts: map<string, FactDigest>, floors: seq<Floor>) returns (failures: seq<Failure>)
    ensures failures == Failures(facts, floors)
  {
    failures := [];
    for i := 0 to |floors|
      invariant failures == Failures(facts, floors[..i])
    {
      assert floors[..i + 1][..i] == floors[..i];
      var f := floors[i];
      if f.fact !in facts {
        failures := failures + [Failure(f.fact, f.fact, FactAbsent)];
        continue;
      }
      var record := facts[f.fact];
      var unmet := CheckRequirements(f.fact, record.paths, f.requirements);
      failures := failures
        + ((if record.partial || record.collectionError then [Failure(f.fact, f.fact, Incomplete)] else []) + unmet);
    }
    assert floors[..|floors|] == floors;
  }

  // ----- the three legs -------------------------------------------------------------------

  /** What the evaluators read: per key name, the fact keys its readers reach for. */
  type Reads = map<string, set<string>>

  datatype Report = Report(
    ok: bool, unreadable: set<string>, unexercised: set<string>, floorFailures: seq<Failure>,
    onlyInLab: set<string>, onlyInFixtures: set<string>)

  function AllPaths(facts: map<string, FactDigest>): set<string> {
    set k, p | k in facts && p in facts[k].paths :: p
  }

  /** The read keys that no digest has although the lab run carried a fact of one of their readers. */
  function Unread(readKeys: Reads, known: set<string>, carried: set<string>): set<string> {
    set k | k in readKeys && k !in known && readKeys[k] * carried != {}
  }

  /** The read keys that no digest has and whose readers' facts the lab run did not carry. */
  function Untried(readKeys: Reads, known: set<string>, carried: set<string>): set<string> {
    set k | k in readKeys && k !in known && readKeys[k] * carried == {}
  }

  /** Some reader of the key reaches for a fact the lab run carried. */
  ghost predicate ReadOff(readKeys: Reads, key: string, carried: set<string>)
    requires key in readKeys
  {
    exists fact :: fact in readKeys[key] && fact in carried
  }

  /** The key is the last field of some path of some fact. */
  ghost predicate Emitted(facts: map<string, FactDigest>, key: string) {
    exists fact, path :: fact in facts && path in facts[fact].paths && Leaf(path) == key
  }

  lemma LegsExact(readKeys: Reads, known: set<string>, carried: set<string>)
    ensures forall k :: k in Unread(readKeys, known, carried) <==>
                        k in readKeys && k !in known && ReadOff(readKeys, k, carried)
    ensures forall k :: k in Untried(readKeys, known, carried) <==>
                        k in readKeys && k !in known && !ReadOff(readKeys, k, carried)
  {
    forall k | k in readKeys ensures readKeys[k] * carried == {} <==> !ReadOff(readKeys, k, carried) {
      if fact :| fact in readKeys[k] && fact in carried {
        assert fact in readKeys[k] * carried;
      }
    }
  }

  lemma KnownExact(lab: map<string, FactDigest>, fixtures: map<string, FactDigest>)
    ensures forall k :: k in KnownKeys(lab, fixtures) <==> Emitted(lab, k) || Emitted(fixtures, k)
  {
  }

  /** The loop over the read keys. */
  method SortReads(readKeys: Reads, known: set<string>, carried: set<string>)
    returns (unreadable: set<string>, unexercised: set<string>)
    ensures unreadable == Unread(readKeys, known, carried)
    ensures unexercised == Untried(readKeys, known, carried)
    ensures forall k :: k in unreadable <==> k in readKeys && k !in known && ReadOff(readKeys, k, carried)
    ensures forall k :: k in unexercised <==> k in readKeys && k !in known && !ReadOff(readKeys, k, carried)
  {
    LegsExact(readKeys, known, carried);
    var todo := readKeys.Keys;
    unreadable, unexercised := {}, {};
    while todo != {}
      invariant todo <= readKeys.Keys
      invariant unreadable == set k | k in readKeys.Keys - todo && k !in known && readKeys[k] * carried != {}
      invariant unexercised == set k | k in readKeys.Keys - todo && k !in known && readKeys[k] * carried == {}
      decreases todo
    {
      var key :| key in todo;
      todo := todo - {key};
      if key in known { continue; }
      if readKeys[key] * carried != {} {
        unreadable := unreadable + {key};
      } else {
        unexercised := unexercised + {key};
      }
    }
  }

  function KnownKeys(lab: map<string, FactDigest>, fixtures: map<string, FactDigest>): set<string> {
    LeafKeys(lab) + LeafKeys(fixtures)
  }

  /** Paths the fixtures have and the lab has not, of the areas the lab has any fact of. */
  function FixtureOnly(lab: map<string, FactDigest>, fixtures: map<string, FactDigest>): set<string> {
    var prefixes := set f | f in lab :: BeforeFirst(f, '.');
    set p | p in AllPaths(fixtures) && p !in AllPaths(lab) && BeforeFirst(p, '.') in prefixes
  }

  /** The report of a comparison: hard failures, keys and paths for review, and unmet floors. */
  function ReportOf(lab: map<string, FactDigest>, fixtures: map<string, FactDigest>, readKeys: Reads,
                    floors: seq<Floor>): Report {
    var known := KnownKeys(lab, fixtures);
    var unreadable, failures := Unread(readKeys, known, lab.Keys), Failures(lab, floors);
    Report(unreadable == {} && failures == [], unreadable, Untried(readKeys, known, lab.Keys), failures,
           AllPaths(lab) - AllPaths(fixtures), FixtureOnly(lab, fixtures))
  }

  /** `reconcile`: sorting each read key, checking the floors, and listing what needs a human. */
  method Reconcile(lab: map<string, FactDigest>, fixtures: map<string, FactDigest>, readKeys: Reads, floors: seq<Floor>)
    returns (r: Report)
    ensures r == ReportOf(lab, fixtures, readKeys, floors)
    ensures forall k :: k in r.unreadable <==>
                        k in readKeys && !Emitted(lab, k) && !Emitted(fixtures, k) && ReadOff(readKeys, k, lab.Keys)
    ensures forall k :: k in r.unexercised <==>
                        k in readKeys && !Emitted(lab, k) && !Emitted(fixtures, k) && !ReadOff(readKeys, k, lab.Keys)
    ensures forall k :: k in r.unreadable ==> !r.ok
  {
    KnownExact(lab, fixtures);
    var unreadable, unexercised := SortReads(readKeys, KnownKeys(lab, fixtures), lab.Keys);
    var failures := CheckFloors(lab, floors);
    return Report(unreadable == {} && failures == [], unreadable, unexercised, failures,
                  AllPaths(lab) - AllPaths(fixtures), FixtureOnly(lab, fixtures));
  }
}
