/** ism-1870: is application control applied to the locations a standard user can write to? */
module AppControl {
  import opened Text
  import opened Contract
  import opened PathRules

  // ----- what the collectors report -----------------------------------------------

  datatype Probe = Probe(access: string, nonAdminWritable: Option<bool>, path: string, role: string)

  datatype PathRule = PathRule(
    name: string, action: string, sid: string,
    paths: seq<string>, exceptions: seq<string>, nonPathConditions: int)
  {
    predicate IsAllow() { Lower(action) == "allow" }
    predicate IsDeny() { Lower(action) == "deny" }
  }

  datatype Collection = Collection(ctype: string, mode: string, ruleCount: int, rules: seq<PathRule>)

  datatype Wdac = Wdac(policyStatus: int, usermodeStatus: int)

  datatype State = State(collections: seq<Collection>, wdac: Wdac)

  datatype Paths = Paths(
    windowsRoot: string, probes: seq<Probe>, windowsWritable: seq<Probe>, truncated: bool)

  const WDAC_ENFORCED := 2

  predicate WdacEnforcing(wdac: Wdac) {
    wdac.policyStatus == WDAC_ENFORCED || wdac.usermodeStatus == WDAC_ENFORCED
  }

  predicate IsEnforced(c: Collection) {
    c.mode == "Enabled" && c.ruleCount > 0
  }

  // ----- principals -------------------------------------------------------------------

  const ADMIN_SIDS := {
    "S-1-5-18", "S-1-5-19", "S-1-5-20", "S-1-5-32-544", "S-1-5-32-549", "S-1-5-32-550", "S-1-5-32-551" }
  const ADMIN_RIDS := { "500", "512", "518", "519", "520" }

  /** An allow-list: a SID it does not recognise counts as a standard user. */
  predicate IsAdminSid(sid: string) {
    var s := Upper(Strip(sid));
    s in ADMIN_SIDS || ("S-1-5-21-" <= s && AfterLast(s, '-') in ADMIN_RIDS)
  }

  // ----- writable locations ------------------------------------------------------------

  predicate IsDenied(p: Probe) {
    p.access == "denied"
  }

  predicate IsWritable(p: Probe) {
    !IsDenied(p) && p.nonAdminWritable == Some(true)
  }

  function Writable(ps: seq<Probe>): seq<Probe> {
    if ps == [] then []
    else Writable(ps[..|ps| - 1]) + if IsWritable(ps[|ps| - 1]) then [ps[|ps| - 1]] else []
  }

  function Denied(ps: seq<Probe>): nat {
    if ps == [] then 0 else Denied(ps[..|ps| - 1]) + if IsDenied(ps[|ps| - 1]) then 1 else 0
  }

  /** `_writable_locations`: what was found, and how many probes could not be read. */
  method WritableLocations(paths: Paths) returns (found: seq<Probe>, unreadable: nat)
    ensures found == Writable(paths.probes + paths.windowsWritable)
    ensures unreadable == Denied(paths.probes + paths.windowsWritable)
  {
    var ps := paths.probes + paths.windowsWritable;
    found, unreadable := [], 0;
    for i := 0 to |ps|
      invariant found == Writable(ps[..i]) && unreadable == Denied(ps[..i])
    {
      assert ps[..i + 1][..i] == ps[..i];
      if IsDenied(ps[i]) {
        unreadable := unreadable + 1;
      } else if ps[i].nonAdminWritable == Some(true) {
        found := found + [ps[i]];
      }
    }
    assert ps[..|ps|] == ps;
  }

  // ----- permitting rules ----------------------------------------------------------------

  /** The three judgements a rule scan asks for: of a pattern against a location, and of a principal. */
  datatype Matcher = Matcher(
    covers: (string, string) -> bool, contains: (string, string) -> bool, isAdmin: string -> bool)

  /** The judgements of a host whose Windows directory is `root`. */
  function Windows(root: string): Matcher {
    Matcher((p, l) => Covers(p, l, root), (p, l) => Contains(p, l, root), sid => IsAdminSid(sid))
  }

  datatype Hit = Hit(
    collection: string, rule: string, sid: string, paths: seq<string>, location: string, role: string)

  datatype RuleName = RuleName(collection: string, name: string)

  datatype Findings = Findings(permitted: seq<Hit>, adminScoped: seq<Hit>, unreadable: seq<RuleName>)

  const NOTHING := Findings([], [], [])

  function Merge(a: Findings, b: Findings): Findings {
    Findings(a.permitted + b.permitted, a.adminScoped + b.adminScoped, a.unreadable + b.unreadable)
  }

  /** The patterns that are not blank text. */
  function NonBlank(ps: seq<string>): seq<string> {
    if ps == [] then [] else (if Strip(ps[0]) != "" then [ps[0]] else []) + NonBlank(ps[1..])
  }

  /** The patterns a rule takes away. */
  function DenyPatterns(r: PathRule): seq<string> {
    if r.IsDeny() then NonBlank(r.paths) else []
  }

  function Gather(rules: seq<PathRule>, patterns: PathRule -> seq<string>): seq<string> {
    if rules == [] then [] else patterns(rules[0]) + Gather(rules[1..], patterns)
  }

  const DENYING: PathRule -> seq<string> := r => DenyPatterns(r)

  /** Every deny pattern of a collection's rules. */
  function Denies(rules: seq<PathRule>): seq<string> {
    Gather(rules, DENYING)
  }

  predicate CoversAny(m: Matcher, patterns: seq<string>, location: string) {
    exists p | p in patterns :: m.covers(p, location)
  }

  predicate ContainsAny(m: Matcher, patterns: seq<string>, location: string) {
    exists p | p in patterns :: m.contains(p, location)
  }

  /** The rule lets something run from the location, and nothing takes the whole location away again. */
  predicate Permits(m: Matcher, r: PathRule, denies: seq<string>, location: string) {
    && CoversAny(m, NonBlank(r.paths), location)
    && !ContainsAny(m, NonBlank(r.exceptions), location)
    && !ContainsAny(m, denies, location)
  }

  function HitOf(ctype: string, r: PathRule, l: Probe): Hit {
    Hit(ctype, r.name, r.sid, NonBlank(r.paths), l.path, l.role)
  }

  /** A hit for each location that passes, in order. */
  function HitsAt(ls: seq<Probe>, passes: Probe -> bool, hit: Probe -> Hit): seq<Hit> {
    if ls == [] then []
    else HitsAt(ls[..|ls| - 1], passes, hit) + if passes(ls[|ls| - 1]) then [hit(ls[|ls| - 1])] else []
  }

  function Permitting(m: Matcher, r: PathRule, denies: seq<string>): Probe -> bool {
    (l: Probe) => Permits(m, r, denies, l.path)
  }

  function HitsOf(ctype: string, r: PathRule): Probe -> Hit {
    (l: Probe) => HitOf(ctype, r, l)
  }

  function LocationHits(m: Matcher, ctype: string, r: PathRule, denies: seq<string>, ls: seq<Probe>): seq<Hit> {
    HitsAt(ls, Permitting(m, r, denies), HitsOf(ctype, r))
  }

  /** How a rule that permits these locations is reported; `aside` files it with the administrators' rules. */
  function Filed(ctype: string, r: PathRule, hits: seq<Hit>, aside: bool): Findings {
    if !r.IsAllow() then NOTHING
    else if NonBlank(r.paths) == [] then
      if r.nonPathConditions == 0 then Findings([], [], [RuleName(ctype, r.name)]) else NOTHING
    else if aside then Findings([], hits, []) else Findings(hits, [], [])
  }

  /** What one rule of a collection contributes. */
  function RuleFindings(m: Matcher, ctype: string, r: PathRule, denies: seq<string>, ls: seq<Probe>,
                        failOnAdmin: bool): Findings
  {
    Filed(ctype, r, LocationHits(m, ctype, r, denies, ls), m.isAdmin(r.sid) && !failOnAdmin)
  }

  function RulesFindings(m: Matcher, ctype: string, rules: seq<PathRule>, denies: seq<string>, ls: seq<Probe>,
                         failOnAdmin: bool): Findings
  {
    if rules == [] then NOTHING
    else
      var n := |rules| - 1;
      Merge(RulesFindings(m, ctype, rules[..n], denies, ls, failOnAdmin),
            RuleFindings(m, ctype, rules[n], denies, ls, failOnAdmin))
  }

  function CollectionFindings(m: Matcher, c: Collection, ls: seq<Probe>, failOnAdmin: bool): Findings {
    RulesFindings(m, c.ctype, c.rules, Denies(c.rules), ls, failOnAdmin)
  }

  function AllFindings(m: Matcher, cs: seq<Collection>, ls: seq<Probe>, failOnAdmin: bool): Findings {
    if cs == [] then NOTHING
    else
      var n := |cs| - 1;
      Merge(AllFindings(m, cs[..n], ls, failOnAdmin), CollectionFindings(m, cs[n], ls, failOnAdmin))
  }

  /** The innermost loop of `_permitting_rules`. */
  method HitsOfRule(m: Matcher, ctype: string, r: PathRule, denies: seq<string>, ls: seq<Probe>)
    returns (hits: seq<Hit>)
    ensures hits == LocationHits(m, ctype, r, denies, ls)
  {
    hits := [];
    for k := 0 to |ls|
      invariant hits == LocationHits(m, ctype, r, denies, ls[..k])
    {
      assert ls[..k + 1][..k] == ls[..k];
      var path := ls[k].path;
      if !CoversAny(m, NonBlank(r.paths), path) { continue; }
      if ContainsAny(m, NonBlank(r.exceptions), path) { continue; }
      if ContainsAny(m, denies, path) { continue; }
      hits := hits + [HitOf(ctype, r, ls[k])];
    }
    assert ls[..|ls|] == ls;
  }

  /** One rule of a collection, added to what was found so far. */
  method AddRule(m: Matcher, ctype: string, r: PathRule, denies: seq<string>, ls: seq<Probe>, failOnAdmin: bool,
                 found: Findings)
    returns (result: Findings)
    ensures result == Merge(found, RuleFindings(m, ctype, r, denies, ls, failOnAdmin))
  {
    MergeAssociates(found, NOTHING, NOTHING);
    if !r.IsAllow() { return found; }
    if NonBlank(r.paths) == [] {
      return if r.nonPathConditions == 0 then found.(unreadable := found.unreadable + [RuleName(ctype, r.name)])
             else found;
    }
    var hits := HitsOfRule(m, ctype, r, denies, ls);
    if m.isAdmin(r.sid) && !failOnAdmin {
      result := found.(adminScoped := found.adminScoped + hits);
    } else {
      result := found.(permitted := found.permitted + hits);
    }
  }

  lemma NextRule(m: Matcher, ctype: string, rules: seq<PathRule>, j: nat, denies: seq<string>, ls: seq<Probe>,
                 failOnAdmin: bool)
    requires j < |rules|
    ensures RulesFindings(m, ctype, rules[..j + 1], denies, ls, failOnAdmin)
         == Merge(RulesFindings(m, ctype, rules[..j], denies, ls, failOnAdmin),
                  RuleFindings(m, ctype, rules[j], denies, ls, failOnAdmin))
  {
    assert rules[..j + 1][..j] == rules[..j];
  }

  /** Every rule of one collection. */
  method AddCollection(m: Matcher, c: Collection, ls: seq<Probe>, failOnAdmin: bool, found: Findings)
    returns (result: Findings)
    ensures result == Merge(found, CollectionFindings(m, c, ls, failOnAdmin))
  {
    var denies := Denies(c.rules);
    result := found;
    for j := 0 to |c.rules|
      invariant result == Merge(found, RulesFindings(m, c.ctype, c.rules[..j], denies, ls, failOnAdmin))
    {
      NextRule(m, c.ctype, c.rules, j, denies, ls, failOnAdmin);
      MergeAssociates(found, RulesFindings(m, c.ctype, c.rules[..j], denies, ls, failOnAdmin),
                      RuleFindings(m, c.ctype, c.rules[j], denies, ls, failOnAdmin));
      result := AddRule(m, c.ctype, c.rules[j], denies, ls, failOnAdmin, result);
    }
    assert c.rules[..|c.rules|] == c.rules;
  }

  /** `_permitting_rules`: collection by collection, rule by rule, location by location. */
  method PermittingRules(m: Matcher, cs: seq<Collection>, ls: seq<Probe>, failOnAdmin: bool)
    returns (found: Findings)
    ensures found == AllFindings(m, cs, ls, failOnAdmin)
  {
    found := NOTHING;
    for i := 0 to |cs|
      invariant found == AllFindings(m, cs[..i], ls, failOnAdmin)
    {
      assert cs[..i + 1][..i] == cs[..i];
      found := AddCollection(m, cs[i], ls, failOnAdmin, found);
    }
    assert cs[..|cs|] == cs;
  }

  lemma MergeAssociates(a: Findings, b: Findings, c: Findings)
    ensures Merge(Merge(a, b), c) == Merge(a, Merge(b, c))
    ensures Merge(a, NOTHING) == a && Merge(NOTHING, a) == a
  {
  }

  // ----- the verdict -------------------------------------------------------------------------

  const BASE_EVIDENCE := [
    "enforced_collections", "non_admin_writable_locations", "profiles_probed", "profiles_total",
    "unenforced_collections", "unreadable_probes", "windows_root", "windows_walk_truncated" ]
  const RULE_EVIDENCE :=
    BASE_EVIDENCE + ["administrator_scoped_allows", "permitted_from_writable_locations", "unparsed_allow_rules"]
  const WDAC_EVIDENCE := ["wdac_enforcing", "wdac_running"]

  function EnforcedOnly(cs: seq<Collection>): (r: seq<Collection>)
    ensures forall c :: c in r <==> c in cs && IsEnforced(c)
  {
    if cs == [] then [] else (if IsEnforced(cs[0]) then [cs[0]] else []) + EnforcedOnly(cs[1..])
  }

  function HostRoot(paths: Paths): string {
    if paths.windowsRoot == "" then "C:\\Windows" else paths.windowsRoot
  }

  /** The verdict, from what was enforced, found writable, left unread and permitted. */
  function Ruling(wdac: bool, enforced: bool, writable: bool, incomplete: bool, unreadable: bool,
                  permitted: bool): CheckResult {
    if wdac then UnassessedFor(InsufficientPrivilege, WDAC_EVIDENCE)
    else if !enforced then CheckResult(NotSatisfied, Some(Partial), None, BASE_EVIDENCE)
    else if !writable then
      if incomplete then UnassessedFor(PartialPopulation, BASE_EVIDENCE)
      else CheckResult(Satisfied, Some(Partial), None, BASE_EVIDENCE)
    else if unreadable && !permitted then UnassessedFor(CollectionError, RULE_EVIDENCE)
    else if permitted then CheckResult(NotSatisfied, Some(Partial), None, RULE_EVIDENCE)
    else if incomplete then UnassessedFor(PartialPopulation, RULE_EVIDENCE)
    else CheckResult(Satisfied, Some(Partial), None, RULE_EVIDENCE)
  }

  /** The verdict once both facts have been read. */
  function Judge(state: State, paths: Paths, failOnAdmin: bool): CheckResult {
    var probes := paths.probes + paths.windowsWritable;
    var enforced, locations := EnforcedOnly(state.collections), Writable(probes);
    var findings := AllFindings(Windows(HostRoot(paths)), enforced, locations, failOnAdmin);
    Ruling(WdacEnforcing(state.wdac), enforced != [], locations != [], paths.truncated || Denied(probes) > 0,
           findings.unreadable != [], findings.permitted != [])
  }

  /** The evaluator, guards first. */
  method CoversUserWritablePaths(state: Option<Fact<State>>, paths: Option<Fact<Paths>>, failOnAdmin: bool)
    returns (result: CheckResult)
    ensures result == if GuardFact(state).Some? then UnassessedFor(GuardFact(state).value, [])
                      else if GuardFact(paths).Some? then UnassessedFor(GuardFact(paths).value, [])
                      else Judge(state.value.value, paths.value.value, failOnAdmin)
  {
    if GuardFact(state).Some? { return UnassessedFor(GuardFact(state).value, []); }
    if GuardFact(paths).Some? { return UnassessedFor(GuardFact(paths).value, []); }
    var s, p := state.value.value, paths.value.value;
    if WdacEnforcing(s.wdac) { return UnassessedFor(InsufficientPrivilege, WDAC_EVIDENCE); }
    var enforced := EnforcedOnly(s.collections);
    var locations, unreadableProbes := WritableLocations(p);
    if enforced == [] { return CheckResult(NotSatisfied, Some(Partial), None, BASE_EVIDENCE); }
    var incomplete := p.truncated || unreadableProbes > 0;
    if locations == [] {
      return if incomplete then UnassessedFor(PartialPopulation, BASE_EVIDENCE)
             else CheckResult(Satisfied, Some(Partial), None, BASE_EVIDENCE);
    }
    var found := PermittingRules(Windows(HostRoot(p)), enforced, locations, failOnAdmin);
    if found.unreadable != [] && found.permitted == [] { return UnassessedFor(CollectionError, RULE_EVIDENCE); }
    if found.permitted != [] { return CheckResult(NotSatisfied, Some(Partial), None, RULE_EVIDENCE); }
    if incomplete { return UnassessedFor(PartialPopulation, RULE_EVIDENCE); }
    return CheckResult(Satisfied, Some(Partial), None, RULE_EVIDENCE);
  }
}
