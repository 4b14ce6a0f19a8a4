/** Vendor support of a release, judged as of a date, and the two checks that rest on it. */
module Eol {
  import opened Text
  import opened Contract

  /** Dates are counted in days. */
  type Date = int

  /** `eol: false`, a date, or something that is neither. */
  datatype EndDate = NoEnd | Ends(on: Date) | Unusable

  /** One support cycle of the dataset. */
  datatype Cycle = Cycle(name: string, eol: EndDate, extended: Option<Date>)

  const PRODUCT_FILES := map[
    "redhat" := "rhel.json", "rhel" := "rhel.json", "rocky" := "rocky-linux.json", "ubuntu" := "ubuntu.json",
    "debian" := "debian.json", "windows" := "windows.json", "windows-server" := "windows-server.json",
    "office" := "office.json", "chrome" := "chrome.json", "firefox" := "firefox.json",
    "libreoffice" := "libreoffice.json", "oracle-jdk" := "oracle-jdk.json" ]

  /** A dataset: product to file name, and file name to cycles. */
  datatype Dataset = Dataset(products: map<string, string>, files: map<string, seq<Cycle>>)

  /** The dataset of a deployment that has these files. */
  function Vendored(files: map<string, seq<Cycle>>): Dataset {
    Dataset(PRODUCT_FILES, files)
  }

  function Key(s: string): string {
    Lower(Strip(s))
  }

  function First(cycles: seq<Cycle>, test: Cycle -> bool): Option<Cycle> {
    if cycles == [] then None
    else if test(cycles[0]) then Some(cycles[0])
    else First(cycles[1..], test)
  }

  function All(cycles: seq<Cycle>, test: Cycle -> bool): seq<Cycle> {
    if cycles == [] then []
    else (if test(cycles[0]) then [cycles[0]] else []) + All(cycles[1..], test)
  }

  function Named(name: string): Cycle -> bool {
    (c: Cycle) => Key(c.name) == name
  }

  function EditionOf(name: string): Cycle -> bool {
    (c: Cycle) => name + "-" <= Key(c.name)
  }

  datatype Choice = Chosen(cycle: Cycle) | NoMatch | Ambiguous(among: seq<Cycle>)

  /** The record a release stands for: an exact name, else its major version, else its only edition. */
  function Choose(cycles: seq<Cycle>, release: string): Choice {
    ChooseNamed(cycles, Key(release))
  }

  function ChooseNamed(cycles: seq<Cycle>, wanted: string): Choice {
    var exact, major := First(cycles, Named(wanted)), First(cycles, Named(BeforeFirst(wanted, '.')));
    if exact.Some? then Chosen(exact.value)
    else if major.Some? then Chosen(major.value)
    else
      var editions := All(cycles, EditionOf(wanted));
      if |editions| == 1 then Chosen(editions[0])
      else if |editions| > 1 then Ambiguous(editions)
      else NoMatch
  }

  datatype Support = Support(cycle: string, eol: Option<Date>, extended: Option<Date>, supported: bool,
                             inExtended: bool, unknown: bool)

  function UnknownSupport(release: string): Support {
    Support(release, None, None, false, false, true)
  }

  /** What a chosen record says as of a date. */
  function Judged(c: Cycle, asOf: Date): Support {
    match c.eol
    case NoEnd => Support(c.name, None, None, true, false, false)
    case Unusable => UnknownSupport(c.name)
    case Ends(on) =>
      var mainstream := asOf <= on;
      var extended := c.extended.Some? && asOf <= c.extended.value;
      Support(c.name, Some(on), c.extended, mainstream, !mainstream && extended, false)
  }

  /** What a choice says as of a date; nothing chosen is unknown. */
  function SupportOf(choice: Choice, release: string, asOf: Date): Support {
    match choice
    case Chosen(c) => Judged(c, asOf)
    case _ => UnknownSupport(release)
  }

  /** The cycles on file for a product: none for a product outside the dataset, and a missing file raises. */
  function CyclesFor(data: Dataset, product: string): Result<seq<Cycle>, string> {
    CyclesFiled(data, Key(product))
  }

  function CyclesFiled(data: Dataset, key: string): Result<seq<Cycle>, string> {
    if key !in data.products then Ok([])
    else if data.products[key] !in data.files then Err("EOL data missing")
    else Ok(data.files[data.products[key]])
  }

  /** `lookup`. */
  function LookUp(data: Dataset, product: string, release: string, asOf: Date): Result<Support, string> {
    match CyclesFor(data, product)
    case Err(e) => Err(e)
    case Ok(cycles) => Ok(SupportOf(Choose(cycles, release), release, asOf))
  }

  // ----- ism-1501 -------------------------------------------------------------------------

  /** The release a host reports; `derived` is the cycle worked out from Windows registry values. */
  datatype Release = Release(product: string, cycle: string, derived: string)

  function CycleOf(r: Release): string {
    if (r.product == "windows" || r.product == "windows-server") && r.cycle == "" then r.derived else r.cycle
  }

  const OS_EVIDENCE := ["assessed_as_of", "cycle", "dataset", "eol", "extended_support", "in_extended_support",
                        "observed", "product", "supported"]

  /** The verdict on a release whose support has been looked up. */
  function OsVerdict(s: Support, extendedCounts: bool): CheckResult {
    if s.unknown then UnassessedFor(UnsupportedPlatform, OS_EVIDENCE)
    else if s.supported || (s.inExtended && extendedCounts) then CheckResult(Satisfied, Some(Proxy), None, OS_EVIDENCE)
    else CheckResult(NotSatisfied, Some(Proxy), None, OS_EVIDENCE)
  }

  function VerdictOn(data: Dataset, product: string, cycle: string, asOf: Date,
                     extendedCounts: bool): Result<CheckResult, string> {
    if product == "" || cycle == "" then Ok(UnassessedFor(UnsupportedPlatform, ["observed"]))
    else match LookUp(data, product, cycle, asOf)
         case Err(e) => Err(e)
         case Ok(s) => Ok(OsVerdict(s, extendedCounts))
  }

  /** `vendor_supported`. */
  function VendorSupported(data: Dataset, fact: Option<Release>, asOf: Date,
                           extendedCounts: bool): Result<CheckResult, string> {
    if fact.None? then Ok(UnassessedFor(CollectionError, []))
    else VerdictOn(data, fact.value.product, CycleOf(fact.value), asOf, extendedCounts)
  }

  // ----- ism-1704 ---------------------------------------------------------------------------

  datatype App = App(name: string, version: string)

  /** How installed names are read: those known to be dead, the product of the others, and its cycle. */
  datatype Reading = Reading(isDead: string -> bool, product: string -> string,
                             cycle: (string, string, string) -> string)

  datatype Group = Unsupported | Supported | Unmapped

  /** Where one application is filed; a missing dataset file raises. */
  function GroupOf(data: Dataset, reading: Reading, app: App, asOf: Date, extendedCounts: bool): Result<Group, string> {
    if reading.isDead(app.name) then Ok(Unsupported)
    else if reading.product(app.name) == "" then Ok(Unmapped)
    else
      var product := reading.product(app.name);
      match LookUp(data, product, reading.cycle(product, app.name, app.version), asOf)
      case Err(e) => Err(e)
      case Ok(s) => Ok(GroupBySupport(s, extendedCounts))
  }

  /** Where an application is filed whose support has been looked up. */
  function GroupBySupport(s: Support, extendedCounts: bool): Group {
    if s.unknown then Unmapped
    else if s.supported || (extendedCounts && s.inExtended) then Supported
    else Unsupported
  }

  /** The applications of a list that belong to a group. */
  function InGroup(apps: seq<App>, group: App -> Result<Group, string>, g: Group): seq<App> {
    if apps == [] then []
    else InGroup(apps[..|apps| - 1], group, g) + if group(apps[|apps| - 1]) == Ok(g) then [apps[|apps| - 1]] else []
  }

  datatype Inventory = Inventory(unsupported: seq<App>, supported: seq<App>, unmapped: seq<App>)

  function InventoryOf(apps: seq<App>, group: App -> Result<Group, string>): Inventory {
    Inventory(InGroup(apps, group, Unsupported), InGroup(apps, group, Supported), InGroup(apps, group, Unmapped))
  }

  /** An inventory with one more application, which goes into one list. */
  function Add(i: Inventory, a: App, g: Group): Inventory {
    match g
    case Unsupported => i.(unsupported := i.unsupported + [a])
    case Supported => i.(supported := i.supported + [a])
    case Unmapped => i.(unmapped := i.unmapped + [a])
  }

  lemma InventoryNext(rest: seq<App>, a: App, group: App -> Result<Group, string>)
    requires group(a).Ok?
    ensures InventoryOf(rest + [a], group) == Add(InventoryOf(rest, group), a, group(a).value)
  {
    assert (rest + [a])[..|rest|] == rest;
  }

  /** The classification loop of `unsupported_applications_removed`. */
  method Classify(apps: seq<App>, group: App -> Result<Group, string>) returns (r: Result<Inventory, string>)
    ensures r.Ok? <==> forall a :: a in apps ==> group(a).Ok?
    ensures r.Ok? ==> r.value == InventoryOf(apps, group)
  {
    var unsupported, supported, unmapped := [], [], [];
    for i := 0 to |apps|
      invariant forall a :: a in apps[..i] ==> group(a).Ok?
      invariant Inventory(unsupported, supported, unmapped) == InventoryOf(apps[..i], group)
    {
      assert apps[..i + 1] == apps[..i] + [apps[i]];
      var g := group(apps[i]);
      if g.Err? { return Err(g.error); }
      InventoryNext(apps[..i], apps[i], group);
      match g.value
      case Unsupported => unsupported := unsupported + [apps[i]];
      case Supported => supported := supported + [apps[i]];
      case Unmapped => unmapped := unmapped + [apps[i]];
    }
    assert apps[..|apps|] == apps;
    return Ok(Inventory(unsupported, supported, unmapped));
  }

  const APP_EVIDENCE := ["applications_seen", "as_of", "families_not_covered", "supported", "unmapped_count",
                         "unmapped_sample", "unsupported"]

  function AppVerdict(i: Inventory): CheckResult {
    if i.unsupported != [] then CheckResult(NotSatisfied, Some(Partial), None, APP_EVIDENCE)
    else if i.supported == [] then UnassessedFor(PartialPopulation, APP_EVIDENCE)
    else CheckResult(Satisfied, Some(Partial), None, APP_EVIDENCE)
  }

  /** `unsupported_applications_removed`, guards first. */
  method UnsupportedRemoved(data: Dataset, reading: Reading, fact: Option<Fact<seq<App>>>, asOf: Date,
                            extendedCounts: bool)
    returns (r: Result<CheckResult, string>)
    ensures GuardFact(fact) == Some(CollectionError) ==> r == Ok(UnassessedFor(CollectionError, []))
    ensures GuardFact(fact) == Some(PartialPopulation) ==> r == Ok(UnassessedFor(PartialPopulation, ["unloaded_hives"]))
    ensures GuardFact(fact).None? ==>
              var group := a => GroupOf(data, reading, a, asOf, extendedCounts);
              && (r.Ok? <==> forall a :: a in fact.value.value ==> group(a).Ok?)
              && (r.Ok? ==> r.value == AppVerdict(InventoryOf(fact.value.value, group)))
  {
    if fact.None? { return Ok(UnassessedFor(CollectionError, [])); }
    if fact.value.partial { return Ok(UnassessedFor(PartialPopulation, ["unloaded_hives"])); }
    var inventory := Classify(fact.value.value, a => GroupOf(data, reading, a, asOf, extendedCounts));
    if inventory.Err? { return Err(inventory.error); }
    return Ok(AppVerdict(inventory.value));
  }
}
