/** Support only ages: what a later date can and cannot change. */
module EolTheorems {
  import opened Text
  import opened Blanks
  import opened Lists
  import opened Contract
  import opened Eol

  // ----- the record chosen -----------------------------------------------------------

  /** The first record that passes, if any does. */
  lemma {:induction false} FirstExact(cycles: seq<Cycle>, test: Cycle -> bool)
    ensures First(cycles, test).None? ==> forall c :: c in cycles ==> !test(c)
    ensures First(cycles, test).Some? ==> First(cycles, test).value in cycles && test(First(cycles, test).value)
    ensures forall i :: 0 <= i < |cycles| && test(cycles[i]) && (forall j :: 0 <= j < i ==> !test(cycles[j])) ==>
              First(cycles, test) == Some(cycles[i])
  {
    if cycles != [] {
      FirstExact(cycles[1..], test);
      assert cycles == [cycles[0]] + cycles[1..];
    }
  }

  lemma {:induction false} AllExact(cycles: seq<Cycle>, test: Cycle -> bool)
    ensures forall c :: c in All(cycles, test) <==> c in cycles && test(c)
  {
    if cycles != [] {
      AllExact(cycles[1..], test);
      assert cycles == [cycles[0]] + cycles[1..];
    }
  }

  /** An edition is never guessed: without an exact or major match, only a single candidate is taken. */
  lemma EditionsAreNotGuessed(cycles: seq<Cycle>, release: string)
    requires forall c :: c in cycles ==> Key(c.name) != Key(release) && Key(c.name) != BeforeFirst(Key(release), '.')
    ensures var editions := All(cycles, EditionOf(Key(release)));
            && Choose(cycles, release) == (if |editions| == 1 then Chosen(editions[0])
                                           else if |editions| > 1 then Ambiguous(editions) else NoMatch)
            && (|editions| > 1 ==> forall asOf :: SupportOf(Choose(cycles, release), release, asOf)
                                                  == UnknownSupport(release))
            && forall c :: c in editions <==> c in cycles && Key(release) + "-" <= Key(c.name)
  {
    FirstExact(cycles, Named(Key(release)));
    FirstExact(cycles, Named(BeforeFirst(Key(release), '.')));
    AllExact(cycles, EditionOf(Key(release)));
  }

  /**
   An exact name beats the major version, either beats the editions, and of several records of one name the first
   is taken.
   */
  lemma ExactNameWins(cycles: seq<Cycle>, release: string, i: nat)
    requires i < |cycles|
    ensures Key(cycles[i].name) == Key(release) && (forall j :: 0 <= j < i ==> Key(cycles[j].name) != Key(release)) ==>
              Choose(cycles, release) == Chosen(cycles[i])
    ensures (forall c :: c in cycles ==> Key(c.name) != Key(release))
            && Key(cycles[i].name) == BeforeFirst(Key(release), '.')
                && (forall j :: 0 <= j < i ==> Key(cycles[j].name) != BeforeFirst(Key(release), '.')) ==>
              Choose(cycles, release) == Chosen(cycles[i])
  {
    FirstExact(cycles, Named(Key(release)));
    FirstExact(cycles, Named(BeforeFirst(Key(release), '.')));
  }

  lemma KeySpelled(p: string, q: string)
    requires Lower(p) == Lower(q)
    ensures Key(p) == Key(q)
  {
    LowerAlike(p, q);
    StripUnder(LowerChar, p, q);
    LowerAlike(Strip(p), Strip(q));
  }

  /** Names are looked up without regard to case and outer blanks. */
  lemma KeyFolds(p: string, a: string, q: string, b: string)
    requires Lower(p) == Lower(q) && forall c :: c in a + b ==> IsSpace(c)
    ensures Key(a + q + b) == Key(p)
  {
    KeySpelled(p, q);
    StripOuter(a, q, b);
  }

  /** So a product and a release select the same record however they are spelled. */
  lemma SpellingSelects(data: Dataset, product: string, release: string, other: string, spelled: string)
    requires Key(other) == Key(product) && Key(spelled) == Key(release)
    ensures Selected(data, other, spelled) == Selected(data, product, release)
  {
    SelectedByKey(data, product, release, Key(product), Key(release));
    SelectedByKey(data, other, spelled, Key(other), Key(spelled));
  }

  function SelectedNamed(data: Dataset, key: string, wanted: string): Option<Cycle> {
    match CyclesFiled(data, key)
    case Err(_) => None
    case Ok(cycles) => if ChooseNamed(cycles, wanted).Chosen? then Some(ChooseNamed(cycles, wanted).cycle) else None
  }

  lemma SelectedByKey(data: Dataset, product: string, release: string, key: string, wanted: string)
    requires key == Key(product) && wanted == Key(release)
    ensures Selected(data, product, release) == SelectedNamed(data, key, wanted)
  {
  }

  // ----- support by dates ---------------------------------------------------------------

  /** The record on file a release of a product is judged by, if one is selected. */
  function Selected(data: Dataset, product: string, release: string): Option<Cycle> {
    match CyclesFor(data, product)
    case Err(_) => None
    case Ok(cycles) => if Choose(cycles, release).Chosen? then Some(Choose(cycles, release).cycle) else None
  }

  /** The vendor still supports the release: no end is set, or it has not passed. */
  ghost predicate InSupport(c: Cycle, asOf: Date) {
    c.eol.NoEnd? || (c.eol.Ends? && asOf <= c.eol.on)
  }

  /** The end has passed, and that of extended support has not. */
  ghost predicate InExtension(c: Cycle, asOf: Date) {
    c.eol.Ends? && c.eol.on < asOf && c.extended.Some? && asOf <= c.extended.value
  }

  /** The end has passed, and nothing that counts goes on after it. */
  ghost predicate HasEnded(c: Cycle, asOf: Date, extendedCounts: bool) {
    c.eol.Ends? && c.eol.on < asOf && !(extendedCounts && InExtension(c, asOf))
  }

  /** A lookup that does not raise tells a record's dates, and whether each has passed. */
  lemma SupportByDates(data: Dataset, product: string, release: string, asOf: Date)
    requires LookUp(data, product, release, asOf).Ok?
    ensures var s, c := LookUp(data, product, release, asOf).value, Selected(data, product, release);
            && (!s.unknown <==> c.Some? && !c.value.eol.Unusable?)
            && (s.supported <==> c.Some? && InSupport(c.value, asOf))
            && (s.inExtended <==> c.Some? && InExtension(c.value, asOf))
            && (!s.unknown ==> s.cycle == c.value.name)
            && (c.Some? && c.value.eol.Ends? ==> s.eol == Some(c.value.eol.on) && s.extended == c.value.extended)
            && (s.eol.Some? ==> c.Some? && c.value.eol == Ends(s.eol.value))
  {
    var c := Selected(data, product, release);
    SelectedIsJudged(data, product, release, asOf);
    if c.Some? { JudgedByDates(c.value, asOf); }
  }

  lemma SelectedIsJudged(data: Dataset, product: string, release: string, asOf: Date)
    requires LookUp(data, product, release, asOf).Ok?
    ensures var s, c := LookUp(data, product, release, asOf).value, Selected(data, product, release);
            s == if c.Some? then Judged(c.value, asOf) else UnknownSupport(release)
  {
    var cycles := CyclesFor(data, product);
    ChoiceIsJudged(Choose(cycles.value, release), release, asOf);
  }

  lemma ChoiceIsJudged(choice: Choice, release: string, asOf: Date)
    ensures SupportOf(choice, release, asOf)
         == if choice.Chosen? then Judged(choice.cycle, asOf) else UnknownSupport(release)
  {
  }

  lemma JudgedByDates(c: Cycle, asOf: Date)
    ensures var s := Judged(c, asOf);
            && (s.unknown <==> c.eol.Unusable?)
            && (s.supported <==> InSupport(c, asOf))
            && (s.inExtended <==> InExtension(c, asOf))
            && (c.eol.Ends? ==> s.eol == Some(c.eol.on) && s.extended == c.extended)
            && (s.eol.Some? ==> c.eol == Ends(s.eol.value))
            && s.cycle == c.name
  {
  }

  /** The cycle a host is on: as reported, and on Windows alone, where none is reported, as worked out. */
  function CycleReported(r: Release): string {
    if r.cycle != "" then r.cycle
    else if r.product in {"windows", "windows-server"} then r.derived
    else ""
  }

  /** The record a host's release is judged by: the product and the cycle must both be known. */
  function RecordOf(data: Dataset, r: Release): Option<Cycle> {
    if r.product == "" || CycleReported(r) == "" then None else Selected(data, r.product, CycleReported(r))
  }

  /** ism-1501 by dates: it fails on a record that has ended, passes on any other usable one, else is not reached. */
  lemma OsVerdictByDates(data: Dataset, fact: Release, asOf: Date, extendedCounts: bool)
    requires VendorSupported(data, Some(fact), asOf, extendedCounts).Ok?
    ensures var status, c := VendorSupported(data, Some(fact), asOf, extendedCounts).value.status, RecordOf(data, fact);
            && (status.NotSatisfied? <==> c.Some? && HasEnded(c.value, asOf, extendedCounts))
            && (status.Satisfied? <==>
                c.Some? && !c.value.eol.Unusable? && !HasEnded(c.value, asOf, extendedCounts))
            && (status.Unassessed? <==> c.None? || c.value.eol.Unusable?)
  {
    CycleIsReported(fact);
    if fact.product != "" && CycleReported(fact) != "" {
      var s := LookUp(data, fact.product, CycleReported(fact), asOf);
      LookedUp(data, fact, asOf, extendedCounts, s);
      SupportByDates(data, fact.product, CycleReported(fact), asOf);
      VerdictBySupport(s.value, RecordOf(data, fact), asOf, extendedCounts);
    }
  }

  lemma CycleIsReported(r: Release)
    ensures CycleOf(r) == CycleReported(r)
  {
  }

  lemma LookedUp(data: Dataset, fact: Release, asOf: Date, extendedCounts: bool, s: Result<Support, string>)
    requires fact.product != "" && CycleReported(fact) != ""
    requires s == LookUp(data, fact.product, CycleReported(fact), asOf)
    ensures VendorSupported(data, Some(fact), asOf, extendedCounts)
         == match s case Err(e) => Err(e) case Ok(support) => Ok(OsVerdict(support, extendedCounts))
  {
    CycleIsReported(fact);
  }

  lemma VerdictBySupport(s: Support, c: Option<Cycle>, asOf: Date, extendedCounts: bool)
    requires !s.unknown <==> c.Some? && !c.value.eol.Unusable?
    requires s.supported <==> c.Some? && InSupport(c.value, asOf)
    requires s.inExtended <==> c.Some? && InExtension(c.value, asOf)
    ensures var status := OsVerdict(s, extendedCounts).status;
            && (status.NotSatisfied? <==> c.Some? && HasEnded(c.value, asOf, extendedCounts))
            && (status.Satisfied? <==>
                c.Some? && !c.value.eol.Unusable? && !HasEnded(c.value, asOf, extendedCounts))
            && (status.Unassessed? <==> c.None? || c.value.eol.Unusable?)
  {
  }

  /** The record an installed application is judged by: it must be read as a product. */
  function RecordOfApp(data: Dataset, reading: Reading, app: App): Option<Cycle> {
    var product := reading.product(app.name);
    if product == "" then None else Selected(data, product, reading.cycle(product, app.name, app.version))
  }

  /** An application is unsupported when it is dead or its record has ended, and unmapped without a usable record. */
  lemma GroupByDates(data: Dataset, reading: Reading, app: App, asOf: Date, extendedCounts: bool)
    requires GroupOf(data, reading, app, asOf, extendedCounts).Ok?
    ensures var g, c := GroupOf(data, reading, app, asOf, extendedCounts).value, RecordOfApp(data, reading, app);
            var ended := c.Some? && HasEnded(c.value, asOf, extendedCounts);
            var known := c.Some? && !c.value.eol.Unusable?;
            && (g.Unsupported? <==> reading.isDead(app.name) || ended)
            && (g.Supported? <==> !reading.isDead(app.name) && known && !ended)
            && (g.Unmapped? <==> !reading.isDead(app.name) && !known)
  {
    var product := reading.product(app.name);
    if !reading.isDead(app.name) && product != "" {
      var release := reading.cycle(product, app.name, app.version);
      var s := LookUp(data, product, release, asOf);
      GroupFiled(data, reading, app, asOf, extendedCounts, s);
      SupportByDates(data, product, release, asOf);
      GroupBySupportDates(s.value, RecordOfApp(data, reading, app), asOf, extendedCounts);
    }
  }

  lemma GroupBySupportDates(s: Support, c: Option<Cycle>, asOf: Date, extendedCounts: bool)
    requires !s.unknown <==> c.Some? && !c.value.eol.Unusable?
    requires s.supported <==> c.Some? && InSupport(c.value, asOf)
    requires s.inExtended <==> c.Some? && InExtension(c.value, asOf)
    ensures var g := GroupBySupport(s, extendedCounts);
            && (g.Unsupported? <==> c.Some? && HasEnded(c.value, asOf, extendedCounts))
            && (g.Unmapped? <==> c.None? || c.value.eol.Unusable?)
  {
  }

  // ----- ageing -----------------------------------------------------------------------

  /** Supported, then extended support, then ended. */
  function Phase(s: Support): nat {
    if s.supported then 2 else if s.inExtended then 1 else 0
  }

  /** The same record, as known as before, in a phase that has not gone back. */
  ghost predicate Aged(s: Support, t: Support) {
    s.cycle == t.cycle && s.eol == t.eol && s.extended == t.extended && s.unknown == t.unknown && Phase(t) <= Phase(s)
  }

  lemma ChoiceAges(choice: Choice, release: string, earlier: Date, later: Date)
    requires earlier <= later
    ensures Aged(SupportOf(choice, release, earlier), SupportOf(choice, release, later))
  {
  }

  /** At a later date the same record is selected, it is as known as before, and its phase has not gone back. */
  lemma {:induction false} SupportOnlyAges(data: Dataset, product: string, release: string, earlier: Date, later: Date)
    requires earlier <= later
    ensures var s, t := LookUp(data, product, release, earlier), LookUp(data, product, release, later);
            if s.Err? then t == s else t.Ok? && Aged(s.value, t.value)
  {
    var cycles := CyclesFor(data, product);
    if cycles.Ok? { ChoiceAges(Choose(cycles.value, release), release, earlier, later); }
  }

  lemma OsVerdictAges(s: Support, t: Support, extendedCounts: bool)
    requires Aged(s, t)
    ensures OsVerdict(s, extendedCounts).status.NotSatisfied? ==> OsVerdict(t, extendedCounts).status.NotSatisfied?
    ensures OsVerdict(s, extendedCounts).status.Unassessed? <==> OsVerdict(t, extendedCounts).status.Unassessed?
  {
  }

  lemma VerdictOnAges(data: Dataset, product: string, cycle: string, earlier: Date, later: Date, extendedCounts: bool)
    requires earlier <= later
    ensures var s, t := VerdictOn(data, product, cycle, earlier, extendedCounts),
        VerdictOn(data, product, cycle, later, extendedCounts);
            && (s.Ok? <==> t.Ok?)
            && (s.Ok? && s.value.status.NotSatisfied? ==> t.value.status.NotSatisfied?)
            && (s.Ok? ==> (s.value.status.Unassessed? <==> t.value.status.Unassessed?))
  {
    SupportOnlyAges(data, product, cycle, earlier, later);
    var s, t := LookUp(data, product, cycle, earlier), LookUp(data, product, cycle, later);
    if s.Ok? { OsVerdictAges(s.value, t.value, extendedCounts); }
  }

  /** A failed ism-1501 verdict stays failed, and one that was never reached is not reached by waiting. */
  lemma OsVerdictOnlyAges(data: Dataset, fact: Option<Release>, earlier: Date, later: Date, extendedCounts: bool)
    requires earlier <= later
    ensures var s, t := VendorSupported(data, fact, earlier, extendedCounts),
        VendorSupported(data, fact, later, extendedCounts);
            && (s.Ok? <==> t.Ok?)
            && (s.Ok? && s.value.status.NotSatisfied? ==> t.value.status.NotSatisfied?)
            && (s.Ok? ==> (s.value.status.Unassessed? <==> t.value.status.Unassessed?))
  {
    if fact.Some? {
      VerdictOnAges(data, fact.value.product, CycleOf(fact.value), earlier, later, extendedCounts);
    }
  }

  /** An unrecognised release never becomes a verdict. */
  lemma UnknownIsNoVerdict(data: Dataset, fact: Release, asOf: Date, extendedCounts: bool)
    requires fact.product != "" && CycleOf(fact) != ""
    requires LookUp(data, fact.product, CycleOf(fact), asOf).Ok?
    ensures LookUp(data, fact.product, CycleOf(fact), asOf).value.unknown <==>
            VendorSupported(data, Some(fact), asOf, extendedCounts).value.status.Unassessed?
  {
  }

  /** Every verdict is one its constructor grants. */
  lemma OsVerdictIsConstructed(s: Support, extendedCounts: bool)
    ensures var r := OsVerdict(s, extendedCounts);
            && (r.status.Satisfied? ==> SatisfiedOn(r.evidence, Proxy) == Ok(r))
            && (r.status.NotSatisfied? ==> NotSatisfiedOn(r.evidence, Proxy) == Ok(r))
            && (r.status.Satisfied? || r.status.NotSatisfied? || r == UnassessedFor(UnsupportedPlatform, r.evidence))
  {
    assert |OS_EVIDENCE| == 9;
  }

  lemma AppVerdictIsConstructed(i: Inventory)
    ensures var r := AppVerdict(i);
            && (r.status.Satisfied? ==> SatisfiedOn(r.evidence, Partial) == Ok(r))
            && (r.status.NotSatisfied? ==> NotSatisfiedOn(r.evidence, Partial) == Ok(r))
            && (r.status.Satisfied? || r.status.NotSatisfied? || r == UnassessedFor(PartialPopulation, r.evidence))
  {
    assert |APP_EVIDENCE| == 7;
  }

  // ----- the dataset as shipped ----------------------------------------------------------

  /** With the shipped product table a lookup raises exactly when the file of a listed product is missing. */
  lemma VendoredLookUp(files: map<string, seq<Cycle>>, product: string, release: string, asOf: Date)
    ensures LookUp(Vendored(files), product, release, asOf).Err? <==>
            Key(product) in PRODUCT_FILES && PRODUCT_FILES[Key(product)] !in files
    ensures Key(product) !in PRODUCT_FILES ==>
            LookUp(Vendored(files), product, release, asOf) == Ok(UnknownSupport(release))
  {
    assert Vendored(files).products == PRODUCT_FILES;
    NothingFiled(release);
  }

  /** A product's file bears its name, but for the two distributions the dataset names otherwise. */
  lemma FilesAreNamed(product: string)
    requires product in PRODUCT_FILES
    ensures PRODUCT_FILES[product] == if product == "redhat" then "rhel.json"
                                      else if product == "rocky" then "rocky-linux.json"
                                      else product + ".json"
  {
  }

  lemma NothingFiled(release: string)
    ensures Choose([], release) == NoMatch
  {
  }

  // ----- applications ------------------------------------------------------------------

  ghost predicate Partitions(i: Inventory, apps: seq<App>) {
    multiset(i.unsupported) + multiset(i.supported) + multiset(i.unmapped) == multiset(apps)
  }

  lemma PartitionGrows(i: Inventory, apps: seq<App>, a: App, g: Group)
    requires Partitions(i, apps)
    ensures Partitions(Add(i, a, g), apps + [a])
  {
    OneOfThree(multiset(i.unsupported), multiset(i.supported), multiset(i.unmapped), a, g.Unsupported?, g.Supported?,
               g.Unmapped?);
    assert multiset(apps + [a]) == multiset(apps) + multiset{a};
    match g
    case Unsupported => assert multiset(Add(i, a, g).unsupported) == multiset(i.unsupported) + multiset{a};
    case Supported => assert multiset(Add(i, a, g).supported) == multiset(i.supported) + multiset{a};
    case Unmapped => assert multiset(Add(i, a, g).unmapped) == multiset(i.unmapped) + multiset{a};
  }

  /** Every application is filed exactly once. */
  lemma {:induction false} InventoryPartitions(apps: seq<App>, group: App -> Result<Group, string>)
    requires forall a :: a in apps ==> group(a).Ok?
    ensures Partitions(InventoryOf(apps, group), apps)
  {
    if apps == [] {
      EmptyPartition(group);
    } else {
      var rest, last := apps[..|apps| - 1], apps[|apps| - 1];
      assert apps == rest + [last];
      InventoryPartitions(rest, group);
      InventoryNext(rest, last, group);
      PartitionGrows(InventoryOf(rest, group), rest, last, group(last).value);
    }
  }

  lemma EmptyPartition(group: App -> Result<Group, string>)
    ensures Partitions(InventoryOf([], group), [])
  {
  }

  /** At a later date an application can only move from supported to unsupported. */
  lemma GroupOnlyAges(data: Dataset, reading: Reading, app: App, earlier: Date, later: Date, extendedCounts: bool)
    requires earlier <= later
    ensures var g, h := GroupOf(data, reading, app, earlier, extendedCounts),
        GroupOf(data, reading, app, later, extendedCounts);
            g == h || (g == Ok(Supported) && h == Ok(Unsupported))
  {
    var product := reading.product(app.name);
    var release := reading.cycle(product, app.name, app.version);
    if !reading.isDead(app.name) && product != "" {
      var s, t := LookUp(data, product, release, earlier), LookUp(data, product, release, later);
      SupportOnlyAges(data, product, release, earlier, later);
      GroupFiled(data, reading, app, earlier, extendedCounts, s);
      GroupFiled(data, reading, app, later, extendedCounts, t);
      if s.Ok? { GroupAges(s.value, t.value, extendedCounts); }
    }
  }

  lemma GroupFiled(data: Dataset, reading: Reading, app: App, asOf: Date, extendedCounts: bool,
                   s: Result<Support, string>)
    requires !reading.isDead(app.name) && reading.product(app.name) != ""
    requires var product := reading.product(app.name);
             s == LookUp(data, product, reading.cycle(product, app.name, app.version), asOf)
    ensures GroupOf(data, reading, app, asOf, extendedCounts)
         == match s case Err(e) => Err(e) case Ok(support) => Ok(GroupBySupport(support, extendedCounts))
  {
  }

  lemma GroupAges(s: Support, t: Support, extendedCounts: bool)
    requires Aged(s, t)
    ensures var g, h := GroupBySupport(s, extendedCounts), GroupBySupport(t, extendedCounts);
            g == h || (g == Supported && h == Unsupported)
  {
  }

  /** So unsupported applications only accumulate, unmapped ones stay, and a failed verdict stays failed. */
  lemma AppVerdictOnlyAges(data: Dataset, reading: Reading, apps: seq<App>, earlier: Date, later: Date,
                           extendedCounts: bool)
    requires earlier <= later
    ensures var g, h := a => GroupOf(data, reading, a, earlier, extendedCounts),
        a => GroupOf(data, reading, a, later, extendedCounts);
            var i, j := InventoryOf(apps, g), InventoryOf(apps, h);
            && (forall a :: a in i.unsupported ==> a in j.unsupported)
            && (forall a :: a in i.unmapped <==> a in j.unmapped)
            && (AppVerdict(i).status.NotSatisfied? ==> AppVerdict(j).status.NotSatisfied?)
            && (AppVerdict(i).status.Unassessed? <==> AppVerdict(j).status.Unassessed?)
  {
    var g, h := a => GroupOf(data, reading, a, earlier, extendedCounts),
        a => GroupOf(data, reading, a, later, extendedCounts);
    forall a ensures g(a) == h(a) || (g(a) == Ok(Supported) && h(a) == Ok(Unsupported)) {
      GroupOnlyAges(data, reading, a, earlier, later, extendedCounts);
    }
    VerdictAges(apps, g, h);
  }

  lemma {:induction false} InGroupExact(apps: seq<App>, group: App -> Result<Group, string>, g: Group)
    ensures forall a :: a in InGroup(apps, group, g) <==> a in apps && group(a) == Ok(g)
  {
    if apps != [] {
      var rest, last := apps[..|apps| - 1], apps[|apps| - 1];
      assert apps == rest + [last];
      InGroupExact(rest, group, g);
    }
  }

  /** Dead, or by a record that has ended. */
  ghost predicate IsUnsupported(data: Dataset, reading: Reading, app: App, asOf: Date, extendedCounts: bool) {
    var c := RecordOfApp(data, reading, app);
    reading.isDead(app.name) || (c.Some? && HasEnded(c.value, asOf, extendedCounts))
  }

  /** A record with a usable end was found. */
  ghost predicate IsMapped(data: Dataset, reading: Reading, app: App) {
    var c := RecordOfApp(data, reading, app);
    c.Some? && !c.value.eol.Unusable?
  }

  /** ism-1704 by dates: one unsupported application fails it, and without one it takes a supported one to pass. */
  lemma AppVerdictByDates(data: Dataset, reading: Reading, apps: seq<App>, asOf: Date, extendedCounts: bool)
    requires forall a :: a in apps ==> GroupOf(data, reading, a, asOf, extendedCounts).Ok?
    ensures var status := AppVerdict(InventoryOf(apps, a => GroupOf(data, reading, a, asOf, extendedCounts))).status;
            var unsupported := exists a :: a in apps && IsUnsupported(data, reading, a, asOf, extendedCounts);
            var mapped := exists a :: a in apps && !reading.isDead(a.name) && IsMapped(data, reading, a);
            && (status.NotSatisfied? <==> unsupported)
            && (status.Satisfied? <==> !unsupported && mapped)
            && (status.Unassessed? <==> !unsupported && !mapped)
  {
    var group := a => GroupOf(data, reading, a, asOf, extendedCounts);
    var i := InventoryOf(apps, group);
    InGroupExact(apps, group, Unsupported);
    InGroupExact(apps, group, Supported);
    NonEmpty(i.unsupported);
    NonEmpty(i.supported);
    forall a | a in apps
      ensures group(a) == Ok(Unsupported) <==> IsUnsupported(data, reading, a, asOf, extendedCounts)
      ensures group(a) == Ok(Supported) <==> !reading.isDead(a.name) && IsMapped(data, reading, a)
                                             && !IsUnsupported(data, reading, a, asOf, extendedCounts)
    {
      GroupByDates(data, reading, a, asOf, extendedCounts);
    }
  }

  lemma VerdictAges(apps: seq<App>, g: App -> Result<Group, string>, h: App -> Result<Group, string>)
    requires forall a :: g(a) == h(a) || (g(a) == Ok(Supported) && h(a) == Ok(Unsupported))
    ensures var i, j := InventoryOf(apps, g), InventoryOf(apps, h);
            && (forall a :: a in i.unsupported ==> a in j.unsupported)
            && (forall a :: a in i.unmapped <==> a in j.unmapped)
            && (AppVerdict(i).status.NotSatisfied? ==> AppVerdict(j).status.NotSatisfied?)
            && (AppVerdict(i).status.Unassessed? <==> AppVerdict(j).status.Unassessed?)
  {
    InGroupExact(apps, g, Unsupported);
    InGroupExact(apps, h, Unsupported);
    InGroupExact(apps, g, Supported);
    InGroupExact(apps, h, Supported);
    InGroupExact(apps, g, Unmapped);
    InGroupExact(apps, h, Unmapped);
    VerdictMoves(InventoryOf(apps, g), InventoryOf(apps, h));
  }

  /** When applications only move from supported to unsupported, so does the verdict only move to failed. */
  lemma VerdictMoves(i: Inventory, j: Inventory)
    requires forall a :: a in i.unsupported ==> a in j.unsupported
    requires forall a :: a in j.supported ==> a in i.supported
    requires forall a :: a in i.supported ==> a in j.supported || a in j.unsupported
    requires forall a :: a in j.unsupported ==> a in i.unsupported || a in i.supported
    ensures AppVerdict(i).status.NotSatisfied? ==> AppVerdict(j).status.NotSatisfied?
    ensures AppVerdict(i).status.Unassessed? <==> AppVerdict(j).status.Unassessed?
  {
    NonEmpty(i.unsupported);
    NonEmpty(i.supported);
    NonEmpty(j.unsupported);
    NonEmpty(j.supported);
  }
}
