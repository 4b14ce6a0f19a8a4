# Compliance pipeline: verified model

A Dafny model of a compliance pipeline that turns collected facts into verdicts, verdicts into
OSCAL 1.1.2 documents, and documents into a report, with the tools around it: the AppLocker
path-rule engine, the redaction filter, the shape digest and its reconciliation, the read-set
analysis, the spreadsheet annex and the end-of-life lookup.

Everything is checked by `dafny verify dfyconfig.toml`. Nothing is executed.

## How it is organised

Each part has a module for what the code does and others for what follows from it.

- `Text`, `Blanks`, `Json`, `Order`, `Lists`: strings, JSON values, sorted keys and lists as the code uses them.
- `Glob`, `PathRules`, `PathTheorems`, `Ancestry`, `OverlapTheorems`, `ExpandTheorems`, `RootTheorems`,
  `VariableTable`: patterns against locations.
- `AppControl`, `AppControlTheorems`, `AppControlCases`, `AdminSids`, `RuleAlgebra`, `OpenPaths`: rules, principals,
  exceptions, denials and the ism-1870 verdict.
- `Redact`, `RedactTheorems`, `RedactTells`, `SidShapes`: the redaction walk, and what its output still tells.
- `Digest`, `DigestTheorems`, `DigestOrder`, `DigestKeys`, `Diff`, `DiffTheorems`: shape digests and their
  reconciliation.
- `Contract`, `Registry`, `Evaluate`, `EvaluateTheorems`: checks, guards, evaluators as arbitrary
  functions that may raise.
- `Oscal`, `Emit`, `Report`, `RoundTrip`, `ReportTheorems`, `CountTheorems`, `Populations`, `PlanTheorems`,
  `FindingTheorems`, `ActionItems`, `Ids`, `SourceTheorems`: documents written and read back.
- `Reads`, `ReadsTheorems`, `ReadsExact`: the visitor over syntax trees, from below and from above.
- `Annex`, `AnnexTheorems`, `AnnexSheet`, `AnnexCells`: columns, rows and the sheet.
- `Eol`, `EolTheorems`: support phases and the two checks that rest on them.

Loops of the code are methods with loops, proved equal to a specification function; the theorems are
about that function. The digest's shared map and the visitor's sets are fields of classes.

## What the proofs found

- `_normalise` is not idempotent: a blank right before the trailing separators survives the first
  round only. `NormaliseIdempotent` gives the exact condition.
- `_covers` says it detects a permission "anywhere within" a location, but it compares the literal
  stem only. A wildcard in mid-path hides what lies beyond it. `CoversAgreesExact` and `PatternCoversExact` say
  exactly which overlaps are seen.
- A statement id gives its control id back only if the control id does not hold `_smt` itself: `StatementExact`.
- A drive root such as `C:\` keeps its separator when normalised, and the prefix test then looks for two. The module
  documentation calls an allow rule for `C:\` the dangerous case; the code makes no hit of it, nor of a writable
  `C:\`. `PlainRulesExact` gives the condition, pair by pair.
- A failure of ism-1870 may rest on a rule whose every path is also denied: the location above is covered, and no deny
  contains all of it. `OpenPathExact` says when a reported location really holds an open path.
- Expansion can leave a variable behind: a Windows directory that is part of the name of `%WINDIR%`, `%REMOVABLE%` or
  `%HOT%` can spell it. Over roots without `%`, `NoVariableLeftExact` is an if-and-only-if.
- In redaction `drop` keeps a scalar that only its shape gives away, so `sid: drop` protects nobody, and
  any key set to `retain` is a way through. `SidProtectionExact` is an if-and-only-if over policies.
- Role SIDs survive truncation by design; only hashing removes every SID, and `SidRemovalExact` says for which policies.
- In a digest the type of a path depends on the order of the walk exactly when different kinds of values are filed
  under it, as `TypesIndependentExact` proves.
- A control whose determinations are all not-applicable gets a row with status `not-applicable`. The
  report does not count that row as determined, counts it under the reason "unknown", and the annex
  files it as Not Assessed.
- `controls-determined` counts every finding, also those of controls outside the baseline. `ControlCountsExact` gives
  the excess; the clean partition, proved in `DeterminedAndUnassessed`, is of the baseline.
- A name is hashed from its parts joined by colons, so a colon inside a check id or a control id can be read as one
  between two parts: `ColonsConfuse`. Names are told apart where no part but the last holds one.
- A row none of whose determinations carries a confidence shows `direct`, stronger than a declared ceiling may allow.
  `DefaultConfidence` says exactly when, and `DirectExample` is a run.

## Model

| member | source | states |
|---|---|---|
| `Glob.MatchConcat` | tools/nobytes_cca/checks/windows/appcontrol_paths.py:156-188 | a concatenated pattern matches exactly the texts that split into a match of each half (both directions) |
| `Glob.LiteralMatch` | tools/nobytes_cca/checks/windows/appcontrol_paths.py:172-175 | a pattern without wildcards matches itself and nothing else |
| `Glob.SingleWildcards` | tools/nobytes_cca/checks/windows/appcontrol_paths.py:168-188 | `*` matches every text, `?` exactly one character and the empty pattern nothing but itself; with the two rows above this determines matching |
| `PathRules.NormaliseText` | tools/nobytes_cca/checks/windows/appcontrol_paths.py:114-124 | the trimming loop computes the normal form of the path |
| `PathTheorems.NormaliseIdempotent` | tools/nobytes_cca/checks/windows/appcontrol_paths.py:121-124 | normalising twice equals normalising once if and only if no blank sits right before the trailing separators |
| `PathTheorems.NormaliseTwiceDiffers` | tools/nobytes_cca/checks/windows/appcontrol_paths.py:121-124 | the whole failing family: `X` followed by a blank and a separator needs two rounds |
| `PathTheorems.SameDirectory` | tools/nobytes_cca/checks/windows/appcontrol_paths.py:115-121 | two spellings that differ only in case and slash direction have one normal form |
| `PathRules.SubstituteEach` | tools/nobytes_cca/checks/windows/appcontrol_paths.py:139-153 | the loop that rebuilds the candidate list per variable computes the ordered fold of substitutions |
| `PathRules.ExpandCandidates` | tools/nobytes_cca/checks/windows/appcontrol_paths.py:127-153 | expansion as one call, empty for the two removable-drive variables |
| `ExpandTheorems.NoVariableLeft` | tools/nobytes_cca/checks/windows/appcontrol_paths.py:139-153 | for a root without `%` that is part of the name of none of `%WINDIR%`, `%REMOVABLE%` and `%HOT%`, no expanded candidate contains any AppLocker variable |
| `RootTheorems.NoVariableLeftExact` | tools/nobytes_cca/checks/windows/appcontrol_paths.py:134-153 | and exactly for those: over all roots without `%`, some pattern is left with a variable if and only if the root is part of one of the three names |
| `RootTheorems.RootSpells` | tools/nobytes_cca/checks/windows/appcontrol_paths.py:139-153 | the failing family: a root inside such a name makes expansion return that very variable |
| `RootTheorems.UncleanRootLeavesVariable` | tools/nobytes_cca/checks/windows/appcontrol_paths.py:134-153 | one input: with root `DIR`, expanding `%WIN%WINDIR%%` gives `%WINDIR%` |
| `ExpandTheorems.ExpandCount` | tools/nobytes_cca/checks/windows/appcontrol_paths.py:127-153 | a pattern expands to zero, one, two or four candidates |
| `ExpandTheorems.ExpandMeaning` | tools/nobytes_cca/checks/windows/appcontrol_paths.py:141-153 | a pattern that starts with one variable expands to exactly the documented directories followed by its rest |
| `VariableTable.VariableMeans` | tools/nobytes_cca/checks/windows/appcontrol_paths.py:134-153 | by name, each of the four variables at the head of a pattern stands for its documented directories on this host, two of them for two |
| `VariableTable.RemovableIsNowhere` | tools/nobytes_cca/checks/windows/appcontrol_paths.py:138-139 | a pattern that mentions removable media stands for no directory |
| `PathTheorems.ContainsExact` | tools/nobytes_cca/checks/windows/appcontrol_paths.py:168-188 | all branches together decide: the pattern names the location or some directory above it |
| `PathTheorems.ContainsClosedDownwards` | tools/nobytes_cca/checks/windows/appcontrol_paths.py:168-188 | a full carve-out of a directory contains everything below it, through every branch |
| `PathTheorems.CarveOutReachesDown` | tools/nobytes_cca/checks/windows/appcontrol_paths.py:160-188 | the same for whole patterns with variables and unnormalised locations |
| `PathTheorems.NarrowerOverlaps` | tools/nobytes_cca/checks/windows/appcontrol_paths.py:203-206 | the narrower-than test exhibits a path inside the location that the pattern governs |
| `PathTheorems.CoversExact` | tools/nobytes_cca/checks/windows/appcontrol_paths.py:191-207 | what `_covers` decides, for every pattern: any overlap up to the end of the literal stem, full containment beyond it |
| `PathTheorems.CoveredHasWitness` | tools/nobytes_cca/checks/windows/appcontrol_paths.py:191-207 | every covered location holds a path that some expansion governs |
| `PathTheorems.CoversParent` | tools/nobytes_cca/checks/windows/appcontrol_paths.py:203-206 | coverage spreads to parents that do not reach past the stem |
| `PathTheorems.WildcardInMidPathIsMissed` | tools/nobytes_cca/checks/windows/appcontrol_paths.py:203-206 | the family for which it does not: `LIT*\T` overlaps `LITx` yet is not seen to cover it |
| `OverlapTheorems.OverlapsExact` | tools/nobytes_cca/checks/windows/appcontrol_paths.py:191-207 | a pattern governs something at or below a location exactly when it contains the location or some beginning of it matches the location with a separator behind |
| `OverlapTheorems.CoversAgreesExact` | tools/nobytes_cca/checks/windows/appcontrol_paths.py:203-206 | exactly which overlaps `_covers` sees: those within the stem and those contained; it agrees with overlapping if and only if within the stem, contained, or not reached |
| `OverlapTheorems.PatternCoversExact` | tools/nobytes_cca/checks/windows/appcontrol_paths.py:191-207 | the same if-and-only-if for whole patterns with all their expansions |
| `OverlapTheorems.MidPathIsMissed` | tools/nobytes_cca/checks/windows/appcontrol_paths.py:191-207 | the missed family on `_covers` itself |
| `OverlapTheorems.MidPathExample` | tools/nobytes_cca/checks/windows/appcontrol_paths.py:191-207 | one input: `C:\U*\T` overlaps `C:\USERS` and does not cover it |
| `PathTheorems.SimpleRulesAreExact` | tools/nobytes_cca/checks/windows/appcontrol_paths.py:168-207 | for `X` or `X\*`, X not ending in a separator: containing is the string relation "X or X plus separator first", covering is that relation either way |
| `Ancestry.PlainRulesExact` | tools/nobytes_cca/checks/windows/appcontrol_paths.py:160-207 | for every rule without wildcard or variable that is not blank, and every location: `_contains` and `_covers` agree with true ancestry if and only if neither path is a root that keeps its separator just above the other, nor the location the directory with fewer separators behind |
| `Ancestry.PlainPatternAgrees` | tools/nobytes_cca/checks/windows/appcontrol_paths.py:160-207 | such a rule agrees with ancestry at every location not itself ending in a separator if and only if its normalised directory does not end in one |
| `Ancestry.SimpleRulesByAncestry` | tools/nobytes_cca/checks/windows/appcontrol_paths.py:168-207 | the same for `X` and `X\*`: contained is what lies in X, and covering fails only from a root just above X |
| `Ancestry.DriveRootRuleIsMissed` | tools/nobytes_cca/checks/windows/appcontrol_paths.py:121-124 | one input: a rule for `C:\` neither contains nor covers `C:\USERS` |
| `Ancestry.DriveRootLocationIsMissed` | tools/nobytes_cca/checks/windows/appcontrol_paths.py:203-206 | one input: a rule for `C:\USERS\*` does not cover the location `C:\` |
| `Ancestry.DriveRootWithStar` | tools/nobytes_cca/checks/windows/appcontrol_paths.py:176-187 | written `C:\*`, the rule does contain all that lies on the drive |
| `PathTheorems.SimpleRulesCoverParents` | tools/nobytes_cca/checks/windows/appcontrol_paths.py:191-207 | so coverage by such a rule is closed towards parents |
| `AppControl.WritableLocations` | tools/nobytes_cca/checks/windows/appcontrol_paths.py:210-224 | the loop returns the writable probes in order and the number of denied ones |
| `AppControl.HitsOfRule` | tools/nobytes_cca/checks/windows/appcontrol_paths.py:265-284 | the innermost loop returns one hit per location the rule permits, in order |
| `AppControl.AddRule` | tools/nobytes_cca/checks/windows/appcontrol_paths.py:240-284 | one rule adds its own findings behind those found before |
| `AppControl.AddCollection` | tools/nobytes_cca/checks/windows/appcontrol_paths.py:238-286 | one collection adds its own findings behind those found before |
| `AppControl.PermittingRules` | tools/nobytes_cca/checks/windows/appcontrol_paths.py:227-286 | the nested loops compute the findings of all collections |
| `AppControlTheorems.HitsExact` | tools/nobytes_cca/checks/windows/appcontrol_paths.py:227-286 | a hit is listed as permitted, or as administrator-scoped, exactly when an allow rule of a collection covers the location and no exception or deny of that collection contains it |
| `RuleAlgebra.DeniesExact` | tools/nobytes_cca/checks/windows/appcontrol_paths.py:255-263 | a pattern denies in a collection exactly when a deny rule of that collection lists it |
| `AppControlTheorems.UnreadableExact` | tools/nobytes_cca/checks/windows/appcontrol_paths.py:244-250 | nothing is listed as unreadable exactly when every allow rule carries some condition |
| `RuleAlgebra.DenyOnlyRemoves` | tools/nobytes_cca/checks/windows/appcontrol_paths.py:255-272 | over the whole policy: a deny rule added anywhere only removes hits, with multiplicity, and the findings of every other collection are as before |
| `RuleAlgebra.ExceptionOnlyRemoves` | tools/nobytes_cca/checks/windows/appcontrol_paths.py:254-270 | over the whole policy: an exception only removes hits, and the findings of every other collection are as before |
| `RuleAlgebra.AllowOnlyAdds` | tools/nobytes_cca/checks/windows/appcontrol_paths.py:238-284 | over the whole policy: a rule that denies nothing, put anywhere, adds exactly its own findings as multisets |
| `RuleAlgebra.LocationOnlyAdds` | tools/nobytes_cca/checks/windows/appcontrol_paths.py:238-284 | over the whole policy: the hits of two lists of locations together are the multiset sum of the hits of each, and the unreadable rules are the same |
| `RuleAlgebra.AdminRulesOnlyMove` | tools/nobytes_cca/checks/windows/appcontrol_paths.py:252-286 | counting administrator rules makes `permitted` the multiset union of both lists and changes nothing else |
| `RuleAlgebra.UnreadableIgnoresLocations` | tools/nobytes_cca/checks/windows/appcontrol_paths.py:244-250 | the unreadable list depends neither on the locations nor on the administrator switch |
| `AppControl.CoversUserWritablePaths` | tools/nobytes_cca/checks/windows/appcontrol_paths.py:289-489 | guards in their order, then the verdict on the two facts |
| `AdminSids.AdminExact` | tools/nobytes_cca/checks/windows/appcontrol_paths.py:78-111 | a SID is set aside if and only if it is one of the seven named ones or a domain SID that ends in one of the five roles |
| `AdminSids.DomainSidExact` | tools/nobytes_cca/checks/windows/appcontrol_paths.py:109-110 | for every text between, a domain SID is set aside exactly when its last part is one of the five roles |
| `AdminSids.SpellingDoesNotMatter` | tools/nobytes_cca/checks/windows/appcontrol_paths.py:106-106 | case and outer blanks of a SID do not matter |
| `AdminSids.BroadPrincipalsCount` | tools/nobytes_cca/checks/windows/appcontrol_paths.py:78-111 | Everyone, Authenticated Users and Users are never set aside; Administrators are |
| `AdminSids.BroadAllowFails` | tools/nobytes_cca/checks/windows/appcontrol_paths.py:241-463 | an enforced allow rule for a broad principal over a writable location that nothing takes away makes the verdict not-satisfied, for both settings of the switch |
| `AdminSids.DefaultRuleFails` | tools/nobytes_cca/checks/windows/appcontrol_paths.py:241-463 | so does the default rule for Everyone on `%WINDIR%` as soon as anything in the Windows directory is writable |
| `AppControlCases.GrantsExact` | tools/nobytes_cca/checks/windows/appcontrol_paths.py:241-272 | a rule grants a location if and only if it allows, a pattern covers the location, and no exception and no deny rule contains it |
| `AppControlCases.HitTells` | tools/nobytes_cca/checks/windows/appcontrol_paths.py:273-284 | a hit names the collection, rule, SID and patterns that reach it, and its location with the role |
| `AppControlCases.WdacSuspends` | tools/nobytes_cca/checks/windows/appcontrol_paths.py:329-341 | WDAC enforcing in either mode is the one cause of `insufficient-privilege` |
| `AppControlCases.NothingEnforcedFails` | tools/nobytes_cca/checks/windows/appcontrol_paths.py:343-384 | no enabled collection with rules: not-satisfied |
| `AppControlCases.NothingWritablePasses` | tools/nobytes_cca/checks/windows/appcontrol_paths.py:386-411 | a complete look that found nothing writable: satisfied |
| `AppControlCases.IncompleteLookIsPartial` | tools/nobytes_cca/checks/windows/appcontrol_paths.py:386-476 | an incomplete look with nothing permitted and nothing unreadable: `partial-population` |
| `AppControlCases.UnreadableRuleIsCollectionError` | tools/nobytes_cca/checks/windows/appcontrol_paths.py:422-432 | an allow rule without a readable condition, with something writable and nothing permitted: `collection-error` |
| `AppControlCases.UsualRoot` | tools/nobytes_cca/checks/windows/appcontrol_paths.py:327-327 | a host without a Windows directory is judged as one with the usual one |
| `AppControlTheorems.NotSatisfiedExact` | tools/nobytes_cca/checks/windows/appcontrol_paths.py:331-456 | the check fails exactly when WDAC does not decide and nothing is enforced or some enforced counted rule permits a writable location |
| `AppControlTheorems.SatisfiedExact` | tools/nobytes_cca/checks/windows/appcontrol_paths.py:331-489 | it passes exactly when WDAC does not decide, something is enforced, the look was complete, and, if anything is writable, every allow rule was read and none counted permits any |
| `AppControlTheorems.FailureHasWitness` | tools/nobytes_cca/checks/windows/appcontrol_paths.py:227-456 | behind a failure with rules in force lies an allow rule governing a path at or below a writable location, whatever exceptions and denies say of that path |
| `OpenPaths.OpenPathExact` | tools/nobytes_cca/checks/windows/appcontrol_paths.py:265-284 | a reported location holds a path that is allowed, not excepted and not denied if and only if the rule contains the whole location, or names a directory below it that no exception and no deny contains |
| `OpenPaths.PlainOpenPathExact` | tools/nobytes_cca/checks/windows/appcontrol_paths.py:265-284 | for rules of plain directories: if and only if contained, or a directory of the rule lies below and is not itself taken away |
| `OpenPaths.FailsThoughAllIsDenied` | tools/nobytes_cca/checks/windows/appcontrol_paths.py:265-284 | the failing family: a host whose one collection allows and denies the same directory, and a writable directory above it; the check fails although no allow rule leaves a path open at any location |
| `OpenPaths.DeniedExample` | tools/nobytes_cca/checks/windows/appcontrol_paths.py:265-272 | one input of it: `C:\USERS\A` below `C:\USERS` |
| `AppControlTheorems.MoreEvidenceNeverHelps` | tools/nobytes_cca/checks/windows/appcontrol_paths.py:210-489 | more writable locations, or less completeness, only move the verdict down satisfied, unassessed, not-satisfied |
| `AppControlTheorems.IncompleteLookNeverPasses` | tools/nobytes_cca/checks/windows/appcontrol_paths.py:385-489 | with an incomplete look the check never passes and fails exactly where it failed before |
| `AppControlTheorems.TruncationAndDeniedProbes` | tools/nobytes_cca/checks/windows/appcontrol_paths.py:217-219 | in particular for a truncated walk and for denied probes slipped anywhere into either list |
| `Redact.Walk` | collections/ansible_collections/nobytes/compliance/plugins/filter/redact.py:197-239 | the walk that builds mappings and lists step by step computes the recursive walk |
| `Redact.RedactFacts` | collections/ansible_collections/nobytes/compliance/plugins/filter/redact.py:144-241 | nothing, a non-mapping, an unknown action and hashing without a real salt are handled as in the filter; otherwise the result is the redacted mapping |
| `RedactTheorems.LeafLaw` | collections/ansible_collections/nobytes/compliance/plugins/filter/redact.py:178-241 | the scalars of the output are exactly the kept leaves of the input, in order, each under the action of its last key, else its shape, else the default |
| `RedactTheorems.TruncateHidesPeople` | collections/ansible_collections/nobytes/compliance/plugins/filter/redact.py:109-133 | truncating any text leaves no SID that names a person |
| `RedactTheorems.HashHidesPeople` | collections/ansible_collections/nobytes/compliance/plugins/filter/redact.py:102-106 | a digest, whatever the hash function, has no SID shape |
| `RedactTells.HashTellsDigest` | collections/ansible_collections/nobytes/compliance/plugins/filter/redact.py:102-106 | for any two policies and texts, hashed results are equal if and only if the salted digests agree in their first 32 characters |
| `RedactTells.HashIsShort` | collections/ansible_collections/nobytes/compliance/plugins/filter/redact.py:102-106 | a hashed result is labelled and at most 39 characters long, whatever was hashed |
| `RedactTells.PrintedAs` | collections/ansible_collections/nobytes/compliance/plugins/filter/redact.py:102-110 | values are hashed and truncated by the text they print as; a number prints in digits that read back |
| `RedactTells.TruncateTells` | collections/ansible_collections/nobytes/compliance/plugins/filter/redact.py:109-133 | truncated texts are equal if and only if they agree in what truncation tells: a domain, a SID up to its last part, a whole role SID, or two characters and a length |
| `RedactTells.RedactionForgets` | collections/ansible_collections/nobytes/compliance/plugins/filter/redact.py:178-241 | bundles that differ only at hashed leaves of equal salted digests, at truncated leaves that tell the same, below dropped keys and at dropped elements redact to the same bundle |
| `RedactTells.AcceptedExact` | collections/ansible_collections/nobytes/compliance/plugins/filter/redact.py:144-175 | a policy is applied if and only if it says what was written, with known actions and, where anything is hashed, a salt of its own |
| `RedactTells.LastWrittenCounts` | collections/ansible_collections/nobytes/compliance/plugins/filter/redact.py:156-156 | of keys that differ in case, the last one written counts |
| `SidShapes.SidShapeExact` | collections/ansible_collections/nobytes/compliance/plugins/filter/redact.py:95-99 | the shape test accepts exactly `S-1-` in either case followed by at least three groups of digits joined by dashes |
| `SidShapes.RecognisedExact` | collections/ansible_collections/nobytes/compliance/plugins/filter/redact.py:98-99 | a value is recognised by shape exactly when it is such a text, also before one final line feed |
| `RedactTheorems.NoPersonalSidSurvives` | collections/ansible_collections/nobytes/compliance/plugins/filter/redact.py:176-241 | if the SID action is hash or truncate and no key retains, no personal SID survives at any depth |
| `RedactTheorems.UncoveredPolicyLeaks` | collections/ansible_collections/nobytes/compliance/plugins/filter/redact.py:136-141 | any other policy lets every personal SID through in some bundle, drop included |
| `RedactTheorems.SidProtectionExact` | collections/ansible_collections/nobytes/compliance/plugins/filter/redact.py:144-241 | so those policies are exactly the protecting ones |
| `RedactTheorems.SidRemovalExact` | collections/ansible_collections/nobytes/compliance/plugins/filter/redact.py:144-241 | no SID-shaped text at all survives, roles included, if and only if SIDs are hashed and every named key is hashed or dropped |
| `RedactTheorems.AcceptedIsValid` | collections/ansible_collections/nobytes/compliance/plugins/filter/redact.py:144-175 | every policy the filter accepts holds its keys in lower case, as these laws ask |
| `RedactTheorems.PositionLaw` | collections/ansible_collections/nobytes/compliance/plugins/filter/redact.py:197-241 | every position of the output, for every policy: kept entries and elements in order, each mapping as if redacted alone, each leaf under its own effective action |
| `RedactTheorems.Compositional` | collections/ansible_collections/nobytes/compliance/plugins/filter/redact.py:197-241 | the set of mappings in the output is that of the kept mappings of the input, each redacted as if alone |
| `RedactTheorems.ShapePreserved` | collections/ansible_collections/nobytes/compliance/plugins/filter/redact.py:197-241 | without drop every key, list length and position is kept, and at every position a leaf whose effective action is retain is unchanged |
| `RedactTheorems.RetainIsIdentity` | collections/ansible_collections/nobytes/compliance/plugins/filter/redact.py:144-241 | a policy that retains by default and in all it names changes nothing |
| `Digest.Recorder.Walk` | tools/nobytes_cca/lab/digest.py:88-132 | the in-place walk turns the shared map into the recorded one, for every earlier state of the map |
| `Digest.DigestFact` | tools/nobytes_cca/lab/digest.py:152-172 | value and meta of a fact walked into one map |
| `Digest.DigestBundle` | tools/nobytes_cca/lab/digest.py:135-186 | an empty salt is refused; otherwise every fact is digested and the body hashed |
| `DigestTheorems.RecordAccounts` | tools/nobytes_cca/lab/digest.py:88-132 | from any map, the walk adds exactly the visited paths, raises counts to the maximum list length and unites the types at scalar paths |
| `DigestTheorems.PathsExact` | tools/nobytes_cca/lab/digest.py:88-132 | from an empty map, the recorded paths are exactly those of the tree |
| `DigestTheorems.CountExact` | tools/nobytes_cca/lab/digest.py:117-122 | outside content keyspaces a count is present exactly where a list occurs and is the greatest length there |
| `DigestTheorems.TypesExact` | tools/nobytes_cca/lab/digest.py:124-132 | at a path seen only as a scalar the types are exactly those observed |
| `DigestTheorems.OrderIndependent` | tools/nobytes_cca/lab/digest.py:88-132 | between values with the same kinds of parts at every depth, in whatever order, paths, counts and scalar types agree |
| `DigestTheorems.PermutedListIsShuffled` | tools/nobytes_cca/lab/digest.py:117-122 | a permuted list is such a value |
| `DigestOrder.ReorderedIsShuffled` | tools/nobytes_cca/lab/digest.py:88-132 | so is any reordering of lists and mappings, a bijection at every level |
| `DigestTheorems.MixedPathDependsOnOrder` | tools/nobytes_cca/lab/digest.py:111-132 | one input: at a path seen both as scalar and container the type depends on the order |
| `DigestOrder.TypesByOrder` | tools/nobytes_cca/lab/digest.py:88-132 | the type at every path outside content keyspaces: the types of its scalars, and that of the first visitor when it is a container |
| `DigestOrder.TypesIndependentExact` | tools/nobytes_cca/lab/digest.py:88-132 | no reordering of lists and mappings changes the type of a path if and only if everything filed there is of one kind: all scalars, all lists or all mappings |
| `DigestTheorems.AlikeRecordsAlike` | tools/nobytes_cca/lab/digest.py:88-132 | values with the same shape and scalar types record the same map; keys under a content keyspace count only through their hashes |
| `DigestTheorems.RecordFactorsThroughErasure` | tools/nobytes_cca/lab/digest.py:88-132 | recording a value or its erasure to scalar types gives the same map |
| `DigestTheorems.DigestLeaksNothing` | tools/nobytes_cca/lab/digest.py:135-186 | bundles that agree after erasure, on the copied header fields and on the truth of `collection_error` have the same digest and hash, whatever their values and asset id |
| `DigestKeys.KeyLensExact` | tools/nobytes_cca/lab/digest.py:62-63 | two content keys are recorded alike if and only if their salted digests agree in their first 16 characters |
| `DigestKeys.DigestTellsShapeOnly` | tools/nobytes_cca/lab/digest.py:88-184 | under the lens of the tool itself: bundles of one shape, whose content keys agree in what is shown of their salted digests, have one digest body |
| `DigestKeys.MappingRecorded` | tools/nobytes_cca/lab/digest.py:95-113 | a content mapping leaves its size and, hash by hash, how many of its keys have it; any other mapping leaves that it is one |
| `DigestKeys.ErrorExact` | tools/nobytes_cca/lab/digest.py:168-168 | a fact is marked when the first `collection_error` of its meta holds something |
| `DigestKeys.ScalarRecorded` | tools/nobytes_cca/lab/digest.py:66-81 | a scalar leaves its type and nothing else |
| `DiffTheorems.LeafIsLastField` | tools/nobytes_cca/lab/diff.py:36-41 | the leaf of a path is the plain field it ends in, list marker or not |
| `Diff.CheckRequirements` | tools/nobytes_cca/lab/diff.py:93-111 | the requirement loop computes the failures of one floor |
| `Diff.CheckFloors` | tools/nobytes_cca/lab/diff.py:63-112 | the floor loop computes the failures of all floors, in order |
| `Diff.SortReads` | tools/nobytes_cca/lab/diff.py:138-148 | the loop over read keys files each as known, as a hard failure when some fact it is read off was carried, or for review |
| `Diff.Reconcile` | tools/nobytes_cca/lab/diff.py:115-187 | the whole report; key by key, which read keys are hard failures and which are left for review; a hard failure makes it fail |
| `DiffTheorems.FloorsExact` | tools/nobytes_cca/lab/diff.py:63-112 | no failures exactly when every floored fact is present and complete and every requirement met |
| `DiffTheorems.FloorsMeanCollected` | tools/nobytes_cca/lab/diff.py:75-93 | over a digest: every floored fact was collected, complete and without error, requirements or not |
| `DiffTheorems.FloorsMeanEvidence` | tools/nobytes_cca/lab/diff.py:93-111 | every required path occurs, and one floored above zero holds a list that long; at a content keyspace, a list or mapping |
| `DiffTheorems.ReadsPartition` | tools/nobytes_cca/lab/diff.py:138-148 | each read key is in exactly one of known, unreadable, unexercised |
| `DiffTheorems.UnreadFails` | tools/nobytes_cca/lab/diff.py:127-148 | a read key no digest emits and some carried fact is read for is listed and fails the run, and no other is; one read only off facts not carried is left for review |
| `DiffTheorems.CleanExact` | tools/nobytes_cca/lab/diff.py:127-166 | the run is clean if and only if every floor is met and every key read off a carried fact is emitted somewhere |
| `DiffTheorems.ReviewExact` | tools/nobytes_cca/lab/diff.py:152-163 | which paths are left for review on either side |
| `DiffTheorems.FailuresExact` | tools/nobytes_cca/lab/diff.py:63-112 | a failure is listed if and only if a floor calls for it, with its reason and figures |
| `DiffTheorems.MoreFixturesNeverFail` | tools/nobytes_cca/lab/diff.py:127-148 | enlarging the fixture corpus never creates a hard failure |
| `DiffTheorems.HeldFieldNeverFails` | tools/nobytes_cca/lab/diff.py:127-148 | a key that some value of the lab bundle holds as a field is never a hard failure |
| `Contract.Confidence.CappedBy` | tools/nobytes_cca/contract.py:63-65 | the weaker of two claims, and one of the two |
| `Contract.CheckResult.WithCeiling` | tools/nobytes_cca/contract.py:352-365 | only a present confidence changes, to the weaker of itself and the ceiling |
| `Evaluate.FactBundle.Require` | tools/nobytes_cca/contract.py:197-215 | passes exactly when all facts are present and complete; a missing fact is named before a partial one |
| `EvaluateTheorems.SpansExact` | tools/nobytes_cca/contract.py:242-254 | history spans a window exactly when two of its bundles lie that far apart |
| `Evaluate.EvaluateBundle` | tools/nobytes_cca/evaluate.py:115-148 | the loop evaluates the applicable checks, in order |
| `EvaluateTheorems.VerdictNeedsEveryGuard` | tools/nobytes_cca/evaluate.py:42-112 | for every evaluator: a finding is emitted exactly when the check is automated, its facts complete, its window spanned and the evaluator itself returned that verdict |
| `EvaluateTheorems.WhyNoVerdict` | tools/nobytes_cca/evaluate.py:57-105 | what each way of not reaching a verdict is called: attested, missing fact, partial fact, short history, raised |
| `EvaluateTheorems.CeilingHolds` | tools/nobytes_cca/evaluate.py:100-102 | no evaluator, raising ones included, gets past the declared ceiling |
| `EvaluateTheorems.ReturnedExact` | tools/nobytes_cca/evaluate.py:96-112 | a returned result keeps status, reason and evidence, has the weaker of its own confidence and the ceiling, and expires after its hours |
| `EvaluateTheorems.AppliesExact` | tools/nobytes_cca/evaluate.py:123-147 | which checks run on a bundle: automated, of the same platform or a common one, and asked for |
| `EvaluateTheorems.RunExact` | tools/nobytes_cca/evaluate.py:115-148 | a run holds exactly the evaluations of applicable checks against its bundles |
| `EvaluateTheorems.DeterminedNeedsGuards` | tools/nobytes_cca/evaluate.py:42-148 | a control is determined only through a check bound to it that passed every guard on some bundle and whose evaluator returned a verdict there |
| `Evaluate.UnassessedControls` | tools/nobytes_cca/evaluate.py:151-198 | the loop maps each undetermined baseline control, and no other, to its reason |
| `EvaluateTheorems.ReasonsAreDistinguished` | tools/nobytes_cca/evaluate.py:171-198 | unbuilt, attested and out-of-scope controls get their own reason; a tried one gets the first reason recorded, or evaluation-error when there is none |
| `Emit.EmitActivities` | tools/nobytes_cca/oscal/emit.py:86-125 | one activity per check that bears on the baseline, in order |
| `Emit.EmitPlan` | tools/nobytes_cca/oscal/emit.py:68-229 | refused exactly for a control outside the catalog; otherwise the activities and up to three selections |
| `RoundTrip.PlanPartitionsBaseline` | tools/nobytes_cca/oscal/emit.py:86-148 | the three selections hold every baseline control exactly as often as the baseline does |
| `PlanTheorems.PlanGivesReasons` | tools/nobytes_cca/oscal/emit.py:84-148 | the plan gives a control a reason exactly when no tool answers it: attestation when a person does, else not implemented |
| `PlanTheorems.ResultsReviewBaseline` | tools/nobytes_cca/oscal/emit.py:439-610 | the results review the whole baseline, in order |
| `Emit.CountPopulation` | tools/nobytes_cca/oscal/emit.py:285-331 | grouping determinations by subject yields the five figures |
| `Populations.PopulationCounts` | tools/nobytes_cca/oscal/emit.py:310-331 | subjects with a failed determination and those without make up the assessed ones, and so do those never and those once applicable |
| `Populations.PopulationStep` | tools/nobytes_cca/oscal/emit.py:310-331 | starting from nothing, what one more determination changes in each of the five figures |
| `FindingTheorems.ObservationSays` | tools/nobytes_cca/oscal/emit.py:237-283 | an observation reads its check, its result in words, and confidence and reason just when there are any |
| `FindingTheorems.RelatesExactly` | tools/nobytes_cca/oscal/emit.py:432-435 | a finding relates to exactly the observations of the determinations on its control |
| `FindingTheorems.TargetTells` | tools/nobytes_cca/oscal/emit.py:360-424 | a finding fails by one failed determination, and is marked not applicable when all agree |
| `FindingTheorems.TotalExact` | tools/nobytes_cca/oscal/emit.py:325-331 | a subject-based finding is out of the estate as given, else of all subjects evaluated, and never of fewer than were assessed |
| `FindingTheorems.AggregateTotal` | tools/nobytes_cca/oscal/emit.py:482-501 | a finding of aggregate checks alone is out of its own determinations and says so |
| `Emit.FileUnder` | tools/nobytes_cca/oscal/emit.py:467-470 | one evaluation is filed once for every binding of its check |
| `Emit.GroupByControl` | tools/nobytes_cca/oscal/emit.py:467-470 | the dictionary holds, for each bound control and no other, its evaluations in order |
| `Emit.EmitFindings` | tools/nobytes_cca/oscal/emit.py:472-504 | one finding per control with a determination, in sorted order |
| `Emit.EmitResults` | tools/nobytes_cca/oscal/emit.py:439-604 | refused exactly for a control outside the catalog; otherwise the results document of the run |
| `Emit.EmitPoam` | tools/nobytes_cca/oscal/emit.py:612-676 | one open item per finding whose state is not-satisfied, or the placeholder when there is none |
| `ReportTheorems.PopulationAddsUp` | tools/nobytes_cca/oscal/emit.py:310-331 | failing and not-applicable subjects are disjoint, failing + na <= assessed <= observations, assessed <= total, failing > 0 iff some determination failed |
| `ReportTheorems.AggregateIgnoresEstate` | tools/nobytes_cca/oscal/emit.py:489-492 | the figures of an aggregate-only control do not depend on the estate total and use the number of determinations as denominator |
| `ReportTheorems.OrderDoesNotMatter` | tools/nobytes_cca/oscal/emit.py:310-392 | verdict, state, confidence, basis and all five figures are invariant under reordering the evaluations |
| `ReportTheorems.WeakestExact` | tools/nobytes_cca/oscal/emit.py:364-367 | the confidence of a finding is one that was recorded and none recorded is weaker |
| `ReportTheorems.RowConfidenceUnderCeilings` | tools/nobytes_cca/oscal/emit.py:364-367 | over a whole run, a row's confidence is no stronger than the ceiling of any contributing check that put a confidence on its result |
| `ReportTheorems.DefaultConfidence` | tools/nobytes_cca/oscal/emit.py:364-367 | without any recorded confidence the row shows `direct`; it exceeds some ceiling if and only if such a check recorded no confidence and every recorded one is stronger than it declares |
| `ReportTheorems.DirectAboveCeiling` | tools/nobytes_cca/oscal/emit.py:364-367 | the family: a run of one check of any lesser ceiling that returns not-applicable shows `direct` |
| `ReportTheorems.DirectExample` | tools/nobytes_cca/oscal/emit.py:364-367 | one run: a check declared partial, on any subject |
| `ReportTheorems.ActionItemExact` | tools/nobytes_cca/oscal/emit.py:612-676 | the action plan holds an item naming the control's finding exactly when a determination on it failed; the placeholder of an empty plan is nobody's item |
| `ActionItems.OpenItemCarries` | tools/nobytes_cca/oscal/emit.py:627-652 | every open item carries the failing and assessed figures of its control and its weakest confidence in words, and is named alike in every run |
| `Ids.ColonsTell` | tools/nobytes_cca/oscal/ids.py:29-30 | when no part of a name but the last holds a colon, the joined text tells all of its parts |
| `Ids.ColonsConfuse` | tools/nobytes_cca/oscal/ids.py:29-30 | the failing family: a colon inside a part can be read as the one between two parts |
| `Ids.ObservationsToldApart` | tools/nobytes_cca/oscal/ids.py:53-54 | with a hash without collisions and check ids without a colon, two observations of one run have one name if and only if they are of one check and one asset |
| `Ids.ObservationsAreOfTheirRun` | tools/nobytes_cca/oscal/ids.py:49-54 | in another run of the same system no observation keeps its name |
| `Ids.ItemsKeepTheirName` | tools/nobytes_cca/oscal/ids.py:61-63 | an action item keeps its name from run to run, and no two controls share one |
| `ActionItems.RowSays` | tools/nobytes_cca/report/model.py:166-197 | the words a row reads for every status, confidence and reason |
| `ReportTheorems.RelatedObservationsExist` | tools/nobytes_cca/oscal/emit.py:432-435 | every observation a finding relates to is in the same document |
| `ReportTheorems.TitlesExact` | tools/nobytes_cca/oscal/emit.py:506-507 | findings name exactly the determined controls |
| `ReportTheorems.DeterminedAndUnassessed` | tools/nobytes_cca/oscal/emit.py:506-513 | controls with a finding and controls counted as undetermined make up the baseline, and the latter are exactly those that get a reason |
| `CountTheorems.ControlCountsExact` | tools/nobytes_cca/oscal/emit.py:506-513 | `controls-determined` and `controls-unassessed` exceed the baseline by the determined controls outside it, and add up to it if and only if there are none |
| `CountTheorems.CountsExceedBaseline` | tools/nobytes_cca/oscal/emit.py:467-470 | one check bound to a control inside and one outside already makes them exceed it |
| `CountTheorems.CountsRead` | tools/nobytes_cca/oscal/emit.py:556-559 | the three counts of the document are these |
| `Report.ReadAttestations` | tools/nobytes_cca/report/model.py:100-115 | the dictionary of attestation details read from the activities |
| `Report.ReadReviewed` | tools/nobytes_cca/report/model.py:120-130 | the reviewed controls in order, and the reasons their selections give |
| `Report.ReadEmittedReasons` | tools/nobytes_cca/report/model.py:134-140 | the reasons parsed from `control=reason` properties |
| `Report.ReadFindings` | tools/nobytes_cca/report/model.py:142-146 | the findings keyed by the control of their statement id |
| `Report.ReadObservedReasons` | tools/nobytes_cca/report/model.py:154-164 | the first reason each linked control was observed with |
| `Report.Build` | tools/nobytes_cca/report/model.py:94-214 | the report two documents amount to, or an error for a count that is no number |
| `SourceTheorems.ObservedExact` | tools/nobytes_cca/report/model.py:154-164 | over any results document: a control is counted once per link of an observation with a reason, under the first reason given |
| `SourceTheorems.RowFrom` | tools/nobytes_cca/report/model.py:166-197 | over any documents: a finding decides alone; without one the first reason of observations, results and plan is given |
| `SourceTheorems.ConfidencesCounted` | tools/nobytes_cca/report/model.py:77-82 | for each confidence, the number of rows with a verdict of that confidence |
| `SourceTheorems.ReasonsCounted` | tools/nobytes_cca/report/model.py:85-91 | for each reason, the number of rows left without a verdict for it |
| `Report.CountRows` | tools/nobytes_cca/report/model.py:76-91 | both counters, computed row by row |
| `Oscal.StatementExact` | tools/nobytes_cca/report/model.py:145 | a statement id gives its control id back if and only if the control id does not hold `_smt` |
| `Oscal.SuffixInsideIsLost` | tools/nobytes_cca/report/model.py:145 | the failing family: an id that holds `_smt` once is read back without it, as another control |
| `Oscal.SuffixExample` | tools/nobytes_cca/report/model.py:145 | one input: `ism-1_smt2` is read back as `ism-12` |
| `Oscal.EncodingsExact` | tools/nobytes_cca/report/model.py:134-146 | exactly which ids survive all three encodings, the finding title included: one word, no `=`, no `_smt` |
| `RoundTrip.FindingsRead` | tools/nobytes_cca/report/model.py:142-146 | by statement id and by title, findings are read back under their own control, one for every determined control |
| `RoundTrip.ReasonsRead` | tools/nobytes_cca/report/model.py:134-140 | every `control=reason` text is read back as it was meant |
| `RoundTrip.ObservationsNameNoControl` | tools/nobytes_cca/report/model.py:154-164 | no observation the emitter writes overrides a reason |
| `RoundTrip.AttestationsRead` | tools/nobytes_cca/report/model.py:100-115 | the detail shown for a control is that of the last attested registry entry bound to it |
| `RoundTrip.PlanRead` | tools/nobytes_cca/report/model.py:120-130 | the report reviews exactly the controls of the plan's selections, in order |
| `RoundTrip.RowRead` | tools/nobytes_cca/report/model.py:166-197 | what the report makes of a control is the row its evaluations call for |
| `RoundTrip.DocumentsRoundTrip` | tools/nobytes_cca/report/model.py:94-214 | main theorem: the documents of any run, read back, give the report computed directly from evaluations and registry |
| `ReportTheorems.DocumentsTell` | tools/nobytes_cca/report/model.py:94-214 | main theorem, joined: the report read from the documents of any run has exactly one row per baseline control, in order, with the status its evaluations call for and otherwise the recorded reason |
| `ReportTheorems.OneRowPerControl` | tools/nobytes_cca/report/model.py:166-213 | for a baseline without repeats the sorted direct rows are exactly one per control |
| `ReportTheorems.StatusExact` | tools/nobytes_cca/report/model.py:166-182 | not-satisfied iff some determination failed, not-applicable iff determined and all say so, satisfied iff none failed and some passed, undetermined iff none was made |
| `ReportTheorems.ReasonExact` | tools/nobytes_cca/report/model.py:183-197 | an undetermined row carries exactly the recorded reason, and the fallback text is never reached |
| `ReportTheorems.CountsCoverRows` | tools/nobytes_cca/report/model.py:76-91 | every row is counted once, by confidence or by reason |
| `ReportTheorems.DirectRowsCount` | tools/nobytes_cca/report/model.py:41-43 | rows counted under no reason are exactly the not-applicable ones |
| `Reads.FactReadVisitor.constructor` | tools/nobytes_cca/lab/reads.py:41-53 | a fresh visitor knows the seeded names and nothing else |
| `Reads.FactReadVisitor.Visit` | tools/nobytes_cca/lab/reads.py:82-154 | one traversal turns the four fields into the state the pure traversal gives |
| `Reads.ReadsInSource` | tools/nobytes_cca/lab/reads.py:157-196 | both passes together |
| `ReadsTheorems.VisitGrows` | tools/nobytes_cca/lab/reads.py:57-154 | starting from more derived names gives supersets of names, reads, fact keys and helper positions, and nothing known is lost |
| `ReadsTheorems.VisitReaches` | tools/nobytes_cca/lab/reads.py:82-154 | every node of a tree is reached with at least the names known at the start |
| `ReadsTheorems.ChainReadsReported` | tools/nobytes_cca/lab/reads.py:126-154 | every literal key on a `.get` or subscript chain rooted at a `.fact(...)` call is reported |
| `ReadsTheorems.HelperReadsReported` | tools/nobytes_cca/lab/reads.py:176-196 | the same inside a helper for chains rooted at a parameter that is handed a fact |
| `ReadsExact.FactKeysExact` | tools/nobytes_cca/lab/reads.py:126-131 | over both passes, the fact keys reported are exactly the literal ones of `.fact` calls in the module |
| `ReadsExact.KeysAreRead` | tools/nobytes_cca/lab/reads.py:82-154 | a visit reports a key only if the tree reads it off an expression derived from names closed under its bindings |
| `ReadsExact.ReportedKeysAreRead` | tools/nobytes_cca/lab/reads.py:157-196 | the same for both passes, with names closed under bindings and calls |
| `ReadsExact.DerivedHasRoot` | tools/nobytes_cca/lab/reads.py:57-78 | nothing is derived that does not hold a known name or a `.fact` call |
| `Annex.ComputeColIndex` | tools/nobytes_cca/report/annex.py:181-185 | the accumulating loop computes the bijective base-26 index of letters in either case |
| `AnnexTheorems.ColIndexExact` | tools/nobytes_cca/report/annex.py:181-185 | the index orders columns by length, then letters, and is injective |
| `Annex.RewriteRow` | tools/nobytes_cca/report/annex.py:233-255 | the loop, the leftover updates and the in-place sort compute the rewritten row |
| `AnnexTheorems.RewrittenExact` | tools/nobytes_cca/report/annex.py:233-255 | with distinct columns the row has exactly its own cells, the targeted ones refilled in their style, and the missing targets |
| `AnnexTheorems.RewrittenColumns` | tools/nobytes_cca/report/annex.py:233-255 | its columns are the old ones and the targets, each once |
| `AnnexTheorems.RewrittenInOrder` | tools/nobytes_cca/report/annex.py:254 | its columns rise strictly, cells without a reference first |
| `AnnexTheorems.RewriteIdempotent` | tools/nobytes_cca/report/annex.py:233-255 | rewriting with the same updates a second time changes nothing |
| `Annex.ReplaceRow` | tools/nobytes_cca/report/annex.py:274-302 | one row, and the status it was given |
| `Annex.Populate` | tools/nobytes_cca/report/annex.py:258-302 | the whole sheet, rows matched by the identifier in column B |
| `AnnexSheet.UnmatchedStays` | tools/nobytes_cca/report/annex.py:274-292 | in the filled-in sheet, at its place, a row whose identifier names no reported control is unchanged and not counted |
| `AnnexSheet.MatchedIsRewritten` | tools/nobytes_cca/report/annex.py:282-302 | in the filled-in sheet, at its place, a row whose identifier names a reported control has that control's status and comment, and is counted under that status |
| `AnnexCells.MatchedReads` | tools/nobytes_cca/report/annex.py:297-302 | a matched row reads its status, in the words of the sheet, in column K and its comment in column L; every other cell is as it was |
| `AnnexCells.ControlOfExact` | tools/nobytes_cca/report/annex.py:278-286 | an identifier stands for a control exactly when, trimmed, it is `ISM-` in any case and three or four digits |
| `AnnexSheet.IdentifierStays` | tools/nobytes_cca/report/annex.py:277-283 | rewriting other columns leaves the identifier, so a matched row goes on matching the same control |
| `AnnexSheet.PopulateIdempotent` | tools/nobytes_cca/report/annex.py:258-302 | on sheets with distinct columns, filling in a second time changes nothing and counts the same |
| `AnnexSheet.WrittenIsSum` | tools/nobytes_cca/report/annex.py:274-302 | `written` is the sum of the status counts |
| `AnnexSheet.StatusForExact` | tools/nobytes_cca/report/annex.py:87-120 | for each of the statuses, exactly which rows get it |
| `AnnexSheet.NotApplicableIsFiledNotAssessed` | tools/nobytes_cca/report/annex.py:115-120 | a not-applicable row is filed as Not Assessed |
| `EolTheorems.EditionsAreNotGuessed` | tools/nobytes_cca/eol.py:115-146 | without an exact or major match only a single edition is taken; two or more give unknown at every date |
| `EolTheorems.ExactNameWins` | tools/nobytes_cca/eol.py:103-114 | the first record of the exact name is chosen, else the first of the major version |
| `EolTheorems.SupportByDates` | tools/nobytes_cca/eol.py:148-173 | a lookup tells a record's dates: supported up to its end, in extension from there to the extended date, and unknown without a record or a usable end |
| `EolTheorems.KeyFolds` | tools/nobytes_cca/eol.py:95-104 | names are looked up without regard to case and outer blanks |
| `EolTheorems.SpellingSelects` | tools/nobytes_cca/eol.py:95-146 | so a product and a release select the same record however they are spelled |
| `EolTheorems.FilesAreNamed` | tools/nobytes_cca/eol.py:25-41 | the file of each product |
| `EolTheorems.OsVerdictByDates` | tools/nobytes_cca/checks/common/os_support.py:54-153 | ism-1501 fails if and only if the record selected has ended, counting extended support when told to; it passes on any other with a usable end |
| `EolTheorems.SupportOnlyAges` | tools/nobytes_cca/eol.py:93-173 | at a later date the same record is selected, as known as before, and the phase has not gone back |
| `EolTheorems.OsVerdictOnlyAges` | tools/nobytes_cca/checks/common/os_support.py:54-153 | a failed verdict stays failed, and one that was not reached is not reached by waiting |
| `Eol.Classify` | tools/nobytes_cca/checks/windows/app_support.py:134-174 | the loop sorts the applications into three lists, or stops at the first lookup that raises |
| `Eol.UnsupportedRemoved` | tools/nobytes_cca/checks/windows/app_support.py:99-222 | guards, classification and verdict |
| `EolTheorems.InventoryPartitions` | tools/nobytes_cca/checks/windows/app_support.py:134-174 | every application is filed exactly once |
| `EolTheorems.GroupByDates` | tools/nobytes_cca/checks/windows/app_support.py:134-174 | an application is unsupported if and only if it is known to be dead or its record has ended, and unmapped without a usable record |
| `EolTheorems.AppVerdictByDates` | tools/nobytes_cca/checks/windows/app_support.py:134-222 | ism-1704 fails if and only if some application is unsupported, and otherwise passes if and only if one is supported |
| `EolTheorems.AppVerdictOnlyAges` | tools/nobytes_cca/checks/windows/app_support.py:134-222 | unsupported applications only accumulate, unmapped ones stay, a failed verdict stays failed |

## Left out

- Glob.MatchConcat: patterns are over `*` and `?`; `[...]` classes are not modelled.
- Text: upper and lower case, blanks and digits are those of ASCII; other alphabets are not modelled.
- Hashing and UUIDs are function parameters, injective only where a statement says so; canonical JSON text is not modelled.
- Digest.Recorder.Walk: an entry's type names and key hashes are a set and a multiset instead of a joined text and a sorted list, and a fact's meta is a mapping or missing.
- DigestTheorems.CountExact: holds outside content keyspaces, whose entries the last visit overwrites.
- `verify_self_hash`: comparing a digest with its own hash is only as good as the hash, which is a parameter.
- Digest.DigestBundle: facts are digested in any order, since only the resulting mapping matters.
- Diff.Reconcile: the file names listed beside a read key and the run counters are not part of the report.
- Diff.CheckFloors: floors are given in the order of their fact keys; texts of counts are integers already.
- RootTheorems.NoVariableLeftExact: roots that hold a `%` themselves are not characterised.
- RoundTrip.DocumentsRoundTrip: control ids hold no blank, no `=` and no `_smt`, and a control's statement id is the control id with the suffix `_smt`, as in the catalog.
- Emit.EmitResults: titles, remarks, metadata, inventory items, start and end times and the marking are not part of the documents.
- Emit.EmitPoam: descriptions, the marking and the metadata of the action plan are not modelled.
- Report.Build: the marking and the generation time are not part of the report; a count is a text of digits.
- Evaluate.EvaluateBundle: times are integers, and evaluators take no parameters beside the check.
- Registry: an attested check always carries its attestation; loading and validating registry files is not modelled.
- AppControl.CoversUserWritablePaths: evidence is the list of recorded keys; the wording of details is not modelled.
- Reads.FactReadVisitor.Visit: helper positions are a set of pairs; nodes that carry neither reads nor names are one constructor with children.
- Annex.RewriteRow: a row is a sequence of cells; finding cells in XML, shared strings and the zip file are not modelled.
- Annex.Populate: the comment texts come from a parameter, and the annex's own pattern for control ids is modelled over ASCII.
- Eol.Classify: which names are dead, a name's product and its cycle come from parameters, since they are regular expressions.
- EolTheorems.OsVerdictOnlyAges: the cycle derived from Windows registry values is a parameter; a date that cannot be parsed is its own case.
- `FactHistory.series`, `coverage_summary`, the command line, file reading and the fetching tools: they would add easy members or need files and the network.
- Evaluators of one branch each (browsers, Office, Entra, operating-system state): they are covered as arbitrary evaluators.
- HTML rendering: text only.
