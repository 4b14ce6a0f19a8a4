/** The parts of the OSCAL 1.1.2 documents that carry a verdict, with the texts it is written in. */
module Oscal {
  import opened Text
  import opened Contract

  const NS := "https://nobytes.io/ns/oscal/cca/1.0"
  const STATEMENT_SUFFIX := "_smt"

  datatype Prop = Prop(name: string, value: string, ns: Option<string>)

  /** A property in the project's own namespace. */
  function Own(name: string, value: string): Prop {
    Prop(name, value, Some(NS))
  }

  datatype Include = Include(controlId: string, statementIds: seq<string>)

  datatype Selection = Selection(props: seq<Prop>, includes: seq<Include>)

  datatype Activity = Activity(title: string, props: seq<Prop>, related: seq<Selection>)

  datatype Plan = Plan(activities: seq<Activity>, reviewed: seq<Selection>)

  datatype Evidence = Evidence(props: seq<Prop>, href: Option<string>)

  datatype Observation = Observation(uuid: string, title: string, props: seq<Prop>, evidence: seq<Evidence>)

  datatype Target = Target(targetId: string, state: string, notApplicable: bool)

  datatype Finding = Finding(uuid: string, title: string, props: seq<Prop>, target: Target, observations: seq<string>)

  datatype Results = Results(
    props: seq<Prop>, reviewed: seq<Selection>, observations: seq<Observation>, findings: seq<Finding>)

  datatype PoamItem = PoamItem(uuid: string, title: string, props: seq<Prop>, findings: seq<string>)

  // ----- vocabulary -------------------------------------------------------------------

  function StatusText(s: Status): string {
    match s
    case Satisfied => "satisfied"
    case NotSatisfied => "not-satisfied"
    case NotApplicable => "not-applicable"
    case Unassessed => "unassessed"
    case Error => "error"
  }

  function ConfidenceText(c: Confidence): string {
    match c
    case Direct => "direct"
    case Proxy => "proxy"
    case Partial => "partial"
    case Attested => "attested"
  }

  function ReasonText(r: Reason): (t: string)
    ensures t != ""
  {
    match r
    case NotImplemented => "not-implemented"
    case OutOfScope => "out-of-scope"
    case Unreachable => "unreachable"
    case InsufficientPrivilege => "insufficient-privilege"
    case InsufficientHistory => "insufficient-history"
    case PartialPopulation => "partial-population"
    case UnsupportedPlatform => "unsupported-platform"
    case CollectionError => "collection-error"
    case RequiresAttestation => "requires-attestation"
    case NoSubjectInScope => "no-subject-in-scope"
    case EvaluationError => "evaluation-error"
    case RequiresInterview => "requires-interview"
    case RequiresExternalSystem => "requires-external-system"
    case EvidenceExpired => "evidence-expired"
    case DeferredByPolicy => "deferred-by-policy"
  }

  // ----- reading texts back -------------------------------------------------------------

  /** `text.split()[0]`: the first word. */
  function FirstWord(t: string): string {
    UntilSpace(StripLeft(t))
  }

  function UntilSpace(t: string): string {
    if t == "" || IsSpace(t[0]) then "" else [t[0]] + UntilSpace(t[1..])
  }

  /** `text.partition(c)`, without the separator; the second part is empty when there is none. */
  function Partition(t: string, c: char): (string, string) {
    if t == "" then ("", "")
    else if t[0] == c then ("", t[1..])
    else
      var (a, b) := Partition(t[1..], c);
      ([t[0]] + a, b)
  }

  /** The control a statement id belongs to, as the report derives it. */
  function ControlOfStatement(statementId: string): string {
    Replace(statementId, STATEMENT_SUFFIX, "")
  }

  /** Text that is one word and can stand before a `=`. */
  predicate Unbroken(id: string) {
    id != "" && forall c :: c in id ==> !IsSpace(c) && c != '='
  }

  /** Text that can stand before a `=`. */
  predicate Separable(id: string) {
    id != "" && '=' !in id
  }

  /** A control id that survives the encodings: no blank, no `=`, and the statement suffix nowhere in it. */
  predicate WellFormedId(id: string) {
    Unbroken(id) && !Occurs(id, STATEMENT_SUFFIX)
  }

  lemma {:induction false} FirstWordOf(id: string, rest: string)
    requires Unbroken(id)
    ensures FirstWord(id + " " + rest) == id
  {
    var t := id + " " + rest;
    assert t[0] == id[0] && id[0] in id;
    UntilSpaceOf(id, rest);
  }

  lemma {:induction false} UntilSpaceOf(id: string, rest: string)
    requires forall c :: c in id ==> !IsSpace(c)
    ensures UntilSpace(id + " " + rest) == id
  {
    var t := id + " " + rest;
    if id != "" {
      assert t[0] == id[0] && id[0] in id;
      assert t[1..] == id[1..] + " " + rest;
      UntilSpaceOf(id[1..], rest);
    }
  }

  lemma {:induction false} PartitionOf(id: string, rest: string)
    requires '=' !in id
    ensures Partition(id + "=" + rest, '=') == (id, rest)
  {
    var t := id + "=" + rest;
    if id == "" {
      assert t[1..] == rest;
    } else {
      assert t[0] == id[0] && id[0] in id;
      assert t[1..] == id[1..] + "=" + rest && [id[0]] + id[1..] == id;
      PartitionOf(id[1..], rest);
    }
  }

  // ----- statement ids ------------------------------------------------------------------

  /** A suffix whose first character does not come again, so that no occurrence of it overlaps another. */
  predicate Unbordered(suffix: string) {
    suffix != "" && suffix[0] !in suffix[1..]
  }

  /** Before such a suffix an occurrence lies wholly in front of it. */
  lemma NoneStraddles(id: string, suffix: string, rest: string)
    requires Unbordered(suffix) && id != ""
    ensures suffix <= id + (suffix + rest) <==> suffix <= id
  {
    var t := id + (suffix + rest);
    assert |id| < |suffix| ==> t[|id|] == suffix[0] && suffix[|id|] == suffix[1..][|id| - 1];
  }

  lemma {:induction false} RemovalShrinks(s: string, suffix: string)
    requires suffix != ""
    ensures |Replace(s, suffix, "")| <= |s|
    ensures Occurs(s, suffix) ==> |Replace(s, suffix, "")| <= |s| - |suffix|
  {
    if s != "" {
      if suffix <= s {
        RemovalShrinks(s[|suffix|..], suffix);
      } else {
        RemovalShrinks(s[1..], suffix);
        OccursInRest(s, suffix);
      }
    }
  }

  /** With a suffix put behind, at least that much goes. */
  lemma SuffixGoes(x: string, suffix: string)
    requires suffix != ""
    ensures |Replace(x + suffix, suffix, "")| <= |x|
  {
    assert (x + suffix)[|x|..] == suffix;
    assert OccursAt(x + suffix, suffix, |x|);
    RemovalShrinks(x + suffix, suffix);
  }

  /** Text that does not hold the suffix is kept up to where the suffix follows it. */
  lemma {:induction false} KeptBefore(id: string, suffix: string, rest: string)
    requires Unbordered(suffix) && !Occurs(id, suffix)
    ensures Replace(id + (suffix + rest), suffix, "") == id + Replace(rest, suffix, "")
  {
    if id == "" {
      assert id + (suffix + rest) == suffix + rest;
      ReplaceTakesFirst(rest, suffix, "");
    } else {
      NoneStraddles(id, suffix, rest);
      OccursInRest(id, suffix);
      KeptBefore(id[1..], suffix, rest);
      assert id + (suffix + rest) == [id[0]] + (id[1..] + (suffix + rest));
      ReplaceKeepsFirst(id[0], id[1..] + (suffix + rest), suffix, "");
    }
  }

  /** A statement id made from a control id gives the control id back. */
  lemma StatementOf(id: string, suffix: string)
    requires Unbordered(suffix) && !Occurs(id, suffix)
    ensures Replace(id + suffix, suffix, "") == id
  {
    KeptBefore(id, suffix, "");
    assert suffix + "" == suffix;
  }

  lemma SuffixInFront(rest: string, suffix: string)
    requires suffix != ""
    ensures |Replace(suffix + (rest + suffix), suffix, "")| <= |rest|
  {
    ReplaceTakesFirst(rest + suffix, suffix, "");
    SuffixGoes(rest, suffix);
  }

  lemma NoSuffixInFront(c: char, rest: string, suffix: string)
    requires Unbordered(suffix) && !(suffix <= [c] + rest)
    ensures Replace([c] + (rest + suffix), suffix, "") == [c] + Replace(rest + suffix, suffix, "")
  {
    NoneStraddles([c] + rest, suffix, "");
    assert suffix + "" == suffix && [c] + rest + suffix == [c] + (rest + suffix);
    ReplaceKeepsFirst(c, rest + suffix, suffix, "");
  }

  lemma TakenApart(head: string, rest: string, id: string, suffix: string)
    requires id == head + rest
    ensures id + suffix == head + (rest + suffix)
  {
  }

  lemma InsideRest(id: string, suffix: string)
    requires Unbordered(suffix) && Occurs(id, suffix) && !(suffix <= id)
    ensures id != "" && id == [id[0]] + id[1..] && Occurs(id[1..], suffix)
  {
    OccursInRest(id, suffix);
  }

  lemma {:induction false} SuffixInside(id: string, suffix: string)
    requires Unbordered(suffix) && Occurs(id, suffix)
    ensures |Replace(id + suffix, suffix, "")| < |id|
  {
    if suffix <= id {
      SuffixInFront(id[|suffix|..], suffix);
      TakenApart(suffix, id[|suffix|..], id, suffix);
    } else {
      InsideRest(id, suffix);
      SuffixInside(id[1..], suffix);
      NoSuffixInFront(id[0], id[1..], suffix);
      TakenApart([id[0]], id[1..], id, suffix);
    }
  }

  lemma SuffixIsUnbordered()
    ensures Unbordered(STATEMENT_SUFFIX)
  {
    assert STATEMENT_SUFFIX[1..] == "smt";
  }

  /** A statement id gives its control id back exactly when the control id does not hold the suffix itself. */
  lemma StatementExact(id: string)
    ensures ControlOfStatement(id + STATEMENT_SUFFIX) == id <==> !Occurs(id, STATEMENT_SUFFIX)
  {
    SuffixIsUnbordered();
    if Occurs(id, STATEMENT_SUFFIX) {
      SuffixInside(id, STATEMENT_SUFFIX);
    } else {
      StatementOf(id, STATEMENT_SUFFIX);
    }
  }

  /** Otherwise it is read back as another control: an id that holds the suffix once loses it. */
  lemma SuffixInsideIsLost(a: string, b: string)
    requires !Occurs(a, STATEMENT_SUFFIX) && !Occurs(b, STATEMENT_SUFFIX)
    ensures ControlOfStatement(a + (STATEMENT_SUFFIX + b) + STATEMENT_SUFFIX) == a + b
  {
    SuffixIsUnbordered();
    assert a + (STATEMENT_SUFFIX + b) + STATEMENT_SUFFIX == a + (STATEMENT_SUFFIX + (b + STATEMENT_SUFFIX));
    KeptBefore(a, STATEMENT_SUFFIX, b + STATEMENT_SUFFIX);
    StatementOf(b, STATEMENT_SUFFIX);
  }

  /** For instance the statement of `ism-1_smt2` is taken for one of `ism-12`. */
  lemma SuffixExample(id: string)
    requires id == "ism-1_smt2"
    ensures ControlOfStatement(id + STATEMENT_SUFFIX) == "ism-12"
  {
    var a, b := "ism-1", "2";
    assert id == a + (STATEMENT_SUFFIX + b) && a + b == "ism-12";
    NoUnderscore(a);
    NoUnderscore(b);
    SuffixInsideIsLost(a, b);
  }

  lemma NoUnderscore(t: string)
    requires '_' !in t
    ensures !Occurs(t, STATEMENT_SUFFIX)
  {
    forall i | 0 <= i <= |t| ensures !OccursAt(t, STATEMENT_SUFFIX, i) {
      assert i < |t| ==> t[i..][0] == t[i] && t[i] in t;
    }
  }

  lemma {:induction false} FirstPartsAreUnbroken(t: string)
    ensures '=' !in Partition(t, '=').0
    ensures forall c :: c in UntilSpace(t) ==> !IsSpace(c)
  {
    if t != "" {
      FirstPartsAreUnbroken(t[1..]);
    }
  }

  /** Exactly which ids every one of the three encodings gives back. */
  lemma EncodingsExact(id: string)
    requires id != ""
    ensures WellFormedId(id) <==>
            && FirstWord(id + " ") == id
            && Partition(id + "=", '=') == (id, "")
            && ControlOfStatement(id + STATEMENT_SUFFIX) == id
  {
    StatementExact(id);
    FirstPartsAreUnbroken(id + "=");
    FirstPartsAreUnbroken(StripLeft(id + " "));
    assert id + " " == id + " " + "" && id + "=" == id + "=" + "";
    if Unbroken(id) {
      FirstWordOf(id, "");
      PartitionOf(id, "");
    }
  }

  // ----- property lists ---------------------------------------------------------------------

  /** The properties of one namespace as a mapping; a repeated name keeps its last value. */
  function OwnProps(props: seq<Prop>): map<string, string> {
    if props == [] then map[]
    else
      var p, m := props[|props| - 1], OwnProps(props[..|props| - 1]);
      if p.ns == Some(NS) then m[p.name := p.value] else m
  }

  /** The properties of a selection as a mapping, whatever their namespace. */
  function AllProps(props: seq<Prop>): map<string, string> {
    if props == [] then map[]
    else AllProps(props[..|props| - 1])[props[|props| - 1].name := props[|props| - 1].value]
  }

  lemma OwnPropsAdd(props: seq<Prop>, name: string, value: string)
    ensures OwnProps(props + [Own(name, value)]) == OwnProps(props)[name := value]
  {
    assert (props + [Own(name, value)])[..|props|] == props;
  }
}
