/** Checks, the controls they are bound to, and whether a tool or a person answers them. */
module Registry {
  import opened Contract

  datatype Scope = OneSubject | Aggregate

  datatype Binding = Binding(controlId: string, statementId: string)

  datatype Attestation = Attestation(source: string, owner: string, renewalDays: nat, whyNotObservable: string)

  /** Whether a tool answers at all; an attested entry carries where its human answer lives. */
  datatype Assessability = Automated | AttestedBy(attestation: Attestation)

  datatype Check = Check(
    id: string, title: string, platform: string, controls: seq<Binding>, confidence: Confidence, scope: Scope,
    freshnessHours: nat, historyWindowDays: int, assessability: Assessability, requiredFacts: seq<string>)
  {
    predicate IsAutomated() {
      assessability.Automated?
    }

    predicate Binds(control: string) {
      exists b | b in controls :: b.controlId == control
    }
  }

  /** The entries of a registry, in the order of their ids. */
  type Registry = seq<Check>

  /** Controls a tool can reach a verdict on. */
  function AutomatedControls(registry: Registry): set<string> {
    set c, b | c in registry && c.IsAutomated() && b in c.controls :: b.controlId
  }

  /** Controls declared structurally unobservable. */
  function AttestedControls(registry: Registry): set<string> {
    set c, b | c in registry && !c.IsAutomated() && b in c.controls :: b.controlId
  }
}
