/** Names of observations, findings and action items: what tells two of them apart, and what a later run keeps. */
module Ids {
  import opened Evaluate
  import opened Emit
  import opened ActionItems

  /** The text a name is hashed from. */
  function Colons(parts: seq<string>): string {
    if parts == [] then "" else if |parts| == 1 then parts[0] else parts[0] + ":" + Colons(parts[1..])
  }

  /** How the emitter names things: by a hash of the joined parts. */
  function Naming(v5: string -> string): seq<string> -> string {
    parts => v5(Colons(parts))
  }

  ghost predicate Injective(v5: string -> string) {
    forall a, b :: v5(a) == v5(b) ==> a == b
  }

  lemma SamePart(a: string, s: string, b: string, t: string)
    requires a + ":" + s == b + ":" + t && ':' !in a && ':' !in b
    ensures a == b && s == t
  {
    var u := a + ":" + s;
    assert u[|a|] == ':' && u[|b|] == ':';
    forall i | 0 <= i < |a| ensures u[i] != ':' {
      assert u[i] == a[i] && a[i] in a;
    }
    forall i | 0 <= i < |b| ensures u[i] != ':' {
      assert u[i] == b[i] && b[i] in b;
    }
    assert a == u[..|a|] && b == u[..|b|];
    assert s == u[|a| + 1..] && t == u[|b| + 1..];
  }

  /** When no part but the last holds a colon, the joined text tells all of them. */
  lemma {:induction false} ColonsTell(ps: seq<string>, qs: seq<string>)
    requires |ps| == |qs| > 0
    requires forall i :: 0 <= i < |ps| - 1 ==> ':' !in ps[i] && ':' !in qs[i]
    ensures Colons(ps) == Colons(qs) <==> ps == qs
  {
    if |ps| > 1 {
      assert ps == [ps[0]] + ps[1..] && qs == [qs[0]] + qs[1..];
      ColonsTell(ps[1..], qs[1..]);
      if Colons(ps) == Colons(qs) {
        SamePart(ps[0], Colons(ps[1..]), qs[0], Colons(qs[1..]));
      }
    } else {
      assert ps == [ps[0]] && qs == [qs[0]];
    }
  }

  /** A colon inside a part can be read as the one between two parts. */
  lemma ColonsConfuse(a: string, b: string, c: string)
    ensures Colons([a + ":" + b, c]) == Colons([a, b + ":" + c])
    ensures [a + ":" + b, c] != [a, b + ":" + c]
  {
    assert Colons([a + ":" + b, c]) == a + ":" + b + ":" + c;
    assert Colons([a, b + ":" + c]) == a + ":" + (b + ":" + c);
    assert |a + ":" + b| > |a|;
  }

  /** The run names things as the emitter does, by a hash without collisions that prints no colon. */
  ghost predicate NamesByHash(run: Run, v5: string -> string) {
    run.uuid == Naming(v5) && Injective(v5) && forall t :: ':' !in v5(t)
  }

  function ResultUuid(run: Run): string {
    run.uuid(["result", run.systemId, run.runId])
  }

  lemma ResultIsPlain(run: Run, v5: string -> string)
    requires NamesByHash(run, v5)
    ensures ':' !in ResultUuid(run) && ResultUuid(run) == v5(Colons(["result", run.systemId, run.runId]))
  {
    assert run.uuid(["result", run.systemId, run.runId]) == v5(Colons(["result", run.systemId, run.runId]));
  }

  /** Two observations of one run have one name exactly when they are of one check and one asset. */
  lemma ObservationsToldApart(run: Run, v5: string -> string, e: Evaluation, f: Evaluation)
    requires NamesByHash(run, v5) && ':' !in e.check.id && ':' !in f.check.id
    ensures ObservationUuid(run, e) == ObservationUuid(run, f) <==>
            e.check.id == f.check.id && e.subject.assetId == f.subject.assetId
  {
    var ps := ["observation", ResultUuid(run), e.check.id, e.subject.assetId];
    var qs := ["observation", ResultUuid(run), f.check.id, f.subject.assetId];
    ResultIsPlain(run, v5);
    assert ':' !in "observation";
    ColonsTell(ps, qs);
    assert ObservationUuid(run, e) == v5(Colons(ps)) && ObservationUuid(run, f) == v5(Colons(qs));
    if ps == qs {
      assert ps[2] == qs[2] && ps[3] == qs[3];
    }
  }

  /** In a later run of the same system every observation gets a new name. */
  lemma ObservationsAreOfTheirRun(run: Run, runId: string, v5: string -> string, e: Evaluation, f: Evaluation)
    requires NamesByHash(run, v5) && ':' !in run.systemId && runId != run.runId
    requires ':' !in e.check.id && ':' !in f.check.id
    ensures ObservationUuid(run, e) != ObservationUuid(run.(runId := runId), f)
  {
    var later := run.(runId := runId);
    var rs, ss := ["result", run.systemId, run.runId], ["result", run.systemId, runId];
    assert ':' !in "result" && rs[2] != ss[2];
    ColonsTell(rs, ss);
    ResultIsPlain(run, v5);
    ResultIsPlain(later, v5);
    var ps := ["observation", ResultUuid(run), e.check.id, e.subject.assetId];
    var qs := ["observation", ResultUuid(later), f.check.id, f.subject.assetId];
    assert ':' !in "observation" && ps[1] != qs[1];
    ColonsTell(ps, qs);
    assert ObservationUuid(run, e) == v5(Colons(ps)) && ObservationUuid(later, f) == v5(Colons(qs));
  }

  /** An action item keeps its name from run to run, and two controls without a colon never share one. */
  lemma ItemsKeepTheirName(run: Run, runId: string, v5: string -> string, c: string, d: string)
    requires NamesByHash(run, v5) && ':' !in run.systemId && ':' !in c && ':' !in d
    ensures ItemUuid(run, c) == ItemUuid(run.(runId := runId), d) <==> c == d
  {
    var key := run.systemId + "/" + run.baseline;
    var ps := ["poam", run.systemId, c, "aggregate", key];
    var qs := ["poam", run.systemId, d, "aggregate", key];
    assert ':' !in "poam" && ':' !in "aggregate";
    ColonsTell(ps, qs);
    assert ItemUuid(run, c) == v5(Colons(ps)) && ItemUuid(run.(runId := runId), d) == v5(Colons(qs));
    if ps == qs {
      assert ps[2] == qs[2];
    }
  }
}
