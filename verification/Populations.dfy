/** The figures of a finding, determination by determination. */
module Populations {
  import opened Text
  import opened Contract
  import opened Evaluate
  import opened Emit

  /** Some determination was made of the subject. */
  ghost predicate Seen(ds: seq<Evaluation>, subject: string) {
    exists e :: e in ds && e.subject.assetId == subject
  }

  /** Some determination of the subject failed. */
  ghost predicate Fails(ds: seq<Evaluation>, subject: string) {
    exists e :: e in ds && e.subject.assetId == subject && e.Status().NotSatisfied?
  }

  /** Some determination of the subject says that the control applies to it. */
  ghost predicate IsApplicable(ds: seq<Evaluation>, subject: string) {
    exists e :: e in ds && e.subject.assetId == subject && !e.Status().NotApplicable?
  }

  lemma SeenExact(ds: seq<Evaluation>)
    ensures forall s :: s in SubjectsOf(ds) <==> Seen(ds, s)
  {
  }

  lemma FailingExact(ds: seq<Evaluation>)
    ensures forall s :: s in SubjectsOf(WithStatus(ds, NotSatisfied)) <==> Fails(ds, s)
  {
    forall s ensures s in SubjectsOf(WithStatus(ds, NotSatisfied)) <==> Fails(ds, s) {
      if e :| e in ds && e.subject.assetId == s && e.Status().NotSatisfied? {
        assert e in WithStatus(ds, NotSatisfied);
      }
    }
  }

  lemma NotApplicableExact(ds: seq<Evaluation>)
    ensures forall s :: s in NotApplicableSubjects(ds) <==> Seen(ds, s) && !IsApplicable(ds, s)
  {
  }

  lemma ComplementSize(all: set<string>, some: set<string>, others: set<string>)
    requires forall s :: s in all <==> s in some || s in others
    requires some !! others
    ensures |some| + |others| == |all|
  {
    assert all == some + others;
  }

  /**
   Of the subjects assessed, those with a failed determination and those without one make up all, and so do those found
   not applicable throughout and those found applicable once.
   */
  lemma PopulationCounts(ds: seq<Evaluation>, estateTotal: nat, passing: set<string>, applicable: set<string>)
    requires forall s :: s in passing <==> Seen(ds, s) && !Fails(ds, s)
    requires forall s :: s in applicable <==> IsApplicable(ds, s)
    ensures var p := PopulationOf(ds, estateTotal);
            p.failing + |passing| == p.assessed && p.na + |applicable| == p.assessed
  {
    SeenExact(ds);
    FailingExact(ds);
    NotApplicableExact(ds);
    ComplementSize(SubjectsOf(ds), SubjectsOf(WithStatus(ds, NotSatisfied)), passing);
    ComplementSize(SubjectsOf(ds), NotApplicableSubjects(ds), applicable);
  }

  lemma OneMore(a: set<string>, b: set<string>, s: string)
    requires forall t :: t != s ==> (t in a <==> t in b)
    ensures |b| == |a| + (if s in b then 1 else 0) - (if s in a then 1 else 0)
  {
    Without(a, s);
    Without(b, s);
    assert a - {s} == b - {s};
  }

  lemma Without(a: set<string>, s: string)
    ensures |a| == |a - {s}| + if s in a then 1 else 0
  {
    assert s in a ==> a == (a - {s}) + {s};
    assert s !in a ==> a == a - {s};
  }

  lemma OthersUnmoved(ds: seq<Evaluation>, e: Evaluation)
    ensures forall s :: s != e.subject.assetId ==> (Seen(ds + [e], s) <==> Seen(ds, s))
    ensures forall s :: s != e.subject.assetId ==> (Fails(ds + [e], s) <==> Fails(ds, s))
    ensures forall s :: s != e.subject.assetId ==> (IsApplicable(ds + [e], s) <==> IsApplicable(ds, s))
  {
    assert forall f :: f in ds + [e] <==> f in ds || f == e;
  }

  lemma SubjectMoves(ds: seq<Evaluation>, e: Evaluation)
    ensures var s := e.subject.assetId;
            && Seen(ds + [e], s)
            && (Fails(ds + [e], s) <==> Fails(ds, s) || e.Status().NotSatisfied?)
            && (IsApplicable(ds + [e], s) <==> IsApplicable(ds, s) || !e.Status().NotApplicable?)
  {
    assert e in ds + [e] && forall f :: f in ds + [e] <==> f in ds || f == e;
  }

  lemma AssessedStep(ds: seq<Evaluation>, e: Evaluation)
    ensures |SubjectsOf(ds + [e])| == |SubjectsOf(ds)| + if Seen(ds, e.subject.assetId) then 0 else 1
  {
    OthersUnmoved(ds, e);
    SubjectMoves(ds, e);
    SeenExact(ds);
    SeenExact(ds + [e]);
    OneMore(SubjectsOf(ds), SubjectsOf(ds + [e]), e.subject.assetId);
  }

  lemma FailingStep(ds: seq<Evaluation>, e: Evaluation)
    ensures |SubjectsOf(WithStatus(ds + [e], NotSatisfied))| == |SubjectsOf(WithStatus(ds, NotSatisfied))|
            + if e.Status().NotSatisfied? && !Fails(ds, e.subject.assetId) then 1 else 0
  {
    OthersUnmoved(ds, e);
    SubjectMoves(ds, e);
    FailingExact(ds);
    FailingExact(ds + [e]);
    OneMore(SubjectsOf(WithStatus(ds, NotSatisfied)), SubjectsOf(WithStatus(ds + [e], NotSatisfied)),
            e.subject.assetId);
  }

  lemma NotApplicableStep(ds: seq<Evaluation>, e: Evaluation)
    ensures |NotApplicableSubjects(ds + [e])| == |NotApplicableSubjects(ds)| + NotApplicableChange(ds, e)
  {
    NotApplicableExact(ds);
    NotApplicableExact(ds + [e]);
    NotApplicableMoves(ds, e, NotApplicableSubjects(ds), NotApplicableSubjects(ds + [e]));
  }

  lemma NotApplicableMoves(ds: seq<Evaluation>, e: Evaluation, before: set<string>, after: set<string>)
    requires forall s :: s in before <==> Seen(ds, s) && !IsApplicable(ds, s)
    requires forall s :: s in after <==> Seen(ds + [e], s) && !IsApplicable(ds + [e], s)
    ensures |after| == |before| + NotApplicableChange(ds, e)
  {
    OthersUnmoved(ds, e);
    SubjectMoves(ds, e);
    NothingHidden(ds, e.subject.assetId);
    OneMore(before, after, e.subject.assetId);
  }

  lemma NothingHidden(ds: seq<Evaluation>, s: string)
    ensures IsApplicable(ds, s) ==> Seen(ds, s)
  {
  }

  /** A subject counts as not applicable from its first determination until it is once found applicable. */
  ghost function NotApplicableChange(ds: seq<Evaluation>, e: Evaluation): int {
    var s := e.subject.assetId;
    if e.Status().NotApplicable? && !Seen(ds, s) then 1
    else if !e.Status().NotApplicable? && Seen(ds, s) && !IsApplicable(ds, s) then -1
    else 0
  }

  /**
   Starting from nothing, each further determination counts itself, and its subject: as assessed the first time, as
   failing from its first failure, and as not applicable until it is once found applicable.
   */
  lemma PopulationStep(ds: seq<Evaluation>, e: Evaluation, estateTotal: nat)
    ensures PopulationOf([], estateTotal) == Population(estateTotal, 0, 0, 0, 0)
    ensures var p, q, s := PopulationOf(ds, estateTotal), PopulationOf(ds + [e], estateTotal), e.subject.assetId;
            && q.observations == p.observations + 1
            && q.assessed == p.assessed + (if Seen(ds, s) then 0 else 1)
            && q.failing == p.failing + (if e.Status().NotSatisfied? && !Fails(ds, s) then 1 else 0)
            && q.na == p.na + NotApplicableChange(ds, e)
            && q.total == if estateTotal >= q.assessed then estateTotal else q.assessed
  {
    AssessedStep(ds, e);
    FailingStep(ds, e);
    NotApplicableStep(ds, e);
  }
}
