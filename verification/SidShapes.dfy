/** The shape test for security identifiers, against the regular expression it stands for. */
module SidShapes {
  import opened Text
  import opened Json
  import opened Redact
  import opened RedactTheorems

  /** Groups joined by single dashes. */
  function Dashed(groups: seq<string>): string {
    if groups == [] then "" else if |groups| == 1 then groups[0] else groups[0] + "-" + Dashed(groups[1..])
  }

  ghost predicate AllGroups(groups: seq<string>) {
    forall g :: g in groups ==> AllDigits(g)
  }

  lemma {:induction false} DashedIsGroups(groups: seq<string>)
    requires groups != [] && AllGroups(groups)
    ensures DigitGroups(Dashed(groups)) && Count(Dashed(groups), '-') == |groups| - 1
  {
    if |groups| == 1 {
      OneGroup(groups[0]);
    } else {
      DashedIsGroups(groups[1..]);
      OneMoreGroup(groups[0], Dashed(groups[1..]));
    }
  }

  /** A text of digit groups, cut at its first dash. */
  lemma FirstGroup(t: string, n: nat)
    requires DigitGroups(t) && n < |t| && t[n] == '-' && '-' !in t[..n]
    ensures AllDigits(t[..n]) && DigitGroups(t[n + 1..]) && t == t[..n] + "-" + t[n + 1..]
  {
    var r := t[n + 1..];
    assert 0 < n < |t| - 1;
    assert forall c :: c in t[..n] ==> c in t;
    assert r[|r| - 1] == t[|t| - 1] && forall c :: c in r ==> c in t;
    assert t[n] == '-' ==> IsDigit(t[n + 1]);
    forall i, j | 0 <= i && j == i + 1 < |r| && r[i] == '-' ensures IsDigit(r[j]) {
      assert t[i + n + 1] == r[i] && t[j + n + 1] == r[j];
    }
  }

  lemma {:induction false} FirstDash(t: string) returns (n: nat)
    ensures n <= |t| && '-' !in t[..n] && (n == |t| || t[n] == '-')
  {
    n := 0;
    if t != "" && t[0] != '-' {
      var m := FirstDash(t[1..]);
      n := m + 1;
      assert t[..n] == [t[0]] + t[1..][..m];
    }
  }

  lemma {:induction false} GroupsOf(t: string) returns (groups: seq<string>)
    requires DigitGroups(t)
    ensures groups != [] && AllGroups(groups) && t == Dashed(groups)
    decreases |t|
  {
    var n := FirstDash(t);
    if n == |t| {
      assert t[..n] == t;
      groups := [t];
    } else {
      FirstGroup(t, n);
      var rest := GroupsOf(t[n + 1..]);
      groups := [t[..n]] + rest;
      assert groups[1..] == rest;
    }
  }

  /** `S-1-`, in either case, and the groups. */
  ghost predicate Spells(s: string, groups: seq<string>) {
    AllGroups(groups) && (s == "S-1-" + Dashed(groups) || s == "s-1-" + Dashed(groups))
  }

  ghost predicate HasShape(s: string) {
    exists groups :: |groups| >= 3 && Spells(s, groups)
  }

  /** The test accepts exactly `S-1-`, in either case, followed by at least three groups of digits joined by dashes. */
  lemma SidShapeExact(s: string)
    ensures IsSid(s) <==> HasShape(s)
  {
    if IsSid(s) {
      var groups := GroupsOf(s[4..]);
      DashedIsGroups(groups);
      FrontOfSid(s, s[4..]);
      assert Spells(s, groups);
    }
    if groups :| |groups| >= 3 && Spells(s, groups) {
      DashedIsGroups(groups);
      SidFromFront(s, Dashed(groups));
    }
  }

  lemma FrontOfSid(s: string, t: string)
    requires IsSid(s) && t == s[4..]
    ensures s == "S-1-" + t || s == "s-1-" + t
  {
    assert s == [s[0]] + s[1..4] + t;
  }

  lemma SidFromFront(s: string, t: string)
    requires s == "S-1-" + t || s == "s-1-" + t
    requires DigitGroups(t) && Count(t, '-') >= 2
    ensures IsSid(s)
  {
    assert s[1..4] == "-1-" && s[4..] == t;
  }

  /** A value of that shape is recognised whatever key it lies under, also before one final line feed. */
  lemma RecognisedExact(v: Json)
    ensures LooksLikeSid(v) <==> v.Str? && (HasShape(v.s) || exists t :: v.s == t + ['\n'] && HasShape(t))
  {
    if v.Str? {
      SidShapeExact(v.s);
      if v.s != "" {
        var t := v.s[..|v.s| - 1];
        SidShapeExact(t);
        assert v.s == t + [v.s[|v.s| - 1]];
      }
      if t :| v.s == t + ['\n'] && HasShape(t) {
        assert v.s[..|v.s| - 1] == t;
      }
    }
  }
}
