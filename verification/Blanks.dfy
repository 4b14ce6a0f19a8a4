/** What trimming does: exactly the blanks at both ends go. */
module Blanks {
  import opened Text

  /** Blanks at the end of a text are those at the end of its last part. */
  lemma {:induction false} StripRightOfTail(a: string, r: string)
    requires a != "" && !IsSpace(a[|a| - 1])
    ensures StripRight(a + r) == a + StripRight(r)
  {
    if r == "" {
      assert a + r == a;
    } else if IsSpace(r[|r| - 1]) {
      assert (a + r)[..|a + r| - 1] == a + r[..|r| - 1];
      StripRightOfTail(a, r[..|r| - 1]);
    }
  }

  lemma {:induction false} StripLeftOfBlanks(a: string, s: string)
    requires forall c :: c in a ==> IsSpace(c)
    ensures StripLeft(a + s) == StripLeft(s)
  {
    if a == "" {
      assert a + s == s;
    } else {
      assert a[0] in a && (a + s)[1..] == a[1..] + s;
      StripLeftOfBlanks(a[1..], s);
    }
  }

  lemma {:induction false} StripRightOfBlanks(s: string, b: string)
    requires forall c :: c in b ==> IsSpace(c)
    ensures StripRight(s + b) == StripRight(s)
  {
    if b == "" {
      assert s + b == s;
    } else {
      assert b[|b| - 1] in b && (s + b)[..|s + b| - 1] == s + b[..|b| - 1];
      StripRightOfBlanks(s, b[..|b| - 1]);
    }
  }

  lemma {:induction false} StripLeftJoins(s: string, b: string)
    requires StripLeft(s) != ""
    ensures StripLeft(s + b) == StripLeft(s) + b
  {
    if IsSpace(s[0]) {
      var rest := s[1..];
      assert s == [s[0]] + rest && s + b == [s[0]] + (rest + b);
      StripLeftOfBlanks([s[0]], rest);
      StripLeftOfBlanks([s[0]], rest + b);
      StripLeftJoins(rest, b);
    } else {
      assert (s + b)[0] == s[0];
    }
  }

  lemma {:induction false} AllBlank(s: string)
    ensures StripLeft(s) == "" ==> forall c :: c in s ==> IsSpace(c)
  {
    if s != "" && IsSpace(s[0]) {
      AllBlank(s[1..]);
      assert forall c :: c in s ==> c == s[0] || c in s[1..];
    }
  }

  lemma BlanksStripAway(s: string)
    requires forall c :: c in s ==> IsSpace(c)
    ensures Strip(s) == ""
  {
    StripLeftOfBlanks(s, "");
    assert s + "" == s;
  }

  lemma StripOuter(a: string, s: string, b: string)
    requires forall c :: c in a + b ==> IsSpace(c)
    ensures Strip(a + s + b) == Strip(s)
  {
    assert (forall c :: c in a ==> IsSpace(c)) && forall c :: c in b ==> IsSpace(c);
    assert a + s + b == a + (s + b);
    StripLeftOfBlanks(a, s + b);
    if StripLeft(s) == "" {
      AllBlank(s);
      BlanksStripAway(s + b);
    } else {
      StripLeftJoins(s, b);
      StripRightOfBlanks(StripLeft(s), b);
    }
  }

  ghost predicate IsBlank(s: string) {
    forall c :: c in s ==> IsSpace(c)
  }

  ghost predicate HasBareEnds(t: string) {
    t == "" || (!IsSpace(t[0]) && !IsSpace(t[|t| - 1]))
  }

  lemma {:induction false} LeftIsBlank(s: string)
    ensures IsBlank(s[..|s| - |StripLeft(s)|])
  {
    if s != "" && IsSpace(s[0]) {
      LeftIsBlank(s[1..]);
      assert s[..|s| - |StripLeft(s)|] == [s[0]] + s[1..][..|s| - 1 - |StripLeft(s)|];
    }
  }

  lemma {:induction false} RightIsBlank(s: string)
    ensures IsBlank(s[|StripRight(s)|..])
  {
    if s != "" && IsSpace(s[|s| - 1]) {
      RightIsBlank(s[..|s| - 1]);
      assert s[|StripRight(s)|..] == s[..|s| - 1][|StripRight(s)|..] + [s[|s| - 1]];
    }
  }

  ghost predicate BlanksAround(a: string, b: string, s: string, t: string) {
    IsBlank(a) && IsBlank(b) && s == a + t + b
  }

  /** Only blanks lead from the inner text to the whole. */
  ghost predicate IsPadded(s: string, t: string) {
    exists a, b :: BlanksAround(a, b, s, t)
  }

  lemma StripPads(s: string)
    ensures HasBareEnds(Strip(s)) && IsPadded(s, Strip(s))
  {
    var l := StripLeft(s);
    LeftIsBlank(s);
    RightIsBlank(l);
    Padded(s, l, StripRight(l));
  }

  lemma Padded(s: string, l: string, t: string)
    requires |l| <= |s| && l == s[|s| - |l|..] && IsBlank(s[..|s| - |l|])
    requires |t| <= |l| && t == l[..|t|] && IsBlank(l[|t|..])
    ensures IsPadded(s, t)
  {
    var a, b := s[..|s| - |l|], l[|t|..];
    assert s == a + t + b;
    assert BlanksAround(a, b, s, t);
  }

  lemma BareIsStripped(t: string)
    requires HasBareEnds(t)
    ensures Strip(t) == t
  {
  }

  /** The trimmed text is the one without blanks at its ends that blanks lead to the whole. */
  lemma StripExact(s: string, t: string)
    ensures Strip(s) == t ==> HasBareEnds(t) && IsPadded(s, t)
    ensures HasBareEnds(t) && IsPadded(s, t) ==> Strip(s) == t
  {
    StripPads(s);
    PaddedStrips(s, t);
  }

  lemma PaddedStrips(s: string, t: string)
    ensures HasBareEnds(t) && IsPadded(s, t) ==> Strip(s) == t
  {
    if HasBareEnds(t) && IsPadded(s, t) {
      var a, b :| BlanksAround(a, b, s, t);
      StripOuter(a, t, b);
      BareIsStripped(t);
    }
  }

  lemma BlankExact(s: string)
    ensures Strip(s) == "" <==> IsBlank(s)
  {
    if Strip(s) == "" {
      StripPads(s);
      var a, b :| BlanksAround(a, b, s, "");
      assert s == a + b;
    }
    if IsBlank(s) {
      BlanksStripAway(s);
    }
  }

  // ----- spelling ----------------------------------------------------------------------

  /** Of one length, and the same character for character once spelled alike. */
  ghost predicate SameUnder(spelling: char -> char, p: string, q: string) {
    |p| == |q| && forall i :: 0 <= i < |p| ==> spelling(p[i]) == spelling(q[i])
  }

  ghost predicate KeepsBlanks(spelling: char -> char) {
    forall c :: IsSpace(spelling(c)) <==> IsSpace(c)
  }

  lemma {:induction false} StripLeftUnder(spelling: char -> char, p: string, q: string)
    requires KeepsBlanks(spelling) && SameUnder(spelling, p, q)
    ensures SameUnder(spelling, StripLeft(p), StripLeft(q))
  {
    if p != "" {
      assert spelling(p[0]) == spelling(q[0]);
      assert IsSpace(p[0]) <==> IsSpace(q[0]);
      StripLeftUnder(spelling, p[1..], q[1..]);
    }
  }

  lemma {:induction false} StripRightUnder(spelling: char -> char, p: string, q: string)
    requires KeepsBlanks(spelling) && SameUnder(spelling, p, q)
    ensures SameUnder(spelling, StripRight(p), StripRight(q))
  {
    if p != "" {
      var n := |p| - 1;
      assert spelling(p[n]) == spelling(q[n]);
      assert IsSpace(p[n]) <==> IsSpace(q[n]);
      StripRightUnder(spelling, p[..n], q[..n]);
    }
  }

  /** Texts spelled alike are trimmed alike. */
  lemma StripUnder(spelling: char -> char, p: string, q: string)
    requires KeepsBlanks(spelling) && SameUnder(spelling, p, q)
    ensures SameUnder(spelling, Strip(p), Strip(q))
  {
    StripLeftUnder(spelling, p, q);
    StripRightUnder(spelling, StripLeft(p), StripLeft(q));
  }

  lemma UpperAlike(p: string, q: string)
    ensures Upper(p) == Upper(q) <==> SameUnder(UpperChar, p, q)
  {
    assert |p| == |Upper(p)| && |q| == |Upper(q)|;
    if Upper(p) == Upper(q) {
      forall i | 0 <= i < |p| ensures UpperChar(p[i]) == UpperChar(q[i]) {
        assert Upper(p)[i] == Upper(q)[i];
      }
    }
  }

  lemma LowerAlike(p: string, q: string)
    ensures Lower(p) == Lower(q) <==> SameUnder(LowerChar, p, q)
  {
    assert |p| == |Lower(p)| && |q| == |Lower(q)|;
    if Lower(p) == Lower(q) {
      forall i | 0 <= i < |p| ensures LowerChar(p[i]) == LowerChar(q[i]) {
        assert Lower(p)[i] == Lower(q)[i];
      }
    }
  }
}
