/** Strings in code-point order, and the sorted keys of a mapping. */
module Order {

  predicate LessEq(s: string, t: string) {
    s == "" || (t != "" && (s[0] < t[0] || (s[0] == t[0] && LessEq(s[1..], t[1..]))))
  }

  lemma {:induction false} LessEqTotal(s: string, t: string)
    ensures LessEq(s, t) || LessEq(t, s)
  {
    if s != "" && t != "" {
      LessEqTotal(s[1..], t[1..]);
    }
  }

  lemma {:induction false} LessEqAntisymmetric(s: string, t: string)
    requires LessEq(s, t) && LessEq(t, s)
    ensures s == t
  {
    if s != "" && t != "" {
      LessEqAntisymmetric(s[1..], t[1..]);
      assert s == [s[0]] + s[1..] && t == [t[0]] + t[1..];
    }
  }

  lemma {:induction false} LessEqTransitive(s: string, t: string, u: string)
    requires LessEq(s, t) && LessEq(t, u)
    ensures LessEq(s, u)
  {
    if s != "" && s[0] == t[0] && t[0] == u[0] {
      LessEqTransitive(s[1..], t[1..], u[1..]);
    }
  }

  predicate IsLeast(s: set<string>, x: string) {
    x in s && forall y :: y in s ==> LessEq(x, y)
  }

  lemma {:induction false} LeastExists(s: set<string>)
    requires s != {}
    ensures exists x :: IsLeast(s, x)
  {
    var z :| z in s;
    LessEqTotal(z, z);
    if s == {z} {
      assert IsLeast(s, z);
    } else {
      var rest := s - {z};
      assert s == rest + {z};
      LeastExists(rest);
      var x :| IsLeast(rest, x);
      LessEqTotal(x, z);
      var least := if LessEq(x, z) then x else z;
      forall y | y in s ensures LessEq(least, y) {
        if y != z && least == z {
          LessEqTransitive(z, x, y);
        }
      }
      assert IsLeast(s, least);
    }
  }

  lemma LeastIsUnique(s: set<string>, x: string, y: string)
    requires IsLeast(s, x) && IsLeast(s, y)
    ensures x == y
  {
    LessEqAntisymmetric(x, y);
  }

  ghost predicate Sorted(r: seq<string>) {
    forall i, j :: 0 <= i < j < |r| ==> LessEq(r[i], r[j]) && r[i] != r[j]
  }

  /** `sorted(s)`: every element once, in order. */
  function SortedKeys(s: set<string>): (r: seq<string>)
    ensures forall x :: x in r <==> x in s
    ensures Sorted(r)
    ensures |r| == |s|
    decreases |s|
  {
    if s == {} then []
    else
      LeastExists(s);
      assert forall x, y :: IsLeast(s, x) && IsLeast(s, y) ==> x == y by {
        forall x, y | IsLeast(s, x) && IsLeast(s, y) ensures x == y { LeastIsUnique(s, x, y); }
      }
      var x :| IsLeast(s, x);
      [x] + SortedKeys(s - {x})
  }
}
