/** Shell-style matching as `fnmatch.fnmatchcase` does it, for patterns over `*` and `?`. */
module Glob {

  predicate IsWildcard(c: char) {
    c == '*' || c == '?'
  }

  predicate HasWildcard(p: string) {
    exists c | c in p :: IsWildcard(c)
  }

  /** `fnmatchcase(s, p)`: `*` stands for any text, `?` for any one character. */
  predicate Match(p: string, s: string)
    decreases |p| + |s|
  {
    if p == "" then s == ""
    else if p[0] == '*' then Match(p[1..], s) || (s != "" && Match(p, s[1..]))
    else s != "" && (p[0] == '?' || p[0] == s[0]) && Match(p[1..], s[1..])
  }

  /** A pattern without wildcards matches itself and nothing else. */
  lemma {:induction false} LiteralMatch(p: string, s: string)
    requires !HasWildcard(p)
    ensures Match(p, s) <==> s == p
  {
    if p != "" {
      assert p[0] in p;
      assert forall c :: c in p[1..] ==> c in p;
      if s != "" {
        LiteralMatch(p[1..], s[1..]);
        assert s == [s[0]] + s[1..] && p == [p[0]] + p[1..];
      }
    }
  }

  lemma {:induction false} StarMatchesAll(s: string)
    ensures Match("*", s)
  {
    assert "*"[1..] == "";
    if s != "" {
      StarMatchesAll(s[1..]);
    }
  }

  /** The three patterns that concatenation starts from, besides plain text. */
  lemma SingleWildcards(s: string)
    ensures Match("*", s)
    ensures Match("?", s) <==> |s| == 1
    ensures Match("", s) <==> s == ""
  {
    StarMatchesAll(s);
    assert "?"[1..] == "";
    if s != "" {
      assert Match("?", s) <==> Match("", s[1..]);
    }
  }

  /** Concatenating patterns concatenates what they match. */
  lemma {:induction false} MatchAppend(p: string, q: string, s: string, t: string)
    requires Match(p, s) && Match(q, t)
    ensures Match(p + q, s + t)
    decreases |p| + |s|
  {
    if p == "" {
      assert p + q == q && s + t == t;
    } else {
      assert (p + q)[1..] == p[1..] + q;
      if p[0] == '*' && Match(p[1..], s) {
        MatchAppend(p[1..], q, s, t);
      } else {
        assert (s + t)[1..] == s[1..] + t;
        if p[0] == '*' {
          MatchAppend(p, q, s[1..], t);
        } else {
          MatchAppend(p[1..], q, s[1..], t);
        }
      }
    }
  }

  /** Whatever a concatenation matches can be cut where the pattern was joined. */
  lemma {:induction false} MatchSplit(p: string, q: string, u: string) returns (k: nat)
    requires Match(p + q, u)
    ensures k <= |u| && Match(p, u[..k]) && Match(q, u[k..])
    decreases |p| + |u|
  {
    if p == "" {
      assert p + q == q;
      k := 0;
    } else {
      assert (p + q)[1..] == p[1..] + q;
      if p[0] == '*' && Match(p[1..] + q, u) {
        k := MatchSplit(p[1..], q, u);
      } else {
        var j;
        if p[0] == '*' {
          j := MatchSplit(p, q, u[1..]);
        } else {
          j := MatchSplit(p[1..], q, u[1..]);
        }
        k := j + 1;
        assert u[..k][1..] == u[1..][..j] && u[k..] == u[1..][j..];
      }
    }
  }

  /** The concatenation law: `p + q` matches exactly the joins of a `p`-match and a `q`-match. */
  lemma MatchConcat(p: string, q: string, u: string)
    ensures Match(p + q, u) <==> exists k :: 0 <= k <= |u| && Match(p, u[..k]) && Match(q, u[k..])
  {
    if Match(p + q, u) {
      var k := MatchSplit(p, q, u);
    }
    if k :| 0 <= k <= |u| && Match(p, u[..k]) && Match(q, u[k..]) {
      MatchAppend(p, q, u[..k], u[k..]);
      assert u[..k] + u[k..] == u;
    }
  }

  // ----- the literal part --------------------------------------------------

  /** Everything before the first wildcard. */
  function Literal(p: string): (l: string)
    ensures l <= p && !HasWildcard(l)
    ensures |l| < |p| ==> IsWildcard(p[|l|])
  {
    if p == "" || IsWildcard(p[0]) then "" else [p[0]] + Literal(p[1..])
  }

  /** The literal part of a text followed by a wildcard is that text. */
  lemma {:induction false} LiteralBeforeWildcard(p: string, rest: string)
    requires !HasWildcard(p) && (rest == "" || IsWildcard(rest[0]))
    ensures Literal(p + rest) == p
  {
    if p == "" {
      assert p + rest == rest;
    } else {
      assert p[0] in p && forall c :: c in p[1..] ==> c in p;
      LiteralBeforeWildcard(p[1..], rest);
      assert (p + rest)[1..] == p[1..] + rest;
    }
  }

  /** A pattern that ends in literal text only matches texts ending in it. */
  lemma MatchEndsWithLiteral(p: string, q: string, u: string)
    requires Match(p + q, u) && !HasWildcard(q)
    ensures |q| <= |u| && u[|u| - |q|..] == q
  {
    var k := MatchSplit(p, q, u);
    LiteralMatch(q, u[k..]);
  }

  /** Every match starts with the literal part. */
  lemma {:induction false} MatchStartsWithLiteral(p: string, s: string)
    requires Match(p, s)
    ensures Literal(p) <= s
  {
    if p != "" && !IsWildcard(p[0]) {
      MatchStartsWithLiteral(p[1..], s[1..]);
      assert s == [s[0]] + s[1..];
    }
  }

  /** One text a pattern matches: each wildcard becomes `c`. */
  function Instance(p: string, c: char): (s: string)
    ensures |s| == |p|
  {
    if p == "" then "" else [if IsWildcard(p[0]) then c else p[0]] + Instance(p[1..], c)
  }

  lemma StarTakesOne(p: string, c: char, s: string)
    requires Match(p, s)
    ensures Match("*" + p, [c] + s)
  {
    StarMatchesAll([c]);
    MatchAppend("*", p, [c], s);
  }

  lemma {:induction false} InstanceMatches(p: string, c: char)
    ensures Match(p, Instance(p, c))
    ensures Literal(p) <= Instance(p, c)
    ensures |Literal(p)| < |p| ==> Instance(p, c)[|Literal(p)|] == c
  {
    if p != "" {
      InstanceMatches(p[1..], c);
      var i := Instance(p, c);
      assert i[1..] == Instance(p[1..], c);
      if p[0] == '*' {
        StarTakesOne(p[1..], c, i[1..]);
        assert "*" + p[1..] == p && [c] + i[1..] == i;
      }
    }
  }
}
