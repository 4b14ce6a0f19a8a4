/** The string operations the pipeline relies on, over ASCII text. */
module Text {

  datatype Option<+T> = None | Some(value: T)

  datatype Result<+T, +E> = Ok(value: T) | Err(error: E)

  // ----- characters ------------------------------------------------------

  /** What `str.strip` removes: blank, tab to carriage return, and the four separators 28-31. */
  predicate IsSpace(c: char) {
    c == ' ' || 9 <= c as int <= 13 || 28 <= c as int <= 31
  }

  predicate IsDigit(c: char) {
    '0' <= c <= '9'
  }

  function UpperChar(c: char): (u: char)
    ensures !('a' <= u <= 'z')
    ensures IsSpace(u) <==> IsSpace(c)
    ensures u == '\\' <==> c == '\\'
    ensures u == '/' <==> c == '/'
  {
    if 'a' <= c <= 'z' then (c as int - 32) as char else c
  }

  function LowerChar(c: char): char {
    if 'A' <= c <= 'Z' then (c as int + 32) as char else c
  }

  function Upper(s: string): (u: string)
    ensures |u| == |s|
    ensures forall i :: 0 <= i < |s| ==> u[i] == UpperChar(s[i])
  {
    if s == "" then "" else [UpperChar(s[0])] + Upper(s[1..])
  }

  function Lower(s: string): (l: string)
    ensures |l| == |s|
    ensures forall i :: 0 <= i < |s| ==> l[i] == LowerChar(s[i])
  {
    if s == "" then "" else [LowerChar(s[0])] + Lower(s[1..])
  }

  // ----- trimming and replacing -------------------------------------------

  function StripLeft(s: string): (t: string)
    ensures t == "" || !IsSpace(t[0])
    ensures |t| <= |s| && t == s[|s| - |t|..]
  {
    if s != "" && IsSpace(s[0]) then StripLeft(s[1..]) else s
  }

  function StripRight(s: string): (t: string)
    ensures t == "" || !IsSpace(t[|t| - 1])
    ensures |t| <= |s| && t == s[..|t|]
  {
    if s != "" && IsSpace(s[|s| - 1]) then StripRight(s[..|s| - 1]) else s
  }

  /** `str.strip()`: no blank is left at either end. */
  function Strip(s: string): (t: string)
    ensures t == "" || (!IsSpace(t[0]) && !IsSpace(t[|t| - 1]))
  {
    StripRight(StripLeft(s))
  }

  function ReplaceChar(s: string, a: char, b: char): (t: string)
    ensures |t| == |s|
    ensures forall i :: 0 <= i < |s| ==> t[i] == if s[i] == a then b else s[i]
  {
    if s == "" then "" else [if s[0] == a then b else s[0]] + ReplaceChar(s[1..], a, b)
  }

  /** `sub` occurs in `s` at position `i`. */
  predicate OccursAt(s: string, sub: string, i: int) {
    0 <= i <= |s| && sub <= s[i..]
  }

  /** Python's `sub in s`. */
  predicate Occurs(s: string, sub: string) {
    exists i :: 0 <= i <= |s| && OccursAt(s, sub, i)
  }

  lemma {:induction false} OccursInRest(s: string, sub: string)
    requires s != ""
    ensures Occurs(s, sub) <==> sub <= s || Occurs(s[1..], sub)
  {
    if sub <= s {
      assert OccursAt(s, sub, 0);
    }
    if i :| 0 < i <= |s| && OccursAt(s, sub, i) {
      assert s[1..][i - 1..] == s[i..];
      assert OccursAt(s[1..], sub, i - 1);
    }
    if i :| 0 <= i <= |s| - 1 && OccursAt(s[1..], sub, i) {
      assert s[1..][i..] == s[i + 1..];
      assert OccursAt(s, sub, i + 1);
    }
  }

  lemma {:induction false} OccursInSuffix(s: string, n: nat, sub: string)
    requires n <= |s| && Occurs(s[n..], sub)
    ensures Occurs(s, sub)
  {
    var i :| 0 <= i <= |s| - n && OccursAt(s[n..], sub, i);
    assert s[n..][i..] == s[n + i..];
    assert OccursAt(s, sub, n + i);
  }

  /** `s.replace(old, new)`: every occurrence of `old`, leftmost first and without overlap. */
  function Replace(s: string, old_: string, new_: string): string
    requires old_ != ""
  {
    if s == "" then ""
    else if old_ <= s then new_ + Replace(s[|old_|..], old_, new_)
    else [s[0]] + Replace(s[1..], old_, new_)
  }

  lemma ReplaceKeepsFirst(c: char, s: string, old_: string, new_: string)
    requires old_ != "" && !(old_ <= [c] + s)
    ensures Replace([c] + s, old_, new_) == [c] + Replace(s, old_, new_)
  {
    assert ([c] + s)[1..] == s;
  }

  lemma ReplaceTakesFirst(s: string, old_: string, new_: string)
    requires old_ != ""
    ensures Replace(old_ + s, old_, new_) == new_ + Replace(s, old_, new_)
  {
    assert (old_ + s)[|old_|..] == s;
  }

  lemma {:induction false} ReplaceAbsent(s: string, old_: string, new_: string)
    requires old_ != "" && old_[0] !in s
    ensures Replace(s, old_, new_) == s
  {
    if s != "" {
      assert s[0] in s;
      ReplaceAbsent(s[1..], old_, new_);
    }
  }

  /** Cut off behind the first `n` characters, the texts are the same. */
  predicate ShownAlike(d: string, e: string, n: nat) {
    d == e || (|d| >= n && |e| >= n && d[..n] == e[..n])
  }

  /** `split(c)[0]`: what comes before the first `c`, or everything. */
  function BeforeFirst(s: string, c: char): (t: string)
    ensures c !in t && t <= s
    ensures |t| < |s| ==> s[|t|] == c
  {
    if s == "" || s[0] == c then "" else [s[0]] + BeforeFirst(s[1..], c)
  }

  /** `rsplit(c, 1)[-1]`: what follows the last `c`, or everything. */
  function AfterLast(s: string, c: char): (t: string)
    ensures c !in t
    ensures |t| <= |s| && t == s[|s| - |t|..]
    ensures |t| < |s| ==> s[|s| - |t| - 1] == c
  {
    if s == "" || s[|s| - 1] == c then "" else AfterLast(s[..|s| - 1], c) + [s[|s| - 1]]
  }

  lemma {:induction false} AfterLastAt(s: string, c: char, n: nat)
    requires 0 < n <= |s| && s[n - 1] == c && forall i :: n <= i < |s| ==> s[i] != c
    ensures AfterLast(s, c) == s[n..]
  {
    if n < |s| {
      AfterLastAt(s[..|s| - 1], c, n);
    }
  }
}
