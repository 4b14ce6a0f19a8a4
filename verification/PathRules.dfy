/**
 AppLocker path rules: normalising a path, expanding the AppLocker variables, and the two
 relations between a rule's pattern and a location on disk.
 */
module PathRules {
  import opened Text
  import opened Glob

  const DEFAULT_ROOT := "C:\\WINDOWS"
  const DEFAULT_DRIVE := "C:"
  const WINDIR := "%WINDIR%"
  const SYSTEM32 := "%SYSTEM32%"
  const OSDRIVE := "%OSDRIVE%"
  const PROGRAMFILES := "%PROGRAMFILES%"
  const REMOVABLE := "%REMOVABLE%"
  const HOT := "%HOT%"

  // ----- normalising --------------------------------------------------------

  /** Drop trailing separators, but never below three characters (`C:\` keeps its own). */
  function TrimSeparators(t: string): (r: string)
    ensures r <= t
    ensures |r| > 3 ==> r[|r| - 1] != '\\'
    ensures |t| <= 3 ==> r == t
    ensures |t| > 3 ==> |r| >= 3
  {
    if |t| > 3 && t[|t| - 1] == '\\' then TrimSeparators(t[..|t| - 1]) else t
  }

  /** Without outer blanks, with back-slashes and in capitals. */
  function Folded(path: string): (r: string)
    ensures forall i :: 0 <= i < |r| ==> r[i] != '/' && !('a' <= r[i] <= 'z')
    ensures r == "" || !IsSpace(r[0])
  {
    Upper(ReplaceChar(Strip(path), '/', '\\'))
  }

  lemma FrontOf(t: string, r: string)
    requires r <= t
    ensures forall i :: 0 <= i < |r| ==> r[i] == t[i]
  {
  }

  /** The form every comparison is made in: upper case, back-slashes, no trailing separator. */
  function Normalise(path: string): (r: string)
    ensures |r| > 3 ==> r[|r| - 1] != '\\'
    ensures forall i :: 0 <= i < |r| ==> r[i] != '/' && !('a' <= r[i] <= 'z')
    ensures r == "" || !IsSpace(r[0])
  {
    FrontOf(Folded(path), TrimSeparators(Folded(path)));
    TrimSeparators(Folded(path))
  }

  /** The loop of `_normalise`. */
  method NormaliseText(path: string) returns (text: string)
    ensures text == Normalise(path)
  {
    text := Folded(path);
    while |text| > 3 && text[|text| - 1] == '\\'
      invariant TrimSeparators(text) == Normalise(path)
    {
      text := text[..|text| - 1];
    }
  }

  // ----- expanding variables ------------------------------------------------

  /** The host's Windows directory, normalised, with the usual default. */
  function RootOf(windowsRoot: string): (r: string)
    ensures r != ""
  {
    var root := Normalise(windowsRoot);
    if root == "" then DEFAULT_ROOT else root
  }

  function DriveOf(root: string): string {
    if |root| > 1 && root[1] == ':' then root[..2] else DEFAULT_DRIVE
  }

  /** Characters a variable's name never holds and an absolute path always does. */
  predicate IsPathMark(c: char) {
    c == ':' || c == '\\'
  }

  /** The rest of a variable from somewhere inside its name: name characters, then `%`. */
  predicate IsNameTail(t: string) {
    t != "" && t[|t| - 1] == '%' && forall i :: 0 <= i < |t| - 1 ==> t[i] != '%' && !IsPathMark(t[i])
  }

  predicate IsVariable(w: string) {
    w != "" && w[0] == '%' && IsNameTail(w[1..])
  }

  type Variable = w: string | IsVariable(w) witness "%%"

  datatype Substitution = Substitution(variable: Variable, values: seq<string>)

  /** AppLocker's four expandable variables, in the order they are substituted. */
  function Substitutions(root: string): seq<Substitution> {
    [ Substitution(WINDIR, [root]),
      Substitution(SYSTEM32, [root + "\\SYSTEM32", root + "\\SYSWOW64"]),
      Substitution(OSDRIVE, [DriveOf(root)]),
      Substitution(PROGRAMFILES, [DriveOf(root) + "\\PROGRAM FILES", DriveOf(root) + "\\PROGRAM FILES (X86)"]) ]
  }

  function ReplaceByEach(c: string, variable: Variable, values: seq<string>): (r: seq<string>)
    ensures |r| == |values|
    ensures forall i :: 0 <= i < |values| ==> r[i] == Replace(c, variable, values[i])
  {
    if values == [] then [] else [Replace(c, variable, values[0])] + ReplaceByEach(c, variable, values[1..])
  }

  /** Every candidate with the variable replaced by every value, candidate by candidate. */
  function ReplaceInAll(cs: seq<string>, variable: Variable, values: seq<string>): seq<string> {
    if cs == [] then []
    else ReplaceByEach(cs[0], variable, values) + ReplaceInAll(cs[1..], variable, values)
  }

  /** One substitution; a variable no candidate mentions multiplies nothing. */
  function Substitute(cs: seq<string>, sub: Substitution): seq<string> {
    if exists c :: c in cs && Occurs(c, sub.variable) then ReplaceInAll(cs, sub.variable, sub.values) else cs
  }

  function SubstituteAll(cs: seq<string>, subs: seq<Substitution>): seq<string>
    decreases |subs|
  {
    if subs == [] then cs else SubstituteAll(Substitute(cs, subs[0]), subs[1..])
  }

  /** The real directories a rule's pattern stands for on this host. */
  function Expand(pattern: string, windowsRoot: string): seq<string> {
    var text := Normalise(pattern);
    if Occurs(text, REMOVABLE) || Occurs(text, HOT) then []
    else SubstituteAll([text], Substitutions(RootOf(windowsRoot)))
  }

  /** The loop of `_expand`, which rebuilds the candidate list once per variable. */
  method SubstituteEach(cs: seq<string>, subs: seq<Substitution>) returns (candidates: seq<string>)
    ensures candidates == SubstituteAll(cs, subs)
  {
    candidates := cs;
    var i := 0;
    while i < |subs|
      invariant 0 <= i <= |subs|
      invariant SubstituteAll(candidates, subs[i..]) == SubstituteAll(cs, subs)
    {
      assert subs[i..][0] == subs[i] && subs[i..][1..] == subs[i + 1..];
      if exists c :: c in candidates && Occurs(c, subs[i].variable) {
        candidates := ReplaceInAll(candidates, subs[i].variable, subs[i].values);
      }
      i := i + 1;
    }
  }

  method ExpandCandidates(pattern: string, windowsRoot: string) returns (candidates: seq<string>)
    ensures candidates == Expand(pattern, windowsRoot)
  {
    var text := NormaliseText(pattern);
    if Occurs(text, REMOVABLE) || Occurs(text, HOT) {
      return [];
    }
    candidates := SubstituteEach([text], Substitutions(RootOf(windowsRoot)));
  }

  // ----- the two relations ----------------------------------------------------

  predicate EndsInAnything(e: string) {
    |e| >= 2 && e[|e| - 2..] == "\\*"
  }

  /** `X` for a pattern written `X\*`, and the empty text for any other. */
  function Trimmed(e: string): string {
    if EndsInAnything(e) then e[..|e| - 2] else ""
  }

  /** The literal directory part a pattern begins with, without trailing separators. */
  function Stem(e: string): string {
    StripSeparators(Literal(e))
  }

  /** `rstrip("\\")`: unlike `TrimSeparators`, down to nothing. */
  function StripSeparators(t: string): (r: string)
    ensures r <= t
    ensures r == "" || r[|r| - 1] != '\\'
    ensures |r| < |t| ==> t[|r|] == '\\'
  {
    if t != "" && t[|t| - 1] == '\\' then StripSeparators(t[..|t| - 1]) else t
  }

  /** The tests `_contains` makes of one expanded pattern, in its order. */
  predicate CandidateContains(e: string, loc: string) {
    e != "" &&
    ( || Match(e, loc) || Match(e + "\\*", loc)
      || (!HasWildcard(e) && (loc == e || e + "\\" <= loc))
      || (Trimmed(e) != "" &&
          (|| Match(Trimmed(e), loc)
           || (!HasWildcard(Trimmed(e)) && (loc == Trimmed(e) || Trimmed(e) + "\\" <= loc)))))
  }

  predicate SomeContains(es: seq<string>, loc: string) {
    exists e | e in es :: CandidateContains(e, loc)
  }

  /** `_contains`: the whole of `location` lies inside what the pattern matches. */
  predicate Contains(pattern: string, location: string, windowsRoot: string) {
    SomeContains(Expand(pattern, windowsRoot), Normalise(location))
  }

  /** What `_covers` adds for one expanded pattern: the pattern is narrower than the location. */
  predicate CandidateNarrower(e: string, loc: string) {
    Stem(e) != "" && (Stem(e) == loc || loc + "\\" <= Stem(e))
  }

  /** `_covers` seen from one expanded pattern. */
  predicate CandidateCovers(e: string, loc: string) {
    CandidateContains(e, loc) || CandidateNarrower(e, loc)
  }

  predicate SomeNarrower(es: seq<string>, loc: string) {
    exists e | e in es :: CandidateNarrower(e, loc)
  }

  /** `_covers`: the pattern permits execution from somewhere within `location`. */
  predicate Covers(pattern: string, location: string, windowsRoot: string) {
    Contains(pattern, location, windowsRoot) || SomeNarrower(Expand(pattern, windowsRoot), Normalise(location))
  }
}
