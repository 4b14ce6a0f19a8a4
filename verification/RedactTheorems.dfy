/** What redaction promises about every value, at any depth. */
module RedactTheorems {
  import opened Text
  import opened Json
  import opened Redact

  // ----- the leaf law -----------------------------------------------------------------

  /** A scalar together with the last mapping key above it. */
  datatype Leaf = Leaf(key: Option<string>, value: Json)

  /** The action a leaf gets: that of its last key when the policy names it, else by shape, else the fallback. */
  function Effective(p: Policy, l: Leaf): Action {
    if l.key.Some? && p.Named(l.key.value).Some? then p.Named(l.key.value).value
    else if LooksLikeSid(l.value) then p.SidAction()
    else p.fallback
  }

  /** The leaves of a value that redaction keeps, in order; `key` is the last key above `v`. */
  function Survivors(p: Policy, v: Json, key: Option<string>): seq<Leaf>
    decreases v, 0
  {
    match v
    case Obj(fields) => FieldSurvivors(p, fields)
    case Arr(items) => ItemSurvivors(p, items, key)
    case _ => [Leaf(key, v)]
  }

  function FieldSurvivor(p: Policy, f: Field): seq<Leaf>
    decreases f
  {
    if p.Named(f.key) == Some(Drop) then [] else Survivors(p, f.value, Some(f.key))
  }

  function FieldSurvivors(p: Policy, fields: seq<Field>): seq<Leaf>
    decreases fields
  {
    if fields == [] then []
    else FieldSurvivors(p, fields[..|fields| - 1]) + FieldSurvivor(p, fields[|fields| - 1])
  }

  function ItemSurvivor(p: Policy, v: Json, key: Option<string>): seq<Leaf>
    decreases v, 1
  {
    if v.IsScalar() && Effective(p, Leaf(key, v)) == Drop then [] else Survivors(p, v, key)
  }

  function ItemSurvivors(p: Policy, items: seq<Json>, key: Option<string>): seq<Leaf>
    decreases items
  {
    if items == [] then []
    else ItemSurvivors(p, items[..|items| - 1], key) + ItemSurvivor(p, items[|items| - 1], key)
  }

  /** The scalars of a value, in order. */
  function Scalars(v: Json): seq<Json>
    decreases v
  {
    match v
    case Obj(fields) => FieldScalars(fields)
    case Arr(items) => ItemScalars(items)
    case _ => [v]
  }

  function FieldScalars(fields: seq<Field>): seq<Json>
    decreases fields
  {
    if fields == [] then [] else FieldScalars(fields[..|fields| - 1]) + Scalars(fields[|fields| - 1].value)
  }

  function ItemScalars(items: seq<Json>): seq<Json>
    decreases items
  {
    if items == [] then [] else ItemScalars(items[..|items| - 1]) + Scalars(items[|items| - 1])
  }

  /** Each leaf with its own effective action applied. */
  function ApplyEach(p: Policy, ls: seq<Leaf>): (r: seq<Json>)
    ensures |r| == |ls|
  {
    if ls == [] then []
    else ApplyEach(p, ls[..|ls| - 1]) + [Apply(p, Effective(p, ls[|ls| - 1]), ls[|ls| - 1].value)]
  }

  lemma {:induction false} ApplyEachAppend(p: Policy, a: seq<Leaf>, b: seq<Leaf>)
    ensures ApplyEach(p, a + b) == ApplyEach(p, a) + ApplyEach(p, b)
  {
    if b == [] {
      assert a + b == a;
    } else {
      assert (a + b)[..|a + b| - 1] == a + b[..|b| - 1];
      ApplyEachAppend(p, a, b[..|b| - 1]);
    }
  }

  function Inherits(p: Policy, key: Option<string>): Option<Action> {
    if key.Some? then p.Named(key.value) else None
  }

  lemma ScalarOfApply(p: Policy, a: Action, v: Json)
    requires v.IsScalar()
    ensures Apply(p, a, v).IsScalar() && Scalars(Apply(p, a, v)) == [Apply(p, a, v)]
  {
  }

  lemma {:induction false} LeafLawAt(p: Policy, v: Json, key: Option<string>, inherited: Option<Action>)
    requires inherited == if v.Obj? then None else Inherits(p, key)
    ensures Scalars(WalkValue(p, v, key, inherited)) == ApplyEach(p, Survivors(p, v, key))
    decreases v, 0
  {
    match v
    case Obj(fields) => LeafLawFields(p, fields);
    case Arr(items) => LeafLawItems(p, items, key);
    case _ =>
      ScalarOfApply(p, ActionFor(p, key, v, inherited), v);
      assert ActionFor(p, key, v, inherited) == Effective(p, Leaf(key, v));
      assert Survivors(p, v, key) == [Leaf(key, v)];
  }

  lemma {:induction false} LeafLawFields(p: Policy, fields: seq<Field>)
    ensures FieldScalars(WalkFields(p, fields, None)) == ApplyEach(p, FieldSurvivors(p, fields))
    decreases fields
  {
    if fields != [] {
      var f, rest := fields[|fields| - 1], fields[..|fields| - 1];
      LeafLawFields(p, rest);
      LeafLawField(p, f);
      FieldScalarsAppend(WalkFields(p, rest, None), WalkField(p, f, None));
      ApplyEachAppend(p, FieldSurvivors(p, rest), FieldSurvivor(p, f));
    }
  }

  lemma {:induction false} LeafLawField(p: Policy, f: Field)
    ensures FieldScalars(WalkField(p, f, None)) == ApplyEach(p, FieldSurvivor(p, f))
    decreases f
  {
    if p.Named(f.key) != Some(Drop) {
      var inherited := if f.value.Obj? then None else p.Named(f.key);
      LeafLawAt(p, f.value, Some(f.key), inherited);
      OneFieldScalars(f.key, WalkValue(p, f.value, Some(f.key), inherited));
    }
  }

  lemma OneFieldScalars(key: string, v: Json)
    ensures FieldScalars([Field(key, v)]) == Scalars(v)
  {
    assert [Field(key, v)][..0] == [];
  }

  lemma {:induction false} FieldScalarsAppend(a: seq<Field>, b: seq<Field>)
    ensures FieldScalars(a + b) == FieldScalars(a) + FieldScalars(b)
  {
    if b == [] {
      assert a + b == a;
    } else {
      assert (a + b)[..|a + b| - 1] == a + b[..|b| - 1];
      FieldScalarsAppend(a, b[..|b| - 1]);
    }
  }

  lemma {:induction false} LeafLawItems(p: Policy, items: seq<Json>, key: Option<string>)
    ensures ItemScalars(WalkItems(p, items, key, Inherits(p, key))) == ApplyEach(p, ItemSurvivors(p, items, key))
    decreases items
  {
    if items != [] {
      var v, rest := items[|items| - 1], items[..|items| - 1];
      LeafLawItems(p, rest, key);
      LeafLawItem(p, v, key);
      ItemScalarsAppend(WalkItems(p, rest, key, Inherits(p, key)), WalkItem(p, v, key, Inherits(p, key)));
      ApplyEachAppend(p, ItemSurvivors(p, rest, key), ItemSurvivor(p, v, key));
    }
  }

  lemma {:induction false} LeafLawItem(p: Policy, v: Json, key: Option<string>)
    ensures ItemScalars(WalkItem(p, v, key, Inherits(p, key))) == ApplyEach(p, ItemSurvivor(p, v, key))
    decreases v, 1
  {
    var inherited := Inherits(p, key);
    assert v.IsScalar() ==> ActionFor(p, None, v, inherited) == Effective(p, Leaf(key, v))
                           == ActionFor(p, key, v, inherited);
    if !(v.IsScalar() && Effective(p, Leaf(key, v)) == Drop) {
      LeafLawAt(p, v, key, if v.Obj? then None else inherited);
      OneItemScalars(WalkValue(p, v, key, if v.Obj? then None else inherited));
    }
  }

  lemma OneItemScalars(v: Json)
    ensures ItemScalars([v]) == Scalars(v)
  {
    assert [v][..0] == [];
  }

  lemma {:induction false} ItemScalarsAppend(a: seq<Json>, b: seq<Json>)
    ensures ItemScalars(a + b) == ItemScalars(a) + ItemScalars(b)
  {
    if b == [] {
      assert a + b == a;
    } else {
      assert (a + b)[..|a + b| - 1] == a + b[..|b| - 1];
      ItemScalarsAppend(a, b[..|b| - 1]);
    }
  }

  /** The scalars of the output are exactly the surviving leaves of the input, in order, each with its own action. */
  lemma LeafLaw(p: Policy, facts: Json)
    requires facts.Obj?
    ensures Scalars(Redacted(p, facts)) == ApplyEach(p, Survivors(p, facts, None))
  {
    LeafLawAt(p, facts, None, None);
  }

  // ----- policies ---------------------------------------------------------------------------

  lemma LowerTwice(s: string)
    ensures Lower(Lower(s)) == Lower(s)
  {
    assert forall i :: 0 <= i < |s| ==> LowerChar(LowerChar(s[i])) == LowerChar(s[i]);
  }

  /** Every policy the filter accepts holds its keys in lower case. */
  lemma AcceptedIsValid(keys: seq<KeyAction>, fallback: string, salt: string, sha256: string -> string)
    ensures var p := PolicyOf(keys, fallback, salt, sha256); p.Ok? ==> p.value.Valid()
  {
    forall k | k in LowerKeys(keys) ensures Lower(k) == k {
      var i :| 0 <= i < |keys| && k == Lower(keys[i].key);
      LowerTwice(keys[i].key);
    }
  }

  // ----- identifiers --------------------------------------------------------------------

  /** A SID that names a person rather than a role. */
  predicate IsPersonal(v: Json) {
    LooksLikeSid(v) && !IsRolePart(LastPart(v.s))
  }

  /** No value anywhere in `v` is a personal SID. */
  ghost predicate NoPersonalSid(v: Json) {
    NoneIsPersonal(Scalars(v))
  }

  ghost predicate NoneIsPersonal(xs: seq<Json>) {
    forall x :: x in xs ==> !IsPersonal(x)
  }

  lemma SidHasNoStar(s: string)
    requires IsSid(s)
    ensures '*' !in s
  {
    assert s[1] == s[1..4][0] && s[2] == s[1..4][1] && s[3] == s[1..4][2];
    forall i | 0 <= i < |s| ensures s[i] != '*' {
      if i == 0 {
        assert UpperChar('*') == '*';
      } else if i >= 4 {
        assert s[i] == s[4..][i - 4] && s[i] in s[4..];
      }
    }
  }

  lemma MaskedIsNoSid(head: string, tail: string)
    ensures !LooksLikeSid(Str(head + MASK + tail))
  {
    var text := head + MASK + tail;
    assert text[|head|] == '*' && text[|head|] in text;
    if IsSid(text) {
      SidHasNoStar(text);
    }
    var bare := text[..|text| - 1];
    assert text == bare + [text[|text| - 1]];
    if text[|text| - 1] == '\n' && IsSid(bare) {
      SidHasNoStar(bare);
    }
  }

  /** Truncated text is masked somewhere, or a role's SID left as it was. */
  lemma TruncatedForm(text: string) returns (head: string, tail: string)
    ensures TruncateText(text) == head + MASK + tail || (TruncateText(text) == text && IsRolePart(LastPart(text)))
  {
    head, tail := "", "";
    if '@' in text {
      var domain := AfterFirst(text, '@');
      tail := if domain != "" then "@" + domain else "";
    } else if "S-1-" <= Upper(text) && Count(text, '-') >= 3 {
      head := text[..|text| - |LastPart(text)|];
    } else if |text| > 2 {
      head, tail := text[..2], "(" + NatText(|text|) + " chars)";
    }
  }

  /** Truncating never leaves a personal SID behind, whatever it was given. */
  lemma TruncateHidesPeople(text: string)
    ensures !IsPersonal(Str(TruncateText(text)))
  {
    var head, tail := TruncatedForm(text);
    MaskedIsNoSid(head, tail);
  }

  /** A digest of whatever text has no SID shape at all. */
  lemma HashHidesPeople(p: Policy, text: string)
    ensures !LooksLikeSid(Str(HashText(p, text)))
  {
    var h := HashText(p, text);
    assert h[1] == 'h';
    assert !IsSid(h) by {
      if |h| > 4 { assert h[1..4][0] == h[1]; }
    }
    assert |h| > 0 && h[|h| - 1] == '\n' ==> !IsSid(h[..|h| - 1]) by {
      var bare := h[..|h| - 1];
      if |bare| > 4 { assert bare[1..4][0] == h[1]; }
    }
  }

  /** A policy that covers every SID: one filed under any name, or under none, is hashed or truncated. */
  predicate CoversSids(p: Policy) {
    p.SidAction() in {Hash, Truncate} && forall k :: k in p.keys ==> p.keys[k] != Retain
  }

  /** The leaf lies under a key, and not one the policy drops. */
  predicate UnderKeptKey(p: Policy, l: Leaf) {
    l.key.Some? && p.Named(l.key.value) != Some(Drop)
  }

  lemma {:induction false} SurvivorsAreKept(p: Policy, v: Json, key: Option<string>)
    requires key.Some? && p.Named(key.value) != Some(Drop)
    ensures forall l :: l in Survivors(p, v, key) ==> UnderKeptKey(p, l)
    decreases v
  {
    match v
    case Obj(fields) => FieldSurvivorsAreKept(p, fields);
    case Arr(items) => ItemSurvivorsAreKept(p, items, key);
    case _ =>
  }

  lemma {:induction false} FieldSurvivorsAreKept(p: Policy, fields: seq<Field>)
    ensures forall l :: l in FieldSurvivors(p, fields) ==> UnderKeptKey(p, l)
    decreases fields
  {
    if fields != [] {
      var f := fields[|fields| - 1];
      FieldSurvivorsAreKept(p, fields[..|fields| - 1]);
      if p.Named(f.key) != Some(Drop) {
        SurvivorsAreKept(p, f.value, Some(f.key));
      }
    }
  }

  lemma {:induction false} ItemSurvivorsAreKept(p: Policy, items: seq<Json>, key: Option<string>)
    requires key.Some? && p.Named(key.value) != Some(Drop)
    ensures forall l :: l in ItemSurvivors(p, items, key) ==> UnderKeptKey(p, l)
    decreases items
  {
    if items != [] {
      ItemSurvivorsAreKept(p, items[..|items| - 1], key);
      SurvivorsAreKept(p, items[|items| - 1], key);
    }
  }

  /** A leaf of a mapping that redaction keeps is no personal SID any more. */
  lemma LeafIsHidden(p: Policy, l: Leaf)
    requires CoversSids(p) && UnderKeptKey(p, l)
    ensures !IsPersonal(Apply(p, Effective(p, l), l.value))
  {
    match Effective(p, l)
    case Hash => HashHidesPeople(p, TextOf(l.value));
    case Truncate => TruncateHidesPeople(TextOf(l.value));
    case _ =>
      assert p.Named(l.key.value).None?;
      assert !LooksLikeSid(l.value);
  }

  /** Under a covering policy no personal SID survives, at any depth, in mappings or nested lists. */
  lemma NoPersonalSidSurvives(p: Policy, facts: Json)
    requires facts.Obj? && CoversSids(p)
    ensures NoPersonalSid(Redacted(p, facts))
  {
    LeafLaw(p, facts);
    SurvivorsAreHidden(p, facts.fields);
  }

  lemma SurvivorsAreHidden(p: Policy, fields: seq<Field>)
    requires CoversSids(p)
    ensures NoneIsPersonal(ApplyEach(p, FieldSurvivors(p, fields)))
  {
    FieldSurvivorsAreKept(p, fields);
    LeavesAreHidden(p, FieldSurvivors(p, fields));
  }

  lemma {:induction false} LeavesAreHidden(p: Policy, ls: seq<Leaf>)
    requires CoversSids(p) && forall l :: l in ls ==> UnderKeptKey(p, l)
    ensures NoneIsPersonal(ApplyEach(p, ls))
  {
    if ls != [] {
      var rest, last := ls[..|ls| - 1], ls[|ls| - 1];
      assert ls == rest + [last];
      LeavesAreHidden(p, rest);
      LeafIsHidden(p, last);
    }
  }

  // ----- ... and under no other ---------------------------------------------------------------

  const PERSON := "S-1-" + ("5" + "-" + ("21" + "-" + "1174"))

  lemma PersonIsPersonal()
    ensures IsPersonal(Str(PERSON))
  {
    PersonPart();
    ThreeGroups("5", "21", "1174");
  }

  lemma ThreeGroups(a: string, b: string, c: string)
    requires AllDigits(a) && AllDigits(b) && AllDigits(c)
    ensures var s := "S-1-" + (a + "-" + (b + "-" + c)); IsSid(s) && LastPart(s) == c
  {
    var t := a + "-" + (b + "-" + c);
    OneGroup(c);
    OneMoreGroup(b, c);
    OneMoreGroup(a, b + "-" + c);
    assert t[|t| - |c|..] == c;
    OneGroup(c);
    SidFrom(t, |t| - |c|);
  }

  lemma OneGroup(a: string)
    requires AllDigits(a)
    ensures DigitGroups(a) && Count(a, '-') == 0 && '-' !in a
  {
    assert a[0] in a && a[|a| - 1] in a;
    NoDash(a);
  }

  lemma OneMoreGroup(a: string, t: string)
    requires AllDigits(a) && DigitGroups(t)
    ensures DigitGroups(a + "-" + t) && Count(a + "-" + t, '-') == 1 + Count(t, '-')
  {
    var r := a + "-" + t;
    OneGroup(a);
    assert r[0] == a[0] && r[|r| - 1] == t[|t| - 1] && a[0] in a;
    assert forall k :: 0 <= k < |a| ==> r[k] == a[k] && a[k] in a;
    forall i, j | 0 <= i && j == i + 1 < |r| && r[i] == '-' ensures IsDigit(r[j]) {
      if i > |a| { assert r[i] == t[i - |a| - 1] && r[j] == t[j - |a| - 1]; }
    }
    CountAppend(a, "-", '-');
    CountAppend(a + "-", t, '-');
    assert Count("-", '-') == 1 by { assert "-"[1..] == ""; }
  }

  lemma SidFrom(t: string, n: nat)
    requires DigitGroups(t) && Count(t, '-') >= 2
    requires 0 < n <= |t| && t[n - 1] == '-' && forall i :: n <= i < |t| ==> t[i] != '-'
    ensures IsSid("S-1-" + t) && LastPart("S-1-" + t) == t[n..]
  {
    var s := "S-1-" + t;
    assert s[4..] == t && s[1..4] == "-1-";
    AfterLastAt(s, '-', n + 4);
    assert s[n + 4..] == t[n..];
  }

  lemma PersonPart()
    ensures !IsRolePart("1174")
  {
    assert "1174"[..3] == "117" && "117"[..2] == "11" && "11"[..1] == "1";
    assert NatValue("1") == 1 && NatValue("11") == 11 && NatValue("117") == 117 && NatValue("1174") == 1174;
  }

  lemma {:induction false} CountAppend(s: string, t: string, c: char)
    ensures Count(s + t, c) == Count(s, c) + Count(t, c)
  {
    if s == "" {
      assert s + t == t;
    } else {
      assert (s + t)[1..] == s[1..] + t;
      CountAppend(s[1..], t, c);
    }
  }

  lemma {:induction false} NoDash(s: string)
    requires '-' !in s
    ensures Count(s, '-') == 0
  {
    if s != "" {
      assert s[0] in s;
      NoDash(s[1..]);
    }
  }

  lemma {:induction false} LongerThanAll(ks: set<string>) returns (n: nat)
    ensures forall k :: k in ks ==> |k| < n
  {
    if ks == {} {
      n := 0;
    } else {
      var k :| k in ks;
      var m := LongerThanAll(ks - {k});
      n := if |k| < m then m else |k| + 1;
    }
  }

  function Xs(n: nat): (s: string)
    ensures |s| == n && Lower(s) == s
  {
    if n == 0 then "" else ['x'] + Xs(n - 1)
  }

  lemma OneFieldKept(p: Policy, key: string, v: Json)
    requires v.IsScalar() && p.Named(key) != Some(Drop) && Apply(p, ActionFor(p, Some(key), v, None), v) == v
    ensures v in Scalars(Redacted(p, Obj([Field(key, v)])))
  {
    OneFieldWalked(p, Field(key, v));
    OneFieldScalars(key, v);
  }

  lemma OneFieldWalked(p: Policy, f: Field)
    ensures WalkFields(p, [f], None) == WalkField(p, f, None)
  {
    assert [f][..0] == [];
    assert WalkFields(p, [f], None) == [] + WalkField(p, f, None);
  }

  lemma OneFieldLeaks(p: Policy, key: string, sid: string)
    requires IsPersonal(Str(sid))
    requires p.Named(key) == Some(Retain) || (p.Named(key) == None && p.SidAction() in {Retain, Drop})
    ensures !NoPersonalSid(Redacted(p, Obj([Field(key, Str(sid))])))
  {
    OneFieldKept(p, key, Str(sid));
  }

  /** A key set to retain, or a SID action of retain or drop, lets any person's SID through somewhere. */
  lemma UncoveredPolicyLeaks(p: Policy, sid: string) returns (facts: Json)
    requires IsPersonal(Str(sid))
    requires p.Valid() && !CoversSids(p)
    ensures facts.Obj? && !NoPersonalSid(Redacted(p, facts))
  {
    if k :| k in p.keys && p.keys[k] == Retain {
      assert p.Named(k) == Some(Retain);
      OneFieldLeaks(p, k, sid);
      facts := Obj([Field(k, Str(sid))]);
    } else {
      var n := LongerThanAll(p.keys.Keys);
      assert Xs(n) !in p.keys;
      assert p.SidAction() == Retain || p.SidAction() == Drop;
      OneFieldLeaks(p, Xs(n), sid);
      facts := Obj([Field(Xs(n), Str(sid))]);
    }
  }

  /** Exactly which policies keep every person's SID out of every bundle. */
  lemma SidProtectionExact(p: Policy)
    requires p.Valid()
    ensures (forall facts: Json | facts.Obj? :: NoPersonalSid(Redacted(p, facts))) <==> CoversSids(p)
  {
    if CoversSids(p) {
      forall facts: Json | facts.Obj? ensures NoPersonalSid(Redacted(p, facts)) {
        NoPersonalSidSurvives(p, facts);
      }
    } else {
      PersonIsPersonal();
      var facts := UncoveredPolicyLeaks(p, PERSON);
    }
  }

  // ----- no SID at all ----------------------------------------------------------------------------

  ghost predicate NoneIsSid(xs: seq<Json>) {
    forall x :: x in xs ==> !LooksLikeSid(x)
  }

  /** No value anywhere in `v` has the shape of a SID, be it a person's or a role's. */
  ghost predicate NoSid(v: Json) {
    NoneIsSid(Scalars(v))
  }

  /** Every SID found by its shape is hashed, and whatever a key names is hashed or dropped. */
  predicate HashesSids(p: Policy) {
    p.SidAction() == Hash && forall k :: k in p.keys ==> p.keys[k] in {Hash, Drop}
  }

  /** Truncating text that is no SID does not make one. */
  lemma TruncateMakesNoSid(text: string)
    requires !LooksLikeSid(Str(text))
    ensures !LooksLikeSid(Str(TruncateText(text)))
  {
    var head, tail := TruncatedForm(text);
    MaskedIsNoSid(head, tail);
  }

  lemma StartsUnlikeSid(t: string)
    requires t == "" || UpperChar(t[0]) != 'S'
    ensures !LooksLikeSid(Str(t))
  {
    assert |t| > 1 ==> t[..|t| - 1][0] == t[0];
  }

  /** The text of a value that is no text has no SID shape. */
  lemma OtherTextIsNoSid(v: Json)
    requires !v.Str?
    ensures !LooksLikeSid(Str(TextOf(v)))
  {
    match v
    case Null => assert "None"[0] == 'N'; StartsUnlikeSid("None");
    case Bool(b) => assert "True"[0] == 'T' && "False"[0] == 'F'; StartsUnlikeSid(TextOf(v));
    case Int(n) =>
      assert TextOf(v)[0] == '-' || TextOf(v)[0] in NatText(n);
      StartsUnlikeSid(TextOf(v));
    case Float(repr) => assert repr[0] in repr && IsFloatChar(repr[0]); StartsUnlikeSid(repr);
    case _ => StartsUnlikeSid("");
  }

  lemma TextIsNoSid(v: Json)
    requires !LooksLikeSid(v)
    ensures !LooksLikeSid(Str(TextOf(v)))
  {
    if !v.Str? { OtherTextIsNoSid(v); }
  }

  lemma LeafIsNoSid(p: Policy, l: Leaf)
    requires HashesSids(p) && UnderKeptKey(p, l)
    ensures !LooksLikeSid(Apply(p, Effective(p, l), l.value))
  {
    match Effective(p, l)
    case Hash => HashHidesPeople(p, TextOf(l.value));
    case Truncate =>
      assert !LooksLikeSid(l.value);
      TextIsNoSid(l.value);
      TruncateMakesNoSid(TextOf(l.value));
    case _ =>
      assert !LooksLikeSid(l.value);
  }

  lemma {:induction false} LeavesAreNoSids(p: Policy, ls: seq<Leaf>)
    requires HashesSids(p) && forall l :: l in ls ==> UnderKeptKey(p, l)
    ensures NoneIsSid(ApplyEach(p, ls))
  {
    if ls != [] {
      var rest, last := ls[..|ls| - 1], ls[|ls| - 1];
      assert ls == rest + [last];
      LeavesAreNoSids(p, rest);
      LeafIsNoSid(p, last);
    }
  }

  lemma SurvivorsAreNoSids(p: Policy, fields: seq<Field>)
    requires HashesSids(p)
    ensures NoneIsSid(ApplyEach(p, FieldSurvivors(p, fields)))
  {
    FieldSurvivorsAreKept(p, fields);
    LeavesAreNoSids(p, FieldSurvivors(p, fields));
  }

  const ROLE := "S-1-" + ("5" + "-" + ("32" + "-" + "544"))

  /** A role's SID has the shape, and truncation leaves it as it is. */
  lemma RoleStays()
    ensures LooksLikeSid(Str(ROLE)) && TruncateText(ROLE) == ROLE
  {
    var t := "5" + "-" + ("32" + "-" + "544");
    RolePart();
    ThreeGroups("5", "32", "544");
    ThreeGroupsAreTruncatable("5", "32", "544");
  }

  lemma RolePart()
    ensures IsRolePart("544")
  {
    assert "544"[..2] == "54" && "54"[..1] == "5";
    assert NatValue("5") == 5 && NatValue("54") == 54 && NatValue("544") == 544;
  }

  lemma ThreeGroupsAreTruncatable(a: string, b: string, c: string)
    requires AllDigits(a) && AllDigits(b) && AllDigits(c)
    ensures var s := "S-1-" + (a + "-" + (b + "-" + c)); '@' !in s && "S-1-" <= Upper(s) && Count(s, '-') >= 3
  {
    var t := a + "-" + (b + "-" + c);
    OneGroup(c);
    OneMoreGroup(b, c);
    OneMoreGroup(a, b + "-" + c);
    CountAppend("S-1-", t, '-');
    HeadCount();
    assert '@' !in t;
    assert Upper("S-1-" + t)[..4] == "S-1-";
  }

  lemma HeadCount()
    ensures Count("S-1-", '-') >= 1
  {
    assert "S-1-"[1..] == "-1-";
    assert Count("-1-", '-') == 1 + Count("-1-"[1..], '-');
  }

  lemma OneSidKept(p: Policy, key: string)
    requires p.Named(key) == Some(Retain) || p.Named(key) == Some(Truncate)
        || (p.Named(key) == None && p.SidAction() != Hash)
    ensures !NoSid(Redacted(p, Obj([Field(key, Str(ROLE))])))
  {
    RoleStays();
    OneFieldKept(p, key, Str(ROLE));
  }

  lemma UnhashedPolicyLeaks(p: Policy) returns (facts: Json)
    requires p.Valid() && !HashesSids(p)
    ensures facts.Obj? && !NoSid(Redacted(p, facts))
  {
    if k :| k in p.keys && p.keys[k] !in {Hash, Drop} {
      assert p.keys[k] == Retain || p.keys[k] == Truncate;
      OneSidKept(p, k);
      facts := Obj([Field(k, Str(ROLE))]);
    } else {
      var n := LongerThanAll(p.keys.Keys);
      assert Xs(n) !in p.keys;
      OneSidKept(p, Xs(n));
      facts := Obj([Field(Xs(n), Str(ROLE))]);
    }
  }

  /** Exactly which policies keep every SID, roles' included, out of every bundle. */
  lemma SidRemovalExact(p: Policy)
    requires p.Valid()
    ensures (forall facts: Json | facts.Obj? :: NoSid(Redacted(p, facts))) <==> HashesSids(p)
  {
    if HashesSids(p) {
      forall facts: Json | facts.Obj? ensures NoSid(Redacted(p, facts)) {
        LeafLaw(p, facts);
        SurvivorsAreNoSids(p, facts.fields);
      }
    } else {
      var facts := UnhashedPolicyLeaks(p);
    }
  }

  // ----- compositionality ------------------------------------------------------------------------

  /** Every mapping in `v`, at any depth. */
  ghost function Maps(v: Json): set<Json>
    decreases v
  {
    match v
    case Obj(fields) => {v} + FieldMaps(fields)
    case Arr(items) => ItemMaps(items)
    case _ => {}
  }

  ghost function FieldMaps(fields: seq<Field>): set<Json>
    decreases fields
  {
    if fields == [] then {} else FieldMaps(fields[..|fields| - 1]) + Maps(fields[|fields| - 1].value)
  }

  ghost function ItemMaps(items: seq<Json>): set<Json>
    decreases items
  {
    if items == [] then {} else ItemMaps(items[..|items| - 1]) + Maps(items[|items| - 1])
  }

  /** The mappings in `v` that lie under no dropped key. */
  ghost function KeptMaps(p: Policy, v: Json): set<Json>
    decreases v
  {
    match v
    case Obj(fields) => {v} + KeptFieldMaps(p, fields)
    case Arr(items) => KeptItemMaps(p, items)
    case _ => {}
  }

  ghost function KeptFieldMaps(p: Policy, fields: seq<Field>): set<Json>
    decreases fields
  {
    if fields == [] then {}
    else
      var f := fields[|fields| - 1];
      KeptFieldMaps(p, fields[..|fields| - 1]) + if p.Named(f.key) == Some(Drop) then {} else KeptMaps(p, f.value)
  }

  ghost function KeptItemMaps(p: Policy, items: seq<Json>): set<Json>
    decreases items
  {
    if items == [] then {} else KeptItemMaps(p, items[..|items| - 1]) + KeptMaps(p, items[|items| - 1])
  }

  ghost function RedactAll(p: Policy, vs: set<Json>): set<Json> {
    set v | v in vs :: Redacted(p, v)
  }

  lemma RedactAllUnion(p: Policy, a: set<Json>, b: set<Json>)
    ensures RedactAll(p, a + b) == RedactAll(p, a) + RedactAll(p, b)
  {
  }

  lemma {:induction false} MapsOfWalk(p: Policy, v: Json, key: Option<string>, inherited: Option<Action>)
    requires v.Obj? ==> inherited == None
    ensures Maps(WalkValue(p, v, key, inherited)) == RedactAll(p, KeptMaps(p, v))
    decreases v, 0
  {
    match v
    case Obj(fields) =>
      MapsOfFields(p, fields);
      RedactAllUnion(p, {v}, KeptFieldMaps(p, fields));
      assert RedactAll(p, {v}) == {Redacted(p, v)};
    case Arr(items) => MapsOfItems(p, items, key, inherited);
    case _ => ScalarOfApply(p, ActionFor(p, key, v, inherited), v);
  }

  lemma {:induction false} MapsOfFields(p: Policy, fields: seq<Field>)
    ensures FieldMaps(WalkFields(p, fields, None)) == RedactAll(p, KeptFieldMaps(p, fields))
    decreases fields
  {
    if fields != [] {
      var f, rest := fields[|fields| - 1], fields[..|fields| - 1];
      MapsOfFields(p, rest);
      MapsOfField(p, f);
      FieldMapsAppend(WalkFields(p, rest, None), WalkField(p, f, None));
      RedactAllUnion(p, KeptFieldMaps(p, rest), KeptFieldMaps(p, [f]));
      assert [f][..0] == [];
    }
  }

  lemma {:induction false} MapsOfField(p: Policy, f: Field)
    ensures FieldMaps(WalkField(p, f, None)) == RedactAll(p, KeptFieldMaps(p, [f]))
    decreases f
  {
    assert [f][..0] == [];
    if p.Named(f.key) != Some(Drop) {
      var inherited := if f.value.Obj? then None else p.Named(f.key);
      MapsOfWalk(p, f.value, Some(f.key), inherited);
      assert WalkField(p, f, None) == [Field(f.key, WalkValue(p, f.value, Some(f.key), inherited))];
    }
  }

  lemma {:induction false} FieldMapsAppend(a: seq<Field>, b: seq<Field>)
    ensures FieldMaps(a + b) == FieldMaps(a) + FieldMaps(b)
  {
    if b == [] {
      assert a + b == a;
    } else {
      assert (a + b)[..|a + b| - 1] == a + b[..|b| - 1];
      FieldMapsAppend(a, b[..|b| - 1]);
    }
  }

  lemma {:induction false} MapsOfItems(p: Policy, items: seq<Json>, key: Option<string>, inherited: Option<Action>)
    ensures ItemMaps(WalkItems(p, items, key, inherited)) == RedactAll(p, KeptItemMaps(p, items))
    decreases items
  {
    if items != [] {
      var v, rest := items[|items| - 1], items[..|items| - 1];
      MapsOfItems(p, rest, key, inherited);
      MapsOfItem(p, v, key, inherited);
      ItemMapsAppend(WalkItems(p, rest, key, inherited), WalkItem(p, v, key, inherited));
      RedactAllUnion(p, KeptItemMaps(p, rest), KeptMaps(p, v));
    }
  }

  lemma {:induction false} MapsOfItem(p: Policy, v: Json, key: Option<string>, inherited: Option<Action>)
    ensures ItemMaps(WalkItem(p, v, key, inherited)) == RedactAll(p, KeptMaps(p, v))
    decreases v, 1
  {
    if v.IsScalar() {
      ScalarOfApply(p, ActionFor(p, None, v, inherited), v);
    } else {
      var w := WalkValue(p, v, key, if v.Obj? then None else inherited);
      MapsOfWalk(p, v, key, if v.Obj? then None else inherited);
      assert WalkItem(p, v, key, inherited) == [w] && [w][..0] == [];
    }
  }

  lemma {:induction false} ItemMapsAppend(a: seq<Json>, b: seq<Json>)
    ensures ItemMaps(a + b) == ItemMaps(a) + ItemMaps(b)
  {
    if b == [] {
      assert a + b == a;
    } else {
      assert (a + b)[..|a + b| - 1] == a + b[..|b| - 1];
      ItemMapsAppend(a, b[..|b| - 1]);
    }
  }

  /** The mappings of the output are the kept mappings of the input, each redacted as if it stood alone. */
  lemma Compositional(p: Policy, facts: Json)
    requires facts.Obj?
    ensures Maps(Redacted(p, facts)) == RedactAll(p, KeptMaps(p, facts))
  {
    MapsOfWalk(p, facts, None, None);
  }

  // ----- position by position --------------------------------------------------------------------

  /** The entries of a mapping that redaction keeps. */
  function KeptFields(p: Policy, fields: seq<Field>): (r: seq<Field>)
    ensures forall f :: f in r ==> f in fields
  {
    if fields == [] then []
    else
      var f := fields[|fields| - 1];
      KeptFields(p, fields[..|fields| - 1]) + if p.Named(f.key) == Some(Drop) then [] else [f]
  }

  /** The elements of a list, found below `key`, that redaction keeps. */
  function KeptItems(p: Policy, items: seq<Json>, key: Option<string>): (r: seq<Json>)
    ensures forall v :: v in r ==> v in items
  {
    if items == [] then []
    else
      var v := items[|items| - 1];
      KeptItems(p, items[..|items| - 1], key) + if v.IsScalar() && Effective(p, Leaf(key, v)) == Drop then [] else [v]
  }

  /**
   `w` is what becomes of `v` below `key`. A mapping is redacted as if it stood alone, its kept entries keep their
   keys and order, a list keeps its kept elements in order, and every leaf is treated by its own effective action.
   */
  ghost predicate Image(p: Policy, v: Json, w: Json, key: Option<string>)
    decreases v, 0
  {
    match v
    case Obj(fields) => w == Redacted(p, v) && w.Obj? && FieldImages(p, v, KeptFields(p, fields), w.fields)
    case Arr(items) => w.Arr? && ItemImages(p, v, KeptItems(p, items, key), w.items, key)
    case _ => w == Apply(p, Effective(p, Leaf(key, v)), v)
  }

  ghost predicate FieldImages(p: Policy, v: Json, kept: seq<Field>, ws: seq<Field>)
    requires v.Obj? && forall f :: f in kept ==> f in v.fields
    decreases v, 0, 0
  {
    |ws| == |kept| && forall i :: 0 <= i < |kept| ==>
      kept[i] in v.fields && ws[i].key == kept[i].key && Image(p, kept[i].value, ws[i].value, Some(kept[i].key))
  }

  ghost predicate ItemImages(p: Policy, v: Json, kept: seq<Json>, ws: seq<Json>, key: Option<string>)
    requires v.Arr? && forall x :: x in kept ==> x in v.items
    decreases v, 0, 0
  {
    |ws| == |kept| && forall i :: 0 <= i < |kept| ==> kept[i] in v.items && Image(p, kept[i], ws[i], key)
  }

  lemma {:induction false} ImageOf(p: Policy, v: Json, key: Option<string>, inherited: Option<Action>)
    requires inherited == if v.Obj? then None else Inherits(p, key)
    ensures Image(p, v, WalkValue(p, v, key, inherited), key)
    decreases v, 1
  {
    match v
    case Obj(fields) =>
      FieldImagesOf(p, v, fields);
    case Arr(items) =>
      ItemImagesOf(p, v, items, key);
    case _ =>
      assert ActionFor(p, key, v, inherited) == Effective(p, Leaf(key, v));
  }

  lemma {:induction false} FieldImagesOf(p: Policy, v: Json, fields: seq<Field>)
    requires v.Obj? && forall f :: f in fields ==> f in v.fields
    ensures FieldImages(p, v, KeptFields(p, fields), WalkFields(p, fields, None))
    decreases v, 0, |fields|
  {
    if fields != [] {
      var rest, f := fields[..|fields| - 1], fields[|fields| - 1];
      FieldImagesOf(p, v, rest);
      if p.Named(f.key) != Some(Drop) {
        var inherited := if f.value.Obj? then None else p.Named(f.key);
        assert f in v.fields && f.value < v;
        ImageOf(p, f.value, Some(f.key), inherited);
        WalkedField(p, f, inherited);
      }
    }
  }

  lemma WalkedField(p: Policy, f: Field, inherited: Option<Action>)
    requires p.Named(f.key) != Some(Drop) && inherited == if f.value.Obj? then None else p.Named(f.key)
    ensures WalkField(p, f, None) == [Field(f.key, WalkValue(p, f.value, Some(f.key), inherited))]
  {
  }

  lemma {:induction false} ItemImagesOf(p: Policy, v: Json, items: seq<Json>, key: Option<string>)
    requires v.Arr? && forall x :: x in items ==> x in v.items
    ensures ItemImages(p, v, KeptItems(p, items, key), WalkItems(p, items, key, Inherits(p, key)), key)
    decreases v, 0, |items|
  {
    if items != [] {
      var rest, x := items[..|items| - 1], items[|items| - 1];
      ItemImagesOf(p, v, rest, key);
      if !(x.IsScalar() && Effective(p, Leaf(key, x)) == Drop) {
        assert x in v.items && x < v;
        ImageOf(p, x, key, if x.Obj? then None else Inherits(p, key));
        WalkedItem(p, x, key);
      } else {
        assert WalkItem(p, x, key, Inherits(p, key)) == [];
      }
    }
  }

  lemma WalkedItem(p: Policy, x: Json, key: Option<string>)
    requires !(x.IsScalar() && Effective(p, Leaf(key, x)) == Drop)
    ensures WalkItem(p, x, key, Inherits(p, key)) == [WalkValue(p, x, key, if x.Obj? then None else Inherits(p, key))]
  {
  }

  /** What every position of the output holds, for every policy and every bundle. */
  lemma PositionLaw(p: Policy, facts: Json)
    requires facts.Obj?
    ensures Image(p, facts, Redacted(p, facts), None)
  {
    ImageOf(p, facts, None, None);
  }

  // ----- shape -------------------------------------------------------------------------------------

  /** The policy removes nothing. */
  predicate KeepsEverything(p: Policy) {
    p.fallback != Drop && forall k :: k in p.keys ==> p.keys[k] != Drop
  }

  /**
   Same containers, same keys in the same order, same list lengths; and at every position a leaf that the policy
   retains is unchanged.
   */
  predicate SameShape(p: Policy, v: Json, w: Json, key: Option<string>)
    decreases v
  {
    match v
    case Obj(fields) =>
      w.Obj? && |w.fields| == |fields|
      && forall i :: 0 <= i < |fields| ==>
           w.fields[i].key == fields[i].key && SameShape(p, fields[i].value, w.fields[i].value, Some(fields[i].key))
    case Arr(items) =>
      w.Arr? && |w.items| == |items| && forall i :: 0 <= i < |items| ==> SameShape(p, items[i], w.items[i], key)
    case _ => w.IsScalar() && (Effective(p, Leaf(key, v)) == Retain ==> w == v)
  }

  lemma {:induction false} NothingDropped(p: Policy, fields: seq<Field>)
    requires KeepsEverything(p)
    ensures KeptFields(p, fields) == fields
  {
    if fields != [] {
      var rest, last := fields[..|fields| - 1], fields[|fields| - 1];
      assert fields == rest + [last];
      NothingDropped(p, rest);
    }
  }

  lemma {:induction false} NoItemDropped(p: Policy, items: seq<Json>, key: Option<string>)
    requires KeepsEverything(p)
    ensures KeptItems(p, items, key) == items
  {
    if items != [] {
      var rest, last := items[..|items| - 1], items[|items| - 1];
      assert items == rest + [last];
      NoItemDropped(p, rest, key);
      assert Effective(p, Leaf(key, last)) != Drop;
    }
  }

  lemma {:induction false} ImageKeepsShape(p: Policy, v: Json, w: Json, key: Option<string>)
    requires KeepsEverything(p) && Image(p, v, w, key)
    ensures SameShape(p, v, w, key)
    decreases v
  {
    match v
    case Obj(fields) =>
      NothingDropped(p, fields);
      forall i | 0 <= i < |fields| ensures SameShape(p, fields[i].value, w.fields[i].value, Some(fields[i].key)) {
        ImageKeepsShape(p, fields[i].value, w.fields[i].value, Some(fields[i].key));
      }
    case Arr(items) =>
      NoItemDropped(p, items, key);
      forall i | 0 <= i < |items| ensures SameShape(p, items[i], w.items[i], key) {
        ImageKeepsShape(p, items[i], w.items[i], key);
      }
    case _ =>
      ScalarOfApply(p, Effective(p, Leaf(key, v)), v);
  }

  /** Without drop, redaction keeps every key, list length and position, and every leaf the policy retains. */
  lemma ShapePreserved(p: Policy, facts: Json)
    requires facts.Obj? && KeepsEverything(p)
    ensures SameShape(p, facts, Redacted(p, facts), None)
  {
    PositionLaw(p, facts);
    ImageKeepsShape(p, facts, Redacted(p, facts), None);
  }

  /** Under a retain default, those are the leaves whose key is not named and which are no SID. */
  lemma UnnamedIsRetained(p: Policy, l: Leaf)
    requires p.fallback == Retain && (l.key.None? || p.Named(l.key.value).None?) && !LooksLikeSid(l.value)
    ensures Effective(p, l) == Retain
  {
  }

  /** The policy retains by default and whatever it names. */
  predicate RetainsAll(p: Policy) {
    p.fallback == Retain && forall k :: k in p.keys ==> p.keys[k] == Retain
  }

  /** Such a policy changes nothing. */
  lemma {:induction false} RetainIsIdentity(p: Policy, v: Json, key: Option<string>, inherited: Option<Action>)
    requires RetainsAll(p) && inherited in {None, Some(Retain)}
    ensures WalkValue(p, v, key, inherited) == v
    decreases v, 0
  {
    match v
    case Obj(fields) => RetainFields(p, fields, inherited);
    case Arr(items) => RetainItems(p, items, key, inherited);
    case _ =>
  }

  lemma {:induction false} RetainFields(p: Policy, fields: seq<Field>, inherited: Option<Action>)
    requires RetainsAll(p) && inherited in {None, Some(Retain)}
    ensures WalkFields(p, fields, inherited) == fields
    decreases fields
  {
    if fields != [] {
      var rest, last := fields[..|fields| - 1], fields[|fields| - 1];
      assert fields == rest + [last];
      RetainFields(p, rest, inherited);
      RetainField(p, last, inherited);
    }
  }

  lemma {:induction false} RetainField(p: Policy, f: Field, inherited: Option<Action>)
    requires RetainsAll(p) && inherited in {None, Some(Retain)}
    ensures WalkField(p, f, inherited) == [f]
    decreases f
  {
    RetainIsIdentity(p, f.value, Some(f.key), if f.value.Obj? then None else FieldInheritance(p, f.key, inherited));
  }

  lemma {:induction false} RetainItems(p: Policy, items: seq<Json>, key: Option<string>, inherited: Option<Action>)
    requires RetainsAll(p) && inherited in {None, Some(Retain)}
    ensures WalkItems(p, items, key, inherited) == items
    decreases items
  {
    if items != [] {
      var rest, last := items[..|items| - 1], items[|items| - 1];
      assert items == rest + [last];
      RetainItems(p, rest, key, inherited);
      RetainItem(p, last, key, inherited);
    }
  }

  lemma {:induction false} RetainItem(p: Policy, v: Json, key: Option<string>, inherited: Option<Action>)
    requires RetainsAll(p) && inherited in {None, Some(Retain)}
    ensures WalkItem(p, v, key, inherited) == [v]
    decreases v, 1
  {
    RetainIsIdentity(p, v, key, if v.Obj? then None else inherited);
  }
}
