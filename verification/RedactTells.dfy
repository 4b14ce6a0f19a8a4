/** What a redacted bundle still tells about what was redacted. */
module RedactTells {
  import opened Text
  import opened Json
  import opened Redact
  import opened RedactTheorems

  // ----- hashed text ------------------------------------------------------------------

  /** A hashed text is told only by the digest of the salted text, whatever salt and digest function are used. */
  lemma HashTellsDigest(p: Policy, s: string, q: Policy, t: string)
    ensures HashText(p, s) == HashText(q, t) <==> ShownAlike(p.sha256(p.salt + s), q.sha256(q.salt + t), 32)
  {
    var h, k := HashText(p, s), HashText(q, t);
    assert h[7..] == if |p.sha256(p.salt + s)| > 32 then p.sha256(p.salt + s)[..32] else p.sha256(p.salt + s);
    assert k[7..] == if |q.sha256(q.salt + t)| > 32 then q.sha256(q.salt + t)[..32] else q.sha256(q.salt + t);
  }

  /** It is labelled, and no longer than 39 characters whatever was hashed. */
  lemma HashIsShort(p: Policy, s: string)
    ensures |HashText(p, s)| <= 39 && "sha256:" <= HashText(p, s)
  {
  }

  /** The text a value is hashed or truncated by: as Python prints it, numbers in digits that read back. */
  lemma PrintedAs(n: nat, s: string)
    ensures TextOf(Null) == "None" && TextOf(Bool(true)) == "True" && TextOf(Bool(false)) == "False"
    ensures TextOf(Str(s)) == s
    ensures AllDigits(TextOf(Int(n))) && NatValue(TextOf(Int(n))) == n
    ensures n > 0 ==> TextOf(Int(-(n as int))) == "-" + TextOf(Int(n))
  {
    NatRoundTrip(n);
  }

  // ----- truncated text -----------------------------------------------------------------

  /** What a truncated text still tells. */
  datatype Told = Domain(domain: string) | Nothing | Authority(front: string) | Role(sid: string)
                | Beginning(two: string, length: nat)

  predicate HasSidPrefix(text: string) {
    "S-1-" <= Upper(text) && Count(text, '-') >= 3
  }

  /** Of an address its domain, of a SID all but a personal last part, and of other text two characters and a length. */
  function ToldOf(text: string): Told {
    if '@' in text then if AfterFirst(text, '@') != "" then Domain(AfterFirst(text, '@')) else Nothing
    else if HasSidPrefix(text) then
      if IsRolePart(LastPart(text)) then Role(text) else Authority(text[..|text| - |LastPart(text)|])
    else if |text| <= 2 then Nothing
    else Beginning(text[..2], |text|)
  }

  /** The text that says so much and no more. */
  function Spelled(told: Told): string {
    match told
    case Domain(domain) => MASK + "@" + domain
    case Nothing => MASK
    case Authority(front) => front + MASK
    case Role(sid) => sid
    case Beginning(two, length) => two + MASK + "(" + NatText(length) + " chars)"
  }

  lemma TruncateSpells(text: string)
    ensures TruncateText(text) == Spelled(ToldOf(text))
  {
  }

  /** How each kind can be read off the text. */
  ghost predicate Shape(told: Told, r: string) {
    match told
    case Domain(domain) => |r| > 4 && r[1] == '*' && r[3] == '@' && r[4..] == domain
    case Nothing => |r| == 3 && r[1] == '*'
    case Authority(front) => |r| > 3 && r[1] == '-' && r[2] == '1' && r[|r| - 1] == '*' && r[..|r| - 3] == front
    case Role(sid) => |r| > 3 && r[1] == '-' && r[2] == '1' && IsDigit(r[|r| - 1]) && r == sid
    case Beginning(two, length) =>
      |r| > 13 && r[2] == '*' && r[3] == '*' && r[..2] == two && r[6..|r| - 7] == NatText(length)
  }

  lemma ShapeTells(a: Told, b: Told, r: string)
    requires Shape(a, r) && Shape(b, r)
    ensures a == b
  {
    if a.Beginning? && b.Beginning? {
      NatRoundTrip(a.length);
      NatRoundTrip(b.length);
    }
  }

  lemma BeginningShape(two: string, length: nat)
    requires |two| == 2
    ensures Shape(Beginning(two, length), Spelled(Beginning(two, length)))
  {
    var r := two + MASK + "(" + NatText(length) + " chars)";
    assert r[..2] == two && r[6..|r| - 7] == NatText(length);
  }

  lemma SidBegins(text: string, stem: string)
    requires stem <= Upper(text) && |stem| == 4 && stem[1] == '-' && stem[2] == '1' && stem[3] == '-'
    ensures |text| >= 4 && text[1] == '-' && text[2] == '1' && text[3] == '-'
  {
    assert Upper(text)[1] == stem[1] && Upper(text)[2] == stem[2] && Upper(text)[3] == stem[3];
  }

  lemma LastPartStarts(text: string)
    requires |text| >= 4 && text[3] == '-'
    ensures |LastPart(text)| <= |text| - 4 && LastPart(text) == text[|text| - |LastPart(text)|..]
  {
    var r := LastPart(text);
    forall i | |text| - |r| <= i < |text| ensures text[i] != '-' {
      assert text[i] == r[i - (|text| - |r|)] && r[i - (|text| - |r|)] in r;
    }
  }

  lemma RoleEnds(text: string)
    requires LastPart(text) == text[|text| - |LastPart(text)|..] && IsRolePart(LastPart(text))
    ensures text != "" && IsDigit(text[|text| - 1])
  {
    var r := LastPart(text);
    assert r[|r| - 1] == text[|text| - 1] && r[|r| - 1] in r;
  }

  lemma SidShape(text: string)
    requires '@' !in text && HasSidPrefix(text)
    ensures Shape(ToldOf(text), Spelled(ToldOf(text)))
  {
    SidBegins(text, "S-1-");
    LastPartStarts(text);
    if IsRolePart(LastPart(text)) {
      RoleEnds(text);
    } else {
      var front := text[..|text| - |LastPart(text)|];
      assert (front + MASK)[..|front|] == front;
    }
  }

  lemma TruncatedShape(text: string)
    ensures Shape(ToldOf(text), Spelled(ToldOf(text)))
  {
    if '@' in text {
      assert (MASK + "@" + AfterFirst(text, '@'))[4..] == AfterFirst(text, '@');
    } else if HasSidPrefix(text) {
      SidShape(text);
    } else if |text| > 2 {
      BeginningShape(text[..2], |text|);
    }
  }

  /** Truncation tells exactly that: what is left of two texts differs exactly when they are told apart. */
  lemma TruncateTells(s: string, t: string)
    ensures TruncateText(s) == TruncateText(t) <==> ToldOf(s) == ToldOf(t)
  {
    TruncateSpells(s);
    TruncateSpells(t);
    TruncatedShape(s);
    TruncatedShape(t);
    if TruncateText(s) == TruncateText(t) {
      ShapeTells(ToldOf(s), ToldOf(t), TruncateText(s));
    }
  }

  // ----- bundles ------------------------------------------------------------------------

  /** Two leaves under one key that redaction does not tell apart: equal, or hashed or truncated to the same. */
  ghost predicate LeafAlike(p: Policy, v: Json, w: Json, key: Option<string>) {
    || v == w
    || (&& Effective(p, Leaf(key, v)) == Hash && Effective(p, Leaf(key, w)) == Hash
        && ShownAlike(p.sha256(p.salt + TextOf(v)), p.sha256(p.salt + TextOf(w)), 32))
    || (&& Effective(p, Leaf(key, v)) == Truncate && Effective(p, Leaf(key, w)) == Truncate
        && ToldOf(TextOf(v)) == ToldOf(TextOf(w)))
  }

  /** Of one shape below `key`, with leaves alike, except below dropped keys and at dropped list elements. */
  ghost predicate ToldAlike(p: Policy, v: Json, w: Json, key: Option<string>)
    decreases v
  {
    match v
    case Obj(fields) =>
      w.Obj? && |w.fields| == |fields|
      && forall i :: 0 <= i < |fields| ==>
           && w.fields[i].key == fields[i].key
           && (p.Named(fields[i].key) == Some(Drop)
               || ToldAlike(p, fields[i].value, w.fields[i].value, Some(fields[i].key)))
    case Arr(items) =>
      w.Arr? && |w.items| == |items|
      && forall i :: 0 <= i < |items| ==>
           Discarded(p, items[i], w.items[i], key) || ToldAlike(p, items[i], w.items[i], key)
    case _ => w.IsScalar() && LeafAlike(p, v, w, key)
  }

  ghost predicate Discarded(p: Policy, v: Json, w: Json, key: Option<string>) {
    v.IsScalar() && w.IsScalar() && Effective(p, Leaf(key, v)) == Drop && Effective(p, Leaf(key, w)) == Drop
  }

  lemma LeafWalk(p: Policy, v: Json, key: Option<string>, inherited: Option<Action>)
    requires v.IsScalar() && inherited == Inherits(p, key)
    ensures WalkValue(p, v, key, inherited) == Apply(p, Effective(p, Leaf(key, v)), v)
  {
    assert ActionFor(p, key, v, inherited) == Effective(p, Leaf(key, v));
  }

  lemma LeavesTellAlike(p: Policy, v: Json, w: Json, key: Option<string>, inherited: Option<Action>)
    requires v.IsScalar() && w.IsScalar() && LeafAlike(p, v, w, key) && inherited == Inherits(p, key)
    ensures WalkValue(p, v, key, inherited) == WalkValue(p, w, key, inherited)
  {
    LeafWalk(p, v, key, inherited);
    LeafWalk(p, w, key, inherited);
    HashTellsDigest(p, TextOf(v), p, TextOf(w));
    TruncateTells(TextOf(v), TextOf(w));
  }

  lemma {:induction false} ToldAlikeAt(p: Policy, v: Json, w: Json, key: Option<string>, inherited: Option<Action>)
    requires ToldAlike(p, v, w, key) && inherited == if v.Obj? then None else Inherits(p, key)
    ensures WalkValue(p, v, key, inherited) == WalkValue(p, w, key, inherited)
    decreases v, 1
  {
    match v
    case Obj(fields) =>
      FieldsToldAlike(p, v, w, key, |fields|);
      assert fields[..|fields|] == fields && w.fields[..|fields|] == w.fields;
    case Arr(items) =>
      ItemsToldAlike(p, v, w, key, |items|);
      assert items[..|items|] == items && w.items[..|items|] == w.items;
    case _ => LeavesTellAlike(p, v, w, key, inherited);
  }

  lemma {:induction false} FieldsToldAlike(p: Policy, v: Json, w: Json, key: Option<string>, n: nat)
    requires v.Obj? && ToldAlike(p, v, w, key) && n <= |v.fields|
    ensures WalkFields(p, v.fields[..n], None) == WalkFields(p, w.fields[..n], None)
    decreases v, 0, n
  {
    if n > 0 {
      var f, g := v.fields[n - 1], w.fields[n - 1];
      FieldsToldAlike(p, v, w, key, n - 1);
      NextField(p, v.fields, n);
      NextField(p, w.fields, n);
      if p.Named(f.key) != Some(Drop) {
        assert ToldAlike(p, f.value, g.value, Some(f.key));
        var inherited := if f.value.Obj? then None else p.Named(f.key);
        assert f in v.fields && f.value < v;
        ToldAlikeAt(p, f.value, g.value, Some(f.key), inherited);
        SameKind(p, f.value, g.value, Some(f.key));
        WalkedField(p, f, inherited);
        WalkedField(p, g, inherited);
      }
    }
  }

  lemma NextField(p: Policy, fields: seq<Field>, n: nat)
    requires 0 < n <= |fields|
    ensures WalkFields(p, fields[..n], None) == WalkFields(p, fields[..n - 1], None) + WalkField(p, fields[n - 1], None)
  {
    assert fields[..n][..n - 1] == fields[..n - 1];
  }

  lemma SameKind(p: Policy, v: Json, w: Json, key: Option<string>)
    requires ToldAlike(p, v, w, key)
    ensures (v.Obj? <==> w.Obj?) && (v.Arr? <==> w.Arr?)
  {
  }

  lemma {:induction false} ItemsToldAlike(p: Policy, v: Json, w: Json, key: Option<string>, n: nat)
    requires v.Arr? && ToldAlike(p, v, w, key) && n <= |v.items|
    ensures WalkItems(p, v.items[..n], key, Inherits(p, key)) == WalkItems(p, w.items[..n], key, Inherits(p, key))
    decreases v, 0, n
  {
    if n > 0 {
      ItemsToldAlike(p, v, w, key, n - 1);
      NextItem(p, v.items, key, n);
      NextItem(p, w.items, key, n);
      assert v.items[n - 1] in v.items && v.items[n - 1] < v;
      ItemToldAlike(p, v.items[n - 1], w.items[n - 1], key);
    }
  }

  lemma {:induction false} ItemToldAlike(p: Policy, x: Json, y: Json, key: Option<string>)
    requires Discarded(p, x, y, key) || ToldAlike(p, x, y, key)
    ensures WalkItem(p, x, key, Inherits(p, key)) == WalkItem(p, y, key, Inherits(p, key))
    decreases x, 2
  {
    if Discarded(p, x, y, key) {
      DiscardedWalk(p, x, key);
      DiscardedWalk(p, y, key);
    } else {
      ToldAlikeAt(p, x, y, key, if x.Obj? then None else Inherits(p, key));
      KeptAlike(p, x, y, key);
    }
  }

  lemma NextItem(p: Policy, items: seq<Json>, key: Option<string>, n: nat)
    requires 0 < n <= |items|
    ensures WalkItems(p, items[..n], key, Inherits(p, key))
         == WalkItems(p, items[..n - 1], key, Inherits(p, key)) + WalkItem(p, items[n - 1], key, Inherits(p, key))
  {
    assert items[..n][..n - 1] == items[..n - 1];
  }

  lemma DiscardedWalk(p: Policy, x: Json, key: Option<string>)
    requires x.IsScalar() && Effective(p, Leaf(key, x)) == Drop
    ensures WalkItem(p, x, key, Inherits(p, key)) == []
  {
    assert ActionFor(p, None, x, Inherits(p, key)) == Effective(p, Leaf(key, x));
  }

  lemma KeptAlike(p: Policy, x: Json, y: Json, key: Option<string>)
    requires ToldAlike(p, x, y, key)
    requires var inherited := if x.Obj? then None else Inherits(p, key);
             WalkValue(p, x, key, inherited) == WalkValue(p, y, key, inherited)
    ensures WalkItem(p, x, key, Inherits(p, key)) == WalkItem(p, y, key, Inherits(p, key))
  {
    SameKind(p, x, y, key);
    if x.IsScalar() && Effective(p, Leaf(key, x)) == Drop {
      DiscardedWalk(p, x, key);
      DiscardedWalk(p, y, key);
    } else {
      WalkedItem(p, x, key);
      WalkedItem(p, y, key);
    }
  }

  /**
   Redaction forgets: bundles that differ only at hashed leaves of equal salted digests, at truncated leaves that tell
   the same, below dropped keys and at dropped list elements redact to the same bundle.
   */
  lemma RedactionForgets(p: Policy, v: Json, w: Json)
    requires v.Obj? && ToldAlike(p, v, w, None)
    ensures Redacted(p, v) == Redacted(p, w)
  {
    ToldAlikeAt(p, v, w, None, None);
  }

  // ----- policies -----------------------------------------------------------------------

  function ActionName(a: Action): string {
    match a
    case Retain => "retain"
    case Hash => "hash"
    case Truncate => "truncate"
    case Drop => "drop"
  }

  lemma ParsesExactly(s: string, a: Action)
    ensures ParseAction(s) == Some(a) <==> s == ActionName(a)
  {
  }

  /** The policy says what was written, and hashes nothing unless it has a salt of its own. */
  ghost predicate Says(p: Policy, keys: seq<KeyAction>, fallback: string, salt: string, sha256: string -> string) {
    && p.keys.Keys == LowerKeys(keys).Keys && (forall k :: k in p.keys ==> ActionName(p.keys[k]) == LowerKeys(keys)[k])
    && ActionName(p.fallback) == fallback && p.salt == salt && p.sha256 == sha256
    && (p.fallback == Hash || Hash in p.keys.Values ==> salt != "" && salt != "CHANGE-ME-PER-DEPLOYMENT")
  }

  /** A key's action is the last one written for it, in whatever case it is written. */
  lemma {:induction false} LastWrittenCounts(keys: seq<KeyAction>, i: nat)
    requires i < |keys| && forall j :: i < j < |keys| ==> Lower(keys[j].key) != Lower(keys[i].key)
    ensures Lower(keys[i].key) in LowerKeys(keys) && LowerKeys(keys)[Lower(keys[i].key)] == keys[i].action
  {
    if i < |keys| - 1 {
      LastWrittenCounts(keys[..|keys| - 1], i);
    }
  }

  lemma EachParses(p: Policy, named: map<string, string>)
    requires p.keys.Keys == named.Keys && forall k :: k in p.keys ==> ActionName(p.keys[k]) == named[k]
    ensures forall k :: k in named ==> ParseAction(named[k]) == Some(p.keys[k])
  {
    forall k | k in named ensures ParseAction(named[k]) == Some(p.keys[k]) {
      ParsesExactly(named[k], p.keys[k]);
    }
  }

  lemma SaidIsAccepted(p: Policy, keys: seq<KeyAction>, fallback: string, salt: string, sha256: string -> string)
    requires Says(p, keys, fallback, salt, sha256)
    ensures PolicyOf(keys, fallback, salt, sha256) == Ok(p)
  {
    var named := LowerKeys(keys);
    ParsesExactly(fallback, p.fallback);
    EachParses(p, named);
    assert (map k | k in named :: ParseAction(named[k]).value) == p.keys;
  }

  /** What is written is accepted exactly when some policy says it, and then that policy is the one applied. */
  lemma AcceptedExact(p: Policy, keys: seq<KeyAction>, fallback: string, salt: string, sha256: string -> string)
    ensures PolicyOf(keys, fallback, salt, sha256) == Ok(p) <==> Says(p, keys, fallback, salt, sha256)
  {
    if PolicyOf(keys, fallback, salt, sha256) == Ok(p) {
      ParsesExactly(fallback, p.fallback);
      forall k | k in p.keys ensures ActionName(p.keys[k]) == LowerKeys(keys)[k] {
        ParsesExactly(LowerKeys(keys)[k], p.keys[k]);
      }
    }
    if Says(p, keys, fallback, salt, sha256) {
      SaidIsAccepted(p, keys, fallback, salt, sha256);
    }
  }
}
