/** Applying a deployment's redaction policy to collected facts. */
module Redact {
  import opened Text
  import opened Json

  datatype Action = Retain | Hash | Truncate | Drop

  /** Keys are held in lower case; `sha256` is the hex digest of a text. */
  datatype Policy = Policy(keys: map<string, Action>, fallback: Action, salt: string, sha256: string -> string) {
    predicate Valid() {
      forall k :: k in keys ==> Lower(k) == k
    }

    function Named(key: string): Option<Action> {
      if Lower(key) in keys then Some(keys[Lower(key)]) else None
    }

    function SidAction(): Action {
      if "sid" in keys then keys["sid"] else fallback
    }
  }

  const UNSET_SALT := "CHANGE-ME-PER-DEPLOYMENT"
  const MASK := "***"

  // ----- what a policy may say ------------------------------------------------------

  function ParseAction(s: string): Option<Action> {
    if s == "retain" then Some(Retain)
    else if s == "hash" then Some(Hash)
    else if s == "truncate" then Some(Truncate)
    else if s == "drop" then Some(Drop)
    else None
  }

  datatype KeyAction = KeyAction(key: string, action: string)

  /** `{str(k).lower(): str(v)}`: of two keys that differ only in case, the later one counts. */
  function LowerKeys(keys: seq<KeyAction>): (m: map<string, string>)
    ensures forall k :: k in m ==> exists i :: 0 <= i < |keys| && k == Lower(keys[i].key)
  {
    if keys == [] then map[]
    else LowerKeys(keys[..|keys| - 1])[Lower(keys[|keys| - 1].key) := keys[|keys| - 1].action]
  }

  /** The checks made before anything is walked: known actions only, and no hashing without a real salt. */
  function PolicyOf(keys: seq<KeyAction>, fallback: string, salt: string,
                    sha256: string -> string): Result<Policy, string> {
    var named := LowerKeys(keys);
    if ParseAction(fallback).None? || exists k | k in named :: ParseAction(named[k]).None? then
      Err("unknown redaction action")
    else
      var actions := map k | k in named :: ParseAction(named[k]).value;
      if (ParseAction(fallback).value == Hash || exists k | k in actions :: actions[k] == Hash)
         && (salt == "" || salt == UNSET_SALT)
      then Err("hashing without a salt")
      else Ok(Policy(actions, ParseAction(fallback).value, salt, sha256))
  }

  // ----- single values ----------------------------------------------------------------

  function Count(s: string, c: char): nat {
    if s == "" then 0 else (if s[0] == c then 1 else 0) + Count(s[1..], c)
  }

  /** Groups of digits joined by single dashes. */
  predicate DigitGroups(t: string) {
    && t != "" && IsDigit(t[0]) && IsDigit(t[|t| - 1])
    && (forall c :: c in t ==> IsDigit(c) || c == '-')
    && forall i, j :: 0 <= i && j == i + 1 < |t| && t[i] == '-' ==> IsDigit(t[j])
  }

  /** `S-1-<digits>` followed by at least two more groups. */
  predicate IsSid(s: string) {
    |s| > 4 && UpperChar(s[0]) == 'S' && s[1..4] == "-1-" && DigitGroups(s[4..]) && Count(s[4..], '-') >= 2
  }

  /** The shape test; `$` also matches before one final line feed. */
  predicate LooksLikeSid(v: Json) {
    v.Str? && (IsSid(v.s) || (v.s != "" && v.s[|v.s| - 1] == '\n' && IsSid(v.s[..|v.s| - 1])))
  }

  /** `partition(c)[2]`: what follows the first `c`, or nothing. */
  function AfterFirst(s: string, c: char): (t: string)
    ensures c !in s ==> t == ""
    ensures c in s ==> |t| < |s| && t == s[|s| - |t|..] && s[|s| - |t| - 1] == c && c !in s[..|s| - |t| - 1]
  {
    if s == "" then "" else if s[0] == c then s[1..] else AfterFirst(s[1..], c)
  }

  /** The last dash-separated part of a text: in a SID, the relative identifier. */
  function LastPart(s: string): string {
    AfterLast(s, '-')
  }

  /** Identifiers below 1000 are the same in every domain and name a role, not a person. */
  predicate IsRolePart(rid: string) {
    AllDigits(rid) && NatValue(rid) < 1000
  }

  function TruncateText(text: string): string {
    if '@' in text then
      var domain := AfterFirst(text, '@');
      if domain != "" then MASK + "@" + domain else MASK
    else if "S-1-" <= Upper(text) && Count(text, '-') >= 3 then
      var rid := LastPart(text);
      if IsRolePart(rid) then text else text[..|text| - |rid|] + MASK
    else if |text| <= 2 then MASK
    else text[..2] + MASK + "(" + NatText(|text|) + " chars)"
  }

  function HashText(p: Policy, text: string): string {
    var digest := p.sha256(p.salt + text);
    "sha256:" + if |digest| > 32 then digest[..32] else digest
  }

  /** `_apply`: `retain` keeps a value, and so does `drop`, which only a container can carry out. */
  function Apply(p: Policy, action: Action, v: Json): Json {
    match action
    case Hash => Str(HashText(p, TextOf(v)))
    case Truncate => Str(TruncateText(TextOf(v)))
    case _ => v
  }

  /** `action_for`: the value's own key, else an enclosing named key, else its shape, else the fallback. */
  function ActionFor(p: Policy, key: Option<string>, v: Json, inherited: Option<Action>): Action {
    if key.Some? && p.Named(key.value).Some? then p.Named(key.value).value
    else if inherited.Some? then inherited.value
    else if LooksLikeSid(v) then p.SidAction()
    else p.fallback
  }

  // ----- the walk -----------------------------------------------------------------------

  function WalkValue(p: Policy, v: Json, key: Option<string>, inherited: Option<Action>): Json
    decreases v, 0
  {
    match v
    case Obj(fields) => Obj(WalkFields(p, fields, inherited))
    case Arr(items) => Arr(WalkItems(p, items, key, inherited))
    case _ => Apply(p, ActionFor(p, key, v, inherited), v)
  }

  function FieldInheritance(p: Policy, key: string, inherited: Option<Action>): Option<Action> {
    if p.Named(key).Some? then p.Named(key) else inherited
  }

  /** What one entry of a mapping becomes: nothing, or the entry with its value redacted. */
  function WalkField(p: Policy, f: Field, inherited: Option<Action>): seq<Field>
    decreases f
  {
    if p.Named(f.key) == Some(Drop) then []
    else if f.value.Obj? then [Field(f.key, WalkValue(p, f.value, Some(f.key), None))]
    else if f.value.Arr? then [Field(f.key, WalkValue(p, f.value, Some(f.key), FieldInheritance(p, f.key, inherited)))]
    else [Field(f.key, Apply(p, ActionFor(p, Some(f.key), f.value, inherited), f.value))]
  }

  function WalkFields(p: Policy, fields: seq<Field>, inherited: Option<Action>): seq<Field>
    decreases fields
  {
    if fields == [] then []
    else WalkFields(p, fields[..|fields| - 1], inherited) + WalkField(p, fields[|fields| - 1], inherited)
  }

  /** What one element of a list becomes. */
  function WalkItem(p: Policy, v: Json, key: Option<string>, inherited: Option<Action>): seq<Json>
    decreases v, 1
  {
    if v.Obj? then [WalkValue(p, v, key, None)]
    else if v.Arr? then [WalkValue(p, v, key, inherited)]
    else
      var action := ActionFor(p, None, v, inherited);
      if action == Drop then [] else [Apply(p, action, v)]
  }

  function WalkItems(p: Policy, items: seq<Json>, key: Option<string>, inherited: Option<Action>): seq<Json>
    decreases items
  {
    if items == [] then []
    else WalkItems(p, items[..|items| - 1], key, inherited) + WalkItem(p, items[|items| - 1], key, inherited)
  }

  /** The walk as the filter runs it, building each mapping and list entry by entry. */
  method Walk(p: Policy, node: Json, key: Option<string>, inherited: Option<Action>) returns (r: Json)
    ensures r == WalkValue(p, node, key, inherited)
    decreases node
  {
    if node.Obj? {
      var out := [];
      for i := 0 to |node.fields|
        invariant out == WalkFields(p, node.fields[..i], inherited)
      {
        var f := node.fields[i];
        assert node.fields[..i + 1][..i] == node.fields[..i];
        var named := p.Named(f.key);
        if named == Some(Drop) { continue; }
        if f.value.Obj? {
          var w := Walk(p, f.value, Some(f.key), None);
          out := out + [Field(f.key, w)];
        } else if f.value.Arr? {
          var w := Walk(p, f.value, Some(f.key), if named.Some? then named else inherited);
          out := out + [Field(f.key, w)];
        } else {
          out := out + [Field(f.key, Apply(p, ActionFor(p, Some(f.key), f.value, inherited), f.value))];
        }
      }
      assert node.fields[..|node.fields|] == node.fields;
      return Obj(out);
    }
    if node.Arr? {
      var items := [];
      for i := 0 to |node.items|
        invariant items == WalkItems(p, node.items[..i], key, inherited)
      {
        var v := node.items[i];
        assert node.items[..i + 1][..i] == node.items[..i];
        if v.Obj? {
          var w := Walk(p, v, key, None);
          items := items + [w];
        } else if v.Arr? {
          var w := Walk(p, v, key, inherited);
          items := items + [w];
        } else {
          var action := ActionFor(p, None, v, inherited);
          if action == Drop { continue; }
          items := items + [Apply(p, action, v)];
        }
      }
      assert node.items[..|node.items|] == node.items;
      return Arr(items);
    }
    return Apply(p, ActionFor(p, key, node, inherited), node);
  }

  /** A mapping redacted on its own, with nothing enclosing it. */
  function Redacted(p: Policy, v: Json): Json {
    WalkValue(p, v, None, None)
  }

  /** `redact_facts`: fails closed on a non-mapping or an unusable policy. */
  method RedactFacts(facts: Json, keys: seq<KeyAction>, fallback: string, salt: string, sha256: string -> string)
    returns (r: Result<Json, string>)
    ensures facts.Null? ==> r == Ok(Obj([]))
    ensures !facts.Null? ==> (r.Ok? <==> facts.Obj? && PolicyOf(keys, fallback, salt, sha256).Ok?)
    ensures !facts.Null? && r.Ok? ==> r.value == Redacted(PolicyOf(keys, fallback, salt, sha256).value, facts)
  {
    if facts.Null? { return Ok(Obj([])); }
    if !facts.Obj? { return Err("redact_facts expects a mapping of fact key to record"); }
    var policy := PolicyOf(keys, fallback, salt, sha256);
    if policy.Err? { return Err(policy.error); }
    var out := Walk(policy.value, facts, None, None);
    return Ok(out);
  }
}
