/** JSON values as the pipeline holds them in memory; a mapping keeps its insertion order. */
module Json {
  import opened Text

  /** The characters Python prints a float with, `inf` and `nan` included. */
  predicate IsFloatChar(c: char) {
    IsDigit(c) || c in {'.', '-', '+', 'e', 'i', 'n', 'f', 'a'}
  }

  type FloatText = s: string | s != "" && forall c :: c in s ==> IsFloatChar(c) witness "0"

  /** A float is carried as the text Python prints for it. */
  datatype Json =
    | Null
    | Bool(b: bool)
    | Int(n: int)
    | Float(repr: FloatText)
    | Str(s: string)
    | Arr(items: seq<Json>)
    | Obj(fields: seq<Field>)
  {
    predicate IsScalar() {
      !Arr? && !Obj?
    }
  }

  datatype Field = Field(key: string, value: Json)

  function Digit(d: nat): (c: char)
    requires d < 10
    ensures IsDigit(c)
  {
    (d + '0' as int) as char
  }

  function NatText(n: nat): (t: string)
    ensures t != "" && forall c :: c in t ==> IsDigit(c)
  {
    if n < 10 then [Digit(n)] else NatText(n / 10) + [Digit(n % 10)]
  }

  function DigitValue(c: char): (d: nat)
    requires IsDigit(c)
    ensures d < 10 && Digit(d) == c
  {
    c as int - '0' as int
  }

  predicate AllDigits(s: string) {
    s != "" && forall c :: c in s ==> IsDigit(c)
  }

  /** `int(s)` of a text of digits. */
  function NatValue(s: string): nat
    requires AllDigits(s)
  {
    var last := s[|s| - 1];
    assert forall c :: c in s[..|s| - 1] ==> c in s;
    (if |s| == 1 then 0 else 10 * NatValue(s[..|s| - 1])) + DigitValue(last)
  }

  /** Writing a number down and reading it back gives the number. */
  lemma {:induction false} NatRoundTrip(n: nat)
    ensures AllDigits(NatText(n)) && NatValue(NatText(n)) == n
  {
    var t := NatText(n);
    if n >= 10 {
      NatRoundTrip(n / 10);
      assert t[..|t| - 1] == NatText(n / 10);
    }
  }

  /** `str(value)` of a scalar. */
  function TextOf(v: Json): string {
    match v
    case Null => "None"
    case Bool(b) => if b then "True" else "False"
    case Int(n) => if n < 0 then "-" + NatText(-n) else NatText(n)
    case Float(repr) => repr
    case Str(s) => s
    case _ => ""
  }

  /** Python's truth value; a float is false when its text spells zero. */
  predicate Truthy(v: Json) {
    match v
    case Null => false
    case Bool(b) => b
    case Int(n) => n != 0
    case Float(repr) => repr != "0.0" && repr != "-0.0"
    case Str(s) => s != ""
    case Arr(items) => items != []
    case Obj(fields) => fields != []
  }
}
