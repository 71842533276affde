/**
  * The JSON values the front end receives and stores, with JavaScript's truthiness,
  * property access, `||` and `String(v)`. `JSON.parse` and `JSON.stringify` are not
  * modelled: a `Codec` stands for them, and `Sound` says what the front end relies on.
  */
module Json {
  import opened Wrappers
  import Text

  /** A JSON value. Numbers are integers here (prices in cents); `null` and a missing
      property (`undefined`) are both `JNull`. */
  datatype Value =
    | JNull
    | JBool(b: bool)
    | JNum(n: int)
    | JStr(s: string)
    | JArr(items: seq<Value>)
    | JObj(fields: map<string, Value>)

  /** JavaScript truthiness: `null`, `false`, `0` and `""` are falsy, everything else truthy. */
  predicate Truthy(v: Value) {
    match v
    case JNull => false
    case JBool(b) => b
    case JNum(n) => n != 0
    case JStr(s) => s != ""
    case JArr(_) => true
    case JObj(_) => true
  }

  /** `v?.key`: a property of an object; anything else has no properties. */
  function Get(v: Value, key: string): (r: Value)
    ensures !v.JObj? ==> r == JNull
    ensures v.JObj? && key in v.fields ==> r == v.fields[key]
    ensures v.JObj? && key !in v.fields ==> r == JNull
  {
    if v.JObj? && key in v.fields then v.fields[key] else JNull
  }

  /** `a || b` */
  function Or(a: Value, b: Value): (r: Value)
    ensures Truthy(a) ==> r == a
    ensures !Truthy(a) ==> r == b
  {
    if Truthy(a) then a else b
  }

  /** `Number(v)`; `None` is NaN. A string is read by `Text.NumberText`, and an array
      as the string it prints (`Number([])` is 0, `Number([5])` is 5). */
  function NumberOf(v: Value): (r: Option<int>)
    ensures v.JNum? ==> r == Some(v.n)
    ensures !Truthy(v) ==> r == Some(0)
    ensures v.JBool? ==> r == Some(if v.b then 1 else 0)
    ensures v.JStr? ==> r == Text.NumberText(v.s)
    ensures v.JArr? ==> r == Text.NumberText(ToText(v))
    ensures v.JObj? ==> r.None?
  {
    match v
    case JNull => Some(0)
    case JBool(b) => Some(if b then 1 else 0)
    case JNum(n) => Some(n)
    case JStr(s) => Text.NumberText(s)
    case JArr(_) => Text.NumberText(ToText(v))
    case JObj(_) => None
  }

  /** An empty array reads as 0 and a one-number array as that number, and a
      number printed as text reads back as itself. */
  lemma NumberOfPrinted(n: int)
    ensures NumberOf(JArr([])) == Some(0)
    ensures NumberOf(JArr([JNum(n)])) == Some(n)
    ensures NumberOf(JStr(ToText(JNum(n)))) == Some(n)
  {
    assert ToText(JArr([])) == "";
    assert ToText(JArr([JNum(n)])) == Text.IntToString(n);
    Text.NumberTextOfIntToString(n);
  }

  /** `String(v)`; arrays print their elements joined by commas, `null` elements as "". */
  function ToText(v: Value): string
    decreases v
  {
    match v
    case JNull => "null"
    case JBool(b) => if b then "true" else "false"
    case JNum(n) => Text.IntToString(n)
    case JStr(s) => s
    case JArr(items) =>
      Join(seq(|items|, i requires 0 <= i < |items| => if items[i].JNull? then "" else ToText(items[i])))
    case JObj(_) => "[object Object]"
  }

  /** `parts.join(',')` */
  function Join(parts: seq<string>): string {
    if parts == [] then "" else if |parts| == 1 then parts[0] else parts[0] + "," + Join(parts[1..])
  }

  /** The own fields of a value, as `{...v}` copies them (non-objects contribute none). */
  function FieldsOf(v: Value): map<string, Value> {
    if v.JObj? then v.fields else map[]
  }

  /** `JSON.parse` (None: the text is not JSON) and `JSON.stringify`. */
  datatype Codec = Codec(parse: string -> Option<Value>, stringify: Value -> string)

  /** What the front end relies on: text written by `stringify` parses back to the same
      value, and is never the empty string. */
  ghost predicate Sound(c: Codec) {
    forall v :: c.parse(c.stringify(v)) == Some(v) && c.stringify(v) != ""
  }
}
