/** JavaScript values as the core sees them: JSON bodies returned by the remote
    API and passed through extension messages, JavaScript truthiness, property
    reads (which throw on `null`), `String(value)`, and the few host builtins the
    core calls but does not define. */
module JsValues {
  import opened Wrappers

  type NonEmptyString = s: string | |s| > 0 witness "?"

  /** A JSON value. Objects keep their members in order, as JavaScript objects do. */
  datatype Json =
    | JNull
    | JBool(b: bool)
    | JNum(n: real)
    | JStr(s: string)
    | JArr(items: seq<Json>)
    | JObj(members: seq<(string, Json)>)

  /** Host builtins, given as parameters: `JSON.stringify`, `Number.prototype.toString`
      (both never return the empty string) and `String.prototype.localeCompare`. */
  datatype Runtime = Runtime(
    stringify: Json -> NonEmptyString,
    numberText: real -> NonEmptyString,
    localeCompare: (string, string) -> int)

  /** `localeCompare` behaves as a comparator: the sign flips with the arguments and
      "not after" is transitive (a total preorder on strings). */
  ghost predicate ConsistentCollation(rt: Runtime) {
    && (forall a: string, b: string :: (rt.localeCompare(a, b) < 0) == (rt.localeCompare(b, a) > 0))
    && (forall a: string, b: string, c: string ::
          rt.localeCompare(a, b) <= 0 && rt.localeCompare(b, c) <= 0 ==> rt.localeCompare(a, c) <= 0)
  }

  /** JavaScript truthiness (`!!v`). JSON numbers are never NaN. */
  predicate Truthy(v: Json) {
    match v
    case JNull => false
    case JBool(b) => b
    case JNum(n) => n != 0.0
    case JStr(s) => s != ""
    case JArr(_) => true
    case JObj(_) => true
  }

  /** Truthiness of a property read that may be `undefined` (None). */
  predicate TruthyOpt(v: Option<Json>) {
    v.Some? && Truthy(v.value)
  }

  /** The member `name` of an object; JSON.parse keeps the last of duplicate names. */
  function Lookup(members: seq<(string, Json)>, name: string): (r: Option<Json>)
    ensures r.Some? ==> exists i :: 0 <= i < |members| && members[i] == (name, r.value)
    ensures r.None? ==> forall i :: 0 <= i < |members| ==> members[i].0 != name
  {
    if members == [] then None
    else if members[|members| - 1].0 == name then Some(members[|members| - 1].1)
    else Lookup(members[..|members| - 1], name)
  }

  /** `v.name` on a value known not to be null: `undefined` (None) unless `v` is an object. */
  function Field(v: Json, name: string): Option<Json> {
    if v.JObj? then Lookup(v.members, name) else None
  }

  function ReadNullMessage(name: string): string {
    "Cannot read properties of null (reading '" + name + "')"
  }

  function ReadUndefinedMessage(name: string): string {
    "Cannot read properties of undefined (reading '" + name + "')"
  }

  /** `v.name` on any value: throws a TypeError on null. */
  function Prop(v: Json, name: string): (r: Result<Option<Json>, string>)
    ensures r.Failure? <==> v.JNull?
    ensures r.Success? ==> r.value == Field(v, name)
  {
    if v.JNull? then Failure(ReadNullMessage(name)) else Success(Field(v, name))
  }

  /** `String(v)` where it does not throw (`ConversionThrows`): strings as they are,
      arrays joined with "," (null items as ""). */
  function Text(v: Json, rt: Runtime): string
    decreases v
  {
    match v
    case JNull => "null"
    case JBool(b) => if b then "true" else "false"
    case JNum(n) => rt.numberText(n)
    case JStr(s) => s
    case JObj(_) => ObjectText
    case JArr(items) =>
      Join(seq(|items|, i requires 0 <= i < |items| =>
        if items[i].JNull? then "" else Text(items[i], rt)), ",")
  }

  const ToPrimitiveMessage := "Cannot convert object to primitive value"

  /** What `Object.prototype.toString` gives for a plain object. */
  const ObjectText := "[object Object]"

  /** Converting the value to a primitive throws a TypeError. A JSON object with a
      `toString` member of its own hides the callable one, and its `valueOf` gives the
      object back, so neither yields a primitive. An array converts by joining its
      items, so it throws when one of them does. */
  predicate ConversionThrows(v: Json)
    decreases v
  {
    match v
    case JObj(members) => Lookup(members, "toString").Some?
    case JArr(items) => exists i | 0 <= i < |items| :: ConversionThrows(items[i])
    case _ => false
  }

  function Join(parts: seq<string>, sep: string): string {
    if parts == [] then ""
    else if |parts| == 1 then parts[0]
    else parts[0] + sep + Join(parts[1..], sep)
  }

  /** `s.indexOf(c)`, with None for -1. */
  function IndexOf(s: string, c: char): (r: Option<nat>)
    ensures r.None? <==> c !in s
    ensures r.Some? ==> r.value < |s| && s[r.value] == c && c !in s[..r.value]
  {
    if s == [] then None
    else if s[0] == c then Some(0)
    else
      match IndexOf(s[1..], c)
      case None => None
      case Some(i) => assert s[..i + 1] == [s[0]] + s[1..][..i]; Some(i + 1)
  }

  /** `xs.findIndex(p)`, with None for -1: the first position whose element satisfies
      `p` (`xs.find(p)` is the element there). */
  function FindIndex<T>(xs: seq<T>, p: T -> bool): (r: Option<nat>)
    ensures r.None? <==> forall i | 0 <= i < |xs| :: !p(xs[i])
    ensures r.Some? ==> r.value < |xs| && p(xs[r.value]) && forall j | 0 <= j < r.value :: !p(xs[j])
  {
    if xs == [] then None
    else if p(xs[0]) then Some(0)
    else
      match FindIndex(xs[1..], p)
      case None => None
      case Some(i) => Some(i + 1)
  }

  /** ASCII case folding as `toLowerCase` does it on ASCII letters. */
  function LowerChar(c: char): char {
    if 'A' <= c <= 'Z' then (c as int + 32) as char else c
  }

  function LowerCase(s: string): (r: string)
    ensures |r| == |s|
    ensures forall i :: 0 <= i < |s| ==> r[i] == LowerChar(s[i])
  {
    if s == [] then [] else [LowerChar(s[0])] + LowerCase(s[1..])
  }

  /** The characters `String.prototype.trim` removes: WhiteSpace and LineTerminator. */
  predicate IsJsSpace(c: char) {
    c == '\U{0009}' || c == '\U{000B}' || c == '\U{000C}' || c == ' ' || c == '\U{00A0}' ||
    c == '\U{FEFF}' || c == '\U{1680}' || ('\U{2000}' <= c <= '\U{200A}') || c == '\U{202F}' ||
    c == '\U{205F}' || c == '\U{3000}' || c == '\n' || c == '\r' || c == '\U{2028}' || c == '\U{2029}'
  }

  function TrimStart(s: string): (r: string)
    ensures |r| <= |s| && r == s[|s| - |r|..]
    ensures r != [] ==> !IsJsSpace(r[0])
  {
    if s != [] && IsJsSpace(s[0]) then TrimStart(s[1..]) else s
  }

  function TrimEnd(s: string): (r: string)
    ensures |r| <= |s| && r == s[..|r|]
    ensures r != [] ==> !IsJsSpace(r[|r| - 1])
  {
    if s != [] && IsJsSpace(s[|s| - 1]) then TrimEnd(s[..|s| - 1]) else s
  }

  function Trim(s: string): string {
    TrimEnd(TrimStart(s))
  }
}
