/** JSON values as `json.loads` produces them and `json.dumps` consumes them.
    The parser and the printer belong to Python's library and are not part of
    this model: they enter as the two fields of a `JsonCodec`. */
module JsonModel {
  import opened Options

  /** A parsed JSON value. Objects keep their members in order; a number is
      kept as the text it was written with, since the sanitizer never looks
      inside one. */
  datatype JsonValue =
    | JNull
    | JBool(b: bool)
    | JNumber(literal: string)
    | JString(s: string)
    | JArray(items: seq<JsonValue>)
    | JObject(members: seq<(string, JsonValue)>)

  /** `json.loads` (None where it raises) and `json.dumps`. */
  datatype JsonCodec = JsonCodec(loads: string -> Option<JsonValue>, dumps: JsonValue -> string)

  /** Every string leaf of `t` is shorter than `n`. */
  predicate LeavesShorter(t: JsonValue, n: nat)
  {
    match t
    case JString(s) => |s| < n
    case JArray(items) => forall i :: 0 <= i < |items| ==> LeavesShorter(items[i], n)
    case JObject(members) => forall i :: 0 <= i < |members| ==> LeavesShorter(members[i].1, n)
    case _ => true
  }

  /** What the sanitizer relies on from the parser: a string leaf is written
      between two quotes in the text it was parsed from, so it is shorter than
      that text. Python's `json.loads` has this property. */
  ghost predicate WellBehaved(lib: JsonCodec) {
    forall text :: ParsesShorter(lib, text)
  }

  /** The bound for one text. */
  ghost predicate ParsesShorter(lib: JsonCodec, text: string) {
    lib.loads(text).Some? ==> LeavesShorter(lib.loads(text).value, |text|)
  }

  /** `a` and `b` have the same shape: the same constructors, the same object
      keys in the same order, the same array lengths and the same non-string
      leaves; only the contents of string leaves may differ. */
  predicate SameShape(a: JsonValue, b: JsonValue)
  {
    match a
    case JString(_) => b.JString?
    case JArray(xs) =>
      b.JArray? && |b.items| == |xs|
      && forall i :: 0 <= i < |xs| ==> SameShape(xs[i], b.items[i])
    case JObject(ms) =>
      b.JObject? && |b.members| == |ms|
      && forall i :: 0 <= i < |ms| ==> ms[i].0 == b.members[i].0 && SameShape(ms[i].1, b.members[i].1)
    case _ => b == a
  }
}
