/** JavaScript values as they reach the server: the JSON request body, query
    parameters and the documents js-yaml returns. Only integral numbers are
    modelled. */
module Json {
  import opened Wrappers
  import opened Decimal

  datatype Value =
    | Undefined
    | Null
    | Bool(b: bool)
    | Num(n: int)
    | Str(s: string)
    | Arr(items: seq<Value>)
    | Obj(fields: map<string, Value>)

  /** JavaScript truthiness: what `!v` negates. */
  predicate Truthy(v: Value) {
    match v
    case Undefined => false
    case Null => false
    case Bool(b) => b
    case Num(n) => n != 0
    case Str(s) => s != []
    case _ => true
  }

  /** `String(v)`, or `None` where it throws a TypeError. An array is joined
      with commas, its undefined and null elements written as empty strings.
      An object without an own `toString` gets the inherited one,
      "[object Object]". An own `toString` from JSON or YAML is data, not a
      function, so the conversion falls back to `valueOf`, which returns the
      object itself, and `String` throws. An element that throws makes its
      array throw. */
  function ToString(v: Value): (r: Option<string>)
    ensures v.Obj? ==> (r.None? <==> "toString" in v.fields)
    ensures v.Str? ==> r == Some(v.s)
    ensures v.Num? ==> r == Some(DecimalString(v.n))
  {
    match v
    case Undefined => Some("undefined")
    case Null => Some("null")
    case Bool(b) => Some(if b then "true" else "false")
    case Num(n) => Some(DecimalString(n))
    case Str(s) => Some(s)
    case Arr(items) =>
      var parts := seq(|items|, i requires 0 <= i < |items| =>
        if items[i].Undefined? || items[i].Null? then Some("") else ToString(items[i]));
      if forall i :: 0 <= i < |parts| ==> parts[i].Some? then Some(JoinComma(Strings(parts))) else None
    case Obj(fields) => if "toString" in fields then None else Some("[object Object]")
  }

  /** An array's `String` throws exactly when that of one of its elements
      other than undefined and null does. */
  lemma ArrayStringThrows(items: seq<Value>)
    ensures ToString(Arr(items)).None? <==>
      exists i :: 0 <= i < |items| && !items[i].Undefined? && !items[i].Null? && ToString(items[i]).None?
  {
    var parts := seq(|items|, i requires 0 <= i < |items| =>
      if items[i].Undefined? || items[i].Null? then Some("") else ToString(items[i]));
    assert forall i :: 0 <= i < |items| ==>
      (parts[i].None? <==> !items[i].Undefined? && !items[i].Null? && ToString(items[i]).None?);
  }

  /** The strings of a sequence of conversions that all succeeded. */
  function Strings(parts: seq<Option<string>>): (r: seq<string>)
    requires forall i :: 0 <= i < |parts| ==> parts[i].Some?
    ensures |r| == |parts| && forall i :: 0 <= i < |r| ==> Some(r[i]) == parts[i]
  {
    if parts == [] then [] else [parts[0].value] + Strings(parts[1..])
  }

  function JoinComma(parts: seq<string>): string {
    if parts == [] then ""
    else if |parts| == 1 then parts[0]
    else parts[0] + "," + JoinComma(parts[1..])
  }

  /** The own enumerable properties that object spread (`{...v}`) copies:
      the fields of an object, the indices of an array or of a string (one
      character each), and nothing for any other value. */
  function OwnProps(v: Value): map<string, Value> {
    match v
    case Obj(fields) => fields
    case Arr(items) => IndexedProps(items)
    case Str(s) => IndexedProps(seq(|s|, i requires 0 <= i < |s| => Str([s[i]])))
    case _ => map[]
  }

  /** The properties "0", "1", ... of an array-like value. */
  function IndexedProps(items: seq<Value>): (m: map<string, Value>)
    ensures m.Keys == set i | 0 <= i < |items| :: DecimalString(i)
    ensures forall i :: 0 <= i < |items| ==> m[DecimalString(i)] == items[i]
  {
    AllDecimalStringsDistinct();
    map i | 0 <= i < |items| :: DecimalString(i) := items[i]
  }
}
