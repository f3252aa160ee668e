/** Query and body parameters read as `parseInt(x, 10) || default`. */
module Params {
  import opened Wrappers
  import opened Decimal
  import opened Json

  /** `parseInt(v, 10) || default`: `v` is converted with `String`, parsed,
      and a NaN or zero result (both falsy) gives way to the default. `None`
      when `String(v)` throws, which the handler does not catch. */
  function ParseIntOr(v: Value, default: int): (r: Option<int>)
    ensures r.None? <==> ToString(v).None?
    ensures ToString(v).Some? && ParseInt(ToString(v).value) in {None, Some(0)} ==> r == Some(default)
    ensures ToString(v).Some? && ParseInt(ToString(v).value) !in {None, Some(0)} ==> r == ParseInt(ToString(v).value)
    ensures r.Some? ==> r.value != 0 || default == 0
  {
    match ToString(v)
    case None => None
    case Some(t) =>
      match ParseInt(t)
      case None => Some(default)
      case Some(n) => Some(if n == 0 then default else n)
  }

  /** An absent parameter, and any value whose string form starts with no
      digit, falls back to the default. */
  lemma ResolveNonNumeric(v: Value, default: int)
    requires v.Undefined? || v.Null? || v.Bool? || (v.Obj? && "toString" !in v.fields)
    ensures ParseIntOr(v, default) == Some(default)
  {
    var s := ToString(v).value;
    assert s[0] != '-' && s[0] != '+' && !IsDigit(s[0]) && !IsJsSpace(s[0]);
  }

  /** An object carrying its own `toString` field makes `String` throw. */
  lemma ResolveThrows(fields: map<string, Value>, default: int)
    requires "toString" in fields
    ensures ParseIntOr(Obj(fields), default).None?
    ensures ParseIntOr(Arr([Num(1), Obj(fields)]), default).None?
  {
    assert ToString(Arr([Num(1), Obj(fields)])).None? by {
      var items := [Num(1), Obj(fields)];
      ArrayStringThrows(items);
      assert !items[1].Undefined? && !items[1].Null? && ToString(items[1]).None?;
    }
  }

  /** Text that does not start (after white space and one sign) with a digit
      falls back to the default. */
  lemma ResolveNoDigits(s: string, default: int)
    requires var u := Unsigned(TrimStart(s)); u == [] || !IsDigit(u[0])
    ensures ParseIntOr(Str(s), default) == Some(default)
  {
  }

  /** Text that starts with the decimal form of `n` (after any white space,
      and with anything but a digit after it) resolves to `n`, or to the
      default when `n` is zero. */
  lemma ResolveText(ws: string, n: int, rest: string, default: int)
    requires AllSpace(ws)
    requires rest == [] || !IsDigit(rest[0])
    ensures ParseIntOr(Str(ws + DecimalString(n) + rest), default) == Some(if n == 0 then default else n)
  {
    ParseIntDecimal(ws, n, rest);
  }

  /** A JSON number is used as it is, unless it is zero. */
  lemma ResolveNumber(n: int, default: int)
    ensures ParseIntOr(Num(n), default) == Some(if n == 0 then default else n)
  {
    ParseDecimalString(n);
  }
}
