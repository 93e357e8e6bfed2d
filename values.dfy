/**
 * ValueParser.parse: one value group, as returned by the tokeniser, becomes a
 * value and an optional unit of measurement.
 */
module Values {
  import opened Wrappers
  import opened Exceptions
  import Strings

  /**
   * A value format: the coercion it was configured with (int, Decimal, str or
   * a timestamp parser in the meter specifications). None stands for the
   * coercion raising.
   */
  datatype ValueParser<V> = ValueParser(coerceType: string -> Option<V>)

  /** The {'value': ..., 'unit': ...} dict ValueParser.parse returns. */
  datatype ValueGroup<V> = ValueGroup(value: Option<V>, unit: Option<string>)

  /** Calling the coercion, which may raise. */
  function Coerce<V>(p: ValueParser<V>, raw: string): Result<V, Error> {
    match p.coerceType(raw)
    case None => Err(CoercionError(raw))
    case Some(v) => Ok(v)
  }

  /** ValueParser.parse(value); None stands for an empty value group. */
  function ParseValue<V>(p: ValueParser<V>, value: Option<string>): (r: Result<ValueGroup<V>, Error>)
    ensures value.None? ==> r == Ok(ValueGroup(None, None))
    ensures r.Ok? ==> (r.value.value.None? <==> value.None?)
    ensures r.Ok? && r.value.unit.Some? ==> value.Some? && '*' in value.value && '*' !in r.value.unit.value
  {
    if value.Some? && value.value != [] && '*' in value.value then
      var parts := Strings.Split(value.value, '*');
      if |parts| != 2 then Err(UnpackError(value.value))
      else
        match Coerce(p, parts[0])
        case Err(e) => Err(e)
        case Ok(v) => Ok(ValueGroup(Some(v), Some(parts[1])))
    else if value.None? then
      Ok(ValueGroup(None, None))
    else
      match Coerce(p, value.value)
      case Err(e) => Err(e)
      case Ok(v) => Ok(ValueGroup(Some(v), None))
  }

  /** An empty group decodes to no value and no unit, whatever the coercion: it is never called. */
  lemma AbsentValueIgnoresCoercion<V>(p: ValueParser<V>, q: ValueParser<V>)
    ensures ParseValue(p, None) == ParseValue(q, None) == Ok(ValueGroup(None, None))
  {
  }

  /** A token without '*' is coerced whole and has no unit. */
  lemma ParseValueWithoutUnit<V>(p: ValueParser<V>, t: string)
    requires '*' !in t
    ensures ParseValue(p, Some(t)) == match p.coerceType(t)
                                       case None => Err(CoercionError(t))
                                       case Some(v) => Ok(ValueGroup(Some(v), None))
  {
  }

  /**
   * Round trip with the way a meter writes a value with a unit: the token
   * value + "*" + unit decodes to the coerced value and exactly that unit.
   */
  lemma {:induction false} ParseValueWithUnit<V>(p: ValueParser<V>, value: string, unit: string)
    requires '*' !in value && '*' !in unit
    ensures ParseValue(p, Some(value + "*" + unit)) == match p.coerceType(value)
                                                      case None => Err(CoercionError(value))
                                                      case Some(v) => Ok(ValueGroup(Some(v), Some(unit)))
  {
    var t := value + "*" + unit;
    assert t == Strings.Join([value, unit], '*');
    Strings.SplitJoin([value, unit], '*');
    assert t[|value|] == '*';
  }

  /** A token with two or more '*' fails at the tuple unpack. */
  lemma {:induction false} ParseValueManyStars<V>(p: ValueParser<V>, t: string, i: nat, j: nat)
    requires i < j < |t| && t[i] == '*' && t[j] == '*'
    ensures ParseValue(p, Some(t)) == Err(UnpackError(t))
  {
    var parts := Strings.Split(t, '*');
    if |parts| == 2 {
      Strings.JoinSplit(t, '*');
      assert false;
    }
  }
}
