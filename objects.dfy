/**
 * The line parsers: DSMRObjectParser._parse and its three subclasses
 * CosemParser, MBusParser and ProfileGenericParser.
 */
module Objects {
  import opened Wrappers
  import opened Exceptions
  import opened Values
  import Tokens

  /** The decoded objects (the classes of dsmr_parser.objects), each wrapping its value list. */
  datatype DsmrObject<V> =
    | CosemObject(values: seq<ValueGroup<V>>)
    | MBusObject(values: seq<ValueGroup<V>>)
    | MBusObjectV2_2(values: seq<ValueGroup<V>>)

  /** A line parser with the value formats it was constructed with. */
  datatype ObjectParser<V> =
    | CosemParser(valueFormats: seq<ValueParser<V>>)
    | MBusParser(valueFormats: seq<ValueParser<V>>)
    | ProfileGenericParser(valueFormats: seq<ValueParser<V>>)

  /**
   * The list comprehension of _parse: each token decoded by its own format,
   * left to right; the first format that raises ends the comprehension.
   */
  function ParseEach<V>(formats: seq<ValueParser<V>>, values: seq<Option<string>>): (r: Result<seq<ValueGroup<V>>, Error>)
    requires |formats| == |values|
    ensures r.Ok? ==> |r.value| == |values|
    ensures r.Ok? ==> forall n :: 0 <= n < |values| ==> ParseValue(formats[n], values[n]) == Ok(r.value[n])
    ensures r.Err? ==> exists n :: && 0 <= n < |values|
                                   && ParseValue(formats[n], values[n]) == Err(r.error)
                                   && forall m :: 0 <= m < n ==> ParseValue(formats[m], values[m]).Ok?
  {
    if values == [] then Ok([])
    else
      match ParseValue(formats[0], values[0])
      case Err(e) => Err(e)
      case Ok(g) =>
        match ParseEach(formats[1..], values[1..])
        case Err(e) =>
          ghost var n :| && 0 <= n < |values| - 1
                         && ParseValue(formats[1..][n], values[1..][n]) == Err(e)
                         && forall m :: 0 <= m < n ==> ParseValue(formats[1..][m], values[1..][m]).Ok?;
          assert forall m :: 0 < m <= n ==> ParseValue(formats[m], values[m]).Ok? by {
            forall m | 0 < m <= n ensures ParseValue(formats[m], values[m]).Ok? {
              assert formats[1..][m - 1] == formats[m] && values[1..][m - 1] == values[m];
            }
          }
          assert ParseValue(formats[n + 1], values[n + 1]) == Err(e);
          Err(e)
        case Ok(gs) =>
          assert forall n :: 0 < n < |values| ==> formats[1..][n - 1] == formats[n] && values[1..][n - 1] == values[n];
          Ok([g] + gs)
  }

  /** DSMRObjectParser._parse: the line's value groups, checked against the number of formats. */
  function ParseValues<V>(valueFormats: seq<ValueParser<V>>, line: string): (r: Result<seq<ValueGroup<V>>, Error>)
    ensures |Tokens.Tokens(line)| == 0 || |Tokens.Tokens(line)| != |valueFormats| ==> r == Err(ParseError)
    ensures r.Ok? ==> |r.value| == |valueFormats| == |Tokens.Tokens(line)| > 0
    ensures r.Ok? ==> forall n :: 0 <= n < |valueFormats| ==>
                        ParseValue(valueFormats[n], Tokens.ValueTokens(line)[n]) == Ok(r.value[n])
    ensures 0 < |Tokens.Tokens(line)| == |valueFormats| ==> r == ParseEach(valueFormats, Tokens.ValueTokens(line))
  {
    var values := Tokens.ValueTokens(line);
    if |values| == 0 || |values| != |valueFormats| then Err(ParseError)
    else ParseEach(valueFormats, values)
  }

  /** The parse method of each line parser. */
  function ParseObject<V>(p: ObjectParser<V>, line: string): (r: Result<DsmrObject<V>, Error>)
    ensures p.ProfileGenericParser? ==> r == Err(NotImplementedError)
    ensures p.CosemParser? && r.Ok? ==> r.value.CosemObject?
    ensures p.MBusParser? && r.Ok? ==> (r.value.MBusObject? <==> |p.valueFormats| == 2)
    ensures p.MBusParser? && r.Ok? ==> (r.value.MBusObjectV2_2? <==> |p.valueFormats| != 2)
    ensures !p.ProfileGenericParser? ==> r.Ok? == ParseValues(p.valueFormats, line).Ok?
    ensures r.Ok? ==> r.value.values == ParseValues(p.valueFormats, line).value
    ensures !p.ProfileGenericParser? && r.Err? ==> r.error == ParseValues(p.valueFormats, line).error
  {
    match p
    case CosemParser(formats) =>
      (match ParseValues(formats, line)
       case Err(e) => Err(e)
       case Ok(values) => Ok(CosemObject(values)))
    case MBusParser(formats) =>
      (match ParseValues(formats, line)
       case Err(e) => Err(e)
       case Ok(values) => if |values| == 2 then Ok(MBusObject(values)) else Ok(MBusObjectV2_2(values)))
    case ProfileGenericParser(_) =>
      Err(NotImplementedError)
  }

  /** A line with a single value group, parsed with a single format. */
  lemma ParseValuesOneGroup<V>(p: ValueParser<V>, line: string, v: Option<string>)
    requires Tokens.ValueTokens(line) == [v]
    ensures ParseValues([p], line) == match ParseValue(p, v)
                                      case Err(e) => Err(e)
                                      case Ok(g) => Ok([g])
  {
    assert [p][1..] == [] && [v][1..] == [];
    assert ParseEach([p][1..], [v][1..]) == Ok([]);
    match ParseValue(p, v)
    case Err(e) =>
      assert ParseEach([p], [v]) == Err(e);
    case Ok(g) =>
      assert ParseEach([p], [v]) == Ok([g] + []);
      assert [g] + [] == [g];
  }

  /**
   * A COSEM line written as identifier "(" value "*" unit ")" decodes to one
   * value group holding the coerced value and that unit.
   */
  lemma {:induction false} CosemValueWithUnit<V>(id: string, value: string, unit: string, p: ValueParser<V>)
    requires '(' !in id && '*' !in value && '*' !in unit
    requires Tokens.IsTokenText(value) && Tokens.IsTokenText(unit)
    ensures ParseObject(CosemParser([p]), id + "(" + value + "*" + unit + ")")
         == match p.coerceType(value)
            case None => Err(CoercionError(value))
            case Some(v) => Ok(CosemObject([ValueGroup(Some(v), Some(unit))]))
  {
    var token := value + "*" + unit;
    var line := id + "(" + token + ")";
    assert line == id + "(" + value + "*" + unit + ")";
    Tokens.UnitTokenText(value, unit);
    Tokens.OneGroupLine(id, token);
    ParseValuesOneGroup(p, line, Some(token));
    ParseValueWithUnit(p, value, unit);
  }

  /** A COSEM line written as identifier "(" value ")" decodes to the coerced value without a unit. */
  lemma {:induction false} CosemValueWithoutUnit<V>(id: string, value: string, p: ValueParser<V>)
    requires '(' !in id && '*' !in value && value != []
    requires Tokens.IsTokenText(value)
    ensures ParseObject(CosemParser([p]), id + "(" + value + ")")
         == match p.coerceType(value)
            case None => Err(CoercionError(value))
            case Some(v) => Ok(CosemObject([ValueGroup(Some(v), None)]))
  {
    Tokens.OneGroupLine(id, value);
    ParseValuesOneGroup(p, id + "(" + value + ")", Some(value));
    ParseValueWithoutUnit(p, value);
  }

  /** An empty group "()" decodes to no value and no unit, whatever the format's coercion. */
  lemma {:induction false} CosemEmptyGroup<V>(id: string, p: ValueParser<V>)
    requires '(' !in id
    ensures ParseObject(CosemParser([p]), id + "()") == Ok(CosemObject([ValueGroup(None, None)]))
  {
    Tokens.OneGroupLine(id, []);
    assert id + "(" + [] + ")" == id + "()";
    ParseValuesOneGroup(p, id + "()", None);
  }

  /** A line with two non-empty groups is the legacy M-Bus object when two formats are configured. */
  lemma {:induction false} MBusTwoGroups<V>(id: string, t1: string, t2: string, f1: ValueParser<V>, f2: ValueParser<V>)
    requires '(' !in id && Tokens.IsTokenText(t1) && Tokens.IsTokenText(t2) && t1 != [] && t2 != []
    requires ParseValue(f1, Some(t1)).Ok? && ParseValue(f2, Some(t2)).Ok?
    ensures ParseObject(MBusParser([f1, f2]), id + "(" + t1 + ")(" + t2 + ")")
         == Ok(MBusObject([ParseValue(f1, Some(t1)).value, ParseValue(f2, Some(t2)).value]))
  {
    var line := id + "(" + t1 + ")(" + t2 + ")";
    Tokens.TwoGroupLine(id, t1, t2);
    var r := ParseValues([f1, f2], line);
    assert r.Ok?;
    assert r.value == [ParseValue(f1, Some(t1)).value, ParseValue(f2, Some(t2)).value];
  }
}
