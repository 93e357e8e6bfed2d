/**
 * TelegramParser: the optional checksum gate, then one decoded object per
 * specification entry whose signature occurs in the telegram.
 */
module Telegram {
  import opened Wrappers
  import opened Exceptions
  import opened Values
  import opened Objects
  import Checksum

  /** An OBIS reference pattern, the key of the telegram specification. */
  type Signature = string

  /**
   * re.search(signature, telegram, re.DOTALL) followed by match.group(0): the
   * text the signature's pattern matches first, if any.
   */
  type Matcher = (Signature, string) -> Option<string>

  /** The parse method of a parser object: the decoded object for the matched text, or the error it raises. */
  type ParseMethod<V> = string -> Result<DsmrObject<V>, Error>

  /**
   * One item of the telegram specification: a signature and the parser for
   * its line, represented by the parser's parse method (the dict may hold any
   * object that has one).
   */
  datatype SpecEntry<V> = SpecEntry(signature: Signature, parse: ParseMethod<V>)

  /** The parse method of one of the line parsers of Objects. */
  function LineParser<V>(p: ObjectParser<V>): (f: ParseMethod<V>)
    ensures forall line :: f(line) == ParseObject(p, line)
  {
    (line: string) => ParseObject(p, line)
  }

  /** The specification is a dict: no signature occurs twice. */
  predicate UniqueSignatures<V>(spec: seq<SpecEntry<V>>) {
    forall i, j :: 0 <= i < j < |spec| ==> spec[i].signature != spec[j].signature
  }

  /** The signature of the entry matches and its parser fails on the matched text. */
  predicate EntryFails<V>(e: SpecEntry<V>, search: Matcher, data: string) {
    search(e.signature, data).Some? && e.parse(search(e.signature, data).value).Err?
  }

  /** The keys the assembled dict has: the signatures that match. */
  function MatchedSignatures<V>(spec: seq<SpecEntry<V>>, search: Matcher, data: string): set<Signature> {
    set i | 0 <= i < |spec| && search(spec[i].signature, data).Some? :: spec[i].signature
  }

  /**
   * The dict the loop over the specification builds: entries are visited in
   * order, a matching entry stores its parser's result under its signature,
   * and the first parser that fails ends the loop with its error.
   */
  function Assemble<V>(spec: seq<SpecEntry<V>>, search: Matcher, data: string): (r: Result<map<Signature, DsmrObject<V>>, Error>)
    ensures r.Ok? <==> forall i :: 0 <= i < |spec| ==> !EntryFails(spec[i], search, data)
    decreases |spec|
  {
    if spec == [] then Ok(map[])
    else
      var init := spec[..|spec| - 1];
      var e := spec[|spec| - 1];
      assert forall i :: 0 <= i < |init| ==> init[i] == spec[i];
      match Assemble(init, search, data)
      case Err(err) => Err(err)
      case Ok(telegram) =>
        match search(e.signature, data)
        case None => Ok(telegram)
        case Some(text) =>
          match e.parse(text)
          case Err(err) => Err(err)
          case Ok(obj) => Ok(telegram[e.signature := obj])
  }

  /** TelegramParser.parse as a value: the checksum gate when enabled, then the assembly. */
  function ParseTelegram<V>(spec: seq<SpecEntry<V>>, enableChecksumValidation: bool, search: Matcher, data: string)
    : (r: Result<map<Signature, DsmrObject<V>>, Error>)
    ensures enableChecksumValidation && Checksum.ValidateChecksum(data).Fail? ==> r == Err(Checksum.ValidateChecksum(data).error)
    ensures r.Ok? <==> && (!enableChecksumValidation || Checksum.ValidateChecksum(data) == Pass)
                       && forall i :: 0 <= i < |spec| ==> !EntryFails(spec[i], search, data)
    ensures r.Ok? ==> r.value.Keys == MatchedSignatures(spec, search, data)
  {
    if enableChecksumValidation && Checksum.ValidateChecksum(data).Fail? then Err(Checksum.ValidateChecksum(data).error)
    else
      var r := Assemble(spec, search, data);
      if r.Ok? then AssembleKeys(spec, search, data); r else r
  }

  class TelegramParser<V> {
    const telegramSpecification: seq<SpecEntry<V>>
    const enableChecksumValidation: bool

    constructor(telegramSpecification: seq<SpecEntry<V>>, enableChecksumValidation: bool := false)
      requires UniqueSignatures(telegramSpecification)
      ensures this.telegramSpecification == telegramSpecification
      ensures this.enableChecksumValidation == enableChecksumValidation
    {
      this.telegramSpecification := telegramSpecification;
      this.enableChecksumValidation := enableChecksumValidation;
    }

    /** The dict of decoded objects, built entry by entry. */
    method Parse(telegramData: string, search: Matcher) returns (r: Result<map<Signature, DsmrObject<V>>, Error>)
      ensures r == ParseTelegram(telegramSpecification, enableChecksumValidation, search, telegramData)
    {
      if enableChecksumValidation {
        var outcome := Checksum.ValidateChecksum(telegramData);
        if outcome.Fail? {
          return Err(outcome.error);
        }
      }
      var spec := telegramSpecification;
      var telegram: map<Signature, DsmrObject<V>> := map[];
      var i := 0;
      while i < |spec|
        invariant 0 <= i <= |spec|
        invariant Assemble(spec[..i], search, telegramData) == Ok(telegram)
      {
        var entry := spec[i];
        assert spec[..i + 1][..i] == spec[..i];
        var found := search(entry.signature, telegramData);
        if found.Some? {
          var parsed := entry.parse(found.value);
          if parsed.Err? {
            AssembleStopsAtError(spec, i + 1, search, telegramData);
            return Err(parsed.error);
          }
          telegram := telegram[entry.signature := parsed.value];
        }
        i := i + 1;
      }
      assert spec[..i] == spec;
      return Ok(telegram);
    }
  }

  /** Once a prefix of the specification fails, the whole assembly fails with the same error. */
  lemma {:induction false} AssembleStopsAtError<V>(spec: seq<SpecEntry<V>>, n: nat, search: Matcher, data: string)
    requires n <= |spec| && Assemble(spec[..n], search, data).Err?
    ensures Assemble(spec, search, data) == Assemble(spec[..n], search, data)
    decreases |spec|
  {
    if n == |spec| {
      assert spec[..n] == spec;
    } else {
      var init := spec[..|spec| - 1];
      assert init[..n] == spec[..n];
      AssembleStopsAtError(init, n, search, data);
    }
  }

  /** Appending an entry adds its signature to the matched ones exactly when it matches. */
  lemma MatchedSignaturesSnoc<V>(spec: seq<SpecEntry<V>>, search: Matcher, data: string)
    requires spec != []
    ensures var e := spec[|spec| - 1];
      MatchedSignatures(spec, search, data)
        == MatchedSignatures(spec[..|spec| - 1], search, data) + (if search(e.signature, data).Some? then {e.signature} else {})
  {
    var init := spec[..|spec| - 1];
    var e := spec[|spec| - 1];
    var extra: set<Signature> := if search(e.signature, data).Some? then {e.signature} else {};
    forall x | x in MatchedSignatures(spec, search, data)
      ensures x in MatchedSignatures(init, search, data) + extra
    {
      var i :| 0 <= i < |spec| && search(spec[i].signature, data).Some? && spec[i].signature == x;
      if i < |init| { assert init[i] == spec[i]; }
    }
    forall x | x in MatchedSignatures(init, search, data)
      ensures x in MatchedSignatures(spec, search, data)
    {
      var i :| 0 <= i < |init| && search(init[i].signature, data).Some? && init[i].signature == x;
      assert spec[i] == init[i];
    }
  }

  /** The assembled dict has exactly the signatures that match as its keys. */
  lemma {:induction false} AssembleKeys<V>(spec: seq<SpecEntry<V>>, search: Matcher, data: string)
    requires Assemble(spec, search, data).Ok?
    ensures Assemble(spec, search, data).value.Keys == MatchedSignatures(spec, search, data)
    decreases |spec|
  {
    if spec != [] {
      var init := spec[..|spec| - 1];
      var e := spec[|spec| - 1];
      assert Assemble(init, search, data).Ok?;
      AssembleKeys(init, search, data);
      MatchedSignaturesSnoc(spec, search, data);
    }
  }

  /**
   * Under unique signatures, each matching entry's key holds its parser's
   * result on the matched text.
   */
  lemma {:induction false} AssembleValue<V>(spec: seq<SpecEntry<V>>, search: Matcher, data: string, i: nat)
    requires UniqueSignatures(spec) && Assemble(spec, search, data).Ok?
    requires i < |spec| && search(spec[i].signature, data).Some?
    ensures spec[i].signature in Assemble(spec, search, data).value
    ensures Assemble(spec, search, data).value[spec[i].signature]
         == spec[i].parse(search(spec[i].signature, data).value).value
    decreases |spec|
  {
    var init := spec[..|spec| - 1];
    assert Assemble(init, search, data).Ok?;
    if i < |init| {
      assert init[i] == spec[i];
      assert spec[i].signature != spec[|spec| - 1].signature;
      AssembleValue(init, search, data, i);
    }
  }

  /** The error returned is the one of the first entry whose parser fails. */
  lemma AssembleFirstError<V>(spec: seq<SpecEntry<V>>, search: Matcher, data: string, i: nat)
    requires i < |spec| && EntryFails(spec[i], search, data)
    requires forall j :: 0 <= j < i ==> !EntryFails(spec[j], search, data)
    ensures Assemble(spec, search, data) == Err(spec[i].parse(search(spec[i].signature, data).value).error)
  {
    var prefix := spec[..i + 1];
    assert prefix[..i] == spec[..i];
    assert forall j :: 0 <= j < i ==> spec[..i][j] == spec[j];
    assert Assemble(spec[..i], search, data).Ok?;
    AssembleStopsAtError(spec, i + 1, search, data);
  }

  /** A specification with one entry gives that entry's object under its signature when the signature matches. */
  lemma SingleEntry<V>(signature: Signature, parse: ParseMethod<V>, search: Matcher, data: string, line: string)
    requires search(signature, data) == Some(line)
    ensures ParseTelegram([SpecEntry(signature, parse)], false, search, data)
         == match parse(line)
            case Err(e) => Err(e)
            case Ok(obj) => Ok(map[signature := obj])
  {
    var spec := [SpecEntry(signature, parse)];
    assert spec[..0] == [];
    assert Assemble(spec[..0], search, data) == Ok(map[]);
    match parse(line)
    case Err(e) =>
    case Ok(obj) =>
      assert map[][signature := obj] == map[signature := obj];
  }

  /** The identifier of the example is a token. */
  lemma IdentifierToken()
    ensures Tokens.IsTokenText("4B384547303034303436333139353037")
  {
  }

  /** The identifier line of the example, taken apart. */
  lemma IdentifierLine()
    ensures "0-0:96.1.1" + "(" + "4B384547303034303436333139353037" + ")" == "0-0:96.1.1(4B384547303034303436333139353037)"
  {
  }

  /**
   * The equipment identifier of a meter: a specification with one COSEM
   * entry and a string coercion, whose signature matches the whole
   * identifier line of the telegram.
   */
  lemma EquipmentIdentifierExample(search: Matcher, data: string)
    requires search(@"0-0:96\.1\.1\(.*?\)", data) == Some("0-0:96.1.1(4B384547303034303436333139353037)")
    ensures ParseTelegram([SpecEntry(@"0-0:96\.1\.1\(.*?\)", LineParser(CosemParser([ValueParser((s: string) => Some(s))])))], false, search, data)
         == Ok(map[@"0-0:96\.1\.1\(.*?\)" := CosemObject([ValueGroup(Some("4B384547303034303436333139353037"), None)])])
  {
    var p := ValueParser((s: string) => Some(s));
    IdentifierToken();
    IdentifierLine();
    CosemValueWithoutUnit("0-0:96.1.1", "4B384547303034303436333139353037", p);
    SingleEntry(@"0-0:96\.1\.1\(.*?\)", LineParser(CosemParser([p])), search, data, "0-0:96.1.1(4B384547303034303436333139353037)");
  }

  /**
   * A signature that matches only the OBIS reference hands the parser a text
   * without value groups, and the parser raises ParseError.
   */
  lemma BareIdentifierSignature(search: Matcher, data: string)
    requires search(@"0-0:96\.1\.1", data) == Some("0-0:96.1.1")
    ensures ParseTelegram([SpecEntry(@"0-0:96\.1\.1", LineParser(CosemParser([ValueParser((s: string) => Some(s))])))], false, search, data)
         == Err(ParseError)
  {
    var p := ValueParser((s: string) => Some(s));
    var line := "0-0:96.1.1";
    Tokens.NoOpenNoTokens(line);
    assert ParseObject(CosemParser([p]), line) == Err(ParseError);
    SingleEntry(@"0-0:96\.1\.1", LineParser(CosemParser([p])), search, data, line);
  }
}
