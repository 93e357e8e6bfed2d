# dsmr_parser telegram parsing, modelled in Dafny

This project models `dsmr_parser/parsers.py`, the decoding pipeline for DSMR P1
smart-meter telegrams. A telegram is the text a meter sends: a header line
starting with `/`, one line per OBIS object such as
`1-0:1.8.1(000123.456*kWh)`, and a final `!` followed by a four-character
CRC16 checksum.

The model covers, module by module:

- `Tokens`: the value-group tokeniser of `DSMRObjectParser._parse`.
  - The pattern `((?<=\()[0-9a-zA-Z.*]{0,}(?=\)))+` is written as an explicit scanner, `GroupsFrom`.
  - It reports every `(` whose maximal run of token characters is closed by `)`.
  - Empty groups become `None` (`ValueTokens`).
- `Values`: `ValueParser.parse`.
  - The split on `*` with its two-part unpack.
  - The coercion, applied whenever a value is present.
- `Objects`: `DSMRObjectParser._parse` (the arity check), `CosemParser`, `MBusParser` (legacy or v2.2 by arity) and `ProfileGenericParser` (always `NotImplementedError`).
- `Crc`: the CRC-16 of the DSMR P1 Companion Standard (section 6.12 of v5.0.2).
  - Polynomial x^16+x^15+x^2+1, least significant bit first, initial value 0, i.e. CRC-16/ARC.
  - Defined bitwise over `bv16`.
- `Checksum`: `TelegramParser.validate_checksum`.
  - The pattern `\/.+\!` (DOTALL, greedy) becomes `ChecksumSpan`.
  - The pattern `((?<=\!)[0-9A-Z]{4})+` becomes `FindChecksum`/`ChecksumHex`.
  - `int(..., base=16)` becomes `ParseHex`.
  - The three failure outcomes are ParseError, ValueError and InvalidChecksumError.
- `Telegram`: class `TelegramParser`.
  - Its two read-only fields are set by the constructor.
  - `Parse` builds the result dict in a loop over the specification entries. It is proved equal to the functional specification `ParseTelegram`/`Assemble`.

Exceptions become values: every operation that raises in the source returns a
`Result` (or an `Outcome` for `validate_checksum`, which returns nothing on
success). The error datatype `Exceptions.Error` is:

- `ParseError`
- `InvalidChecksumError(calculated, expected)`
- `ChecksumValueError` for the `ValueError` of `int(..., base=16)`
- `UnpackError` for the `ValueError` of the two-name unpack
- `CoercionError` for a coercion that raises
- `NotImplementedError`

The telegram specification, a Python dict from signature to parser, is a
sequence of `SpecEntry` with distinct signatures, in the dict's iteration
order. Each parser object is represented by its `parse` method, a function
from the matched text to a decoded object or an error; `LineParser(p)` is
that method for the line parsers of `Objects`. A coercion callable (`int`, `Decimal`, `str`, a timestamp parser) is a
function `string -> Option<V>` over an arbitrary value type `V`; `None` means
it raised. Signature matching (`re.search(signature, telegram, re.DOTALL)` and
`match.group(0)`) is a function parameter `Matcher`.

Behaviour of the code that is easy to misread:

- The covered span of the checksum runs from the first `/` to the LAST `!` of
  the telegram, because `.+` is greedy and DOTALL lets it cross line ends. A
  stray `!` after the checksum therefore moves the end of the span past the
  checksum.
- `int(s, base=16)` also accepts a `0X`/`0x` prefix, and `X` is in the
  checksum character class `[0-9A-Z]`. So the checksum `0X1A` is read as 26,
  not rejected. Any other non-hexadecimal letter raises `ValueError`.
- `ValueParser.parse` applies the coercion to the empty string when a group
  is `(*kWh)`, since only `None` skips it.

## Model

| member | source | states |
|---|---|---|
| Strings.JoinSplit | dsmr_parser/parsers.py:193 | joining the pieces of `str.split` with the separator gives back the split string |
| Strings.SplitJoin | dsmr_parser/parsers.py:193 | splitting a join of separator-free pieces gives back exactly those pieces |
| Tokens.RunEnd | dsmr_parser/parsers.py:96 | the end of the greedy `[0-9a-zA-Z.*]{0,}` run: every character before it is a token character and the one at it is not |
| Tokens.GroupsFrom | dsmr_parser/parsers.py:96-97 | every group the scanner reports is a `(`, a run of token characters and a `)` lying in the line (soundness of the findall) |
| Tokens.GroupsFromOrdered | dsmr_parser/parsers.py:96-97 | the groups come out strictly left to right, each closing before the next opens |
| Tokens.GroupsFromComplete | dsmr_parser/parsers.py:96-97 | every value group of the line is reported (completeness of the findall) |
| Tokens.ForeignCharacterYieldsNoToken | dsmr_parser/parsers.py:96-97 | a parenthesised group containing a character outside `[0-9a-zA-Z.*]` (such as `:` or `-`) yields no token |
| Tokens.Tokens | dsmr_parser/parsers.py:96-97 | one token per reported group, each exactly the text between that group's parentheses and consisting of token characters only |
| Tokens.TextsAt | dsmr_parser/parsers.py:96-97 | the n-th captured text is the slice strictly between the n-th group's `(` and `)` |
| Tokens.ValueTokens | dsmr_parser/parsers.py:99-100 | the tokens in order, with exactly the empty ones replaced by None |
| Tokens.TokensOfRendered | dsmr_parser/parsers.py:96-97 | round trip: the tokens of an identifier followed by groups `(t1)(t2)…` are exactly `t1, t2, …` |
| Tokens.OneGroupLine | dsmr_parser/parsers.py:96-100 | a line `id(t)` has the single value token t, or None when t is empty |
| Tokens.TwoGroupLine | dsmr_parser/parsers.py:96-100 | a line `id(t1)(t2)` has exactly the two value tokens t1 and t2 in that order |
| Values.ParseValue | dsmr_parser/parsers.py:188-202 | None gives value and unit None; a decoded value is absent exactly when the input is; a unit is present only if the token had a `*`, and holds none |
| Values.AbsentValueIgnoresCoercion | dsmr_parser/parsers.py:195-197 | an absent value decodes to value None and unit None whatever the coercion |
| Values.ParseValueWithoutUnit | dsmr_parser/parsers.py:190-197 | a token without `*` is coerced whole and has no unit; a failing coercion is an error |
| Values.ParseValueWithUnit | dsmr_parser/parsers.py:192-197 | a token `v*u` with one `*` gives the coerced v and the unit u |
| Values.ParseValueManyStars | dsmr_parser/parsers.py:192-193 | a token with two or more `*` fails at the unpack |
| Objects.ParseEach | dsmr_parser/parsers.py:105-106 | on success the i-th result is the i-th format applied to the i-th value; on failure it is the error of the first value that fails |
| Objects.ParseValues | dsmr_parser/parsers.py:94-106 | ParseError when there are no tokens or their count differs from the number of formats; otherwise exactly the result of decoding the i-th token with the i-th format, left to right, so one group per format or the first error |
| Objects.ParseObject | dsmr_parser/parsers.py:126-180 | COSEM wraps the decoded list; M-Bus gives the legacy object exactly when there are 2 formats and the v2.2 object otherwise; an error of `_parse` is passed on unchanged; Profile Generic always fails with NotImplementedError |
| Objects.ParseValuesOneGroup | dsmr_parser/parsers.py:102-106 | a line with one value token and one format decodes to that format's result on the token |
| Objects.CosemValueWithUnit | dsmr_parser/parsers.py:153-154 | `id(v*u)` decodes to a COSEM object with the coerced v and unit u |
| Objects.CosemValueWithoutUnit | dsmr_parser/parsers.py:153-154 | `id(v)` decodes to a COSEM object with the coerced v and no unit |
| Objects.CosemEmptyGroup | dsmr_parser/parsers.py:153-154 | `id()` decodes to a COSEM object with value and unit None |
| Objects.MBusTwoGroups | dsmr_parser/parsers.py:126-129 | `id(t1)(t2)` with two formats decodes to the legacy M-Bus object of the two decoded groups |
| Crc.UpdateAppend | dsmr_parser/parsers.py:76 | the CRC of a concatenation continues the CRC of its first part |
| Crc.UpdateInjective | dsmr_parser/parsers.py:76 | processing the same text from two different CRC states keeps them different |
| Crc.SingleByteErrorDetected | dsmr_parser/parsers.py:76 | changing one byte of the covered text changes its CRC16 |
| Crc.ReplacedByteDetected | dsmr_parser/parsers.py:76 | replacing one byte of a text by a different byte changes its CRC16, also as the number compared with the checksum |
| Checksum.ChecksumSpan | dsmr_parser/parsers.py:64 | the span is found exactly when a `/` has a `!` at least two positions after it; it runs from the first `/` to the last `!` |
| Checksum.ChecksumContents | dsmr_parser/parsers.py:64 | the covered text exists exactly when the span does, and is the telegram's slice from the first `/` through the last `!` (so it begins with `/` and ends with `!`) |
| Checksum.FindChecksum | dsmr_parser/parsers.py:68 | the leftmost position right after a `!` where four `[0-9A-Z]` characters follow, or none |
| Checksum.ChecksumHex | dsmr_parser/parsers.py:68 | the checksum exists exactly when such a position does, and is the four `[0-9A-Z]` characters of the telegram starting at the leftmost such position |
| Checksum.HexDigits | dsmr_parser/parsers.py:77 | a value exists exactly for a non-empty string of hexadecimal digits and is below 16 to the power of its length |
| Checksum.HexDigitsToHex | dsmr_parser/parsers.py:77 | round trip: reading back n written as w hexadecimal digits gives n |
| Checksum.ParseHex | dsmr_parser/parsers.py:77 | `int(s, base=16)`: a value exactly for a non-empty string of hexadecimal digits, or for `0X`/`0x` followed by one; the value is that of the digits |
| Checksum.ParseHexPrefixed | dsmr_parser/parsers.py:68-77 | the checksum `0X1A`, which the checksum pattern accepts, reads as 26 |
| Checksum.ParseHexRejects | dsmr_parser/parsers.py:68-77 | a checksum character that is not a hexadecimal digit, other than the `X` of a `0X` prefix, makes the conversion fail |
| Checksum.ParseHexToHex | dsmr_parser/parsers.py:77 | round trip: `int(s, base=16)` of a 16-bit value written as four upper-case digits gives the value |
| Checksum.ValidateChecksum | dsmr_parser/parsers.py:56-86 | ParseError exactly when the span or the checksum is missing; an InvalidChecksumError carries two different values; no other error occurs |
| Checksum.Compare | dsmr_parser/parsers.py:76-86 | passes exactly when the checksum reads as the calculated CRC; a checksum that does not read as hexadecimal is a ValueError carrying it; one that reads as a different value is an InvalidChecksumError carrying the calculated and the read value |
| Checksum.ChecksumComparison | dsmr_parser/parsers.py:76-86 | with both parts present, the telegram passes exactly when the checksum read as hexadecimal equals the CRC16 of the covered text |
| Checksum.MissingTerminatorIsParseError | dsmr_parser/parsers.py:64-74 | a telegram without `!` fails with ParseError |
| Checksum.WellFormedTelegramValidates | dsmr_parser/parsers.py:63-86 | a telegram laid out as a meter sends it (body from `/` to its only `!`, then the body's CRC16 as four hex digits, then a tail without `!`) passes |
| Checksum.CorruptedTelegramDetected | dsmr_parser/parsers.py:63-86 | a telegram laid out as a meter sends it, with one byte strictly inside its body changed to a different byte other than `!`, fails with InvalidChecksumError whose expected value is the CRC16 of the body as sent |
| Telegram.Assemble | dsmr_parser/parsers.py:45-53 | the dict is returned exactly when no matching entry's parser fails |
| Telegram.ParseTelegram | dsmr_parser/parsers.py:42-53 | a failed validation, when enabled, is returned as is; a dict is returned exactly when validation is off or passes and no matching entry fails; its keys are exactly the matched signatures |
| Telegram.TelegramParser.constructor | dsmr_parser/parsers.py:15-21 | stores the specification (distinct signatures, as in a dict) and the validation flag, false by default |
| Telegram.TelegramParser.Parse | dsmr_parser/parsers.py:24-53 | the loop over the specification returns what ParseTelegram specifies: the checksum gate, then one object per matched entry, stopping at the first failing parser |
| Telegram.AssembleStopsAtError | dsmr_parser/parsers.py:47-51 | once a prefix of the entries fails, the whole assembly fails with the same error |
| Telegram.AssembleKeys | dsmr_parser/parsers.py:45-53 | the keys of the dict are exactly the signatures that match |
| Telegram.AssembleValue | dsmr_parser/parsers.py:47-51 | each matched signature maps to its parser's result on the matched text |
| Telegram.AssembleFirstError | dsmr_parser/parsers.py:47-51 | the error returned is the one of the first matching entry whose parser fails |
| Telegram.SingleEntry | dsmr_parser/parsers.py:45-53 | a one-entry specification whose signature matches gives that entry's object under its signature, or its error |
| Telegram.EquipmentIdentifierExample | dsmr_parser/parsers.py:24-53 | a COSEM(string) entry whose signature `0-0:96\.1\.1\(.*?\)` matches the line `0-0:96.1.1(4B384547303034303436333139353037)` gives that identifier with no unit |
| Telegram.BareIdentifierSignature | dsmr_parser/parsers.py:45-51 | a COSEM(string) entry whose signature `0-0:96\.1\.1` matches only the text `0-0:96.1.1` hands the parser no value group, and parsing fails with ParseError |

## Left out

- Signature matching: signatures are arbitrary Python regular expressions from a specification table that is not part of this model. `re.search` with `match.group(0)` is the parameter `Matcher` of `Parse`.
- Crc.Crc16: it is a definition of CRC-16/ARC written for this model. The library call `CRC16().calculate` is a foreign call that is not part of this model, and the model claims no equivalence to it.
- Crc.Crc16: the standard check value (0xBB3D for "123456789") is not proved. Evaluating it bit by bit is beyond the solver budget of the proofs here.
- Crc.ByteOf: a character enters the CRC as its code modulo 256. Telegrams are ASCII.
- Coercion callables (`int`, `Decimal`, `str`, timestamp parsing) are abstract functions that may fail. Their numerics, including floating point and decimals, are not modelled.
- Python's `int(s, base=16)`: only what can reach it here is modelled, namely four `[0-9A-Z]` characters, optionally after `0X`. Signs, whitespace and underscores cannot occur in such a string.
- `dsmr_parser/objects.py` and `dsmr_parser/exceptions.py` are not part of this model. The objects are a datatype wrapping the decoded list, and the exceptions are an error datatype without messages.
- Telegram.ParseTelegram: the result is a `map`, so the insertion order of the Python dict is not captured. The order in which entries are visited, and therefore which error is returned, is captured by the entry sequence.
- The repeating-group algorithm that the Profile Generic docstring describes is unimplemented in the source. Only its unconditional failure is modelled.
- Logging, and the text of the error messages, are left out.

