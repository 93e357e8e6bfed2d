/**
 * TelegramParser.validate_checksum: locate the covered text and the checksum
 * with the two patterns of the source, then compare.
 */
module Checksum {
  import opened Wrappers
  import opened Exceptions
  import Strings
  import Crc

  /**
   * \/.+\! under DOTALL can match: a '/' with a '!' at least two positions
   * after it (one character or more in between).
   */
  ghost predicate HasSpan(t: string) {
    exists i, j :: 0 <= i && i + 2 <= j < |t| && t[i] == '/' && t[j] == '!'
  }

  /**
   * The positions of the '/' and '!' that delimit the covered text. The
   * search takes the leftmost start and the greedy .+ the rightmost end: the
   * span runs from the first '/' to the last '!' of the telegram.
   */
  function ChecksumSpan(t: string): (r: Option<(nat, nat)>)
    ensures r.Some? <==> HasSpan(t)
    ensures r.Some? ==> var (p, q) := r.value;
      && p + 2 <= q < |t| && t[p] == '/' && t[q] == '!'
      && '/' !in t[..p] && '!' !in t[q + 1..]
  {
    match Strings.IndexOf(t, '/')
    case None => None
    case Some(p) =>
      match Strings.LastIndexOf(t, '!')
      case None => None
      case Some(q) =>
        if p + 2 <= q then Some((p, q))
        else
          None
  }

  /** checksum_contents.group(0): the covered text, both delimiters included. */
  function ChecksumContents(t: string): (r: Option<string>)
    ensures r.Some? <==> HasSpan(t)
    ensures r.Some? ==> |r.value| >= 3 && r.value[0] == '/' && r.value[|r.value| - 1] == '!'
    ensures r.Some? ==> r.value == t[ChecksumSpan(t).value.0 .. ChecksumSpan(t).value.1 + 1]
  {
    match ChecksumSpan(t)
    case None => None
    case Some((p, q)) => Some(t[p .. q + 1])
  }

  /** The character class [0-9A-Z] of the checksum pattern. */
  predicate IsChecksumChar(c: char) {
    ('0' <= c <= '9') || ('A' <= c <= 'Z')
  }

  /** ((?<=\!)[0-9A-Z]{4})+ matches at i: a '!' just before, four class characters from i. */
  predicate ChecksumAt(t: string, i: int) {
    && 1 <= i && i + 4 <= |t|
    && t[i - 1] == '!'
    && forall m :: i <= m < i + 4 ==> IsChecksumChar(t[m])
  }

  ghost predicate HasChecksum(t: string) {
    exists i :: ChecksumAt(t, i)
  }

  /** The leftmost match at or after k. */
  function FindChecksum(t: string, k: nat): (r: Option<nat>)
    ensures r.Some? ==> k <= r.value && ChecksumAt(t, r.value)
    ensures r.Some? ==> forall i :: k <= i < r.value ==> !ChecksumAt(t, i)
    ensures r.None? ==> forall i :: k <= i ==> !ChecksumAt(t, i)
    decreases |t| - k
  {
    if k + 4 > |t| then None
    else if ChecksumAt(t, k) then Some(k)
    else FindChecksum(t, k + 1)
  }

  /**
   * checksum_hex.group(0): the first four [0-9A-Z] characters right after a
   * '!'. The repetition + never extends a match, since its lookbehind would
   * need a '!' among the four characters just matched.
   */
  function ChecksumHex(t: string): (r: Option<string>)
    ensures r.Some? <==> HasChecksum(t)
    ensures r.Some? ==> |r.value| == 4 && forall m :: 0 <= m < 4 ==> IsChecksumChar(r.value[m])
    ensures r.Some? ==> r.value == t[FindChecksum(t, 0).value .. FindChecksum(t, 0).value + 4]
  {
    match FindChecksum(t, 0)
    case None => None
    case Some(i) => Some(t[i .. i + 4])
  }

  predicate IsHexDigit(c: char) {
    ('0' <= c <= '9') || ('A' <= c <= 'F') || ('a' <= c <= 'f')
  }

  function DigitValue(c: char): (d: nat)
    requires IsHexDigit(c)
    ensures d < 16
  {
    if '0' <= c <= '9' then c as int - '0' as int
    else if 'A' <= c <= 'F' then c as int - 'A' as int + 10
    else c as int - 'a' as int + 10
  }

  function Pow16(n: nat): (r: nat)
    ensures r >= 1
  {
    if n == 0 then 1 else 16 * Pow16(n - 1)
  }

  /** The value of a non-empty string of hexadecimal digits; None if any other character occurs. */
  function HexDigits(s: string): (r: Option<nat>)
    ensures r.Some? <==> |s| > 0 && forall m :: 0 <= m < |s| ==> IsHexDigit(s[m])
    ensures r.Some? ==> r.value < Pow16(|s|)
    decreases |s|
  {
    if |s| == 0 || !IsHexDigit(s[|s| - 1]) then None
    else if |s| == 1 then Some(DigitValue(s[0]))
    else
      var init := s[..|s| - 1];
      assert forall m :: 0 <= m < |init| ==> init[m] == s[m];
      match HexDigits(init)
      case None => None
      case Some(v) => Some(v * 16 + DigitValue(s[|s| - 1]))
  }

  /** One or more hexadecimal digits and nothing else. */
  predicate IsHexNumeral(s: string) {
    |s| > 0 && forall m :: 0 <= m < |s| ==> IsHexDigit(s[m])
  }

  /** The prefix "0X" or "0x" followed by at least one more character. */
  predicate HasHexPrefix(s: string) {
    |s| >= 3 && s[0] == '0' && (s[1] == 'X' || s[1] == 'x')
  }

  /**
   * int(s, base=16) on a string of [0-9A-Z] characters: hexadecimal digits,
   * optionally after the prefix "0X", which Python accepts for base 16; any
   * other string raises ValueError (None).
   */
  function ParseHex(s: string): (r: Option<nat>)
    ensures r.Some? <==> IsHexNumeral(s) || (HasHexPrefix(s) && IsHexNumeral(s[2..]))
    ensures IsHexNumeral(s) ==> r == HexDigits(s)
    ensures HasHexPrefix(s) ==> r == HexDigits(s[2..])
  {
    if HasHexPrefix(s) then HexDigits(s[2..]) else HexDigits(s)
  }

  /** The digit a meter writes for d. */
  function HexChar(d: nat): (c: char)
    requires d < 16
    ensures IsHexDigit(c) && IsChecksumChar(c) && DigitValue(c) == d
  {
    if d < 10 then ('0' as int + d) as char else ('A' as int + d - 10) as char
  }

  /** n written as w upper-case hexadecimal digits, most significant first. */
  function ToHex(n: nat, w: nat): (s: string)
    requires w >= 1
    ensures |s| == w
    ensures forall m :: 0 <= m < w ==> IsHexDigit(s[m]) && IsChecksumChar(s[m]) && s[m] != 'X'
    decreases w
  {
    if w == 1 then [HexChar(n % 16)] else ToHex(n / 16, w - 1) + [HexChar(n % 16)]
  }

  /** Round trip: reading back the digits a meter writes gives the number written. */
  lemma {:induction false} HexDigitsToHex(n: nat, w: nat)
    requires w >= 1 && n < Pow16(w)
    ensures HexDigits(ToHex(n, w)) == Some(n)
    decreases w
  {
    var s := ToHex(n, w);
    if w > 1 {
      HexDigitsToHex(n / 16, w - 1);
      assert s[..|s| - 1] == ToHex(n / 16, w - 1);
    }
  }

  lemma ParseHexToHex(n: nat)
    requires n < 0x1_0000
    ensures ParseHex(ToHex(n, 4)) == Some(n)
  {
    assert Pow16(4) == 0x1_0000;
    HexDigitsToHex(n, 4);
  }

  /** The prefix "0X" is accepted: the checksum "0X1A" reads as 26. */
  lemma ParseHexPrefixed()
    ensures ParseHex("0X1A") == Some(26)
  {
    assert "0X1A"[2..] == "1A";
    assert "1A"[..1] == "1";
  }

  /** Any checksum character that is not a hexadecimal digit, other than the X of the prefix, raises ValueError. */
  lemma ParseHexRejects(s: string, m: nat)
    requires m < |s| && IsChecksumChar(s[m]) && !IsHexDigit(s[m])
    requires !(m == 1 && HasHexPrefix(s))
    ensures ParseHex(s) == None
  {
    if HasHexPrefix(s) {
      assert m >= 2 && s[2..][m - 2] == s[m];
    }
  }

  /**
   * validate_checksum: ParseError when the covered text or the checksum
   * cannot be found, ValueError when the checksum is not hexadecimal,
   * InvalidChecksumError when the CRC16 of the covered text differs from it.
   */
  function ValidateChecksum(telegram: string): (r: Outcome<Error>)
    ensures r == Fail(ParseError) <==> !HasSpan(telegram) || !HasChecksum(telegram)
    ensures r.Fail? && r.error.InvalidChecksumError? ==> r.error.calculated != r.error.expected
    ensures r.Fail? ==> r.error.ParseError? || r.error.ChecksumValueError? || r.error.InvalidChecksumError?
  {
    var contents := ChecksumContents(telegram);
    var hex := ChecksumHex(telegram);
    if contents.None? || hex.None? then Fail(ParseError)
    else Compare(Crc.Crc16(contents.value) as int, hex.value)
  }

  /** The last step of validate_checksum: read the checksum and compare it with the calculated CRC. */
  function Compare(calculated: int, checksum: string): (r: Outcome<Error>)
    ensures r == Pass <==> ParseHex(checksum) == Some(calculated)
    ensures r.Fail? ==> r.error.ChecksumValueError? || r.error.InvalidChecksumError?
    ensures r.Fail? && r.error.InvalidChecksumError? ==> r.error.calculated != r.error.expected
    ensures ParseHex(checksum).None? ==> r == Fail(ChecksumValueError(checksum))
    ensures ParseHex(checksum).Some? && ParseHex(checksum).value != calculated
            ==> r == Fail(InvalidChecksumError(calculated, ParseHex(checksum).value))
  {
    match ParseHex(checksum)
    case None => Fail(ChecksumValueError(checksum))
    case Some(expected) =>
      if calculated != expected then Fail(InvalidChecksumError(calculated, expected)) else Pass
  }

  /**
   * Once both parts are found, the telegram passes exactly when the checksum
   * read as hexadecimal is the CRC16 of the covered text.
   */
  lemma ChecksumComparison(t: string)
    requires HasSpan(t) && HasChecksum(t)
    ensures ValidateChecksum(t) == Pass
        <==> ParseHex(ChecksumHex(t).value) == Some(Crc.Crc16(ChecksumContents(t).value) as int)
  {
  }

  /** The leftmost checksum is the one with no match before it. */
  lemma FindChecksumIs(t: string, i: nat)
    requires ChecksumAt(t, i)
    requires forall j :: 0 <= j < i ==> !ChecksumAt(t, j)
    ensures FindChecksum(t, 0) == Some(i)
  {
  }

  /** A telegram without a '!' can be neither delimited nor checksummed. */
  lemma MissingTerminatorIsParseError(t: string)
    requires '!' !in t
    ensures ValidateChecksum(t) == Fail(ParseError)
  {
    assert !HasSpan(t);
  }

  /** In a telegram laid out as a meter sends it, the covered text is the body. */
  lemma BodyIsCovered(body: string, rest: string)
    requires |body| >= 3 && body[0] == '/' && body[|body| - 1] == '!'
    requires '!' !in rest
    ensures ChecksumContents(body + rest) == Some(body)
  {
    var t := body + rest;
    var q := |body| - 1;
    Strings.IndexOfIs(t, '/', 0);
    assert t[q + 1..] == rest;
    Strings.LastIndexOfIs(t, '!', q);
    assert t[0 .. q + 1] == body;
  }

  /** ... and the checksum is the four characters right after the body. */
  lemma ChecksumFollowsBody(body: string, h: string, tail: string)
    requires |body| >= 1 && '!' !in body[..|body| - 1] && body[|body| - 1] == '!'
    requires |h| == 4 && forall m :: 0 <= m < 4 ==> IsChecksumChar(h[m])
    ensures ChecksumHex(body + h + tail) == Some(h)
  {
    var t := body + h + tail;
    var n := |body|;
    forall j | 0 <= j < n
      ensures !ChecksumAt(t, j)
    {
      if 1 <= j { assert t[j - 1] == body[..n - 1][j - 1]; }
    }
    assert t[n .. n + 4] == h;
    FindChecksumIs(t, n);
  }

  /** The two parts validation looks for, in a telegram laid out as a meter sends it. */
  lemma MeterLayout(body: string, h: string, tail: string)
    requires |body| >= 3 && body[0] == '/' && body[|body| - 1] == '!'
    requires '!' !in body[..|body| - 1] && '!' !in tail
    requires |h| == 4 && forall m :: 0 <= m < 4 ==> IsChecksumChar(h[m])
    ensures ChecksumContents(body + h + tail) == Some(body)
    ensures ChecksumHex(body + h + tail) == Some(h)
  {
    assert body + h + tail == body + (h + tail);
    assert forall m :: 0 <= m < |h + tail| ==> (h + tail)[m] != '!' by {
      forall m | 0 <= m < |h + tail| ensures (h + tail)[m] != '!' {
        if m >= 4 { assert (h + tail)[m] == tail[m - 4]; }
      }
    }
    BodyIsCovered(body, h + tail);
    ChecksumFollowsBody(body, h, tail);
  }

  /**
   * What a meter sends passes: the text from '/' to the single '!', followed
   * by the CRC16 of that text as four hexadecimal digits and any tail
   * without a '!'.
   */
  lemma WellFormedTelegramValidates(body: string, tail: string)
    requires |body| >= 3 && body[0] == '/' && body[|body| - 1] == '!'
    requires '!' !in body[..|body| - 1] && '!' !in tail
    ensures ValidateChecksum(body + ToHex(Crc.Crc16(body) as int, 4) + tail) == Pass
  {
    var crc := Crc.Crc16(body) as int;
    var hex := ToHex(crc, 4);
    var t := body + hex + tail;
    assert t == body + (hex + tail);
    BodyIsCovered(body, hex + tail);
    ChecksumFollowsBody(body, hex, tail);
    ParseHexToHex(crc);
  }

  /** With both parts found, validation is the comparison of the covered text's CRC16 with the checksum. */
  lemma ValidateFound(t: string, body: string, hex: string)
    requires ChecksumContents(t) == Some(body) && ChecksumHex(t) == Some(hex)
    ensures ValidateChecksum(t) == Compare(Crc.Crc16(body) as int, hex)
  {
  }

  /** A change strictly inside the body, not into a '!', keeps its delimiters and its single '!'. */
  lemma CorruptionKeepsDelimiters(body: string, k: nat, c: char)
    requires |body| >= 3 && body[0] == '/' && body[|body| - 1] == '!' && '!' !in body[..|body| - 1]
    requires 0 < k < |body| - 1 && c != '!'
    ensures var sent := body[k := c];
      |sent| >= 3 && sent[0] == '/' && sent[|sent| - 1] == '!' && '!' !in sent[..|sent| - 1]
  {
    assert body[k := c][..|body| - 1] == body[..|body| - 1][k := c];
  }

  /** A corrupted telegram still has its parts where validation looks for them. */
  lemma CorruptedLayout(body: string, tail: string, k: nat, c: char)
    requires |body| >= 3 && body[0] == '/' && body[|body| - 1] == '!'
    requires '!' !in body[..|body| - 1] && '!' !in tail
    requires 0 < k < |body| - 1 && c != '!'
    ensures var hex := ToHex(Crc.Crc16(body) as int, 4);
      && ValidateChecksum(body[k := c] + hex + tail) == Compare(Crc.Crc16(body[k := c]) as int, hex)
      && ParseHex(hex) == Some(Crc.Crc16(body) as int)
  {
    var sent := body[k := c];
    var crc := Crc.Crc16(body) as int;
    var hex := ToHex(crc, 4);
    CorruptionKeepsDelimiters(body, k, c);
    MeterLayout(sent, hex, tail);
    ValidateFound(sent + hex + tail, sent, hex);
    ParseHexToHex(crc);
  }

  /**
   * Integrity: a telegram laid out as a meter sends it, with one byte of its
   * body other than the delimiters changed in transit (not into a '!'),
   * fails with InvalidChecksumError; the expected value is the CRC16 of the
   * body as sent.
   */
  lemma CorruptedTelegramDetected(body: string, tail: string, k: nat, c: char)
    requires |body| >= 3 && body[0] == '/' && body[|body| - 1] == '!'
    requires '!' !in body[..|body| - 1] && '!' !in tail
    requires 0 < k < |body| - 1 && c != '!' && Crc.ByteOf(c) != Crc.ByteOf(body[k])
    ensures ValidateChecksum(body[k := c] + ToHex(Crc.Crc16(body) as int, 4) + tail)
         == Fail(InvalidChecksumError(Crc.Crc16(body[k := c]) as int, Crc.Crc16(body) as int))
  {
    CorruptedLayout(body, tail, k, c);
    Crc.ReplacedByteDetected(body, k, c);
  }
}
