/** Percent-encoding of text (section 2.1 of RFC 3986) as the client's URL functions do it. A
    Dafny character is a Unicode scalar value, so every string here is well-formed. */
module PercentEncoding {
  import opened Results

  // ---- UTF-8 (section 3 of RFC 3629) ----

  function Utf8(c: char): (bytes: seq<int>)
    ensures 1 <= |bytes| <= 4 && forall i | 0 <= i < |bytes| :: 0 <= bytes[i] < 256
  {
    var n := c as int;
    if n < 0x80 then [n]
    else if n < 0x800 then [0xC0 + n / 64, 0x80 + n % 64]
    else if n < 0x1_0000 then [0xE0 + n / 64 / 64, 0x80 + n / 64 % 64, 0x80 + n % 64]
    else [0xF0 + n / 64 / 64 / 64, 0x80 + n / 64 / 64 % 64, 0x80 + n / 64 % 64, 0x80 + n % 64]
  }

  function Utf8All(s: string): seq<int> {
    if |s| == 0 then [] else Utf8(s[0]) + Utf8All(s[1..])
  }

  /** How many bytes follow a lead byte, its payload, and the range of the first that follows. */
  datatype Lead = Lead(more: int, bits: int, low: int, high: int)

  function LeadOf(b: int): Option<Lead> {
    if 0xC2 <= b <= 0xDF then Some(Lead(1, b - 0xC0, 0x80, 0xBF))
    else if 0xE0 <= b <= 0xEF then
      Some(Lead(2, b - 0xE0, if b == 0xE0 then 0xA0 else 0x80, if b == 0xED then 0x9F else 0xBF))
    else if 0xF0 <= b <= 0xF4 then
      Some(Lead(3, b - 0xF0, if b == 0xF0 then 0x90 else 0x80, if b == 0xF4 then 0x8F else 0xBF))
    else None
  }

  /** The first character of a byte sequence, or a malformed piece of it. */
  datatype Step = Char(c: char, used: nat) | Malformed(used: nat)

  function FirstOf(bytes: seq<int>): (step: Step)
    requires |bytes| > 0
    ensures 1 <= step.used <= |bytes|
  {
    if 0 <= bytes[0] < 0x80 then Char(bytes[0] as char, 1)
    else
      var lead := LeadOf(bytes[0]);
      if lead.None? || |bytes| < 2 || !(lead.value.low <= bytes[1] <= lead.value.high) then Malformed(1)
      else
        var two := lead.value.bits * 64 + (bytes[1] - 0x80);
        if lead.value.more == 1 then Char(two as char, 2)
        else if |bytes| < 3 || !(0x80 <= bytes[2] <= 0xBF) then Malformed(2)
        else
          var three := two * 64 + (bytes[2] - 0x80);
          if lead.value.more == 2 then Char(three as char, 3)
          else if |bytes| < 4 || !(0x80 <= bytes[3] <= 0xBF) then Malformed(3)
          else Char((three * 64 + (bytes[3] - 0x80)) as char, 4)
  }

  const REPLACEMENT := "\U{FFFD}"

  /** Decoding that replaces each malformed piece (section 8.1.1 of the WHATWG Encoding Standard). */
  function Utf8Decode(bytes: seq<int>): string {
    if |bytes| == 0 then ""
    else match FirstOf(bytes)
      case Char(c, used) => [c] + Utf8Decode(bytes[used..])
      case Malformed(used) => REPLACEMENT + Utf8Decode(bytes[used..])
  }

  lemma TwoBytes(c: char, rest: seq<int>)
    requires 0x80 <= c as int < 0x800
    ensures FirstOf(Utf8(c) + rest) == Char(c, 2)
  {
    var n := c as int;
    var bytes := [0xC0 + n / 64, 0x80 + n % 64] + rest;
    assert bytes[0] == 0xC0 + n / 64 && bytes[1] == 0x80 + n % 64;
  }

  lemma ThreeBytes(c: char, rest: seq<int>)
    requires 0x800 <= c as int < 0x1_0000
    ensures FirstOf(Utf8(c) + rest) == Char(c, 3)
  {
    var n := c as int;
    var bytes := [0xE0 + n / 64 / 64, 0x80 + n / 64 % 64, 0x80 + n % 64] + rest;
    assert bytes[0] == 0xE0 + n / 64 / 64 && bytes[1] == 0x80 + n / 64 % 64 && bytes[2] == 0x80 + n % 64;
    assert n / 64 == n / 64 / 64 * 64 + n / 64 % 64;
  }

  lemma FourBytes(c: char, rest: seq<int>)
    requires 0x1_0000 <= c as int
    ensures FirstOf(Utf8(c) + rest) == Char(c, 4)
  {
    var n := c as int;
    var bytes := [0xF0 + n / 64 / 64 / 64, 0x80 + n / 64 / 64 % 64, 0x80 + n / 64 % 64, 0x80 + n % 64] + rest;
    assert bytes[0] == 0xF0 + n / 64 / 64 / 64 && bytes[1] == 0x80 + n / 64 / 64 % 64;
    assert bytes[2] == 0x80 + n / 64 % 64 && bytes[3] == 0x80 + n % 64;
    assert n / 64 / 64 == n / 64 / 64 / 64 * 64 + n / 64 / 64 % 64;
    assert n / 64 == n / 64 / 64 * 64 + n / 64 % 64;
  }

  lemma FirstOfEncoded(c: char, rest: seq<int>)
    ensures FirstOf(Utf8(c) + rest) == Char(c, |Utf8(c)|)
  {
    var n := c as int;
    if n < 0x80 {
      assert (Utf8(c) + rest)[0] == n;
    } else {
      hide FirstOf;
      if n < 0x800 { TwoBytes(c, rest); } else if n < 0x1_0000 { ThreeBytes(c, rest); } else { FourBytes(c, rest); }
    }
  }

  lemma {:induction false} Utf8RoundTrip(s: string)
    ensures Utf8Decode(Utf8All(s)) == s
  {
    if |s| > 0 {
      hide Utf8, FirstOf;
      Utf8RoundTrip(s[1..]);
      FirstOfEncoded(s[0], Utf8All(s[1..]));
      assert (Utf8(s[0]) + Utf8All(s[1..]))[|Utf8(s[0])|..] == Utf8All(s[1..]);
      assert s == [s[0]] + s[1..];
    }
  }

  // ---- percent-encoding ----

  /** Letters, digits and - _ . ! ~ * ' ( ). */
  predicate Unreserved(c: char) {
    'A' <= c <= 'Z' || 'a' <= c <= 'z' || '0' <= c <= '9' || c == '-' || c == '_' || c == '.' || c == '!' || c == '~'
    || '\'' <= c <= '*'
  }

  function HexDigit(k: int): (c: char)
    requires 0 <= k < 16
    ensures HexValue(c) == Some(k) && Unreserved(c)
  {
    if k < 10 then (k + 48) as char else (k + 55) as char
  }

  function HexValue(c: char): (k: Option<int>)
    ensures k.Some? ==> 0 <= k.value < 16
  {
    if '0' <= c <= '9' then Some(c as int - 48)
    else if 'A' <= c <= 'F' then Some(c as int - 55)
    else if 'a' <= c <= 'f' then Some(c as int - 87)
    else None
  }

  /** Letters count from ten in either case. */
  lemma HexLetters(k: nat)
    requires k < 6
    ensures HexValue(('A' as int + k) as char) == Some(10 + k) && HexValue(('a' as int + k) as char) == Some(10 + k)
    ensures forall c: char :: HexValue(c).Some? <==> '0' <= c <= '9' || 'A' <= c <= 'F' || 'a' <= c <= 'f'
  {
  }

  function Percent(b: int): string
    requires 0 <= b < 256
  {
    ['%', HexDigit(b / 16), HexDigit(b % 16)]
  }

  function PercentAll(bytes: seq<int>): string
    requires forall i | 0 <= i < |bytes| :: 0 <= bytes[i] < 256
  {
    if |bytes| == 0 then "" else Percent(bytes[0]) + PercentAll(bytes[1..])
  }

  function EncodeChar(c: char): string {
    if Unreserved(c) then [c] else PercentAll(Utf8(c))
  }

  function EncodeComponent(s: string): string {
    if |s| == 0 then "" else EncodeChar(s[0]) + EncodeComponent(s[1..])
  }

  /** The byte that a percent sign and two hexadecimal digits at the front stand for. */
  function Octet(s: string): (b: Option<int>)
    ensures b.Some? ==> |s| >= 3
  {
    if |s| >= 3 && s[0] == '%' && HexValue(s[1]).Some? && HexValue(s[2]).Some?
    then Some(HexValue(s[1]).value * 16 + HexValue(s[2]).value)
    else None
  }

  /** The bytes of the escapes at the front. */
  function Escapes(s: string): (bytes: seq<int>)
    ensures 3 * |bytes| <= |s|
  {
    if Octet(s).None? then [] else [Octet(s).value] + Escapes(s[3..])
  }

  /** None where the program throws. */
  function DecodeComponent(s: string): Option<string> {
    if |s| == 0 then Some("")
    else if s[0] != '%' then Prepend(s[0], DecodeComponent(s[1..]))
    else
      var bytes := Escapes(s);
      if |bytes| == 0 then None
      else match FirstOf(bytes)
        case Char(c, used) => Prepend(c, DecodeComponent(s[3 * used..]))
        case Malformed(_) => None
  }

  function Prepend(c: char, rest: Option<string>): Option<string> {
    if rest.Some? then Some([c] + rest.value) else None
  }

  lemma OctetOfPercent(b: int, rest: string)
    requires 0 <= b < 256
    ensures Octet(Percent(b) + rest) == Some(b) && (Percent(b) + rest)[3..] == rest
    ensures Escapes(Percent(b) + rest) == [b] + Escapes(rest)
  {
    var s := Percent(b) + rest;
    assert s[0] == '%' && s[1] == HexDigit(b / 16) && s[2] == HexDigit(b % 16);
  }

  lemma PercentAllSplit(bytes: seq<int>, rest: string)
    requires |bytes| > 0 && forall i | 0 <= i < |bytes| :: 0 <= bytes[i] < 256
    ensures PercentAll(bytes) + rest == Percent(bytes[0]) + (PercentAll(bytes[1..]) + rest)
  {
    hide Percent, PercentAll;
    PercentAllFirst(bytes);
    Regrouped(Percent(bytes[0]), PercentAll(bytes[1..]), rest);
  }

  lemma PercentAllFirst(bytes: seq<int>)
    requires |bytes| > 0 && forall i | 0 <= i < |bytes| :: 0 <= bytes[i] < 256
    ensures PercentAll(bytes) == Percent(bytes[0]) + PercentAll(bytes[1..])
  {
    hide Percent;
  }

  lemma Regrouped(a: string, b: string, c: string)
    ensures a + b + c == a + (b + c)
  {
  }

  lemma {:induction false} EscapesOfPercentAll(bytes: seq<int>, rest: string)
    requires forall i | 0 <= i < |bytes| :: 0 <= bytes[i] < 256
    ensures Escapes(PercentAll(bytes) + rest) == bytes + Escapes(rest)
    decreases |bytes|
  {
    hide Escapes, Percent;
    if |bytes| == 0 {
      assert PercentAll(bytes) + rest == rest;
    } else {
      hide PercentAll;
      EscapesOfPercentAll(bytes[1..], rest);
      PercentAllSplit(bytes, rest);
      OctetOfPercent(bytes[0], PercentAll(bytes[1..]) + rest);
      assert bytes == [bytes[0]] + bytes[1..];
    }
  }

  lemma {:induction false} PercentAllLength(bytes: seq<int>)
    requires forall i | 0 <= i < |bytes| :: 0 <= bytes[i] < 256
    ensures |PercentAll(bytes)| == 3 * |bytes| && (|bytes| > 0 ==> PercentAll(bytes)[0] == '%')
    decreases |bytes|
  {
    if |bytes| > 0 { PercentAllLength(bytes[1..]); }
  }

  /** Decoding undoes encoding, for every string. */
  lemma {:induction false} ComponentRoundTrip(s: string)
    ensures DecodeComponent(EncodeComponent(s)) == Some(s)
  {
    if |s| > 0 {
      ComponentRoundTrip(s[1..]);
      DecodeOne(s[0], EncodeComponent(s[1..]));
      assert s == [s[0]] + s[1..];
    }
  }

  lemma DecodeOne(c: char, rest: string)
    ensures DecodeComponent(EncodeChar(c) + rest) == Prepend(c, DecodeComponent(rest))
  {
    var s := EncodeChar(c) + rest;
    if Unreserved(c) {
      assert s[0] == c && s[1..] == rest;
    } else {
      hide Utf8, FirstOf, Percent, Unreserved;
      EscapesOfPercentAll(Utf8(c), rest);
      FirstOfEncoded(c, Escapes(rest));
      PercentAllLength(Utf8(c));
      assert s[0] == '%';
      assert s[3 * |Utf8(c)|..] == rest;
    }
  }

  /** Encoded text holds nothing but unreserved characters and percent signs. */
  ghost predicate Inert(s: string) {
    forall i | 0 <= i < |s| :: Unreserved(s[i]) || s[i] == '%'
  }

  lemma {:induction false} PercentAllIsInert(bytes: seq<int>)
    requires forall i | 0 <= i < |bytes| :: 0 <= bytes[i] < 256
    ensures Inert(PercentAll(bytes)) && (|bytes| > 0 ==> |PercentAll(bytes)| > 0)
    decreases |bytes|
  {
    if |bytes| > 0 {
      hide Unreserved;
      PercentAllIsInert(bytes[1..]);
    }
  }

  lemma {:induction false} EncodedIsInert(s: string)
    ensures Inert(EncodeComponent(s)) && (|s| > 0 ==> |EncodeComponent(s)| > 0)
  {
    if |s| > 0 {
      hide Unreserved, Utf8;
      EncodedIsInert(s[1..]);
      if !Unreserved(s[0]) { PercentAllIsInert(Utf8(s[0])); }
    }
  }

  // ---- query strings ----

  /** A name or value of a query: a plus sign is a blank (section 5.1 of the WHATWG URL Standard). */
  function FormBytes(s: string): seq<int> {
    if |s| == 0 then []
    else if s[0] == '+' then [0x20] + FormBytes(s[1..])
    else if Octet(s).Some? then [Octet(s).value] + FormBytes(s[3..])
    else Utf8(s[0]) + FormBytes(s[1..])
  }

  function FormDecode(s: string): string {
    Utf8Decode(FormBytes(s))
  }

  lemma PlusIsBlank(rest: string)
    ensures FormBytes("+" + rest) == Utf8(' ') + FormBytes(rest)
  {
    assert ("+" + rest)[1..] == rest;
  }

  lemma FormBytesOfPercent(b: int, rest: string)
    requires 0 <= b < 256
    ensures FormBytes(Percent(b) + rest) == [b] + FormBytes(rest)
  {
    hide Octet;
    OctetOfPercent(b, rest);
  }

  lemma {:induction false} FormBytesOfPercentAll(bytes: seq<int>, rest: string)
    requires forall i | 0 <= i < |bytes| :: 0 <= bytes[i] < 256
    ensures FormBytes(PercentAll(bytes) + rest) == bytes + FormBytes(rest)
    decreases |bytes|
  {
    hide FormBytes, Percent;
    if |bytes| == 0 {
      assert PercentAll(bytes) + rest == rest;
    } else {
      hide PercentAll;
      FormBytesOfPercentAll(bytes[1..], rest);
      PercentAllSplit(bytes, rest);
      FormBytesOfPercent(bytes[0], PercentAll(bytes[1..]) + rest);
      assert bytes == [bytes[0]] + bytes[1..];
    }
  }

  lemma {:induction false} FormBytesOfEncoded(s: string)
    ensures FormBytes(EncodeComponent(s)) == Utf8All(s)
  {
    if |s| > 0 {
      FormBytesOfEncoded(s[1..]);
      FormBytesOne(s[0], EncodeComponent(s[1..]));
    }
  }

  lemma FormBytesOne(c: char, rest: string)
    ensures FormBytes(EncodeChar(c) + rest) == Utf8(c) + FormBytes(rest)
  {
    if Unreserved(c) {
      hide Utf8;
      assert (EncodeChar(c) + rest)[0] == c && (EncodeChar(c) + rest)[1..] == rest;
    } else {
      hide Utf8, Unreserved;
      FormBytesOfPercentAll(Utf8(c), rest);
    }
  }

  /** A query value written with percent-encoding is read back, for every string. */
  lemma FormRoundTrip(s: string)
    ensures FormDecode(EncodeComponent(s)) == s
  {
    FormBytesOfEncoded(s);
    Utf8RoundTrip(s);
  }

  lemma {:induction false} UnreservedIsItself(s: string)
    requires forall i | 0 <= i < |s| :: Unreserved(s[i])
    ensures EncodeComponent(s) == s
  {
    if |s| > 0 {
      UnreservedIsItself(s[1..]);
      assert s == [s[0]] + s[1..];
    }
  }

  /** A character is printed as itself exactly if it is a letter, a digit or one of nine others. */
  lemma KeptExactlyWhen(c: char)
    ensures EncodeComponent([c]) == [c] <==> 'A' <= c <= 'Z' || 'a' <= c <= 'z' || '0' <= c <= '9' || c in "-_.!~*'()"
  {
    hide Utf8, Percent;
    assert [c][1..] == "";
    if !Unreserved(c) { PercentAllLength(Utf8(c)); }
  }

  lemma SlashText()
    ensures EncodeComponent("/") == "%2F"
  {
    EncodedChar('/', [0x2F], "%2F");
  }

  lemma AccentText()
    ensures EncodeComponent("\U{00E9}") == "%C3%A9"
  {
    EncodedChar('\U{00E9}', [0xC3, 0xA9], "%C3%A9");
  }

  lemma EuroText()
    ensures EncodeComponent("\U{20AC}") == "%E2%82%AC"
  {
    EncodedChar('\U{20AC}', [0xE2, 0x82, 0xAC], "%E2%82%AC");
  }

  lemma SmileyText()
    ensures EncodeComponent("\U{1F600}") == "%F0%9F%98%80"
  {
    EncodedChar('\U{1F600}', [0xF0, 0x9F, 0x98, 0x80], "%F0%9F%98%80");
  }

  /** Characters of one to four bytes as they are printed, and one that stays as it is. */
  lemma EncodedTexts()
    ensures EncodeComponent("/") == "%2F" && EncodeComponent("\U{00E9}") == "%C3%A9"
    ensures EncodeComponent("\U{20AC}") == "%E2%82%AC" && EncodeComponent("\U{1F600}") == "%F0%9F%98%80"
    ensures EncodeComponent("~") == "~"
  {
    SlashText();
    AccentText();
    EuroText();
    SmileyText();
    hide Utf8, PercentAll;
    assert "~"[1..] == "";
  }

  lemma EncodedChar(c: char, bytes: seq<int>, text: string)
    requires !Unreserved(c) && Utf8(c) == bytes
    requires |text| == 3 * |bytes|
             && forall i | 0 <= i < |bytes| :: text[3 * i] == '%' && text[3 * i + 1] == HexDigit(bytes[i] / 16) && text[3 * i + 2] == HexDigit(bytes[i] % 16)
    ensures EncodeComponent([c]) == text
  {
    PercentAllIs(bytes, text);
    assert [c][1..] == "";
  }

  lemma {:induction false} PercentAllIs(bytes: seq<int>, text: string)
    requires forall i | 0 <= i < |bytes| :: 0 <= bytes[i] < 256
    requires |text| == 3 * |bytes|
             && forall i | 0 <= i < |bytes| :: text[3 * i] == '%' && text[3 * i + 1] == HexDigit(bytes[i] / 16) && text[3 * i + 2] == HexDigit(bytes[i] % 16)
    ensures PercentAll(bytes) == text
  {
    if |bytes| > 0 {
      assert text[3 * 0] == '%' && text[3 * 0 + 1] == HexDigit(bytes[0] / 16) && text[3 * 0 + 2] == HexDigit(bytes[0] % 16);
      forall i | 0 <= i < |bytes| - 1
        ensures text[3..][3 * i] == '%' && text[3..][3 * i + 1] == HexDigit(bytes[1..][i] / 16) && text[3..][3 * i + 2] == HexDigit(bytes[1..][i] % 16)
      {
        assert text[3..][3 * i] == text[3 * (i + 1)];
        assert text[3..][3 * i + 1] == text[3 * (i + 1) + 1];
        assert text[3..][3 * i + 2] == text[3 * (i + 1) + 2];
      }
      PercentAllIs(bytes[1..], text[3..]);
      assert text == text[..3] + text[3..];
      assert text[..3] == Percent(bytes[0]);
    }
  }
}
