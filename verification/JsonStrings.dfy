/**
 Python `str` values as code points, their UTF-8 bytes, and `_canonical_string` of
 scripts/intent_bounded_replay/normalize.py (`json.dumps` with `ensure_ascii=False`, then UTF-8).
 Bytes are characters below 256. The readers follow section 7 of RFC 8259.
 */
module JsonStrings {
  import opened Results

  type CodePoint = c: int | 0 <= c < 0x110000
  type Text = seq<CodePoint>

  predicate IsSurrogate(c: CodePoint) {
    0xD800 <= c <= 0xDFFF
  }

  function Byte(b: nat): char
    requires b < 256
  {
    b as char
  }

  /** The UTF-8 bytes of one code point; a lone surrogate has none. */
  function Utf8(c: CodePoint): string
    requires !IsSurrogate(c)
  {
    if c < 0x80 then [Byte(c)]
    else if c < 0x800 then [Byte(0xC0 + c / 64), Byte(0x80 + c % 64)]
    else if c < 0x10000 then [Byte(0xE0 + c / 4096), Byte(0x80 + c / 64 % 64), Byte(0x80 + c % 64)]
    else [Byte(0xF0 + c / 262144), Byte(0x80 + c / 4096 % 64), Byte(0x80 + c / 64 % 64), Byte(0x80 + c % 64)]
  }

  /** `str.encode("utf-8")` */
  function EncodeUtf8(s: Text): Result<string> {
    if s == [] then Success("")
    else if IsSurrogate(s[0]) then Failure
    else
      var rest :- EncodeUtf8(s[1..]);
      Success(Utf8(s[0]) + rest)
  }

  function HexDigit(d: nat): char
    requires d < 16
  {
    if d < 10 then '0' + d as char else 'a' + (d - 10) as char
  }

  /** One character inside a canonical string. */
  function EncodeChar(c: CodePoint): string
    requires !IsSurrogate(c)
  {
    if c == 0x22 then "\\\""
    else if c == 0x5C then "\\\\"
    else if c == 0x08 then "\\b"
    else if c == 0x0C then "\\f"
    else if c == 0x0A then "\\n"
    else if c == 0x0D then "\\r"
    else if c == 0x09 then "\\t"
    else if c < 0x20 then "\\u00" + [HexDigit(c / 16), HexDigit(c % 16)]
    else Utf8(c)
  }

  function EncodeChars(s: Text): Result<string> {
    if s == [] then Success("")
    else if IsSurrogate(s[0]) then Failure
    else
      var rest :- EncodeChars(s[1..]);
      Success(EncodeChar(s[0]) + rest)
  }

  function CanonicalString(s: Text): Result<string> {
    var body :- EncodeChars(s);
    Success("\"" + body + "\"")
  }

  // ----- Reading back

  /** The value of a hexadecimal digit of either case. */
  function HexValue(c: char): Option<nat> {
    if '0' <= c <= '9' then Some(c as nat - '0' as nat)
    else if 'a' <= c <= 'f' then Some(c as nat - 'a' as nat + 10)
    else if 'A' <= c <= 'F' then Some(c as nat - 'A' as nat + 10)
    else None
  }

  /** The six payload bits of a continuation byte. */
  function Continuation(c: char): Option<nat> {
    if 0x80 <= c as int < 0xC0 then Some(c as nat - 0x80) else None
  }

  /** Reads one UTF-8 sequence as section 3 of RFC 3629 defines it: the code point and the number of bytes. */
  function ReadUtf8(b: string): (r: Option<(int, nat)>)
    requires b != ""
    ensures r.Some? ==> 0 < r.value.1 <= |b| && 0 <= r.value.0 < 0x110000
  {
    var b0 := b[0] as int;
    if b0 < 0x80 then Some((b0, 1))
    else if 0xC2 <= b0 < 0xE0 && |b| >= 2 && Continuation(b[1]).Some? then
      Some(((b0 - 0xC0) * 64 + Continuation(b[1]).value, 2))
    else if 0xE0 <= b0 < 0xF0 && |b| >= 3 && Continuation(b[1]).Some? && Continuation(b[2]).Some? then
      var c := (b0 - 0xE0) * 4096 + Continuation(b[1]).value * 64 + Continuation(b[2]).value;
      if c < 0x800 || IsSurrogate(c) then None else Some((c, 3))
    else if 0xF0 <= b0 < 0xF5 && |b| >= 4 && Continuation(b[1]).Some? && Continuation(b[2]).Some? && Continuation(b[3]).Some? then
      var c := (b0 - 0xF0) * 262144 + Continuation(b[1]).value * 4096 + Continuation(b[2]).value * 64 + Continuation(b[3]).value;
      if c < 0x10000 || c >= 0x110000 then None else Some((c, 4))
    else None
  }

  /** Four hexadecimal digits. */
  function ReadHex(b: string): (r: Option<nat>)
    ensures r.Some? ==> r.value < 0x10000
  {
    if |b| < 4 || HexValue(b[0]).None? || HexValue(b[1]).None? || HexValue(b[2]).None? || HexValue(b[3]).None? then None
    else Some(HexValue(b[0]).value * 4096 + HexValue(b[1]).value * 256 + HexValue(b[2]).value * 16 + HexValue(b[3]).value)
  }

  /** The character that a two-character escape stands for. */
  function ShortEscape(c: char): Option<int> {
    if c == '"' then Some(0x22)
    else if c == '\\' then Some(0x5C)
    else if c == '/' then Some(0x2F)
    else if c == 'b' then Some(0x08)
    else if c == 'f' then Some(0x0C)
    else if c == 'n' then Some(0x0A)
    else if c == 'r' then Some(0x0D)
    else if c == 't' then Some(0x09)
    else None
  }

  /** Reads an escape of four digits; a high surrogate joins a low one that follows. */
  function ReadUnicodeEscape(b: string): (r: Option<(int, nat)>)
    requires |b| >= 2
    ensures r.Some? ==> 0 < r.value.1 <= |b| && 0 <= r.value.0 < 0x110000
  {
    match ReadHex(b[2..])
    case None => None
    case Some(unit) =>
      var low := if |b| >= 12 && b[6..8] == "\\u" then ReadHex(b[8..]) else None;
      if 0xD800 <= unit < 0xDC00 && low.Some? && 0xDC00 <= low.value < 0xE000
      then Some((0x10000 + (unit - 0xD800) * 1024 + (low.value - 0xDC00), 12))
      else Some((unit, 6))
  }

  /** Reads one character of a JSON string: an escape, or an unescaped character, which is no control character. */
  function ReadChar(b: string): (r: Option<(int, nat)>)
    requires b != ""
    ensures r.Some? ==> 0 < r.value.1 <= |b| && 0 <= r.value.0 < 0x110000
  {
    if b[0] != '\\' then (if b[0] as int < 0x20 then None else ReadUtf8(b))
    else if |b| < 2 then None
    else if b[1] == 'u' then ReadUnicodeEscape(b)
    else
      match ShortEscape(b[1])
      case None => None
      case Some(c) => Some((c, 2))
  }

  lemma Utf8ReadsBack(c: CodePoint, rest: string)
    requires !IsSurrogate(c)
    ensures Utf8(c) != "" && ReadUtf8(Utf8(c) + rest) == Some((c, |Utf8(c)|))
  {
    var e := Utf8(c);
    var b := e + rest;
    assert forall i :: 0 <= i < |e| ==> b[i] == e[i];
    SixBitGroups(c);
    if c < 0x80 {
    } else if c < 0x800 {
      assert b[0] as int == 0xC0 + c / 64 && b[1] as int == 0x80 + c % 64;
    } else if c < 0x10000 {
      hide ReadUtf8;
      ThreeBytesRead(c, b);
    } else {
      hide ReadUtf8;
      FourBytesRead(c, b);
    }
  }

  lemma ThreeBytesRead(c: CodePoint, b: string)
    requires !IsSurrogate(c) && 0x800 <= c < 0x10000 && |b| >= 3
    requires b[0] == Byte(0xE0 + c / 4096) && b[1] == Byte(0x80 + c / 64 % 64) && b[2] == Byte(0x80 + c % 64)
    ensures ReadUtf8(b) == Some((c, 3))
  {
    SixBitGroups(c);
    assert b[0] as int == 0xE0 + c / 4096 && b[1] as int == 0x80 + c / 64 % 64 && b[2] as int == 0x80 + c % 64;
  }

  lemma FourBytesRead(c: CodePoint, b: string)
    requires 0x10000 <= c && |b| >= 4
    requires b[0] == Byte(0xF0 + c / 262144) && b[1] == Byte(0x80 + c / 4096 % 64)
    requires b[2] == Byte(0x80 + c / 64 % 64) && b[3] == Byte(0x80 + c % 64)
    ensures ReadUtf8(b) == Some((c, 4))
  {
    SixBitGroups(c);
    assert b[0] as int == 0xF0 + c / 262144 && b[1] as int == 0x80 + c / 4096 % 64;
    assert b[2] as int == 0x80 + c / 64 % 64 && b[3] as int == 0x80 + c % 64;
  }

  lemma SixBitGroups(c: CodePoint)
    ensures c == c / 64 * 64 + c % 64
    ensures c == c / 4096 * 4096 + c / 64 % 64 * 64 + c % 64
    ensures c == c / 262144 * 262144 + c / 4096 % 64 * 4096 + c / 64 % 64 * 64 + c % 64
  {
    assert c / 4096 == c / 64 / 64 && c / 262144 == c / 4096 / 64;
  }

  lemma EncodeCharReadsBack(c: CodePoint, rest: string)
    requires !IsSurrogate(c)
    ensures EncodeChar(c) != "" && EncodeChar(c)[0] != '"'
    ensures ReadChar(EncodeChar(c) + rest) == Some((c, |EncodeChar(c)|))
  {
    var e := EncodeChar(c);
    var b := e + rest;
    assert forall i :: 0 <= i < |e| ==> b[i] == e[i];
    if c < 0x20 && |e| == 6 {
      var digits := b[2..];
      assert digits[0] == '0' && digits[1] == '0' && digits[2] == HexDigit(c / 16) && digits[3] == HexDigit(c % 16);
      assert c == c / 16 * 16 + c % 16;
    } else if c >= 0x20 && c != 0x22 && c != 0x5C {
      Utf8ReadsBack(c, rest);
      UnescapedHead(c);
    }
  }

  /** An unescaped character starts with no control byte, quote or backslash. */
  lemma UnescapedHead(c: CodePoint)
    requires !IsSurrogate(c) && c >= 0x20 && c != 0x22 && c != 0x5C
    ensures Utf8(c) != "" && Utf8(c)[0] as int >= 0x20 && Utf8(c)[0] != '"' && Utf8(c)[0] != '\\'
  {
  }

  /** Reads characters up to the closing quote; `None` if there is none. */
  function ReadChars(b: string): (r: Option<(Text, string)>)
    ensures r.Some? ==> |r.value.1| < |b|
    decreases |b|
  {
    if b == "" then None
    else if b[0] == '"' then Some(([], b[1..]))
    else
      match ReadChar(b)
      case None => None
      case Some((c, n)) =>
        match ReadChars(b[n..])
        case None => None
        case Some((s, rest)) => Some(([c] + s, rest))
  }

  /** Whatever follows the string, reading its canonical bytes gives back exactly the string. */
  lemma {:induction false} CharsReadBack(s: Text, rest: string)
    requires EncodeChars(s).Success?
    ensures ReadChars(EncodeChars(s).value + "\"" + rest) == Some((s, rest))
  {
    var body := EncodeChars(s).value;
    var b := body + "\"" + rest;
    if s == [] {
      assert b == "\"" + rest && b[1..] == rest;
    } else {
      var tail := EncodeChars(s[1..]).value;
      var e := EncodeChar(s[0]);
      assert b == e + (tail + "\"" + rest);
      EncodeCharReadsBack(s[0], tail + "\"" + rest);
      assert b[|e|..] == tail + "\"" + rest;
      CharsReadBack(s[1..], rest);
      assert [s[0]] + s[1..] == s;
    }
  }

  /** Equal bytes, followed by anything, come from equal strings. */
  lemma CanonicalStringPrefix(s: Text, t: Text, u: string, v: string)
    requires CanonicalString(s).Success? && CanonicalString(t).Success?
    requires CanonicalString(s).value + u == CanonicalString(t).value + v
    ensures s == t && u == v
  {
    hide EncodeChars, ReadChars;
    var a, b := EncodeChars(s).value, EncodeChars(t).value;
    var whole := CanonicalString(s).value + u;
    assert whole[1..] == a + "\"" + u && whole[1..] == b + "\"" + v;
    CharsReadBack(s, u);
    CharsReadBack(t, v);
  }

  /** A string has canonical bytes iff it has no lone surrogate, iff it has UTF-8 bytes. */
  lemma {:induction false} EncodableIff(s: Text)
    ensures EncodeUtf8(s).Success? <==> forall i :: 0 <= i < |s| ==> !IsSurrogate(s[i])
    ensures EncodeChars(s).Success? <==> EncodeUtf8(s).Success?
  {
    if s != [] {
      EncodableIff(s[1..]);
      assert s == [s[0]] + s[1..];
    }
  }

  lemma {:induction false} EncodeUtf8Injective(s: Text, t: Text)
    requires EncodeUtf8(s).Success? && EncodeUtf8(t).Success? && EncodeUtf8(s) == EncodeUtf8(t)
    ensures s == t
  {
    if s != [] && t != [] {
      var u, v := EncodeUtf8(s[1..]).value, EncodeUtf8(t[1..]).value;
      Utf8ReadsBack(s[0], u);
      Utf8ReadsBack(t[0], v);
      var b := EncodeUtf8(s).value;
      assert u == b[|Utf8(s[0])|..] && v == b[|Utf8(t[0])|..];
      EncodeUtf8Injective(s[1..], t[1..]);
      assert s == [s[0]] + s[1..] && t == [t[0]] + t[1..];
    } else if s != [] {
      Utf8ReadsBack(s[0], EncodeUtf8(s[1..]).value);
    } else if t != [] {
      Utf8ReadsBack(t[0], EncodeUtf8(t[1..]).value);
    }
  }

  // ----- Which escapes are used

  /**
   Inside the quotes: a backslash starts a two-character escape of a quote, a backslash or one of five
   control characters, or four lower-case digits for a control character that has no two-character escape.
   */
  ghost predicate ShortestEscapes(b: string)
    decreases |b|
  {
    if b == "" then true
    else if b[0] != '\\' then b[0] != '"' && b[0] as int >= 0x20 && ShortestEscapes(b[1..])
    else if |b| >= 2 && b[1] in "\"\\bfnrt" then ShortestEscapes(b[2..])
    else
      && |b| >= 6 && b[1..4] == "u00" && b[4] in "01" && b[5] in "0123456789abcdef"
      && b[4..6] !in ["08", "09", "0a", "0c", "0d"]
      && ShortestEscapes(b[6..])
  }

  lemma {:induction false} PlainThenRest(e: string, b: string)
    requires ShortestEscapes(b) && forall i :: 0 <= i < |e| ==> e[i] != '\\' && e[i] != '"' && e[i] as int >= 0x20
    ensures ShortestEscapes(e + b)
  {
    if e == "" {
      assert e + b == b;
    } else {
      assert (e + b)[1..] == e[1..] + b;
      PlainThenRest(e[1..], b);
    }
  }

  lemma HexPair(c: CodePoint)
    requires c < 0x20
    ensures var t := [HexDigit(c / 16), HexDigit(c % 16)];
            && t[0] in "01" && t[1] in "0123456789abcdef"
            && (t in ["08", "09", "0a", "0c", "0d"] <==> c in {0x08, 0x09, 0x0A, 0x0C, 0x0D})
  {
    var t := [HexDigit(c / 16), HexDigit(c % 16)];
    assert c == c / 16 * 16 + c % 16;
    HexDigitIs(c / 16);
    HexDigitIs(c % 16);
    hide HexDigit;
    assert t[0] == '0' <==> c < 16;
  }

  lemma HexDigitIs(d: nat)
    requires d < 16
    ensures HexDigit(d) == "0123456789abcdef"[d] && HexValue(HexDigit(d)) == Some(d)
  {
  }

  lemma EscapedThenRest(c: CodePoint, b: string)
    requires ShortestEscapes(b) && !IsSurrogate(c) && (c < 0x20 || c == 0x22 || c == 0x5C)
    ensures ShortestEscapes(EncodeChar(c) + b)
  {
    var e := EncodeChar(c);
    var t := e + b;
    assert forall i :: 0 <= i < |e| ==> t[i] == e[i];
    if |e| == 2 {
      assert t[2..] == b;
    } else {
      HexPair(c);
      assert t[6..] == b && t[4..6] == [HexDigit(c / 16), HexDigit(c % 16)];
      assert t[1..4] == "u00";
    }
  }

  lemma Utf8Plain(c: CodePoint)
    requires !IsSurrogate(c) && c >= 0x20 && c != 0x22 && c != 0x5C
    ensures forall i :: 0 <= i < |Utf8(c)| ==> Utf8(c)[i] != '\\' && Utf8(c)[i] != '"' && Utf8(c)[i] as int >= 0x20
  {
  }

  /** Canonical strings escape nothing that need not be escaped, and use a two-character escape wherever there is one. */
  lemma {:induction false} EscapesAreShortest(s: Text)
    requires EncodeChars(s).Success?
    ensures ShortestEscapes(EncodeChars(s).value)
  {
    if s != [] {
      EscapesAreShortest(s[1..]);
      var c, rest := s[0], EncodeChars(s[1..]).value;
      hide ShortestEscapes;
      if c < 0x20 || c == 0x22 || c == 0x5C {
        EscapedThenRest(c, rest);
      } else {
        Utf8Plain(c);
        PlainThenRest(Utf8(c), rest);
      }
    }
  }
}
