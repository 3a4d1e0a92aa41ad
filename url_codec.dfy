/**
 * `encodeURIComponent` and `decodeURIComponent` (section 19.2.6 of
 * ECMA-262): every character outside `A–Z a–z 0–9 - _ . ! ~ * ' ( )` is
 * written as the `%XX` escapes of its UTF-8 bytes, and decoding reads them
 * back, throwing a URIError on a malformed escape or malformed UTF-8.
 */
module UrlCodec {
  import opened Wrappers

  type Byte = x: int | 0 <= x < 256

  /** The URIError `decodeURIComponent` throws. */
  datatype UriError = MalformedUri

  /** The characters `encodeURIComponent` leaves alone. */
  predicate IsUnreserved(c: char)
  {
    || ('A' <= c <= 'Z') || ('a' <= c <= 'z') || ('0' <= c <= '9')
    || c == '-' || c == '_' || c == '.' || c == '!' || c == '~' || c == '*' || c == '\'' || c == '(' || c == ')'
  }

  predicate IsHex(c: char)
  {
    ('0' <= c <= '9') || ('a' <= c <= 'f') || ('A' <= c <= 'F')
  }

  /** The value of a hexadecimal digit of either case. */
  function HexValue(c: char): (v: nat)
    requires IsHex(c)
    ensures v < 16
  {
    if '0' <= c <= '9' then c as int - '0' as int
    else if 'a' <= c <= 'f' then c as int - 'a' as int + 10
    else c as int - 'A' as int + 10
  }

  /** The uppercase hexadecimal digit `encodeURIComponent` writes. */
  function HexDigit(v: nat): (c: char)
    requires v < 16
    ensures IsHex(c) && HexValue(c) == v
  {
    if v < 10 then ('0' as int + v) as char else ('A' as int + v - 10) as char
  }

  /** `%XX` for one byte. */
  function Escape(b: Byte): (r: string)
    ensures |r| == 3
  {
    ['%', HexDigit(b / 16), HexDigit(b % 16)]
  }

  /** The UTF-8 encoding of a Unicode scalar value. */
  function Utf8(c: char): (bs: seq<Byte>)
    ensures 1 <= |bs| <= 4
  {
    var v := c as int;
    if v < 0x80 then [v]
    else if v < 0x800 then [0xC0 + v / 64, 0x80 + v % 64]
    else if v < 0x10000 then [0xE0 + v / 4096, 0x80 + v / 64 % 64, 0x80 + v % 64]
    else [0xF0 + v / 262144, 0x80 + v / 4096 % 64, 0x80 + v / 64 % 64, 0x80 + v % 64]
  }

  function EscapeAll(bs: seq<Byte>): (r: string)
    ensures |r| == 3 * |bs|
  {
    if bs == [] then "" else Escape(bs[0]) + EscapeAll(bs[1..])
  }

  /** `encodeURIComponent` of one character. */
  function EncodeChar(c: char): string
  {
    if IsUnreserved(c) then [c] else EscapeAll(Utf8(c))
  }

  /** `encodeURIComponent`; every result character is unreserved or part of an escape. */
  function Encode(text: string): (r: string)
    ensures forall i :: 0 <= i < |r| ==> IsUnreserved(r[i]) || r[i] == '%' || IsHex(r[i])
  {
    if text == [] then ""
    else
      var e := EncodeChar(text[0]);
      assert forall i :: 0 <= i < |e| ==> IsUnreserved(e[i]) || e[i] == '%' || IsHex(e[i]) by {
        if !IsUnreserved(text[0]) { EscapeAllShape(Utf8(text[0])); }
      }
      e + Encode(text[1..])
  }

  lemma {:induction false} EscapeAllShape(bs: seq<Byte>)
    ensures forall i :: 0 <= i < |EscapeAll(bs)| ==> EscapeAll(bs)[i] == '%' || IsHex(EscapeAll(bs)[i])
  {
    if bs != [] {
      EscapeAllShape(bs[1..]);
      var r := EscapeAll(bs);
      assert forall i :: 3 <= i < |r| ==> r[i] == EscapeAll(bs[1..])[i - 3];
    }
  }

  /** The byte of the escape `%XX` at the head of `s`, if there is one. */
  function EscapeAt(s: string): (b: Option<Byte>)
  {
    if |s| >= 3 && s[0] == '%' && IsHex(s[1]) && IsHex(s[2])
    then Some(HexValue(s[1]) * 16 + HexValue(s[2]))
    else None
  }

  /** The number of bytes of a UTF-8 sequence its first byte announces
      (the count of leading one bits; 1 and more than 4 are errors). */
  function LeadLength(b: Byte): nat
  {
    if b < 0x80 then 1
    else if b < 0xC0 then 0
    else if b < 0xE0 then 2
    else if b < 0xF0 then 3
    else if b < 0xF8 then 4
    else 0
  }

  predicate IsContinuation(b: Byte) { 0x80 <= b < 0xC0 }

  /** The bytes of `n` consecutive escapes at the head of `s`, each a
      continuation byte; None if any is missing or malformed. */
  function Continuations(s: string, n: nat): (r: Option<seq<Byte>>)
    ensures r.Some? ==> |r.value| == n && 3 * n <= |s|
    ensures r.Some? ==> forall i :: 0 <= i < n ==> IsContinuation(r.value[i])
  {
    if n == 0 then Some([])
    else match EscapeAt(s)
      case None => None
      case Some(b) =>
        if !IsContinuation(b) then None
        else match Continuations(s[3..], n - 1)
          case None => None
          case Some(rest) => Some([b] + rest)
  }

  /** The code point of a multi-byte UTF-8 sequence, if it is a valid
      encoding: not overlong, not a surrogate, not above U+10FFFF. */
  function CodePoint(lead: Byte, cont: seq<Byte>): (r: Option<char>)
    requires 1 <= |cont| <= 3
    requires forall i :: 0 <= i < |cont| ==> IsContinuation(cont[i])
  {
    var l: int := lead;
    var c0: int := cont[0];
    if |cont| == 1 then
      var v := (l - 0xC0) * 64 + (c0 - 0x80);
      if 0x80 <= v < 0x800 then Some(v as char) else None
    else if |cont| == 2 then
      var c1: int := cont[1];
      var v := (l - 0xE0) * 4096 + (c0 - 0x80) * 64 + (c1 - 0x80);
      if 0x800 <= v < 0x10000 && !(0xD800 <= v < 0xE000) then Some(v as char) else None
    else
      var c1: int := cont[1];
      var c2: int := cont[2];
      var v := (l - 0xF0) * 262144 + (c0 - 0x80) * 4096 + (c1 - 0x80) * 64 + (c2 - 0x80);
      if 0x10000 <= v < 0x110000 then Some(v as char) else None
  }

  /** `decodeURIComponent`. */
  function Decode(text: string): (r: Result<string, UriError>)
    ensures '%' !in text ==> r == Ok(text)
    decreases |text|
  {
    if text == [] then Ok("")
    else if text[0] != '%' then
      assert '%' !in text ==> '%' !in text[1..] && [text[0]] + text[1..] == text;
      match Decode(text[1..])
      case Ok(rest) => Ok([text[0]] + rest)
      case Err(e) => Err(e)
    else match EscapeAt(text)
      case None => Err(MalformedUri)
      case Some(b) =>
        var n := LeadLength(b);
        if n == 0 then Err(MalformedUri)
        else if n == 1 then
          match Decode(text[3..])
          case Ok(rest) => Ok([b as char] + rest)
          case Err(e) => Err(e)
        else match Continuations(text[3..], n - 1)
          case None => Err(MalformedUri)
          case Some(cont) =>
            match CodePoint(b, cont)
            case None => Err(MalformedUri)
            case Some(c) =>
              match Decode(text[3 * n..])
              case Ok(rest) => Ok([c] + rest)
              case Err(e) => Err(e)
  }

  /** A `%` that does not start an escape makes decoding fail. */
  lemma DecodeRejectsBareEscape(text: string)
    requires text != [] && text[0] == '%' && EscapeAt(text).None?
    ensures Decode(text).Err?
  {
  }

  lemma EscapeByte(b: Byte, t: string)
    ensures EscapeAt(Escape(b) + t) == Some(b)
    ensures (Escape(b) + t)[3..] == t
  {
    var s := Escape(b) + t;
    assert s[0] == '%' && s[1] == HexDigit(b / 16) && s[2] == HexDigit(b % 16);
  }

  lemma {:induction false} ContinuationsEscaped(bs: seq<Byte>, t: string)
    requires forall i :: 0 <= i < |bs| ==> IsContinuation(bs[i])
    ensures Continuations(EscapeAll(bs) + t, |bs|) == Some(bs)
    ensures (EscapeAll(bs) + t)[3 * |bs|..] == t
  {
    if bs != [] {
      var s := EscapeAll(bs) + t;
      var u := EscapeAll(bs[1..]) + t;
      assert s == Escape(bs[0]) + u;
      EscapeByte(bs[0], u);
      ContinuationsEscaped(bs[1..], t);
      assert s[3..] == u;
      assert Continuations(s, |bs|) == Some([bs[0]] + bs[1..]);
      assert [bs[0]] + bs[1..] == bs;
      assert s[3 * |bs|..] == u[3 * |bs[1..]|..];
    }
  }

  /** UTF-8 encoding is decoded back: the lead byte announces the length and
      the code point is rebuilt. */
  lemma Utf8RoundTrip(c: char)
    requires c as int >= 0x80
    ensures LeadLength(Utf8(c)[0]) == |Utf8(c)|
    ensures forall i :: 1 <= i < |Utf8(c)| ==> IsContinuation(Utf8(c)[i])
    ensures CodePoint(Utf8(c)[0], Utf8(c)[1..]) == Some(c)
  {
    var v := c as int;
    if v < 0x800 {
      Utf8Two(v);
    } else if v < 0x10000 {
      Utf8Three(v);
    } else {
      Utf8Four(v);
    }
  }

  lemma Utf8Two(v: int)
    requires 0x80 <= v < 0x800
    ensures 0xC0 <= 0xC0 + v / 64 < 0xE0
    ensures (v / 64) * 64 + v % 64 == v
  {
  }

  lemma Utf8Three(v: int)
    requires 0x800 <= v < 0x10000
    ensures 0xE0 <= 0xE0 + v / 4096 < 0xF0
    ensures (v / 4096) * 4096 + (v / 64 % 64) * 64 + v % 64 == v
  {
  }

  lemma Utf8Four(v: int)
    requires 0x10000 <= v < 0x110000
    ensures 0xF0 <= 0xF0 + v / 262144 < 0xF8
    ensures (v / 262144) * 262144 + (v / 4096 % 64) * 4096 + (v / 64 % 64) * 64 + v % 64 == v
  {
  }

  lemma DecodeEncodeChar(c: char, t: string)
    ensures Decode(EncodeChar(c) + t) == match Decode(t) case Ok(r) => Ok([c] + r) case Err(e) => Err(e)
  {
    var s := EncodeChar(c) + t;
    if IsUnreserved(c) {
      assert s[0] == c && s[1..] == t;
    } else if c as int < 0x80 {
      DecodeEncodeOneByte(c, t);
    } else {
      DecodeEncodeMultiByte(c, t);
    }
  }

  lemma DecodeEncodeOneByte(c: char, t: string)
    requires !IsUnreserved(c) && c as int < 0x80
    ensures Decode(EncodeChar(c) + t) == match Decode(t) case Ok(r) => Ok([c] + r) case Err(e) => Err(e)
  {
    var s := EncodeChar(c) + t;
    var bs := Utf8(c);
    assert s == Escape(bs[0]) + (EscapeAll(bs[1..]) + t);
    EscapeByte(bs[0], EscapeAll(bs[1..]) + t);
    assert s[3..] == t;
  }

  lemma DecodeEncodeMultiByte(c: char, t: string)
    requires !IsUnreserved(c) && c as int >= 0x80
    ensures Decode(EncodeChar(c) + t) == match Decode(t) case Ok(r) => Ok([c] + r) case Err(e) => Err(e)
  {
    var s := EncodeChar(c) + t;
    var bs := Utf8(c);
    assert s == Escape(bs[0]) + (EscapeAll(bs[1..]) + t);
    EscapeByte(bs[0], EscapeAll(bs[1..]) + t);
    Utf8RoundTrip(c);
    ContinuationsEscaped(bs[1..], t);
    assert s[3..][3 * (|bs| - 1)..] == t;
    assert s[3 * |bs|..] == t;
  }

  /** `decodeURIComponent` undoes `encodeURIComponent`. */
  lemma {:induction false} DecodeEncode(text: string)
    ensures Decode(Encode(text)) == Ok(text)
  {
    if text != [] {
      DecodeEncode(text[1..]);
      DecodeEncodeChar(text[0], Encode(text[1..]));
      assert [text[0]] + text[1..] == text;
    }
  }
}
