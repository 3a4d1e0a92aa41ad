/**
 * `btoa` and `atob`: standard base64 (alphabet `A–Z a–z 0–9 + /`, `=`
 * padding) over "binary strings", whose characters are bytes. Encoding
 * fails on a character above U+00FF; decoding follows the forgiving-base64
 * algorithm of the HTML standard (ASCII whitespace ignored, padding
 * optional, leftover bits discarded).
 */
module Base64 {
  import opened Wrappers

  type Byte = x: int | 0 <= x < 256
  type Sextet = x: int | 0 <= x < 64

  /** The DOMException `InvalidCharacterError` both functions throw. */
  datatype Error = InvalidCharacter

  /** The base64 digit of a sextet. */
  function Digit(v: Sextet): (c: char)
    ensures IsDigitChar(c)
  {
    if v < 26 then ('A' as int + v) as char
    else if v < 52 then ('a' as int + v - 26) as char
    else if v < 62 then ('0' as int + v - 52) as char
    else if v == 62 then '+'
    else '/'
  }

  predicate IsDigitChar(c: char)
  {
    ('A' <= c <= 'Z') || ('a' <= c <= 'z') || ('0' <= c <= '9') || c == '+' || c == '/'
  }

  /** The sextet a base64 digit stands for. */
  function Value(c: char): Sextet
    requires IsDigitChar(c)
  {
    if 'A' <= c <= 'Z' then c as int - 'A' as int
    else if 'a' <= c <= 'z' then c as int - 'a' as int + 26
    else if '0' <= c <= '9' then c as int - '0' as int + 52
    else if c == '+' then 62
    else 63
  }

  /** `Digit` and `Value` are inverse bijections between sextets and digits. */
  lemma ValueDigit(v: Sextet)
    ensures Value(Digit(v)) == v
  {
  }

  lemma DigitValue(c: char)
    requires IsDigitChar(c)
    ensures Digit(Value(c)) == c
  {
  }

  /** A "binary string": every character is a byte. */
  predicate IsBinary(s: string)
  {
    forall i :: 0 <= i < |s| ==> s[i] as int < 256
  }

  // The four sextets of a group of three bytes.
  function Hi6(b0: Byte): Sextet { b0 / 4 }
  function Mid6(b0: Byte, b1: Byte): Sextet { b0 % 4 * 16 + b1 / 16 }
  function Low6(b1: Byte, b2: Byte): Sextet { b1 % 16 * 4 + b2 / 64 }
  function Last6(b2: Byte): Sextet { b2 % 64 }

  /** The digits of a binary string before padding: each 3 bytes become 4
      digits, a final 1 or 2 bytes become 2 or 3 digits, the missing bits
      taken as zero. */
  function EncodeDigits(s: string): (r: string)
    requires IsBinary(s)
    ensures |r| == DigitsLength(|s|)
    ensures forall i :: 0 <= i < |r| ==> IsDigitChar(r[i])
  {
    if |s| == 0 then ""
    else
      var b0 := s[0] as int;
      if |s| == 1 then [Digit(Hi6(b0)), Digit(Mid6(b0, 0))]
      else
        var b1 := s[1] as int;
        if |s| == 2 then [Digit(Hi6(b0)), Digit(Mid6(b0, b1)), Digit(Low6(b1, 0))]
        else
          Quad(b0, b1, s[2] as int) + EncodeDigits(s[3..])
  }

  /** The number of digits `n` bytes need: 4 per 3 bytes, 2 or 3 for a
      final 1 or 2. */
  function DigitsLength(n: nat): nat
  {
    if n == 0 then 0 else if n == 1 then 2 else if n == 2 then 3 else 4 + DigitsLength(n - 3)
  }

  /** The `=` that fill the last group of `n` bytes to four characters. */
  function Padding(n: nat): string
  {
    if n >= 3 then Padding(n - 3) else if n == 1 then "==" else if n == 2 then "=" else ""
  }

  lemma {:induction false} EncodedLength(n: nat)
    ensures DigitsLength(n) + |Padding(n)| == 4 * ((n + 2) / 3)
    ensures DigitsLength(n) % 4 != 1
  {
    if n >= 3 {
      EncodedLength(n - 3);
    }
  }

  /** Base64 of a binary string: the digits, padded with `=` to a multiple of four. */
  function EncodeBinary(s: string): (r: string)
    requires IsBinary(s)
    ensures |r| == 4 * ((|s| + 2) / 3)
    ensures forall i :: 0 <= i < |r| ==> IsDigitChar(r[i]) || r[i] == '='
  {
    EncodedLength(|s|);
    PaddingShape(|s|);
    EncodeDigits(s) + Padding(|s|)
  }

  /** `btoa`: fails iff some character is above U+00FF. */
  function Encode(text: string): (r: Result<string, Error>)
    ensures r.Ok? <==> IsBinary(text)
    ensures r.Ok? ==> |r.value| == 4 * ((|text| + 2) / 3)
  {
    if IsBinary(text) then Ok(EncodeBinary(text)) else Err(InvalidCharacter)
  }

  /** ASCII whitespace as the forgiving-base64 algorithm strips it. */
  predicate IsAsciiWhitespace(c: char)
  {
    c == '\t' || c == '\n' || c == '\U{000C}' || c == '\r' || c == ' '
  }

  function StripWhitespace(s: string): (r: string)
    ensures |r| <= |s|
    ensures forall i :: 0 <= i < |r| ==> !IsAsciiWhitespace(r[i])
  {
    if s == [] then ""
    else (if IsAsciiWhitespace(s[0]) then "" else [s[0]]) + StripWhitespace(s[1..])
  }

  // The three bytes of a group of four sextets.
  function Byte0(c0: Sextet, c1: Sextet): Byte { c0 * 4 + c1 / 16 }
  function Byte1(c1: Sextet, c2: Sextet): Byte { c1 % 16 * 16 + c2 / 4 }
  function Byte2(c2: Sextet, c3: Sextet): Byte { c2 % 4 * 64 + c3 }

  /** The bytes of a padding-free run of base64 digits; a final 2 or 3
      digits give 1 or 2 bytes, their spare bits dropped. */
  function DecodeDigits(t: string): (r: string)
    requires forall i :: 0 <= i < |t| ==> IsDigitChar(t[i])
    ensures IsBinary(r)
  {
    if |t| < 2 then ""
    else
      var c0 := Value(t[0]);
      var c1 := Value(t[1]);
      var b0 := Byte0(c0, c1) as char;
      if |t| == 2 then [b0]
      else
        var c2 := Value(t[2]);
        var b1 := Byte1(c1, c2) as char;
        if |t| == 3 then [b0, b1]
        else
          var c3 := Value(t[3]);
          [b0, b1, Byte2(c2, c3) as char] + DecodeDigits(t[4..])
  }

  /** `t` with one or two `=` removed from the end when its length is a
      multiple of four. */
  function DropPadding(t: string): (r: string)
    ensures |r| <= |t|
  {
    if |t| % 4 == 0 && |t| >= 2 && t[|t| - 2..] == "==" then t[..|t| - 2]
    else if |t| % 4 == 0 && |t| >= 1 && t[|t| - 1] == '=' then t[..|t| - 1]
    else t
  }

  /** `atob`: forgiving-base64 decode. */
  function Decode(text: string): (r: Result<string, Error>)
    ensures r.Ok? ==> IsBinary(r.value)
    ensures |DropPadding(StripWhitespace(text))| % 4 == 1 ==> r.Err?
  {
    var t := DropPadding(StripWhitespace(text));
    if |t| % 4 == 1 then Err(InvalidCharacter)
    else if exists i :: 0 <= i < |t| && !IsDigitChar(t[i]) then Err(InvalidCharacter)
    else Ok(DecodeDigits(t))
  }

  lemma {:induction false} StripNoWhitespace(s: string)
    requires forall i :: 0 <= i < |s| ==> !IsAsciiWhitespace(s[i])
    ensures StripWhitespace(s) == s
  {
    if s != [] {
      var tail := s[1..];
      assert forall i :: 0 <= i < |tail| ==> !IsAsciiWhitespace(tail[i]) by {
        forall i | 0 <= i < |tail| ensures !IsAsciiWhitespace(tail[i]) { assert tail[i] == s[i + 1]; }
      }
      StripNoWhitespace(tail);
      assert StripWhitespace(s) == [s[0]] + tail;
      SplitFirst(s);
    }
  }

  lemma SplitFirst(s: string)
    requires |s| >= 1
    ensures s == [s[0]] + s[1..]
  {
  }

  /** Joining the sextets of a group back gives its bytes. */
  lemma GroupBytes(b0: Byte, b1: Byte, b2: Byte)
    ensures Byte0(Hi6(b0), Mid6(b0, b1)) == b0
    ensures Byte1(Mid6(b0, b1), Low6(b1, b2)) == b1
    ensures Byte2(Low6(b1, b2), Last6(b2)) == b2
  {
  }

  /** The digits of a full group of three bytes. */
  function Quad(b0: Byte, b1: Byte, b2: Byte): (r: string)
    ensures |r| == 4
  {
    [Digit(Hi6(b0)), Digit(Mid6(b0, b1)), Digit(Low6(b1, b2)), Digit(Last6(b2))]
  }

  // One step of `DecodeDigits` for each length of its last group.
  lemma DecodeStep2(a: char, b: char)
    requires IsDigitChar(a) && IsDigitChar(b)
    ensures DecodeDigits([a, b]) == [Byte0(Value(a), Value(b)) as char]
  {
  }

  lemma DecodeStep3(a: char, b: char, c: char)
    requires IsDigitChar(a) && IsDigitChar(b) && IsDigitChar(c)
    ensures DecodeDigits([a, b, c]) == [Byte0(Value(a), Value(b)) as char, Byte1(Value(b), Value(c)) as char]
  {
  }

  lemma DecodeGroup(t: string)
    requires |t| >= 4
    requires forall i :: 0 <= i < |t| ==> IsDigitChar(t[i])
    ensures DecodeDigits(t) ==
      [Byte0(Value(t[0]), Value(t[1])) as char, Byte1(Value(t[1]), Value(t[2])) as char, Byte2(Value(t[2]), Value(t[3])) as char]
      + DecodeDigits(t[4..])
  {
  }

  lemma DecodeQuad(b0: Byte, b1: Byte, b2: Byte, rest: string, t: string)
    requires t == Quad(b0, b1, b2) + rest
    requires forall i :: 0 <= i < |t| ==> IsDigitChar(t[i])
    requires forall i :: 0 <= i < |rest| ==> IsDigitChar(rest[i])
    ensures DecodeDigits(t) == [b0 as char, b1 as char, b2 as char] + DecodeDigits(rest)
  {
    QuadPrefix(b0, b1, b2, rest, t);
    DecodeGroup(t);
    ValueDigit(Hi6(b0));
    ValueDigit(Mid6(b0, b1));
    ValueDigit(Low6(b1, b2));
    ValueDigit(Last6(b2));
    GroupBytes(b0, b1, b2);
  }

  lemma QuadPrefix(b0: Byte, b1: Byte, b2: Byte, rest: string, t: string)
    requires t == Quad(b0, b1, b2) + rest
    ensures |t| >= 4 && t[4..] == rest
    ensures t[0] == Digit(Hi6(b0)) && t[1] == Digit(Mid6(b0, b1))
    ensures t[2] == Digit(Low6(b1, b2)) && t[3] == Digit(Last6(b2))
  {
  }

  lemma DecodeOne(b0: Byte)
    ensures DecodeDigits([Digit(Hi6(b0)), Digit(Mid6(b0, 0))]) == [b0 as char]
  {
    DecodeStep2(Digit(Hi6(b0)), Digit(Mid6(b0, 0)));
    ValueDigit(Hi6(b0));
    ValueDigit(Mid6(b0, 0));
    GroupBytes(b0, 0, 0);
  }

  lemma DecodeTwo(b0: Byte, b1: Byte)
    ensures DecodeDigits([Digit(Hi6(b0)), Digit(Mid6(b0, b1)), Digit(Low6(b1, 0))]) == [b0 as char, b1 as char]
  {
    DecodeStep3(Digit(Hi6(b0)), Digit(Mid6(b0, b1)), Digit(Low6(b1, 0)));
    ValueDigit(Hi6(b0));
    ValueDigit(Mid6(b0, b1));
    ValueDigit(Low6(b1, 0));
    GroupBytes(b0, b1, 0);
  }

  /** Decoding the digits of a binary string gives the string back. */
  lemma {:induction false} DecodeEncodeDigits(s: string)
    requires IsBinary(s)
    ensures DecodeDigits(EncodeDigits(s)) == s
  {
    if |s| >= 3 {
      BinaryTail(s);
      DecodeEncodeDigits(s[3..]);
      DecodeEncodeCons(s);
    } else {
      DecodeEncodeShort(s);
    }
  }

  lemma BinaryTail(s: string)
    requires IsBinary(s) && |s| >= 3
    ensures IsBinary(s[3..])
  {
    var tail := s[3..];
    forall i | 0 <= i < |tail| ensures tail[i] as int < 256 { assert tail[i] == s[i + 3]; }
  }

  lemma DecodeEncodeCons(s: string)
    requires IsBinary(s) && |s| >= 3 && IsBinary(s[3..])
    requires DecodeDigits(EncodeDigits(s[3..])) == s[3..]
    ensures DecodeDigits(EncodeDigits(s)) == s
  {
    DecodeEncodeGroup(s);
    SplitThree(s);
  }

  lemma SplitTwo(s: string)
    requires |s| == 2
    ensures s == [s[0], s[1]]
  {
  }

  lemma SplitThree(s: string)
    requires |s| >= 3
    ensures s == [s[0], s[1], s[2]] + s[3..]
  {
  }

  /** A full leading group of three bytes decodes back to itself. */
  lemma DecodeEncodeGroup(s: string)
    requires IsBinary(s) && |s| >= 3
    ensures DecodeDigits(EncodeDigits(s)) == [s[0], s[1], s[2]] + DecodeDigits(EncodeDigits(s[3..]))
  {
    var b0, b1, b2 := s[0] as int, s[1] as int, s[2] as int;
    assert EncodeDigits(s) == Quad(b0, b1, b2) + EncodeDigits(s[3..]);
    DecodeQuad(b0, b1, b2, EncodeDigits(s[3..]), EncodeDigits(s));
  }

  /** A final one or two bytes decode back to themselves. */
  lemma DecodeEncodeShort(s: string)
    requires IsBinary(s) && |s| < 3
    ensures DecodeDigits(EncodeDigits(s)) == s
  {
    if |s| == 2 {
      DecodeEncodeTwo(s);
    } else if |s| == 1 {
      DecodeEncodeOne(s);
    }
  }

  lemma DecodeEncodeOne(s: string)
    requires IsBinary(s) && |s| == 1
    ensures DecodeDigits(EncodeDigits(s)) == s
  {
    var b0 := s[0] as int;
    assert EncodeDigits(s) == [Digit(Hi6(b0)), Digit(Mid6(b0, 0))];
    DecodeOne(b0);
    assert s == [s[0]];
  }

  lemma DecodeEncodeTwo(s: string)
    requires IsBinary(s) && |s| == 2
    ensures DecodeDigits(EncodeDigits(s)) == s
  {
    var b0, b1 := s[0] as int, s[1] as int;
    assert EncodeDigits(s) == [Digit(Hi6(b0)), Digit(Mid6(b0, b1)), Digit(Low6(b1, 0))];
    DecodeTwo(b0, b1);
    SplitTwo(s);
  }

  lemma {:induction false} PaddingShape(n: nat)
    ensures Padding(n) == if n % 3 == 1 then "==" else if n % 3 == 2 then "=" else ""
  {
    if n >= 3 {
      PaddingShape(n - 3);
      assert Padding(n) == Padding(n - 3);
      assert (n - 3) % 3 == n % 3;
    }
  }

  lemma FourFold(q: nat)
    ensures (4 * q) % 4 == 0
  {
  }

  /** Removing the padding of an encoding leaves its digits. */
  lemma DropPaddingEncoded(s: string)
    requires IsBinary(s)
    ensures DropPadding(EncodeBinary(s)) == EncodeDigits(s)
  {
    var d := EncodeDigits(s);
    var p := Padding(|s|);
    PaddingShape(|s|);
    EncodedLength(|s|);
    FourFold((|s| + 2) / 3);
    assert EncodeBinary(s) == d + p;
    assert |s| > 0 ==> |d| >= 2;
    DropPaddingOf(d, p);
  }

  /** Digits followed by their padding lose exactly the padding. */
  lemma DropPaddingOf(d: string, p: string)
    requires forall i :: 0 <= i < |d| ==> IsDigitChar(d[i])
    requires p == "" || p == "=" || p == "=="
    requires |d + p| % 4 == 0 && (p != "" ==> |d| >= 2)
    ensures DropPadding(d + p) == d
  {
    var e := d + p;
    if p == "" {
      assert e == d;
      if |e| >= 2 {
        assert e[|e| - 2..][1] == d[|d| - 1];
      }
    } else if p == "==" {
      assert e[|e| - 2..] == "==";
      assert e[..|e| - 2] == d;
    } else {
      assert e[|e| - 2..][0] == d[|d| - 1];
      assert e[|e| - 1] == '=';
      assert e[..|e| - 1] == d;
    }
  }

  /** `atob` undoes `btoa`. */
  lemma DecodeEncode(text: string)
    requires Encode(text).Ok?
    ensures Decode(Encode(text).value) == Ok(text)
  {
    var e := EncodeBinary(text);
    StripNoWhitespace(e);
    DropPaddingEncoded(text);
    DecodeEncodeDigits(text);
    EncodedLength(|text|);
    var t := EncodeDigits(text);
    assert !exists i :: 0 <= i < |t| && !IsDigitChar(t[i]);
  }

  /** A decoded string is always a binary string, so `btoa` accepts it again. */
  lemma EncodeDecoded(text: string)
    requires Decode(text).Ok?
    ensures Encode(Decode(text).value).Ok?
  {
  }

  /** Input with a character outside the alphabet, `=` and whitespace is refused. */
  lemma DecodeRejectsForeign(text: string, i: nat)
    requires i < |text|
    requires !IsDigitChar(text[i]) && text[i] != '=' && !IsAsciiWhitespace(text[i])
    ensures Decode(text).Err?
  {
    ForeignSurvives(text, i);
    var s := StripWhitespace(text);
    var k :| 0 <= k < |s| && s[k] == text[i];
    var t := DropPadding(s);
    DropPaddingDrops(s);
    assert k < |t| && t[k] == s[k];
    assert !IsDigitChar(t[k]);
  }

  /** `DropPadding` keeps a prefix and removes only `=`. */
  lemma DropPaddingDrops(s: string)
    ensures DropPadding(s) == s[..|DropPadding(s)|]
    ensures forall j :: |DropPadding(s)| <= j < |s| ==> s[j] == '='
  {
    if |s| % 4 == 0 && |s| >= 2 && s[|s| - 2..] == "==" {
      assert s[|s| - 2..][0] == s[|s| - 2] && s[|s| - 2..][1] == s[|s| - 1];
    }
  }

  lemma {:induction false} ForeignSurvives(text: string, i: nat)
    requires i < |text| && !IsAsciiWhitespace(text[i])
    ensures exists k :: 0 <= k < |StripWhitespace(text)| && StripWhitespace(text)[k] == text[i]
  {
    if i == 0 {
      assert StripWhitespace(text)[0] == text[0];
    } else {
      ForeignSurvives(text[1..], i - 1);
      var k :| 0 <= k < |StripWhitespace(text[1..])| && StripWhitespace(text[1..])[k] == text[1..][i - 1];
      var h := if IsAsciiWhitespace(text[0]) then "" else [text[0]];
      assert StripWhitespace(text) == h + StripWhitespace(text[1..]);
      assert StripWhitespace(text)[|h| + k] == text[i];
    }
  }
}
