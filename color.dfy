/**
 * The colour converter: parsing a colour given as hex, `rgb(a)`, `hsl(a)`
 * or `cmyk` text into red, green, blue and alpha; rendering the hex and
 * `rgb` outputs; the error path; and the list of recent colours.
 *
 * JavaScript numbers are modelled as NaN or an exact rational; the channels
 * are always whole numbers or NaN, because every parse branch ends in
 * `parseInt`, `Number` of a digit string, or `Math.round`.
 */
module Color {
  import opened Wrappers
  import opened Chars
  import opened Strings
  import opened JsMath

  datatype Format = Hex | Rgb | Rgba | Hsl | Hsla | Cmyk

  datatype RecentColor = RecentColor(value: string, format: Format)

  /** A JavaScript number: NaN or the rational num/den. */
  datatype Num = NaN | Rat(num: int, den: Pos)

  /** A colour channel: NaN or a whole number. */
  datatype Channel = NotANumber | Int(value: int)

  datatype Rgba = Channels(r: Channel, g: Channel, b: Channel, a: Num)

  const RgbError: string := "Invalid RGB(A) format"
  const HslError: string := "Invalid HSL(A) format"
  const CmykError: string := "Invalid CMYK format"

  // ---------------------------------------------------------------------
  // Numbers

  function Pow10(n: nat): (p: Pos)
  {
    if n == 0 then 1 else 10 * Pow10(n - 1)
  }

  function HexCharValue(c: char): nat
  {
    if IsDigit(c) then c as int - '0' as int
    else if 'a' <= c <= 'f' then c as int - 'a' as int + 10
    else if 'A' <= c <= 'F' then c as int - 'A' as int + 10
    else 0
  }

  /** The value of a string of hexadecimal digits. */
  function HexValue(s: string): nat
  {
    if s == [] then 0 else HexValue(s[..|s| - 1]) * 16 + HexCharValue(s[|s| - 1])
  }

  /** `Number(s)` for a string of digits and dots. The empty string stands
      for an absent capture group, whose `Number` is NaN. */
  function DecimalNumber(s: string): (x: Num)
    ensures s == [] || Count(s, '.') > 1 || s == "." ==> x == NaN
  {
    if s == [] || Count(s, '.') > 1 || s == "." then NaN
    else
      var i := Span(s, c => c != '.');
      var whole := s[..i];
      var frac := if i < |s| then s[i + 1..] else "";
      Rat(DecimalValue(whole) * Pow10(|frac|) + DecimalValue(frac), Pow10(|frac|))
  }

  /** `parseInt(s, 16)`: leading whitespace, an optional sign, an optional
      `0x` prefix, then the longest run of hex digits; NaN when it is empty. */
  function ParseIntHex(s: string): (x: Channel)
    ensures x.Int? ==> exists i :: 0 <= i < |s| && IsHexDigit(s[i])
  {
    var t := TrimStart(s);
    var negative := |t| > 0 && t[0] == '-';
    var u := if |t| > 0 && (t[0] == '-' || t[0] == '+') then t[1..] else t;
    var w := if |u| >= 2 && u[0] == '0' && (u[1] == 'x' || u[1] == 'X') then u[2..] else u;
    var n := Span(w, IsHexDigit);
    if n == 0 then NotANumber
    else
      assert IsHexDigit(s[|s| - |w|]) by {
        assert w[0] == s[|s| - |w|];
      }
      var v: int := HexValue(w[..n]);
      Int(if negative then -v else v)
  }

  /** `s.substring(i, j)` for `i <= j`: both ends are clamped to the length. */
  function Substring(s: string, i: nat, j: nat): (r: string)
    requires i <= j
    ensures |r| <= j - i
  {
    var a := if i < |s| then i else |s|;
    var b := if j < |s| then j else |s|;
    s[a..b]
  }

  /** `s.replace("#", "")`: removes the first `#` only. */
  function RemoveFirstHash(s: string): (r: string)
    ensures '#' !in s ==> r == s
    ensures |s| > 0 && s[0] == '#' ==> r == s[1..]
  {
    if s == [] then []
    else if s[0] == '#' then s[1..]
    else [s[0]] + RemoveFirstHash(s[1..])
  }

  // ---------------------------------------------------------------------
  // The textual formats

  /** A piece of the patterns of `convertColor`. Every run piece (digits,
      whitespace, the alpha's `[\d.]+`) is followed in each pattern by a
      character outside its class, so taking the longest run finds the
      only match a backtracking regular expression engine can find. */
  datatype Piece =
    | Lit(text: string)   // the literal text
    | OptChar(c: char)    // `c?`
    | Digits              // `(\d+)`, captured
    | Spaces              // `\s*`
    | OptAlpha            // `(?:,\s*([\d.]+))?`, captured

  /** The number of `(\d+)` groups in `ps[k..]`. */
  function DigitPieces(ps: seq<Piece>, k: nat): nat
    decreases |ps| - k
  {
    if k >= |ps| then 0 else (if ps[k] == Digits then 1 else 0) + DigitPieces(ps, k + 1)
  }

  predicate IsDecimalChar(c: char) { IsDigit(c) || c == '.' }

  /** Anchored match of `ps` against the whole of `s`: the values of the
      `(\d+)` groups in order, and the text of the alpha group ("" when it
      did not take part). */
  function Match(ps: seq<Piece>, k: nat, s: string): (m: Option<(seq<nat>, string)>)
    ensures m.Some? ==> |m.value.0| == DigitPieces(ps, k)
    ensures m.Some? ==> forall i :: 0 <= i < |m.value.1| ==> IsDecimalChar(m.value.1[i])
    decreases |ps| - k
  {
    if k >= |ps| then (if s == [] then Some(([], "")) else None)
    else match ps[k]
      case Lit(t) =>
        if |t| <= |s| && s[..|t|] == t then Match(ps, k + 1, s[|t|..]) else None
      case OptChar(c) =>
        var with := if |s| > 0 && s[0] == c then Match(ps, k + 1, s[1..]) else None;
        if with.Some? then with else Match(ps, k + 1, s)
      case Digits =>
        var n := Span(s, IsDigit);
        if n == 0 then None
        else (match Match(ps, k + 1, s[n..])
          case None => None
          case Some(rest) => Some(([DecimalValue(s[..n])] + rest.0, rest.1)))
      case Spaces =>
        Match(ps, k + 1, s[Span(s, IsSpace)..])
      case OptAlpha =>
        var with :=
          if |s| > 0 && s[0] == ',' then
            var t := s[1..][Span(s[1..], IsSpace)..];
            var n := Span(t, IsDecimalChar);
            if n == 0 then None
            else (match Match(ps, k + 1, t[n..])
              case None => None
              case Some(rest) => Some((rest.0, t[..n])))
          else None;
        if with.Some? then with else Match(ps, k + 1, s)
  }

  /** `/^rgba?\((\d+),\s*(\d+),\s*(\d+)(?:,\s*([\d.]+))?\)$/` */
  const RgbPattern: seq<Piece> :=
    [Lit("rgb"), OptChar('a'), Lit("("), Digits, Lit(","), Spaces, Digits, Lit(","), Spaces, Digits,
     OptAlpha, Lit(")")]

  /** `/^hsla?\((\d+),\s*(\d+)%,\s*(\d+)%(?:,\s*([\d.]+))?\)$/` */
  const HslPattern: seq<Piece> :=
    [Lit("hsl"), OptChar('a'), Lit("("), Digits, Lit(","), Spaces, Digits, Lit("%,"), Spaces, Digits,
     Lit("%"), OptAlpha, Lit(")")]

  /** `/^cmyk\((\d+)%,\s*(\d+)%,\s*(\d+)%,\s*(\d+)%\)$/` */
  const CmykPattern: seq<Piece> :=
    [Lit("cmyk("), Digits, Lit("%,"), Spaces, Digits, Lit("%,"), Spaces, Digits, Lit("%,"), Spaces,
     Digits, Lit("%)")]

  // ---------------------------------------------------------------------
  // Parsing

  /** The hex branch: the first `#` is dropped, and the channels are
      `parseInt` of characters 0–2, 2–4 and 4–6; with exactly 8 characters
      the last two, divided by 255, replace the alpha. */
  function ParseHex(input: string, alpha: Num): (c: Rgba)
    ensures |RemoveFirstHash(input)| != 8 ==> c.a == alpha
  {
    var hex := RemoveFirstHash(input);
    var a :=
      if |hex| == 8 then
        (match ParseIntHex(Substring(hex, 6, 8))
          case NotANumber => NaN
          case Int(v) => Rat(v, 255))
      else alpha;
    Channels(ParseIntHex(Substring(hex, 0, 2)), ParseIntHex(Substring(hex, 2, 4)),
         ParseIntHex(Substring(hex, 4, 6)), a)
  }

  /** CMYK to one RGB channel: `Math.round(255 * (1 - x/100) * (1 - k/100))`. */
  function CmykChannel(x: nat, k: nat): int
  {
    Round(255 * (100 - x) * (100 - k), 10000)
  }

  /** The achromatic HSL case: `Math.round(l/100 * 255)`. */
  function Gray(l: nat): int
  {
    Round(255 * l, 100)
  }

  function ErrorOf(format: Format): string
  {
    match format
    case Hex => ""
    case Rgb => RgbError
    case Rgba => RgbError
    case Hsl => HslError
    case Hsla => HslError
    case Cmyk => CmykError
  }

  function PatternOf(format: Format): seq<Piece>
  {
    match format
    case Hex => []
    case Rgb => RgbPattern
    case Rgba => RgbPattern
    case Hsl => HslPattern
    case Hsla => HslPattern
    case Cmyk => CmykPattern
  }

  /** The parse branches of `convertColor`. `alpha` is the alpha slider's
      value, which only the hex branch without an alpha byte and the CMYK
      branch keep. `chromatic` stands for the HSL conversion when the
      saturation is not 0. */
  function Parse(input: string, format: Format, alpha: Num,
                 chromatic: (nat, nat, nat) -> (int, int, int)): (r: Result<Rgba, string>)
    ensures format == Hex ==> r == Ok(ParseHex(input, alpha))
  {
    match format
    case Hex => Ok(ParseHex(input, alpha))
    case Rgb => ParseRgb(input)
    case Rgba => ParseRgb(input)
    case Hsl => ParseHsl(input, chromatic)
    case Hsla => ParseHsl(input, chromatic)
    case Cmyk => ParseCmyk(input, alpha)
  }

  /** Only the textual formats fail: exactly when their pattern does not
      match, and with the format's own message. */
  lemma ParseFails(input: string, format: Format, alpha: Num, chromatic: (nat, nat, nat) -> (int, int, int))
    ensures format == Hex ==> Parse(input, format, alpha, chromatic).Ok?
    ensures format != Hex ==>
      (Parse(input, format, alpha, chromatic).Err? <==> Match(PatternOf(format), 0, input).None?)
    ensures Parse(input, format, alpha, chromatic).Err? ==>
      Parse(input, format, alpha, chromatic).error == ErrorOf(format)
  {
    var r := Parse(input, format, alpha, chromatic);
    match format {
      case Hex =>
      case Rgb => assert r == ParseRgb(input);
      case Rgba => assert r == ParseRgb(input);
      case Hsl => assert r == ParseHsl(input, chromatic);
      case Hsla => assert r == ParseHsl(input, chromatic);
      case Cmyk => assert r == ParseCmyk(input, alpha);
    }
  }

  // The number of `(\d+)` groups of each pattern.
  lemma RgbGroups()
    ensures DigitPieces(RgbPattern, 0) == 3
  {
  }

  lemma HslGroups()
    ensures DigitPieces(HslPattern, 0) == 3
  {
  }

  lemma CmykGroups()
    ensures DigitPieces(CmykPattern, 0) == 4
  {
  }

  function ParseCmyk(input: string, alpha: Num): (r: Result<Rgba, string>)
    ensures r.Err? <==> Match(CmykPattern, 0, input).None?
    ensures r.Err? ==> r.error == CmykError
  {
    CmykGroups();
    match Match(CmykPattern, 0, input)
    case None => Err(CmykError)
    case Some((ns, _)) =>
      var k := ns[3];
      Ok(Channels(Int(CmykChannel(ns[0], k)), Int(CmykChannel(ns[1], k)), Int(CmykChannel(ns[2], k)), alpha))
  }

  function ParseRgb(input: string): (r: Result<Rgba, string>)
    ensures r.Err? <==> Match(RgbPattern, 0, input).None?
    ensures r.Err? ==> r.error == RgbError
  {
    RgbGroups();
    match Match(RgbPattern, 0, input)
    case None => Err(RgbError)
    case Some((ns, a)) => Ok(Channels(Int(ns[0]), Int(ns[1]), Int(ns[2]), DecimalNumber(a)))
  }

  function ParseHsl(input: string, chromatic: (nat, nat, nat) -> (int, int, int)): (r: Result<Rgba, string>)
    ensures r.Err? <==> Match(HslPattern, 0, input).None?
    ensures r.Err? ==> r.error == HslError
  {
    HslGroups();
    match Match(HslPattern, 0, input)
    case None => Err(HslError)
    case Some((ns, a)) =>
      var h, s, l := ns[0], ns[1], ns[2];
      if s == 0 then Ok(Channels(Int(Gray(l)), Int(Gray(l)), Int(Gray(l)), DecimalNumber(a)))
      else
        var rgb := chromatic(h, s, l);
        Ok(Channels(Int(rgb.0), Int(rgb.1), Int(rgb.2), DecimalNumber(a)))
  }

  // ---------------------------------------------------------------------
  // Rendering

  /** `x.toString(16)` for a whole number. */
  function IntToHex(v: int): string
  {
    if v < 0 then "-" + NatToHex(-v) else NatToHex(v)
  }

  /** `x.toString(16).padStart(2, "0")` for a channel. */
  function ChannelHex(x: Channel): string
  {
    match x
    case NotANumber => "NaN"
    case Int(v) => PadStart2(IntToHex(v))
  }

  function ChannelText(x: Channel): string
  {
    match x
    case NotANumber => "NaN"
    case Int(v) => IntToString(v)
  }

  /** `a < 1`; false for NaN. */
  predicate BelowOne(a: Num)
  {
    a.Rat? && a.num < a.den
  }

  /** The hex output: `#`, two digits per channel, and the alpha byte
      `Math.round(a * 255)` only when `a < 1`. */
  function RenderHex(c: Rgba): string
  {
    "#" + ChannelHex(c.r) + ChannelHex(c.g) + ChannelHex(c.b)
    + (if BelowOne(c.a) then PadStart2(IntToHex(Round(c.a.num * 255, c.a.den))) else "")
  }

  /** The `rgb(r, g, b)` output. */
  function RenderRgb(c: Rgba): string
  {
    "rgb(" + ChannelText(c.r) + ", " + ChannelText(c.g) + ", " + ChannelText(c.b) + ")"
  }

  // ---------------------------------------------------------------------
  // Properties of parsing and rendering

  predicate IsByte(x: int) { 0 <= x < 256 }

  predicate IsLowerHex(c: char) { IsDigit(c) || ('a' <= c <= 'f') }

  lemma HexCharOfDigit(d: nat)
    requires d < 16
    ensures IsLowerHex(DigitChar(d)) && HexCharValue(DigitChar(d)) == d
  {
  }

  /** Two lowercase hex digits for a byte. */
  lemma ByteHexShape(x: int)
    requires IsByte(x)
    ensures |ChannelHex(Int(x))| == 2
    ensures IsLowerHex(ChannelHex(Int(x))[0]) && IsLowerHex(ChannelHex(Int(x))[1])
    ensures ChannelHex(Int(x)) == [DigitChar(x / 16), DigitChar(x % 16)]
  {
    if x < 16 {
      assert NatToHex(x) == [DigitChar(x)];
    } else {
      assert NatToHex(x / 16) == [DigitChar(x / 16)];
    }
    HexCharOfDigit(x / 16);
    HexCharOfDigit(x % 16);
  }

  /** `parseInt` reads the two digits of a byte back. */
  lemma ByteHex(x: int)
    requires IsByte(x)
    ensures |ChannelHex(Int(x))| == 2
    ensures ParseIntHex(ChannelHex(Int(x))) == Int(x)
  {
    ByteHexShape(x);
    HexCharOfDigit(x / 16);
    HexCharOfDigit(x % 16);
    TwoHexDigits(ChannelHex(Int(x)));
  }

  lemma TwoHexDigits(t: string)
    requires |t| == 2 && IsLowerHex(t[0]) && IsLowerHex(t[1])
    ensures ParseIntHex(t) == Int(16 * HexCharValue(t[0]) + HexCharValue(t[1]))
  {
    assert TrimStart(t) == t;
    assert Span(t, IsHexDigit) == 2 by {
      assert Span(t[1..], IsHexDigit) == 1 by {
        assert t[1..][1..] == [];
      }
    }
    assert t[..2] == t;
    assert HexValue(t[..1]) == HexCharValue(t[0]) by {
      assert t[..1][..0] == [];
    }
    assert t[..2][..1] == t[..1];
  }

  /** For whole channels in 0..255 and an alpha of at least 1 (or NaN), the
      hex output is `#` and six lowercase hex digits. */
  lemma RenderHexShape(r: int, g: int, b: int, a: Num)
    requires IsByte(r) && IsByte(g) && IsByte(b) && !BelowOne(a)
    ensures |RenderHex(Channels(Int(r), Int(g), Int(b), a))| == 7
    ensures RenderHex(Channels(Int(r), Int(g), Int(b), a))[0] == '#'
    ensures forall i :: 1 <= i < 7 ==> IsLowerHex(RenderHex(Channels(Int(r), Int(g), Int(b), a))[i])
  {
    ByteHexShape(r);
    ByteHexShape(g);
    ByteHexShape(b);
    var x, y, z := ChannelHex(Int(r)), ChannelHex(Int(g)), ChannelHex(Int(b));
    var s := RenderHex(Channels(Int(r), Int(g), Int(b), a));
    assert s == "#" + x + y + z;
    assert s[1] == x[0] && s[2] == x[1];
    assert s[3] == y[0] && s[4] == y[1];
    assert s[5] == z[0] && s[6] == z[1];
  }

  /** Hex parse of `#` followed by six hex digits. */
  lemma ParseSixDigits(u: string, v: string, w: string, alpha: Num)
    requires |u| == 2 && |v| == 2 && |w| == 2
    ensures ParseHex("#" + u + v + w, alpha)
      == Channels(ParseIntHex(u), ParseIntHex(v), ParseIntHex(w), alpha)
  {
    var hex := u + v + w;
    assert ("#" + u + v + w)[1..] == hex;
    assert Substring(hex, 0, 2) == u;
    assert Substring(hex, 2, 4) == v;
    assert Substring(hex, 4, 6) == w;
  }

  /** Hex parse of `#` followed by eight hex digits: the last byte over 255
      is the alpha. */
  lemma ParseEightDigits(u: string, v: string, w: string, z: string, alpha: Num)
    requires |u| == 2 && |v| == 2 && |w| == 2 && |z| == 2
    ensures ParseHex("#" + u + v + w + z, alpha)
      == Channels(ParseIntHex(u), ParseIntHex(v), ParseIntHex(w),
              match ParseIntHex(z) case NotANumber => NaN case Int(x) => Rat(x, 255))
  {
    var hex := u + v + w + z;
    assert ("#" + u + v + w + z)[1..] == hex;
    assert Substring(hex, 0, 2) == u;
    assert Substring(hex, 2, 4) == v;
    assert Substring(hex, 4, 6) == w;
    assert Substring(hex, 6, 8) == z;
  }

  /** Parsing the hex output of whole channels in 0..255 gives them back. */
  lemma HexRoundTrip(r: int, g: int, b: int, a: Num, alpha: Num)
    requires IsByte(r) && IsByte(g) && IsByte(b) && !BelowOne(a)
    ensures Parse(RenderHex(Channels(Int(r), Int(g), Int(b), a)), Hex, alpha, (h, s, l) => (0, 0, 0))
      == Ok(Channels(Int(r), Int(g), Int(b), alpha))
  {
    ByteHex(r);
    ByteHex(g);
    ByteHex(b);
    var x, y, z := ChannelHex(Int(r)), ChannelHex(Int(g)), ChannelHex(Int(b));
    var text := RenderHex(Channels(Int(r), Int(g), Int(b), a));
    assert text == "#" + x + y + z;
    ParseSixDigits(x, y, z, alpha);
  }

  /** An alpha byte x below 255 renders as two more digits, and parsing
      the eight digits gives the alpha back as x/255. */
  lemma HexAlphaRoundTrip(r: int, g: int, b: int, x: int, alpha: Num)
    requires IsByte(r) && IsByte(g) && IsByte(b) && 0 <= x < 255
    ensures Parse(RenderHex(Channels(Int(r), Int(g), Int(b), Rat(x, 255))), Hex, alpha, (h, s, l) => (0, 0, 0))
      == Ok(Channels(Int(r), Int(g), Int(b), Rat(x, 255)))
  {
    assert Round(x * 255, 255) == x;
    ByteHex(r);
    ByteHex(g);
    ByteHex(b);
    ByteHex(x);
    ParseEightDigits(ChannelHex(Int(r)), ChannelHex(Int(g)), ChannelHex(Int(b)), ChannelHex(Int(x)), alpha);
  }

  /** CMYK channels: within 0..255 for percentages up to 100, 0 when the
      key is 100, 255 when both percentages are 0. */
  lemma CmykChannelRange(x: nat, k: nat)
    requires x <= 100 && k <= 100
    ensures 0 <= CmykChannel(x, k) <= 255
    ensures k == 100 ==> CmykChannel(x, k) == 0
    ensures x == 0 && k == 0 ==> CmykChannel(x, k) == 255
  {
    var p := Percents(100 - x, 100 - k);
    assert 255 * (100 - x) * (100 - k) == 255 * p;
  }

  lemma Percents(a: int, b: int) returns (p: int)
    requires 0 <= a <= 100 && 0 <= b <= 100
    ensures p == a * b && 0 <= p <= 10000
    ensures b == 0 ==> p == 0
    ensures a == 100 && b == 100 ==> p == 10000
  {
    p := a * b;
    assert a * b <= 100 * b;
  }

  /** The achromatic HSL case: three equal channels, within 0..255 for a
      lightness up to 100%. */
  lemma GrayRange(input: string, chromatic: (nat, nat, nat) -> (int, int, int))
    requires Match(HslPattern, 0, input).Some? && Match(HslPattern, 0, input).value.0[1] == 0
    ensures var l := Match(HslPattern, 0, input).value.0[2];
      && ParseHsl(input, chromatic).Ok?
      && ParseHsl(input, chromatic).value.r == Int(Gray(l))
      && ParseHsl(input, chromatic).value.g == Int(Gray(l))
      && ParseHsl(input, chromatic).value.b == Int(Gray(l))
      && (l <= 100 ==> 0 <= Gray(l) <= 255)
  {
  }

  // ---------------------------------------------------------------------
  // Recent colours

  /** `prev.filter(c => c.value !== value)`. */
  function Without(prev: seq<RecentColor>, value: string): (r: seq<RecentColor>)
    ensures |r| <= |prev|
    ensures forall i :: 0 <= i < |r| ==> r[i].value != value && r[i] in prev
  {
    if prev == [] then []
    else if prev[0].value == value then Without(prev[1..], value)
    else [prev[0]] + Without(prev[1..], value)
  }

  /** The filter keeps the order of the entries: filtering a concatenation
      concatenates the filtered halves. */
  lemma {:induction false} WithoutConcat(a: seq<RecentColor>, b: seq<RecentColor>, value: string)
    ensures Without(a + b, value) == Without(a, value) + Without(b, value)
  {
    if a == [] {
      assert a + b == b;
    } else {
      var ab := a + b;
      calc {
        Without(ab, value);
        { assert ab[0] == a[0] && ab[1..] == a[1..] + b; }
        (if a[0].value == value then [] else [a[0]]) + Without(a[1..] + b, value);
        { WithoutConcat(a[1..], b, value); }
        (if a[0].value == value then [] else [a[0]]) + (Without(a[1..], value) + Without(b, value));
        Without(a, value) + Without(b, value);
      }
    }
  }

  /** The filter keeps every entry with a different value as many times as
      it occurs, and no entry with the given value. */
  lemma {:induction false} WithoutCounts(prev: seq<RecentColor>, value: string)
    ensures forall x :: multiset(Without(prev, value))[x] == if x.value != value then multiset(prev)[x] else 0
  {
    if prev != [] {
      assert prev == [prev[0]] + prev[1..];
      WithoutCounts(prev[1..], value);
    }
  }

  /** `addToRecent`: the new entry first, then the earlier entries with a
      different value in their order, at most 10 in all. */
  function Recent(prev: seq<RecentColor>, entry: RecentColor): (r: seq<RecentColor>)
    ensures 1 <= |r| <= 10 && r[0] == entry
    ensures |r| == if 1 + |Without(prev, entry.value)| < 10 then 1 + |Without(prev, entry.value)| else 10
    ensures forall i :: 1 <= i < |r| ==> r[i].value != entry.value && r[i] in prev
    ensures r[1..] == Without(prev, entry.value)[..|r| - 1]
  {
    var all := [entry] + Without(prev, entry.value);
    var r := if |all| <= 10 then all else all[..10];
    assert r[1..] == Without(prev, entry.value)[..|r| - 1];
    r
  }

  ghost predicate DistinctValues(xs: seq<RecentColor>)
  {
    forall i, j :: 0 <= i < j < |xs| ==> xs[i].value != xs[j].value
  }

  lemma {:induction false} WithoutDistinct(prev: seq<RecentColor>, value: string)
    requires DistinctValues(prev)
    ensures DistinctValues(Without(prev, value))
    ensures forall i :: 0 <= i < |Without(prev, value)| ==> Without(prev, value)[i] in prev[1..] || Without(prev, value)[i] == prev[0]
  {
    if prev != [] {
      WithoutDistinct(prev[1..], value);
      var w := Without(prev[1..], value);
      if prev[0].value != value {
        forall j | 0 <= j < |w| ensures w[j].value != prev[0].value {
          var k :| 0 <= k < |prev[1..]| && prev[1..][k] == w[j];
          assert prev[k + 1] == w[j];
        }
      }
    }
  }

  /** The recent list never holds two entries with the same value. */
  lemma RecentDistinct(prev: seq<RecentColor>, entry: RecentColor)
    requires DistinctValues(prev)
    ensures DistinctValues(Recent(prev, entry))
  {
    WithoutDistinct(prev, entry.value);
    var w := Without(prev, entry.value);
    var r := Recent(prev, entry);
    forall i, j | 0 <= i < j < |r| ensures r[i].value != r[j].value {
      if i > 0 {
        assert r[i] == w[i - 1] && r[j] == w[j - 1];
      }
    }
  }

  /** Adding the colour that is already first changes nothing but the cap. */
  lemma RecentRepeat(prev: seq<RecentColor>, entry: RecentColor)
    requires DistinctValues(prev) && |prev| <= 10 && prev != [] && prev[0] == entry
    ensures Recent(prev, entry) == prev
  {
    WithoutAbsent(prev[1..], entry.value);
  }

  lemma {:induction false} WithoutAbsent(prev: seq<RecentColor>, value: string)
    requires forall i :: 0 <= i < |prev| ==> prev[i].value != value
    ensures Without(prev, value) == prev
  {
    if prev != [] {
      WithoutAbsent(prev[1..], value);
      assert [prev[0]] + prev[1..] == prev;
    }
  }

  // ---------------------------------------------------------------------
  // The converter

  datatype Outputs = Outputs(hex: string, rgb: string, rgba: string, hsl: string, hsla: string, cmyk: string)

  const NoOutputs: Outputs := Outputs("", "", "", "", "", "")

  /** The floating-point outputs (rgba's alpha text, HSL, HSLA, CMYK). */
  datatype FloatOutputs = FloatOutputs(rgba: string, hsl: string, hsla: string, cmyk: string)

  /** The outputs of a successful conversion. */
  function OutputsOf(c: Rgba, floats: FloatOutputs): (o: Outputs)
    ensures o.hex == RenderHex(c) && o.rgb == RenderRgb(c)
  {
    Outputs(RenderHex(c), RenderRgb(c), floats.rgba, floats.hsl, floats.hsla, floats.cmyk)
  }

  class Converter {
    var input: string
    var selectedFormat: Format
    var alpha: Num
    var output: Outputs
    var error: string
    var recent: seq<RecentColor>

    constructor(saved: seq<RecentColor>)
      ensures input == "" && selectedFormat == Hex && alpha == Rat(1, 1)
      ensures output == NoOutputs && error == "" && recent == saved
    {
      input := "";
      selectedFormat := Hex;
      alpha := Rat(1, 1);
      output := NoOutputs;
      error := "";
      recent := saved;
    }

    /** `addToRecent`. */
    method AddToRecent(color: string, format: Format)
      modifies this
      ensures recent == Recent(old(recent), RecentColor(color, format))
      ensures input == old(input) && selectedFormat == old(selectedFormat) && alpha == old(alpha)
      ensures output == old(output) && error == old(error)
    {
      recent := Recent(recent, RecentColor(color, format));
    }

    /** `convertColor`: on success the outputs are rendered and the input
        joins the recent list; on a parse error the message is shown, all
        six outputs are cleared, and the recent list is left alone. */
    method ConvertColor(inputColor: string, inputFormat: Format,
                        chromatic: (nat, nat, nat) -> (int, int, int), floats: Rgba -> FloatOutputs)
      modifies this
      ensures input == old(input) && selectedFormat == old(selectedFormat) && alpha == old(alpha)
      ensures match Parse(inputColor, inputFormat, old(alpha), chromatic)
        case Ok(c) =>
          output == OutputsOf(c, floats(c)) && error == ""
          && recent == Recent(old(recent), RecentColor(inputColor, inputFormat))
        case Err(m) =>
          output == NoOutputs && error == m && recent == old(recent)
    {
      error := "";
      var parsed := Parse(inputColor, inputFormat, alpha, chromatic);
      match parsed {
        case Ok(c) =>
          output := OutputsOf(c, floats(c));
          AddToRecent(inputColor, inputFormat);
        case Err(m) =>
          error := m;
          output := NoOutputs;
      }
    }

    /** `handleInputChange`: a non-empty value is converted at once. */
    method HandleInputChange(value: string,
                             chromatic: (nat, nat, nat) -> (int, int, int), floats: Rgba -> FloatOutputs)
      modifies this
      ensures input == value && selectedFormat == old(selectedFormat) && alpha == old(alpha)
      ensures value == "" ==> output == old(output) && error == old(error) && recent == old(recent)
      ensures value != "" ==> match Parse(value, old(selectedFormat), old(alpha), chromatic)
        case Ok(c) => output == OutputsOf(c, floats(c)) && error == ""
          && recent == Recent(old(recent), RecentColor(value, old(selectedFormat)))
        case Err(m) => output == NoOutputs && error == m && recent == old(recent)
    {
      input := value;
      if value != "" {
        ConvertColor(value, selectedFormat, chromatic, floats);
      }
    }
  }
}
