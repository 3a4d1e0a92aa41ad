/**
 * The letter profile widget: initials derived from a name, typed initials,
 * the name taken from a dropped CSV file, the download file name, and the
 * hand-built SVG document. The canvas drawing is not part of this model.
 */
module LetterProfile {
  import opened Wrappers
  import opened Chars
  import opened Strings
  import TextFormatter

  // ---------------------------------------------------------------------
  // generateInitials

  /** `parts.map(part => part[0]).join("")`: an empty part has no first
      character, and `join` writes the missing value as "". */
  function Heads(parts: seq<string>): (h: string)
    ensures |h| <= |parts|
    ensures (forall i :: 0 <= i < |parts| ==> parts[i] != []) ==>
      |h| == |parts| && forall i :: 0 <= i < |parts| ==> h[i] == parts[i][0]
  {
    if parts == [] then ""
    else
      var rest := Heads(parts[1..]);
      var h := (if parts[0] == [] then "" else [parts[0][0]]) + rest;
      assert parts[0] != [] ==> forall i :: 1 <= i < |h| ==> h[i] == rest[i - 1];
      h
  }

  /** `s.slice(0, 2)`. */
  function FirstTwo(s: string): (r: string)
    ensures |r| == if |s| < 2 then |s| else 2
    ensures r == s[..|r|]
  {
    if |s| < 2 then s else s[..2]
  }

  /** `generateInitials`: the first characters of the parts of the trimmed
      name split on `\s+`, uppercased, at most two of them. */
  function Initials(name: string): (r: string)
    ensures |r| <= 2
    ensures forall i :: 0 <= i < |r| ==> !IsLower(r[i])
  {
    FirstTwo(Upper(Heads(SplitRuns(Strings.Trim(name), IsSpace))))
  }

  /** The initials are the uppercased first characters of the first two
      maximal non-whitespace runs of the name; a blank name has none. */
  lemma InitialsOfRuns(name: string)
    ensures var ws := Tokens(name, IsSpace);
      && |Initials(name)| == (if |ws| < 2 then |ws| else 2)
      && forall i :: 0 <= i < |Initials(name)| ==> |ws[i]| > 0 && Initials(name)[i] == ToUpper(ws[i][0])
    ensures !HasNonSpace(name) ==> Initials(name) == ""
  {
    var t := Strings.Trim(name);
    TrimEmpty(name);
    TrimTokens(name);
    PartsOfTrimmed(t);
    var ws := Tokens(t, IsSpace);
    InitialsOfParts(ws);
    assert Initials(name) == FirstTwo(Upper(Heads(SplitRuns(t, IsSpace))));
    if t == [] {
      assert Initials(name) == "";
    } else {
      assert Initials(name) == FirstTwo(Upper(Heads(ws)));
    }
  }

  /** A trimmed name splits on `\s+` into exactly its tokens. */
  lemma PartsOfTrimmed(t: string)
    requires t == [] || (!IsSpace(t[0]) && !IsSpace(t[|t| - 1]))
    ensures t == [] ==> SplitRuns(t, IsSpace) == [""] && Tokens(t, IsSpace) == []
    ensures t != [] ==> SplitRuns(t, IsSpace) == Tokens(t, IsSpace)
    ensures forall i :: 0 <= i < |Tokens(t, IsSpace)| ==> Tokens(t, IsSpace)[i] != []
  {
    SplitRunsTokens(t, IsSpace);
    if t != [] {
      SplitRunsTrimmed(t, IsSpace);
    }
  }

  /** Initials of non-empty parts: the uppercased first characters of the
      first two. A name without parts splits to `[""]`, whose head is "". */
  lemma InitialsOfParts(ws: seq<string>)
    requires forall i :: 0 <= i < |ws| ==> ws[i] != []
    ensures ws != [] ==> var r := FirstTwo(Upper(Heads(ws)));
      && |r| == (if |ws| < 2 then |ws| else 2)
      && forall i :: 0 <= i < |r| ==> r[i] == ToUpper(ws[i][0])
    ensures FirstTwo(Upper(Heads([""]))) == ""
  {
    assert Heads([""]) == "";
  }

  /** The initials typed by hand (at most two characters), uppercased. */
  function TypedInitials(value: string): (r: string)
    requires |value| <= 2
    ensures |r| == |value|
    ensures forall i :: 0 <= i < |r| ==> !IsLower(r[i]) && ToLower(r[i]) == ToLower(value[i])
  {
    Upper(value)
  }

  // ---------------------------------------------------------------------
  // File name and CSV drop

  datatype ImageFormat = Png | Jpg | Svg

  function Extension(f: ImageFormat): string
  {
    match f
    case Png => "png"
    case Jpg => "jpg"
    case Svg => "svg"
  }

  /** `profile-${initials.toLowerCase()}.${format}`. */
  function FileName(initials: string, f: ImageFormat): string
  {
    "profile-" + Lower(initials) + "." + Extension(f)
  }

  /** The part of a download name between `profile-` and the extension. */
  function Stem(fileName: string, f: ImageFormat): string
    requires |fileName| >= 9 + |Extension(f)|
  {
    fileName[8..|fileName| - |Extension(f)| - 1]
  }

  /** The file name starts with `profile-`, ends with the extension, and
      its stem uppercased gives back initials that have no lowercase letter,
      as generated initials never do. */
  lemma FileNameRoundTrip(initials: string, f: ImageFormat)
    requires forall i :: 0 <= i < |initials| ==> !IsLower(initials[i])
    ensures var n := FileName(initials, f);
      && |n| == 9 + |initials| + |Extension(f)|
      && n[..8] == "profile-"
      && n[|n| - |Extension(f)| - 1..] == "." + Extension(f)
      && Upper(Stem(n, f)) == initials
  {
    var n := FileName(initials, f);
    var l := Lower(initials);
    assert Stem(n, f) == l;
    forall i | 0 <= i < |initials| ensures ToUpper(l[i]) == initials[i] { }
  }

  /** `text.split("\n")[0].trim()`: the name taken from a dropped CSV file. */
  function FirstLine(text: string): (name: string)
    ensures '\n' !in name
    ensures name == [] || (!IsSpace(name[0]) && !IsSpace(name[|name| - 1]))
  {
    SplitPartsFree(text, '\n');
    TrimInside(Split(text, '\n')[0]);
    Strings.Trim(Split(text, '\n')[0])
  }

  lemma TrimInside(s: string)
    ensures forall c :: c in Strings.Trim(s) ==> c in s
  {
    var u := TrimStart(s);
    assert u == s[|s| - |u|..];
    var t := Strings.Trim(s);
    assert t == u[..|t|];
  }

  /** The name is the first line, trimmed: a file that starts with a line
      `a` gives `a` trimmed whatever follows, and a file of one line gives
      that line trimmed. */
  lemma FirstLineOf(a: string, rest: string)
    requires '\n' !in a
    ensures FirstLine(a + "\n" + rest) == Strings.Trim(a)
    ensures FirstLine(a) == Strings.Trim(a)
  {
    SplitPrefix(a, "\n" + rest, '\n');
    assert a + "\n" + rest == a + ("\n" + rest);
    assert Split("\n" + rest, '\n')[0] == "";
    assert a + "" == a;
    SplitPrefix(a, "", '\n');
  }

  /** `handleDrop`: a dropped file that is not a CSV, or whose text is empty,
      changes nothing; otherwise the new full name is the trimmed first line
      and the initials are derived from it. */
  function Dropped(isCsv: bool, text: string): (r: Option<(string, string)>)
    ensures r.None? <==> !isCsv || text == ""
    ensures r.Some? ==> '\n' !in r.value.0 && r.value.1 == Initials(r.value.0)
    ensures r.Some? ==> r.value.0 == FirstLine(text)
  {
    if !isCsv || text == "" then None
    else
      var name := FirstLine(text);
      Some((name, Initials(name)))
  }

  // ---------------------------------------------------------------------
  // The SVG download

  datatype Shape = Circle | Square | Rounded

  /** The sizes offered by the size selector. */
  predicate IsImageSize(size: int) { size == 128 || size == 256 || size == 512 }

  /** `size / 2` and `size * fontSize` (fontSize is 0.5) as JavaScript prints
      them: an integer for the offered sizes. */
  function Half(size: int): string
    requires IsImageSize(size)
  {
    NatToString(size / 2)
  }

  /** `size * 0.1` as JavaScript prints it: the offered sizes are powers of
      two, so the product is the double nearest to size/10 and prints with
      one decimal. */
  function Tenth(size: int): string
    requires IsImageSize(size)
  {
    NatToString(size / 10) + "." + NatToString(size % 10)
  }

  /** The clip path element for the shape. */
  function ClipElement(shape: Shape, size: int): string
    requires IsImageSize(size)
  {
    var s := NatToString(size);
    match shape
    case Circle => "<circle cx=\"" + Half(size) + "\" cy=\"" + Half(size) + "\" r=\"" + Half(size) + "\"/>"
    case Rounded => "<rect x=\"0\" y=\"0\" width=\"" + s + "\" height=\"" + s + "\" rx=\"" + Tenth(size) + "\"/>"
    case Square => "<rect x=\"0\" y=\"0\" width=\"" + s + "\" height=\"" + s + "\"/>"
  }

  /** The SVG document up to the text content. */
  function SvgHead(size: int, shape: Shape, background: string, font: string, color: string): string
    requires IsImageSize(size)
  {
    var s := NatToString(size);
    "\n        <svg width=\"" + s + "\" height=\"" + s + "\" xmlns=\"http://www.w3.org/2000/svg\">"
    + "\n          <defs>\n            <clipPath id=\"shape\">\n              "
    + ClipElement(shape, size)
    + "\n            </clipPath>\n          </defs>"
    + "\n          <rect width=\"" + s + "\" height=\"" + s + "\" fill=\"" + background + "\" clip-path=\"url(#shape)\"/>"
    + "\n          <text\n            x=\"" + Half(size) + "\"\n            y=\"" + Half(size) + "\""
    + "\n            font-family=\"" + font + "\"\n            font-size=\"" + Half(size) + "\""
    + "\n            fill=\"" + color + "\"\n            text-anchor=\"middle\""
    + "\n            dominant-baseline=\"middle\"\n            font-weight=\"bold\"\n          >"
  }

  const SvgTail: string := "</text>\n        </svg>\n      "

  /** The SVG document exactly as the download writes it: the initials are
      pasted into the text element unescaped. */
  function SvgAsWritten(size: int, shape: Shape, background: string, font: string, color: string,
                        initials: string): string
    requires IsImageSize(size)
  {
    SvgHead(size, shape, background, font, color) + initials + SvgTail
  }

  /** A word with no whitespace in it. */
  predicate IsWord(w: string)
  {
    w != [] && forall i :: 0 <= i < |w| ==> !IsSpace(w[i])
  }

  /** A name such as "Tom & Jerry" gives initials ending in `&`, and the SVG
      as written then holds a bare `&` directly before `</text>`: not
      well-formed XML, so the downloaded file does not open as an image. */
  lemma SvgAsWrittenBreaks(first: string, last: string,
                           size: int, shape: Shape, background: string, font: string, color: string)
    requires IsWord(first) && IsWord(last) && IsImageSize(size)
    ensures Initials(first + " & " + last) == [ToUpper(first[0]), '&']
    ensures BareAmpBeforeTag(SvgAsWritten(size, shape, background, font, color, Initials(first + " & " + last)))
  {
    AmpersandInitials(first, last);
    BareAmpersand(SvgHead(size, shape, background, font, color), [ToUpper(first[0]), '&']);
  }

  lemma AmpersandInitials(first: string, last: string)
    requires IsWord(first) && IsWord(last)
    ensures Initials(first + " & " + last) == [ToUpper(first[0]), '&']
  {
    var name := first + " & " + last;
    InitialsOfRuns(name);
    AmpersandTokens(first, last);
    var r := Initials(name);
    assert |r| == 2;
  }

  /** Somewhere an `&` is directly followed by `<`: never well-formed XML. */
  ghost predicate BareAmpBeforeTag(d: string)
  {
    exists i :: 0 <= i < |d| - 1 && d[i] == '&' && d[i + 1] == '<'
  }

  /** Initials ending in `&` put a bare `&` right before the closing tag. */
  lemma BareAmpersand(head: string, initials: string)
    requires initials != [] && initials[|initials| - 1] == '&'
    ensures BareAmpBeforeTag(head + initials + SvgTail)
  {
    var d := head + initials + SvgTail;
    assert SvgTail[0] == '<';
    var i := |head| + |initials| - 1;
    assert d[i] == '&' && d[i + 1] == '<';
  }

  lemma AmpersandTokens(first: string, last: string)
    requires IsWord(first) && IsWord(last)
    ensures Tokens(first + " & " + last, IsSpace) == [first, "&", last]
  {
    var s3 := [' '] + last;
    var s2 := ['&'] + s3;
    var s1 := [' '] + s2;
    assert first + " & " + last == first + s1;
    assert last + "" == last;
    WordToken(last, "");
    SpaceToken(' ', last);
    WordToken("&", s3);
    SpaceToken(' ', s2);
    WordToken(first, s1);
  }

  /** A word followed by a separator (or nothing) is the next token. */
  lemma {:induction false} WordToken(a: string, rest: string)
    requires a != [] && forall i :: 0 <= i < |a| ==> !IsSpace(a[i])
    requires rest == [] || IsSpace(rest[0])
    ensures Tokens(a + rest, IsSpace) == [a] + Tokens(rest, IsSpace)
  {
    var s := a + rest;
    assert s[0] == a[0];
    assert DropRun(s, IsSpace) == s;
    TakeRunAppend(a, rest, IsSpace);
    TakeRunWhole(a);
    assert s[|a|..] == rest;
  }

  lemma {:induction false} TakeRunWhole(a: string)
    requires forall i :: 0 <= i < |a| ==> !IsSpace(a[i])
    ensures TakeRun(a, IsSpace) == a
  {
    if a != [] {
      TakeRunWhole(a[1..]);
      assert a == [a[0]] + a[1..];
    }
  }

  /** A leading separator adds no token. */
  lemma {:induction false} SpaceToken(c: char, rest: string)
    requires IsSpace(c)
    ensures Tokens([c] + rest, IsSpace) == Tokens(rest, IsSpace)
  {
    assert ([c] + rest)[1..] == rest;
    DropRunTwice([c] + rest, IsSpace);
    DropRunIdem(rest, IsSpace);
  }

  /** The SVG document with the initials escaped as XML character data. */
  function SvgDocument(size: int, shape: Shape, background: string, font: string, color: string,
                       initials: string): string
    requires IsImageSize(size)
  {
    SvgHead(size, shape, background, font, color) + TextFormatter.EscapeHtml(initials) + SvgTail
  }

  /** With escaping, the text content holds no `<`, so the first `<` after
      the head opens `</text>`, and unescaping the content gives the initials. */
  lemma SvgDocumentText(size: int, shape: Shape, background: string, font: string, color: string,
                        initials: string)
    requires IsImageSize(size)
    ensures var e := TextFormatter.EscapeHtml(initials);
      && SvgDocument(size, shape, background, font, color, initials) == SvgHead(size, shape, background, font, color) + e + SvgTail
      && '<' !in e
      && TextFormatter.UnescapeHtml(e) == initials
  {
    TextFormatter.UnescapeEscape(initials);
  }

  /** The clip element for each shape, read as numbers: a circle whose
      centre coordinates and radius are printed as the same numeral, worth
      size/2; a rounded square of side `size` whose corner radius prints as
      a numeral, a dot and one digit worth size/10; or the plain square of
      side `size`. */
  lemma SvgClip(size: int, shape: Shape)
    requires IsImageSize(size)
    ensures shape == Circle ==> exists h ::
      IsNumeral(h) && 2 * DecimalValue(h) == size
      && ClipElement(shape, size) == "<circle cx=\"" + h + "\" cy=\"" + h + "\" r=\"" + h + "\"/>"
    ensures shape == Rounded ==> exists w, whole, tenth ::
      IsNumeral(w) && DecimalValue(w) == size
      && IsNumeral(whole) && IsNumeral(tenth) && |tenth| == 1
      && 10 * DecimalValue(whole) + DecimalValue(tenth) == size
      && ClipElement(shape, size)
         == "<rect x=\"0\" y=\"0\" width=\"" + w + "\" height=\"" + w + "\" rx=\"" + whole + "." + tenth + "\"/>"
    ensures shape == Square ==> exists w ::
      IsNumeral(w) && DecimalValue(w) == size
      && ClipElement(shape, size) == "<rect x=\"0\" y=\"0\" width=\"" + w + "\" height=\"" + w + "\"/>"
  {
    match shape
    case Circle => ClipCircle(size);
    case Rounded => ClipRounded(size);
    case Square => ClipSquare(size);
  }

  lemma ClipCircle(size: int)
    requires IsImageSize(size)
    ensures exists h ::
      IsNumeral(h) && 2 * DecimalValue(h) == size
      && ClipElement(Circle, size) == "<circle cx=\"" + h + "\" cy=\"" + h + "\" r=\"" + h + "\"/>"
  {
    var h := NatToString(size / 2);
    DecimalValueOf(size / 2);
    assert ClipElement(Circle, size) == "<circle cx=\"" + h + "\" cy=\"" + h + "\" r=\"" + h + "\"/>";
  }

  lemma ClipRounded(size: int)
    requires IsImageSize(size)
    ensures exists w, whole, tenth ::
      IsNumeral(w) && DecimalValue(w) == size
      && IsNumeral(whole) && IsNumeral(tenth) && |tenth| == 1
      && 10 * DecimalValue(whole) + DecimalValue(tenth) == size
      && ClipElement(Rounded, size)
         == "<rect x=\"0\" y=\"0\" width=\"" + w + "\" height=\"" + w + "\" rx=\"" + whole + "." + tenth + "\"/>"
  {
    var w, whole, tenth := NatToString(size), NatToString(size / 10), NatToString(size % 10);
    DecimalValueOf(size);
    TenthDigits(size);
    assert ClipElement(Rounded, size)
      == "<rect x=\"0\" y=\"0\" width=\"" + w + "\" height=\"" + w + "\" rx=\"" + whole + "." + tenth + "\"/>";
  }

  /** `Tenth` prints a numeral, a dot and one digit that together denote size/10. */
  lemma TenthDigits(size: int)
    requires IsImageSize(size)
    ensures var whole, tenth := NatToString(size / 10), NatToString(size % 10);
      && Tenth(size) == whole + "." + tenth
      && IsNumeral(whole) && IsNumeral(tenth) && |tenth| == 1
      && 10 * DecimalValue(whole) + DecimalValue(tenth) == size
  {
    DecimalValueOf(size / 10);
    DecimalValueOf(size % 10);
  }



  lemma ClipSquare(size: int)
    requires IsImageSize(size)
    ensures exists w ::
      IsNumeral(w) && DecimalValue(w) == size
      && ClipElement(Square, size) == "<rect x=\"0\" y=\"0\" width=\"" + w + "\" height=\"" + w + "\"/>"
  {
    var w := NatToString(size);
    DecimalValueOf(size);
    assert ClipElement(Square, size) == "<rect x=\"0\" y=\"0\" width=\"" + w + "\" height=\"" + w + "\"/>";
  }


}
