/**
 * The `formatText` table of string-to-string tools: markup wrappers, case
 * conversion, whitespace and line tools, cleaning, HTML entities and the
 * counters. Base64 lives in module Base64 and percent-encoding in module
 * UrlCodec; both are entries of the same table.
 */
module TextFormatter {
  import opened Chars
  import opened Strings
  import opened Wrappers

  // ---------------------------------------------------------------------
  // Markup wrappers

  /** `s` with the delimiters `pre` and `post` removed, if it has them. */
  function Unwrap(pre: string, post: string, s: string): Option<string>
  {
    if |s| >= |pre| + |post| && s[..|pre|] == pre && s[|s| - |post|..] == post
    then Some(s[|pre|..|s| - |post|])
    else None
  }

  /** The delimiters, then the text unchanged. */
  function Wrap(pre: string, text: string, post: string): (r: string)
    ensures |r| == |pre| + |text| + |post|
    ensures Unwrap(pre, post, r) == Some(text)
  {
    var r := pre + text + post;
    assert r[..|pre|] == pre && r[|r| - |post|..] == post && r[|pre|..|r| - |post|] == text;
    r
  }

  function Bold(text: string): (r: string)
    ensures Unwrap("**", "**", r) == Some(text)
  {
    Wrap("**", text, "**")
  }

  function Italic(text: string): (r: string)
    ensures Unwrap("*", "*", r) == Some(text)
  {
    Wrap("*", text, "*")
  }

  function Underline(text: string): (r: string)
    ensures Unwrap("__", "__", r) == Some(text)
  {
    Wrap("__", text, "__")
  }

  function Strikethrough(text: string): (r: string)
    ensures Unwrap("~~", "~~", r) == Some(text)
  {
    Wrap("~~", text, "~~")
  }

  function Subscript(text: string): (r: string)
    ensures Unwrap("<sub>", "</sub>", r) == Some(text)
  {
    Wrap("<sub>", text, "</sub>")
  }

  function Superscript(text: string): (r: string)
    ensures Unwrap("<sup>", "</sup>", r) == Some(text)
  {
    Wrap("<sup>", text, "</sup>")
  }

  // ---------------------------------------------------------------------
  // Case conversion

  /** `toUpperCase()`: no lowercase letter is left and only case changes. */
  function Uppercase(text: string): (r: string)
    ensures |r| == |text|
    ensures forall i :: 0 <= i < |r| ==> !IsLower(r[i]) && ToLower(r[i]) == ToLower(text[i])
  {
    Upper(text)
  }

  /** `toLowerCase()`: no uppercase letter is left and only case changes. */
  function Lowercase(text: string): (r: string)
    ensures |r| == |text|
    ensures forall i :: 0 <= i < |r| ==> !IsUpper(r[i]) && ToUpper(r[i]) == ToUpper(text[i])
  {
    Lower(text)
  }

  /** `toggle`: even positions lowercased, odd positions uppercased. */
  function Toggle(text: string): (r: string)
    ensures |r| == |text|
    ensures forall i :: 0 <= i < |r| && i % 2 == 0 ==> !IsUpper(r[i]) && ToUpper(r[i]) == ToUpper(text[i])
    ensures forall i :: 0 <= i < |r| && i % 2 == 1 ==> !IsLower(r[i]) && ToLower(r[i]) == ToLower(text[i])
  {
    seq(|text|, i requires 0 <= i < |text| => if i % 2 == 0 then ToLower(text[i]) else ToUpper(text[i]))
  }

  /** The separator class `[-_\s]` of `capitalize`. */
  predicate IsCapSep(c: char) { c == '-' || c == '_' || IsSpace(c) }

  /** Number of leading characters of `t` that satisfy `p`. */
  function Leading(t: string, p: char -> bool): (n: nat)
    ensures n <= |t|
    ensures forall i :: 0 <= i < n ==> p(t[i])
    ensures n < |t| ==> !p(t[n])
  {
    if t != [] && p(t[0]) then 1 + Leading(t[1..], p) else 0
  }

  /** Backtracking of `[-_\s]+(.)` from a separator run of length `j`. */
  function Backtrack(t: string, j: nat): (m: Option<(nat, char)>)
    requires 1 <= j <= |t|
    ensures m.Some? ==> 2 <= m.value.0 <= |t| && m.value.1 == t[m.value.0 - 1]
    decreases j
  {
    if j < |t| && !IsLineTerminator(t[j]) then Some((j + 1, t[j]))
    else if j > 1 then Backtrack(t, j - 1)
    else None
  }

  /** The match of `(?:^|[-_\s]+)(.)` at the head of `t` (`atStart`: at index 0
      of the input): its length and the captured character. */
  function CapMatch(t: string, atStart: bool): (m: Option<(nat, char)>)
    ensures m.Some? ==> 1 <= m.value.0 <= |t|
  {
    if atStart && t != [] && !IsLineTerminator(t[0]) then Some((1, t[0]))
    else if t != [] && IsCapSep(t[0]) then Backtrack(t, Leading(t, IsCapSep))
    else None
  }

  /** `replace(/(?:^|[-_\s]+)(.)/g, (_, chr) => chr.toUpperCase())` on `t`. */
  function CapFrom(t: string, atStart: bool): string
    decreases |t|
  {
    if t == [] then []
    else match CapMatch(t, atStart)
      case Some((n, c)) => [ToUpper(c)] + CapFrom(t[n..], false)
      case None => [t[0]] + CapFrom(t[1..], false)
  }

  /** `capitalize`: lowercases, then every separator run `[-_\s]+` and the
      character after it become that character uppercased. */
  function Capitalize(text: string): string
  {
    CapFrom(Lower(text), true)
  }

  /** `w` with its first character uppercased. */
  function UpperFirst(w: string): string
  {
    if w == [] then [] else [ToUpper(w[0])] + w[1..]
  }

  /** A word `capitalize` treats as one piece: no separator, no line terminator. */
  predicate IsPlainWord(w: string)
  {
    w != [] && forall i :: 0 <= i < |w| ==> !IsCapSep(w[i]) && !IsLineTerminator(w[i])
  }

  /** Every word lowercased. */
  function LowerAll(ws: seq<string>): (r: seq<string>)
    ensures |r| == |ws| && forall i :: 0 <= i < |ws| ==> r[i] == Lower(ws[i])
  {
    if ws == [] then [] else [Lower(ws[0])] + LowerAll(ws[1..])
  }

  /** The words glued together, each with its first character uppercased. */
  function PascalCase(ws: seq<string>): string
  {
    if ws == [] then "" else UpperFirst(ws[0]) + PascalCase(ws[1..])
  }

  lemma {:induction false} CapFromCopy(u: string, t: string)
    requires forall i :: 0 <= i < |u| ==> !IsCapSep(u[i])
    ensures CapFrom(u + t, false) == u + CapFrom(t, false)
  {
    if u == [] {
      assert u + t == t;
    } else {
      assert (u + t)[0] == u[0] && (u + t)[1..] == u[1..] + t;
      CapFromCopy(u[1..], t);
      assert [u[0]] + (u[1..] + CapFrom(t, false)) == u + CapFrom(t, false);
    }
  }

  lemma CapFromFirstWord(w: string, t: string)
    requires IsPlainWord(w)
    ensures CapFrom(w + t, true) == UpperFirst(w) + CapFrom(t, false)
  {
    var s := w + t;
    assert CapFrom(s, true) == [ToUpper(w[0])] + CapFrom(w[1..] + t, false) by {
      assert s[0] == w[0];
      CapFromHead(s, true, w[0]);
      assert s[1..] == w[1..] + t;
    }
    assert CapFrom(w[1..] + t, false) == w[1..] + CapFrom(t, false) by {
      CapFromCopy(w[1..], t);
    }
    assert UpperFirst(w) + CapFrom(t, false) == [ToUpper(w[0])] + (w[1..] + CapFrom(t, false));
  }

  // One step of `CapFrom` when the match is the first character alone.
  lemma CapFromHead(s: string, atStart: bool, c: char)
    requires s != [] && CapMatch(s, atStart) == Some((1, c))
    ensures CapFrom(s, atStart) == [ToUpper(c)] + CapFrom(s[1..], false)
  {
  }

  lemma CapFromSpaceWord(w: string, t: string)
    requires IsPlainWord(w)
    ensures CapFrom(" " + w + t, false) == UpperFirst(w) + CapFrom(t, false)
  {
    var s := " " + w + t;
    assert s[0] == ' ' && s[1] == w[0];
    assert Leading(s, IsCapSep) == 1 by {
      assert s[1..][0] == w[0];
    }
    assert CapMatch(s, false) == Some((2, w[0]));
    assert s[2..] == w[1..] + t;
    CapFromCopy(w[1..], t);
  }

  lemma LowerPlain(w: string)
    requires IsPlainWord(w)
    ensures IsPlainWord(Lower(w))
  {
    var l := Lower(w);
    forall i | 0 <= i < |l| ensures !IsCapSep(l[i]) && !IsLineTerminator(l[i]) {
      assert l[i] == ToLower(w[i]);
    }
  }

  /** The text after a word and its space when several words are joined. */
  function JoinTail(ws: seq<string>): string
    requires |ws| >= 1
  {
    if |ws| == 1 then "" else " " + Join(ws[1..], " ")
  }

  lemma {:induction false} CapFromJoinTail(ws: seq<string>)
    requires |ws| >= 1
    requires forall i :: 0 <= i < |ws| ==> IsPlainWord(ws[i])
    ensures CapFrom(" " + Join(ws, " "), false) == PascalCase(ws)
  {
    var tail := JoinTail(ws);
    assert Join(ws, " ") == ws[0] + tail;
    assert " " + Join(ws, " ") == " " + ws[0] + tail;
    CapFromSpaceWord(ws[0], tail);
    if |ws| > 1 {
      CapFromJoinTail(ws[1..]);
    }
  }

  lemma {:induction false} LowerJoin(ws: seq<string>)
    ensures Lower(Join(ws, " ")) == Join(LowerAll(ws), " ")
  {
    if |ws| > 1 {
      LowerJoin(ws[1..]);
      LowerConcat(ws[0] + " ", Join(ws[1..], " "));
      LowerConcat(ws[0], " ");
      assert LowerAll(ws)[1..] == LowerAll(ws[1..]);
    }
  }

  /**
   * `capitalize` of words joined by single spaces glues the words together,
   * each lowercased with its first letter uppercased (the separators are
   * part of the match and are dropped).
   */
  lemma {:induction false} CapitalizeWords(ws: seq<string>)
    requires |ws| >= 1
    requires forall i :: 0 <= i < |ws| ==> IsPlainWord(ws[i])
    ensures Capitalize(Join(ws, " ")) == PascalCase(LowerAll(ws))
  {
    var lw := LowerAll(ws);
    LowerJoin(ws);
    forall i | 0 <= i < |lw| ensures IsPlainWord(lw[i]) {
      LowerPlain(ws[i]);
    }
    var tail := JoinTail(lw);
    assert Join(lw, " ") == lw[0] + tail;
    CapFromFirstWord(lw[0], tail);
    if |lw| > 1 {
      CapFromJoinTail(lw[1..]);
    }
  }

  /** The match of `^\w|\.\s+\w` (flag m) at the head of `t`, `lineStart`
      telling whether `t` begins a line: the length of the match. */
  function SentenceMatch(t: string, lineStart: bool): (n: nat)
    ensures n <= |t|
  {
    if lineStart && t != [] && IsWordChar(t[0]) then 1
    else if |t| >= 2 && t[0] == '.' && IsSpace(t[1]) then
      var q := 1 + Leading(t[1..], IsSpace);
      if q < |t| && IsWordChar(t[q]) then q + 1 else 0
    else 0
  }

  /** `replace(/(^\w|\.\s+\w)/gm, m => m.toUpperCase())` on `t`. */
  function SentenceFrom(t: string, lineStart: bool): string
    decreases |t|
  {
    if t == [] then []
    else
      var n := SentenceMatch(t, lineStart);
      if n > 0 then Upper(t[..n]) + SentenceFrom(t[n..], false)
      else [t[0]] + SentenceFrom(t[1..], IsLineTerminator(t[0]))
  }

  /** `sentence`: lowercase, then uppercase the matches of `^\w|\.\s+\w`. */
  function Sentence(text: string): string
  {
    SentenceFrom(Lower(text), true)
  }

  /** Position `j` of `t` is preceded by a dot and one or more whitespace characters. */
  ghost predicate AfterDotSpaces(t: string, j: int)
    requires 0 <= j < |t|
  {
    exists k :: 0 <= k < j - 1 && t[k] == '.' && forall m :: k < m < j ==> IsSpace(t[m])
  }

  /** The characters `sentence` uppercases: a word character at the start of
      a line, or one after a dot and whitespace. */
  ghost predicate SentenceCapital(t: string, lineStart: bool, j: int)
    requires 0 <= j < |t|
  {
    IsWordChar(t[j]) && (if j == 0 then lineStart else IsLineTerminator(t[j - 1]) || AfterDotSpaces(t, j))
  }

  lemma AfterDotSpacesShift(t: string, n: nat, j: int)
    requires 1 <= n < j < |t|
    requires forall k :: 0 <= k < n && t[k] == '.' ==> exists m :: k < m < j && !IsSpace(t[m])
    ensures AfterDotSpaces(t, j) <==> AfterDotSpaces(t[n..], j - n)
  {
    if AfterDotSpaces(t, j) {
      var k :| 0 <= k < j - 1 && t[k] == '.' && forall m :: k < m < j ==> IsSpace(t[m]);
      assert k >= n;
      assert t[n..][k - n] == '.';
      forall m | k - n < m < j - n ensures IsSpace(t[n..][m]) {
        assert t[n..][m] == t[m + n];
      }
    }
    if AfterDotSpaces(t[n..], j - n) {
      var k :| 0 <= k < j - n - 1 && t[n..][k] == '.' && forall m :: k < m < j - n ==> IsSpace(t[n..][m]);
      assert t[k + n] == '.';
      forall m | k + n < m < j ensures IsSpace(t[m]) {
        assert t[m] == t[n..][m - n];
      }
    }
  }

  /** Inside a match only its last character, the word character, is a capital. */
  lemma CapitalInMatch(t: string, lineStart: bool, j: nat)
    requires 0 < SentenceMatch(t, lineStart) && j < SentenceMatch(t, lineStart)
    ensures SentenceCapital(t, lineStart, j) <==> j == SentenceMatch(t, lineStart) - 1
  {
    var q := SentenceMatch(t, lineStart) - 1;
    assert IsWordChar(t[q]);
    if 0 < j < q {
      assert IsSpace(t[j]);
    }
    if j == q && j > 0 {
      assert t[0] == '.' && forall m :: 0 < m < j ==> IsSpace(t[m]);
      assert AfterDotSpaces(t, j);
    }
  }

  /** After a match, capitals are those of the rest of the text. */
  lemma CapitalAfterMatch(t: string, lineStart: bool, j: nat)
    requires 0 < SentenceMatch(t, lineStart) <= j < |t|
    ensures SentenceCapital(t, lineStart, j) <==>
      SentenceCapital(t[SentenceMatch(t, lineStart)..], false, j - SentenceMatch(t, lineStart))
  {
    var n := SentenceMatch(t, lineStart);
    var q := n - 1;
    assert IsWordChar(t[q]) && !IsSpace(t[q]) && !IsLineTerminator(t[q]);
    if j == n {
      forall k | 0 <= k < j - 1 && t[k] == '.' ensures exists m :: k < m < j && !IsSpace(t[m]) {
        assert k < q < j && !IsSpace(t[q]);
      }
    } else {
      forall k | 0 <= k < n && t[k] == '.' ensures exists m :: k < m < j && !IsSpace(t[m]) {
        assert k < q && !IsSpace(t[q]);
      }
      AfterDotSpacesShift(t, n, j);
      assert t[j - 1] == t[n..][j - n - 1];
    }
    assert t[j] == t[n..][j - n];
  }

  /** Where nothing matches, the first character is no capital and the
      others are those of the rest, which starts a line after a terminator. */
  lemma CapitalAfterCopy(t: string, lineStart: bool, j: nat)
    requires SentenceMatch(t, lineStart) == 0 && j < |t|
    ensures j == 0 ==> !SentenceCapital(t, lineStart, j)
    ensures j > 0 ==> (SentenceCapital(t, lineStart, j) <==>
      SentenceCapital(t[1..], IsLineTerminator(t[0]), j - 1))
  {
    if j > 0 {
      assert t[j] == t[1..][j - 1];
      if j >= 2 {
        assert t[j - 1] == t[1..][j - 2];
        if IsWordChar(t[j]) {
          forall k | 0 <= k < 1 && t[k] == '.' ensures exists m :: k < m < j && !IsSpace(t[m]) {
            var l := Leading(t[1..], IsSpace);
            assert t[1..][j - 1] == t[j] && t[1..][0] == t[1];
            assert l < j - 1;
            assert t[1..][l] == t[1 + l];
          }
          AfterDotSpacesShift(t, 1, j);
        }
      }
    }
  }

  /** `sentence` uppercases exactly the characters `SentenceCapital` names. */
  lemma {:induction false} SentenceFromAt(t: string, lineStart: bool)
    ensures |SentenceFrom(t, lineStart)| == |t|
    ensures forall j :: 0 <= j < |t| ==>
      SentenceFrom(t, lineStart)[j] == if SentenceCapital(t, lineStart, j) then ToUpper(t[j]) else t[j]
    decreases |t|
  {
    if t != [] {
      var n := SentenceMatch(t, lineStart);
      if n > 0 {
        SentenceFromAt(t[n..], false);
        SentenceMatchStep(t, lineStart);
      } else {
        SentenceFromAt(t[1..], IsLineTerminator(t[0]));
        SentenceCopyStep(t, lineStart);
      }
    }
  }

  /** What `SentenceFromAt` states of `t`. */
  ghost predicate CapitalsAt(t: string, lineStart: bool)
  {
    && |SentenceFrom(t, lineStart)| == |t|
    && forall j :: 0 <= j < |t| ==>
         SentenceFrom(t, lineStart)[j] == if SentenceCapital(t, lineStart, j) then ToUpper(t[j]) else t[j]
  }

  lemma SentenceMatchStep(t: string, lineStart: bool)
    requires t != [] && SentenceMatch(t, lineStart) > 0
    requires CapitalsAt(t[SentenceMatch(t, lineStart)..], false)
    ensures CapitalsAt(t, lineStart)
  {
    var n := SentenceMatch(t, lineStart);
    var r := SentenceFrom(t, lineStart);
    var rest := t[n..];
    assert r == Upper(t[..n]) + SentenceFrom(rest, false);
    forall j | 0 <= j < |t|
      ensures r[j] == if SentenceCapital(t, lineStart, j) then ToUpper(t[j]) else t[j]
    {
      if j < n {
        InMatchChar(t, lineStart, j);
      } else {
        AfterMatchChar(t, lineStart, j);
      }
    }
  }

  lemma AfterMatchChar(t: string, lineStart: bool, j: nat)
    requires 0 < SentenceMatch(t, lineStart) <= j < |t|
    requires CapitalsAt(t[SentenceMatch(t, lineStart)..], false)
    ensures |SentenceFrom(t, lineStart)| == |t|
    ensures SentenceFrom(t, lineStart)[j] == if SentenceCapital(t, lineStart, j) then ToUpper(t[j]) else t[j]
  {
    var n := SentenceMatch(t, lineStart);
    var rest := t[n..];
    var tail := SentenceFrom(rest, false);
    assert SentenceFrom(t, lineStart) == Upper(t[..n]) + tail;
    assert SentenceFrom(t, lineStart)[j] == tail[j - n] by {
      assert |Upper(t[..n])| == n;
    }
    assert tail[j - n] == if SentenceCapital(rest, false, j - n) then ToUpper(t[j]) else t[j] by {
      CapitalsAtElem(rest, false, j - n);
      assert rest[j - n] == t[j];
    }
    CapitalAfterMatch(t, lineStart, j);
  }

  lemma CapitalsAtElem(t: string, lineStart: bool, i: nat)
    requires CapitalsAt(t, lineStart) && i < |t|
    ensures SentenceFrom(t, lineStart)[i] == if SentenceCapital(t, lineStart, i) then ToUpper(t[i]) else t[i]
  {
  }

  /** Inside the match every character is uppercased, and only the last
      one is a word character. */
  lemma InMatchChar(t: string, lineStart: bool, j: nat)
    requires t != [] && j < SentenceMatch(t, lineStart)
    ensures ToUpper(t[j]) == if SentenceCapital(t, lineStart, j) then ToUpper(t[j]) else t[j]
  {
    CapitalInMatch(t, lineStart, j);
    if j < SentenceMatch(t, lineStart) - 1 {
      assert !IsWordChar(t[j]) && !IsLower(t[j]);
    }
  }

  lemma SentenceCopyStep(t: string, lineStart: bool)
    requires t != [] && SentenceMatch(t, lineStart) == 0
    requires CapitalsAt(t[1..], IsLineTerminator(t[0]))
    ensures CapitalsAt(t, lineStart)
  {
    var r := SentenceFrom(t, lineStart);
    assert r == [t[0]] + SentenceFrom(t[1..], IsLineTerminator(t[0]));
    forall j | 0 <= j < |t|
      ensures r[j] == if SentenceCapital(t, lineStart, j) then ToUpper(t[j]) else t[j]
    {
      CopyChar(t, lineStart, j);
    }
  }

  lemma CopyChar(t: string, lineStart: bool, j: nat)
    requires t != [] && SentenceMatch(t, lineStart) == 0 && j < |t|
    requires CapitalsAt(t[1..], IsLineTerminator(t[0]))
    ensures |SentenceFrom(t, lineStart)| == |t|
    ensures SentenceFrom(t, lineStart)[j] == if SentenceCapital(t, lineStart, j) then ToUpper(t[j]) else t[j]
  {
    var ls := IsLineTerminator(t[0]);
    var r := SentenceFrom(t, lineStart);
    assert r == [t[0]] + SentenceFrom(t[1..], ls);
    CapitalAfterCopy(t, lineStart, j);
    if j > 0 {
      assert r[j] == SentenceFrom(t[1..], ls)[j - 1];
      assert t[1..][j - 1] == t[j];
    }
  }

  /** `sentence` keeps the length and uppercases exactly the word characters
      that start a line or follow a dot and whitespace, lowercasing the rest. */
  lemma SentenceCapitals(text: string)
    ensures |Sentence(text)| == |text|
    ensures forall j :: 0 <= j < |text| ==>
      Sentence(text)[j] == if SentenceCapital(Lower(text), true, j) then ToUpper(text[j]) else ToLower(text[j])
  {
    SentenceFromAt(Lower(text), true);
  }

  // ---------------------------------------------------------------------
  // Whitespace management

  /** `replace(/[class]+/g, r)`: every maximal run becomes `r`. */
  function ReplaceRuns(s: string, sep: char -> bool, r: string): (t: string)
    ensures s != [] && !sep(s[0]) ==> t != [] && t[0] == s[0]
    decreases |s|
  {
    if s == [] then []
    else if sep(s[0]) then r + ReplaceRuns(DropRun(s[1..], sep), sep, r)
    else [s[0]] + ReplaceRuns(s[1..], sep, r)
  }

  /** Replacing every run of the class by `r` is splitting at the runs and
      joining with `r`. */
  lemma {:induction false} ReplaceRunsSplit(s: string, sep: char -> bool, r: string)
    ensures ReplaceRuns(s, sep, r) == Join(SplitRuns(s, sep), r)
    decreases |s|
  {
    if s != [] {
      if sep(s[0]) {
        var t := DropRun(s[1..], sep);
        var rest := SplitRuns(t, sep);
        calc {
          ReplaceRuns(s, sep, r);
          r + ReplaceRuns(t, sep, r);
          { ReplaceRunsSplit(t, sep, r); }
          r + Join(rest, r);
          { assert ([""] + rest)[1..] == rest; }
          Join([""] + rest, r);
          Join(SplitRuns(s, sep), r);
        }
      } else {
        var rest := SplitRuns(s[1..], sep);
        calc {
          ReplaceRuns(s, sep, r);
          [s[0]] + ReplaceRuns(s[1..], sep, r);
          { ReplaceRunsSplit(s[1..], sep, r); }
          [s[0]] + Join(rest, r);
          { JoinConsHead(s[0], rest, r); }
          Join([[s[0]] + rest[0]] + rest[1..], r);
          Join(SplitRuns(s, sep), r);
        }
      }
    }
  }

  /** `removeExtraSpaces`: `replace(/\s+/g, " ")`. */
  function RemoveExtraSpaces(text: string): string
  {
    ReplaceRuns(text, IsSpace, " ")
  }

  /** No whitespace but single spaces. */
  ghost predicate Collapsed(s: string)
  {
    && (forall i :: 0 <= i < |s| && IsSpace(s[i]) ==> s[i] == ' ')
    && (forall i :: 0 <= i < |s| - 1 ==> !(IsSpace(s[i]) && IsSpace(s[i + 1])))
  }

  /** After `removeExtraSpaces` the only whitespace is single spaces. */
  lemma {:induction false} RemoveExtraSpacesShape(text: string)
    ensures Collapsed(RemoveExtraSpaces(text))
    decreases |text|
  {
    if text != [] {
      var r := RemoveExtraSpaces(text);
      if IsSpace(text[0]) {
        var d := DropRun(text[1..], IsSpace);
        var x := RemoveExtraSpaces(d);
        RemoveExtraSpacesShape(d);
        assert r == " " + x;
        assert x == [] || !IsSpace(x[0]);
        forall i | 0 <= i < |r| - 1 ensures !(IsSpace(r[i]) && IsSpace(r[i + 1])) {
          assert r[i + 1] == x[i];
          if i > 0 { assert r[i] == x[i - 1]; }
        }
        forall i | 0 <= i < |r| && IsSpace(r[i]) ensures r[i] == ' ' {
          if i > 0 { assert r[i] == x[i - 1]; }
        }
      } else {
        var x := RemoveExtraSpaces(text[1..]);
        RemoveExtraSpacesShape(text[1..]);
        assert r == [text[0]] + x;
        forall i | 0 <= i < |r| - 1 ensures !(IsSpace(r[i]) && IsSpace(r[i + 1])) {
          assert r[i + 1] == x[i];
          if i > 0 { assert r[i] == x[i - 1]; }
        }
        forall i | 0 <= i < |r| && IsSpace(r[i]) ensures r[i] == ' ' {
          if i > 0 { assert r[i] == x[i - 1]; }
        }
      }
    }
  }

  /** `removeExtraSpaces` is idempotent. */
  lemma {:induction false} RemoveExtraSpacesIdempotent(text: string)
    ensures RemoveExtraSpaces(RemoveExtraSpaces(text)) == RemoveExtraSpaces(text)
  {
    RemoveExtraSpacesShape(text);
    CollapsedFixed(RemoveExtraSpaces(text));
  }

  lemma {:induction false} CollapsedFixed(s: string)
    requires Collapsed(s)
    ensures RemoveExtraSpaces(s) == s
  {
    if s != [] {
      assert Collapsed(s[1..]) by {
        forall i | 0 <= i < |s[1..]| - 1 ensures !(IsSpace(s[1..][i]) && IsSpace(s[1..][i + 1])) {
          assert s[1..][i] == s[i + 1] && s[1..][i + 1] == s[i + 2];
        }
      }
      CollapsedFixed(s[1..]);
      if IsSpace(s[0]) {
        assert DropRun(s[1..], IsSpace) == s[1..];
      }
    }
  }

  /** `removeExtraSpaces` leaves no tab. */
  lemma NoTabAfterRemoveExtraSpaces(text: string)
    ensures '\t' !in RemoveExtraSpaces(text)
  {
    RemoveExtraSpacesShape(text);
  }

  /** `trim`. */
  function TrimText(text: string): (r: string)
    ensures r == [] || (!IsSpace(r[0]) && !IsSpace(r[|r| - 1]))
    ensures Tokens(r, IsSpace) == Tokens(text, IsSpace)
  {
    TrimTokens(text);
    Trim(text)
  }

  /** `tabsToSpaces`: every tab becomes `spacesPerTab` spaces. */
  function TabsToSpaces(text: string, spacesPerTab: nat): (r: string)
    ensures |r| == |text| + Count(text, '\t') * (spacesPerTab - 1)
  {
    ReplaceCharLength(text, '\t', Repeat(" ", spacesPerTab));
    ReplaceChar(text, '\t', Repeat(" ", spacesPerTab))
  }

  /** The pattern `""` (spacesPerTab = 0) matches before every character and at the end. */
  function TabAtEveryGap(s: string): (r: string)
    ensures |r| == 2 * |s| + 1
  {
    if s == [] then "\t" else "\t" + [s[0]] + TabAtEveryGap(s[1..])
  }

  /** `spacesToTabs`: each run of `spacesPerTab` spaces, left to right, becomes a tab. */
  function SpacesToTabs(text: string, spacesPerTab: nat): string
    decreases |text|
  {
    if spacesPerTab == 0 then TabAtEveryGap(text)
    else if |text| >= spacesPerTab && text[..spacesPerTab] == Repeat(" ", spacesPerTab) then
      "\t" + SpacesToTabs(text[spacesPerTab..], spacesPerTab)
    else if text == [] then ""
    else [text[0]] + SpacesToTabs(text[1..], spacesPerTab)
  }

  /** On text without spaces, `spacesToTabs` undoes `tabsToSpaces`. */
  lemma {:induction false} SpacesToTabsUndoes(text: string, spacesPerTab: nat)
    requires spacesPerTab >= 1
    requires ' ' !in text
    ensures SpacesToTabs(TabsToSpaces(text, spacesPerTab), spacesPerTab) == text
  {
    if text != [] {
      var n := spacesPerTab;
      var sp := Repeat(" ", n);
      var t := TabsToSpaces(text, n);
      var rest := TabsToSpaces(text[1..], n);
      SpacesToTabsUndoes(text[1..], n);
      if text[0] == '\t' {
        assert t == sp + rest;
        assert t[..n] == sp && t[n..] == rest;
      } else {
        assert t == [text[0]] + rest;
        assert t[1..] == rest;
        assert t[0] != ' ';
        assert sp[0] == ' ';
      }
    }
  }

  // ---------------------------------------------------------------------
  // Line and paragraph tools

  predicate IsNewline(c: char) { c == '\n' }

  /** `addLineBreaks`: every line break is doubled, so the lines are the
      same and are joined by a blank line. */
  function AddLineBreaks(text: string): (r: string)
    ensures |r| == |text| + Count(text, '\n')
    ensures r == Join(Split(text, '\n'), "\n\n")
  {
    ReplaceCharLength(text, '\n', "\n\n");
    ReplaceCharSplit(text, '\n', "\n\n");
    ReplaceChar(text, '\n', "\n\n")
  }

  /** `removeLineBreaks`: every run of line breaks becomes one space, so the
      pieces between the runs are joined by single spaces. */
  function RemoveLineBreaks(text: string): (r: string)
    ensures '\n' !in r
    ensures r == Join(SplitRuns(text, IsNewline), " ")
  {
    NoNewlineAfterRuns(text);
    ReplaceRunsSplit(text, IsNewline, " ");
    ReplaceRuns(text, IsNewline, " ")
  }

  lemma {:induction false} NoNewlineAfterRuns(text: string)
    ensures '\n' !in ReplaceRuns(text, IsNewline, " ")
    decreases |text|
  {
    if text != [] {
      if IsNewline(text[0]) {
        NoNewlineAfterRuns(DropRun(text[1..], IsNewline));
      } else {
        NoNewlineAfterRuns(text[1..]);
      }
    }
  }

  /** Each line prefixed with its 1-based number, starting at `first`. */
  function NumberLines(lines: seq<string>, first: nat): (r: seq<string>)
    ensures |r| == |lines|
    ensures forall i :: 0 <= i < |r| ==> r[i] == NatToString(first + i) + ". " + lines[i]
  {
    if lines == [] then [] else [NatToString(first) + ". " + lines[0]] + NumberLines(lines[1..], first + 1)
  }

  /** `toNumberedList`: split on "\n", prefix line i with "{i+1}. ", join. */
  function ToNumberedList(text: string): string
  {
    Join(NumberLines(Split(text, '\n'), 1), "\n")
  }

  /** Each line prefixed with a bullet. */
  function BulletLines(lines: seq<string>): (r: seq<string>)
    ensures |r| == |lines|
    ensures forall i :: 0 <= i < |r| ==> r[i] == "• " + lines[i]
  {
    if lines == [] then [] else ["• " + lines[0]] + BulletLines(lines[1..])
  }

  /** `toBulletedList`: split on "\n", prefix each line with "• ", join. */
  function ToBulletedList(text: string): string
  {
    Join(BulletLines(Split(text, '\n')), "\n")
  }

  lemma DigitsNoNewline(n: nat)
    ensures '\n' !in NatToString(n)
  {
    var s := NatToString(n);
    assert forall i :: 0 <= i < |s| ==> IsDigit(s[i]);
  }

  /** The numbered list has the same number of lines, and line i is
      "{i+1}. " followed by line i of the input. */
  lemma NumberedListLines(text: string)
    ensures |Split(ToNumberedList(text), '\n')| == |Split(text, '\n')|
    ensures forall i :: 0 <= i < |Split(text, '\n')| ==>
      Split(ToNumberedList(text), '\n')[i] == NatToString(i + 1) + ". " + Split(text, '\n')[i]
  {
    var lines := Split(text, '\n');
    SplitPartsFree(text, '\n');
    var numbered := NumberLines(lines, 1);
    forall i | 0 <= i < |numbered| ensures '\n' !in numbered[i] {
      DigitsNoNewline(1 + i);
      assert numbered[i] == NatToString(1 + i) + (". " + lines[i]);
    }
    SplitJoin(numbered, '\n');
  }

  /** The bulleted list has the same number of lines, and line i is
      "• " followed by line i of the input. */
  lemma BulletedListLines(text: string)
    ensures |Split(ToBulletedList(text), '\n')| == |Split(text, '\n')|
    ensures forall i :: 0 <= i < |Split(text, '\n')| ==>
      Split(ToBulletedList(text), '\n')[i] == "• " + Split(text, '\n')[i]
  {
    var lines := Split(text, '\n');
    SplitPartsFree(text, '\n');
    var bulleted := BulletLines(lines);
    forall i | 0 <= i < |bulleted| ensures '\n' !in bulleted[i] {
      assert bulleted[i] == "• " + lines[i];
    }
    SplitJoin(bulleted, '\n');
  }

  // ---------------------------------------------------------------------
  // Text cleaning

  /** `removeSpecialChars`: keep only `\w` and `\s` characters, in order. */
  function RemoveSpecialChars(text: string): (r: string)
    ensures |r| <= |text|
    ensures forall i :: 0 <= i < |r| ==> IsWordChar(r[i]) || IsSpace(r[i])
    ensures forall c :: c in text && (IsWordChar(c) || IsSpace(c)) ==> c in r
    ensures forall c :: multiset(r)[c] == if IsWordChar(c) || IsSpace(c) then multiset(text)[c] else 0
  {
    if text == [] then ""
    else
      assert text == [text[0]] + text[1..];
      (if IsWordChar(text[0]) || IsSpace(text[0]) then [text[0]] else "") + RemoveSpecialChars(text[1..])
  }

  /** Index of the first `>` in `t`, if any. */
  function FindClose(t: string): (k: Option<nat>)
    ensures k.Some? ==> k.value < |t| && t[k.value] == '>' && '>' !in t[..k.value]
    ensures k.None? ==> '>' !in t
  {
    if t == [] then None
    else if t[0] == '>' then Some(0)
    else match FindClose(t[1..])
      case Some(k) => (assert t[..k + 1] == [t[0]] + t[1..][..k]; Some(k + 1))
      case None => None
  }

  /** `removeHtmlTags`: `replace(/<[^>]*>/g, "")`; a `<` with no `>` after it stays. */
  function RemoveHtmlTags(text: string): (r: string)
    ensures forall c :: c in r ==> c in text
    decreases |text|
  {
    if text == [] then ""
    else if text[0] == '<' && FindClose(text[1..]).Some? then
      RemoveHtmlTags(text[1..][FindClose(text[1..]).value + 1..])
    else [text[0]] + RemoveHtmlTags(text[1..])
  }

  /** No `<` is followed, anywhere later, by a `>`: nothing tag-like is left. */
  ghost predicate TagFree(s: string)
  {
    forall i, j :: 0 <= i < j < |s| && s[i] == '<' ==> s[j] != '>'
  }

  lemma {:induction false} RemoveHtmlTagsTagFree(text: string)
    ensures TagFree(RemoveHtmlTags(text))
    decreases |text|
  {
    if text != [] {
      if text[0] == '<' && FindClose(text[1..]).Some? {
        RemoveHtmlTagsTagFree(text[1..][FindClose(text[1..]).value + 1..]);
      } else {
        RemoveHtmlTagsTagFree(text[1..]);
        var r := RemoveHtmlTags(text);
        assert r[1..] == RemoveHtmlTags(text[1..]);
        if text[0] == '<' {
          assert '>' !in RemoveHtmlTags(text[1..]);
        }
        forall i, j | 0 <= i < j < |r| && r[i] == '<' ensures r[j] != '>' {
          if i > 0 {
            assert r[i] == r[1..][i - 1] && r[j] == r[1..][j - 1];
          } else {
            assert r[j] in RemoveHtmlTags(text[1..]) by { assert r[j] == r[1..][j - 1]; }
          }
        }
      }
    }
  }

  lemma {:induction false} TagFreeFixed(s: string)
    requires TagFree(s)
    ensures RemoveHtmlTags(s) == s
  {
    if s != [] {
      assert TagFree(s[1..]) by {
        forall i, j | 0 <= i < j < |s[1..]| && s[1..][i] == '<' ensures s[1..][j] != '>' {
          assert s[i + 1] == '<';
        }
      }
      TagFreeFixed(s[1..]);
      if s[0] == '<' {
        assert '>' !in s[1..] by {
          forall j | 0 <= j < |s[1..]| ensures s[1..][j] != '>' {
            assert s[1..][j] == s[j + 1];
          }
        }
      }
    }
  }

  /** `removeHtmlTags` is idempotent. */
  lemma RemoveHtmlTagsIdempotent(text: string)
    ensures RemoveHtmlTags(RemoveHtmlTags(text)) == RemoveHtmlTags(text)
  {
    RemoveHtmlTagsTagFree(text);
    TagFreeFixed(RemoveHtmlTags(text));
  }

  /** `removeDuplicateLines`: `[...new Set(text.split("\n"))].join("\n")`. */
  function RemoveDuplicateLines(text: string): string
  {
    Join(Dedupe(Split(text, '\n')), "\n")
  }

  /** The lines of the result are the distinct lines of the input, each once,
      in order of first occurrence. */
  lemma DuplicateLinesRemoved(text: string)
    ensures Split(RemoveDuplicateLines(text), '\n') == Dedupe(Split(text, '\n'))
    ensures Distinct(Split(RemoveDuplicateLines(text), '\n'))
    ensures forall i :: 0 <= i < |Split(RemoveDuplicateLines(text), '\n')| ==>
      Split(RemoveDuplicateLines(text), '\n')[i] in Split(text, '\n')
    ensures forall i :: 0 <= i < |Split(text, '\n')| ==>
      Split(text, '\n')[i] in Split(RemoveDuplicateLines(text), '\n')
    ensures forall i, j :: 0 <= i < j < |Split(RemoveDuplicateLines(text), '\n')| ==>
      FirstIndex(Split(text, '\n'), Split(RemoveDuplicateLines(text), '\n')[i])
      < FirstIndex(Split(text, '\n'), Split(RemoveDuplicateLines(text), '\n')[j])
  {
    var lines := Split(text, '\n');
    var d := Dedupe(lines);
    SplitPartsFree(text, '\n');
    assert lines[0] in d;
    forall i | 0 <= i < |d| ensures '\n' !in d[i] {
      var k :| 0 <= k < |lines| && lines[k] == d[i];
    }
    SplitJoin(d, '\n');
    DedupeDistinct(lines);
    DedupeOrder(lines);
  }

  /** Removing duplicate lines twice is the same as once. */
  lemma RemoveDuplicateLinesIdempotent(text: string)
    ensures RemoveDuplicateLines(RemoveDuplicateLines(text)) == RemoveDuplicateLines(text)
  {
    DuplicateLinesRemoved(text);
    DedupeIdempotent(Split(text, '\n'));
  }

  /** `removeDuplicateWords`: `[...new Set(text.split(/\s+/))].join(" ")`. */
  function RemoveDuplicateWords(text: string): string
  {
    Join(Dedupe(SplitRuns(text, IsSpace)), " ")
  }

  /** The words of the result, split back on single spaces, are the
      distinct whitespace-separated pieces of the input, in order of first
      occurrence. */
  lemma WordsDeduplicated(text: string)
    ensures Split(RemoveDuplicateWords(text), ' ') == Dedupe(SplitRuns(text, IsSpace))
    ensures Distinct(Split(RemoveDuplicateWords(text), ' '))
  {
    var parts := SplitRuns(text, IsSpace);
    var d := Dedupe(parts);
    SplitRunsFree(text, IsSpace);
    assert parts[0] in d;
    forall i | 0 <= i < |d| ensures ' ' !in d[i] {
      var k :| 0 <= k < |parts| && parts[k] == d[i];
      assert forall j :: 0 <= j < |parts[k]| ==> !IsSpace(parts[k][j]);
    }
    SplitJoin(d, ' ');
    DedupeDistinct(parts);
  }

  // ---------------------------------------------------------------------
  // HTML entities

  /** The entity `escapeHtml` writes for one character. */
  function EscapeChar(c: char): string
  {
    match c
    case '&' => "&amp;"
    case '<' => "&lt;"
    case '>' => "&gt;"
    case '"' => "&quot;"
    case '\'' => "&#39;"
    case _ => [c]
  }

  /** `escapeHtml`: each of `& < > " '` becomes its entity. */
  function EscapeHtml(text: string): (r: string)
    ensures forall c :: c in r ==> c != '<' && c != '>' && c != '"' && c != '\''
  {
    if text == [] then "" else EscapeChar(text[0]) + EscapeHtml(text[1..])
  }

  /** `unescapeHtml`: each of the five entities, left to right, becomes its character. */
  function UnescapeHtml(text: string): string
    decreases |text|
  {
    if |text| >= 5 && text[..5] == "&amp;" then "&" + UnescapeHtml(text[5..])
    else if |text| >= 4 && text[..4] == "&lt;" then "<" + UnescapeHtml(text[4..])
    else if |text| >= 4 && text[..4] == "&gt;" then ">" + UnescapeHtml(text[4..])
    else if |text| >= 6 && text[..6] == "&quot;" then "\"" + UnescapeHtml(text[6..])
    else if |text| >= 5 && text[..5] == "&#39;" then "'" + UnescapeHtml(text[5..])
    else if text == [] then ""
    else [text[0]] + UnescapeHtml(text[1..])
  }

  lemma NotPrefix(s: string, p: string, i: nat)
    requires i < |p| && i < |s| && s[i] != p[i]
    ensures |s| >= |p| ==> s[..|p|] != p
  {
    if |s| >= |p| {
      assert s[..|p|][i] == s[i];
    }
  }

  lemma UnescapeEscapeChar(c: char, t: string)
    ensures UnescapeHtml(EscapeChar(c) + t) == [c] + UnescapeHtml(t)
  {
    var e := EscapeChar(c);
    var s := e + t;
    assert s[..|e|] == e && s[|e|..] == t;
    assert s[0] == e[0];
    if |e| > 1 {
      assert s[1] == e[1];
    }
    if c == '&' {
    } else if c == '<' {
      NotPrefix(s, "&amp;", 1);
    } else if c == '>' {
      NotPrefix(s, "&amp;", 1);
      NotPrefix(s, "&lt;", 1);
    } else if c == '"' {
      NotPrefix(s, "&amp;", 1);
      NotPrefix(s, "&lt;", 1);
      NotPrefix(s, "&gt;", 1);
    } else if c == '\'' {
      NotPrefix(s, "&amp;", 1);
      NotPrefix(s, "&lt;", 1);
      NotPrefix(s, "&gt;", 1);
      NotPrefix(s, "&quot;", 1);
    } else {
      NotPrefix(s, "&amp;", 0);
      NotPrefix(s, "&lt;", 0);
      NotPrefix(s, "&gt;", 0);
      NotPrefix(s, "&quot;", 0);
      NotPrefix(s, "&#39;", 0);
      assert s[1..] == t;
    }
  }

  /** `unescapeHtml` undoes `escapeHtml`. */
  lemma {:induction false} UnescapeEscape(text: string)
    ensures UnescapeHtml(EscapeHtml(text)) == text
  {
    if text != [] {
      UnescapeEscapeChar(text[0], EscapeHtml(text[1..]));
      UnescapeEscape(text[1..]);
    }
  }

  // ---------------------------------------------------------------------
  // Text generation and counting

  const LoremParagraph: string :=
    "Lorem ipsum dolor sit amet, consectetur adipiscing elit. Sed do eiusmod tempor incididunt ut labore et dolore magna aliqua. Ut enim ad minim veniam, quis nostrud exercitation ullamco laboris nisi ut aliquip ex ea commodo consequat."

  /** `generateLoremIpsum(n)`: n copies of the fixed paragraph joined by a blank line. */
  function GenerateLoremIpsum(paragraphs: nat): (r: string)
    ensures paragraphs == 0 ==> r == ""
    ensures paragraphs >= 1 ==> |r| == paragraphs * |LoremParagraph| + 2 * (paragraphs - 1)
    ensures r == Join(seq(paragraphs, _ => LoremParagraph), "\n\n")
  {
    if paragraphs == 0 then ""
    else if paragraphs == 1 then LoremParagraph
    else
      assert seq(paragraphs, _ => LoremParagraph)[1..] == seq(paragraphs - 1, _ => LoremParagraph);
      LoremParagraph + "\n\n" + GenerateLoremIpsum(paragraphs - 1)
  }

  /** `countWords`: `text.trim().split(/\s+/).length`. */
  function CountWords(text: string): (n: nat)
    ensures n >= 1
  {
    |SplitRuns(Trim(text), IsSpace)|
  }

  /** `countCharacters`. */
  function CountCharacters(text: string): (n: nat)
    ensures n == |text|
  {
    |text|
  }

  /** `countLines`: `text.split("\n").length`, one more than the line breaks. */
  function CountLines(text: string): (n: nat)
    ensures n == Count(text, '\n') + 1
  {
    SplitCount(text, '\n');
    |Split(text, '\n')|
  }

  /** `countWords` is the number of maximal non-whitespace runs, except that
      blank text counts as one word. */
  lemma CountWordsRuns(text: string)
    ensures !HasNonSpace(text) ==> CountWords(text) == 1
    ensures HasNonSpace(text) ==> CountWords(text) == RunCount(text, IsSpace)
  {
    TrimEmpty(text);
    var t := Trim(text);
    if t != [] {
      SplitRunsTrimmed(t, IsSpace);
      SplitRunsTokens(t, IsSpace);
      TrimTokens(text);
      TokensCount(text, IsSpace);
    }
  }
}
