/**
 * The case converter widget: the whitespace pipeline selected by a list of
 * options, the five case conversions applied after it, and the option
 * toggle. Case mapping is ASCII; `\s` and `\w` are the ECMAScript classes.
 */
module CaseConverter {
  import opened Chars
  import opened Strings
  import TextFormatter

  datatype WhitespaceOption = Trim | RemoveExtra | TabsToSpaces

  datatype CaseType = Proper | Sentence | UpperCase | LowerCase | Toggle

  // ---------------------------------------------------------------------
  // handleWhitespace

  /** `text.replace(/\t/g, "    ")`. */
  function ExpandTabs(text: string): (r: string)
    ensures '\t' !in r
    ensures text != [] && text[0] != '\t' ==> r != [] && r[0] == text[0]
    ensures text != [] && text[|text| - 1] != '\t' ==> r != [] && r[|r| - 1] == text[|text| - 1]
  {
    assert Repeat(" ", 4) == "    ";
    ExpandTabsShape(text);
    TextFormatter.TabsToSpaces(text, 4)
  }

  lemma {:induction false} ExpandTabsShape(text: string)
    ensures '\t' !in ReplaceChar(text, '\t', "    ")
    ensures text != [] && text[|text| - 1] != '\t' ==>
      var r := ReplaceChar(text, '\t', "    "); r != [] && r[|r| - 1] == text[|text| - 1]
  {
    if text != [] {
      ExpandTabsShape(text[1..]);
    }
  }

  /**
   * `handleWhitespace`: trim, then collapse `\s+` to one space, then expand
   * tabs to four spaces, each step only when its option is selected.
   */
  function HandleWhitespace(text: string, opts: seq<WhitespaceOption>): string
  {
    var t1 := if Trim in opts then Strings.Trim(text) else text;
    var t2 := if RemoveExtra in opts then TextFormatter.RemoveExtraSpaces(t1) else t1;
    if TabsToSpaces in opts then ExpandTabs(t2) else t2
  }

  /** What each selected option guarantees of the result: no whitespace at
      either end, only single spaces, no tab; nothing selected, no change. */
  lemma WhitespaceShape(text: string, opts: seq<WhitespaceOption>)
    ensures var w := HandleWhitespace(text, opts);
      && (Trim !in opts && RemoveExtra !in opts && TabsToSpaces !in opts ==> w == text)
      && (Trim in opts ==> w == [] || (!IsSpace(w[0]) && !IsSpace(w[|w| - 1])))
      && (RemoveExtra in opts ==> TextFormatter.Collapsed(w))
      && (TabsToSpaces in opts ==> '\t' !in w)
  {
    var t1 := if Trim in opts then Strings.Trim(text) else text;
    var t2 := if RemoveExtra in opts then TextFormatter.RemoveExtraSpaces(t1) else t1;
    var w := if TabsToSpaces in opts then ExpandTabs(t2) else t2;
    assert HandleWhitespace(text, opts) == w;
    if RemoveExtra in opts {
      CollapseStep(t1);
    }
    if Trim in opts {
      if RemoveExtra in opts {
        EdgesKept(t1);
      }
      EdgesStep(t2, TabsToSpaces in opts);
    }
  }

  /** After collapsing, there is no tab left for the tab step to expand. */
  lemma CollapseStep(t: string)
    ensures TextFormatter.Collapsed(TextFormatter.RemoveExtraSpaces(t))
    ensures '\t' !in TextFormatter.RemoveExtraSpaces(t)
    ensures ExpandTabs(TextFormatter.RemoveExtraSpaces(t)) == TextFormatter.RemoveExtraSpaces(t)
  {
    var u := TextFormatter.RemoveExtraSpaces(t);
    TextFormatter.RemoveExtraSpacesShape(t);
    TextFormatter.NoTabAfterRemoveExtraSpaces(t);
    ReplaceCharAbsent(u, '\t', "    ");
    assert Repeat(" ", 4) == "    ";
  }

  /** Expanding tabs keeps ends that are not whitespace. */
  lemma EdgesStep(t: string, tabs: bool)
    requires t == [] || (!IsSpace(t[0]) && !IsSpace(t[|t| - 1]))
    ensures var w := if tabs then ExpandTabs(t) else t;
      w == [] || (!IsSpace(w[0]) && !IsSpace(w[|w| - 1]))
  {
  }

  /** Collapsing whitespace keeps a first and last character that are not
      whitespace. */
  lemma EdgesKept(t: string)
    requires t == [] || (!IsSpace(t[0]) && !IsSpace(t[|t| - 1]))
    ensures var r := TextFormatter.RemoveExtraSpaces(t);
      r == [] || (!IsSpace(r[0]) && !IsSpace(r[|r| - 1]))
  {
    if t != [] {
      ReplaceRunsLast(t, IsSpace, " ");
    }
  }

  lemma {:induction false} ReplaceRunsLast(s: string, sep: char -> bool, r: string)
    requires s != [] && !sep(s[|s| - 1])
    ensures var t := TextFormatter.ReplaceRuns(s, sep, r); t != [] && t[|t| - 1] == s[|s| - 1]
    decreases |s|
  {
    if sep(s[0]) {
      var d := DropRun(s[1..], sep);
      DropRunSuffix(s[1..], sep);
      ReplaceRunsLast(d, sep, r);
    } else if |s| > 1 {
      ReplaceRunsLast(s[1..], sep, r);
    }
  }

  /** Removes every occurrence of `o` (`filter(opt => opt !== o)`). */
  function Without(opts: seq<WhitespaceOption>, o: WhitespaceOption): (r: seq<WhitespaceOption>)
    ensures forall x :: x in r <==> x in opts && x != o
    ensures |r| <= |opts|
  {
    if opts == [] then []
    else if opts[0] == o then Without(opts[1..], o)
    else [opts[0]] + Without(opts[1..], o)
  }

  /** With collapsing selected, the tab step never changes anything, so the
      result is the same with or without it. */
  lemma TabStepRedundant(text: string, opts: seq<WhitespaceOption>)
    requires RemoveExtra in opts
    ensures HandleWhitespace(text, opts) == HandleWhitespace(text, Without(opts, TabsToSpaces))
  {
    var t1 := if Trim in opts then Strings.Trim(text) else text;
    var t2 := TextFormatter.RemoveExtraSpaces(t1);
    TextFormatter.NoTabAfterRemoveExtraSpaces(t1);
    ReplaceCharAbsent(t2, '\t', "    ");
    assert Repeat(" ", 4) == "    ";
  }

  // ---------------------------------------------------------------------
  // convertCase

  /** `replace(/\b\w/g, c => c.toUpperCase())` on `t`; `afterWord` tells
      whether the character before `t` is a word character. */
  function ProperFrom(t: string, afterWord: bool): (r: string)
    ensures |r| == |t|
  {
    if t == [] then []
    else [if IsWordChar(t[0]) && !afterWord then ToUpper(t[0]) else t[0]] + ProperFrom(t[1..], IsWordChar(t[0]))
  }

  /** Position `j` of `t` starts a word: a word character at the start or
      after a non-word character. */
  predicate StartsWord(t: string, afterWord: bool, j: int)
    requires 0 <= j < |t|
  {
    IsWordChar(t[j]) && !(if j == 0 then afterWord else IsWordChar(t[j - 1]))
  }

  /** `proper` uppercases exactly the characters at word starts. */
  lemma {:induction false} ProperFromAt(t: string, afterWord: bool)
    ensures forall j :: 0 <= j < |t| ==>
      ProperFrom(t, afterWord)[j] == if StartsWord(t, afterWord, j) then ToUpper(t[j]) else t[j]
  {
    if t != [] {
      ProperFromAt(t[1..], IsWordChar(t[0]));
      var r := ProperFrom(t, afterWord);
      forall j | 1 <= j < |t|
        ensures r[j] == if StartsWord(t, afterWord, j) then ToUpper(t[j]) else t[j]
      {
        assert r[j] == ProperFrom(t[1..], IsWordChar(t[0]))[j - 1];
        assert t[1..][j - 1] == t[j];
        if j > 1 {
          assert t[1..][j - 2] == t[j - 1];
        }
      }
    }
  }

  /** `proper`: lowercase, then uppercase the first character of every word. */
  function ProperCase(text: string): string
  {
    ProperFrom(Lower(text), false)
  }

  /** `proper` keeps the length; word-start letters become uppercase and all
      other letters lowercase. */
  lemma ProperCaseShape(text: string)
    ensures |ProperCase(text)| == |text|
    ensures forall j :: 0 <= j < |text| ==>
      ProperCase(text)[j] == if StartsWord(Lower(text), false, j) then ToUpper(text[j]) else ToLower(text[j])
  {
    var l := Lower(text);
    ProperFromAt(l, false);
    forall j | 0 <= j < |text| ensures ToUpper(l[j]) == ToUpper(text[j]) { }
  }

  /** `proper` is idempotent: word starts do not move when only case changes. */
  lemma ProperCaseIdempotent(text: string)
    ensures ProperCase(ProperCase(text)) == ProperCase(text)
  {
    var p := ProperCase(text);
    ProperCaseShape(text);
    ProperCaseShape(p);
    var l, lp := Lower(text), Lower(p);
    assert forall j :: 0 <= j < |text| ==> IsWordChar(lp[j]) == IsWordChar(l[j]);
    forall j | 0 <= j < |text| ensures ProperCase(p)[j] == p[j] {
      assert StartsWord(lp, false, j) == StartsWord(l, false, j);
    }
  }

  /** `convertCase`: empty input gives empty output; otherwise the whitespace
      pipeline, then the selected case conversion. */
  function ConvertCase(text: string, c: CaseType, opts: seq<WhitespaceOption>): (r: string)
    ensures text == [] ==> r == []
  {
    if text == [] then "" else ApplyCase(HandleWhitespace(text, opts), c)
  }

  /** The case conversion selected in `convertCase`. */
  function ApplyCase(w: string, c: CaseType): string
  {
    match c
    case Proper => ProperCase(w)
    case Sentence => TextFormatter.Sentence(w)
    case UpperCase => TextFormatter.Uppercase(w)
    case LowerCase => TextFormatter.Lowercase(w)
    case Toggle => TextFormatter.Toggle(w)
  }

  /** Every mode keeps the length of the whitespace-processed text and
      changes nothing but letter case. */
  lemma ConvertCaseKeeps(text: string, c: CaseType, opts: seq<WhitespaceOption>)
    requires text != []
    ensures |ConvertCase(text, c, opts)| == |HandleWhitespace(text, opts)|
    ensures forall i :: 0 <= i < |ConvertCase(text, c, opts)| ==>
      ToLower(ConvertCase(text, c, opts)[i]) == ToLower(HandleWhitespace(text, opts)[i])
  {
    CaseOnly(HandleWhitespace(text, opts), c);
  }

  /** Each case conversion keeps the length and changes only letter case. */
  lemma CaseOnly(w: string, c: CaseType)
    ensures |ApplyCase(w, c)| == |w|
    ensures forall i :: 0 <= i < |w| ==> ToLower(ApplyCase(w, c)[i]) == ToLower(w[i])
  {
    var r := ApplyCase(w, c);
    match c {
      case Proper =>
        ProperCaseShape(w);
      case Sentence =>
        TextFormatter.SentenceCapitals(w);
      case UpperCase =>
        forall i | 0 <= i < |r| ensures ToLower(r[i]) == ToLower(w[i]) { }
      case LowerCase =>
      case Toggle =>
        forall i | 0 <= i < |r| ensures ToLower(r[i]) == ToLower(w[i]) { }
    }
  }


  /** `upper` leaves no lowercase letter, `lower` no uppercase letter, and
      `toggle` has lowercase letters at even and uppercase at odd positions. */
  lemma ConvertCaseClasses(text: string, c: CaseType, opts: seq<WhitespaceOption>)
    requires text != []
    ensures c == UpperCase ==> forall i :: 0 <= i < |ConvertCase(text, c, opts)| ==> !IsLower(ConvertCase(text, c, opts)[i])
    ensures c == LowerCase ==> forall i :: 0 <= i < |ConvertCase(text, c, opts)| ==> !IsUpper(ConvertCase(text, c, opts)[i])
    ensures c == Toggle ==> forall i :: 0 <= i < |ConvertCase(text, c, opts)| ==>
      if i % 2 == 0 then !IsUpper(ConvertCase(text, c, opts)[i]) else !IsLower(ConvertCase(text, c, opts)[i])
  {
    var w := HandleWhitespace(text, opts);
    var r := ConvertCase(text, c, opts);
    match c {
      case UpperCase =>
        assert r == TextFormatter.Uppercase(w);
      case LowerCase =>
        assert r == TextFormatter.Lowercase(w);
      case Toggle =>
        assert r == TextFormatter.Toggle(w);
      case Proper =>
      case Sentence =>
    }
  }

  // ---------------------------------------------------------------------
  // toggleWhitespaceOption

  /** `toggleWhitespaceOption`: removes a selected option, appends one that
      is not selected. */
  function ToggleOption(opts: seq<WhitespaceOption>, o: WhitespaceOption): (r: seq<WhitespaceOption>)
    ensures o in r <==> o !in opts
    ensures forall x :: x != o ==> (x in r <==> x in opts)
  {
    if o in opts then Without(opts, o) else opts + [o]
  }

  /** Toggling twice restores membership; from a list without `o` it
      restores the list itself, and toggling keeps the list free of
      repetitions. */
  lemma ToggleTwice(opts: seq<WhitespaceOption>, o: WhitespaceOption)
    ensures forall x :: x in ToggleOption(ToggleOption(opts, o), o) <==> x in opts
    ensures o !in opts ==> ToggleOption(ToggleOption(opts, o), o) == opts
    ensures Distinct(opts) ==> Distinct(ToggleOption(opts, o))
  {
    if o !in opts {
      WithoutAbsent(opts, o);
      WithoutAppend(opts, o);
    } else if Distinct(opts) {
      WithoutDistinct(opts, o);
    }
  }

  lemma {:induction false} WithoutAbsent(opts: seq<WhitespaceOption>, o: WhitespaceOption)
    requires o !in opts
    ensures Without(opts, o) == opts
  {
    if opts != [] {
      WithoutAbsent(opts[1..], o);
    }
  }

  lemma {:induction false} WithoutAppend(opts: seq<WhitespaceOption>, o: WhitespaceOption)
    ensures Without(opts + [o], o) == Without(opts, o)
  {
    if opts == [] {
      assert opts + [o] == [o];
    } else {
      assert (opts + [o])[1..] == opts[1..] + [o];
      WithoutAppend(opts[1..], o);
    }
  }

  lemma {:induction false} WithoutDistinct(opts: seq<WhitespaceOption>, o: WhitespaceOption)
    requires Distinct(opts)
    ensures Distinct(Without(opts, o))
  {
    if opts != [] {
      WithoutDistinct(opts[1..], o);
      var rest := Without(opts[1..], o);
      if opts[0] != o {
        assert opts[0] !in opts[1..];
        assert opts[0] !in rest;
      }
    }
  }
}
