/**
 * The ECMAScript string operations the widgets build on: `split` with a
 * one-character separator and with a `[class]+` pattern, `join`, `trim`,
 * `repeat`, replacing every occurrence of one character, number-to-string
 * rendering in base 10 and 16, and the de-duplication `[...new Set(xs)]`.
 */
module Strings {
  import opened Chars

  /** Number of occurrences of `c` in `s`. */
  function Count(s: string, c: char): nat
  {
    if s == [] then 0 else (if s[0] == c then 1 else 0) + Count(s[1..], c)
  }

  // ---------------------------------------------------------------------
  // split / join with a one-character separator

  /** `s.split(c)`: the pieces between occurrences of `c`; never empty. */
  function Split(s: string, c: char): (parts: seq<string>)
    ensures |parts| >= 1
  {
    if s == [] then [""]
    else
      var rest := Split(s[1..], c);
      if s[0] == c then [""] + rest else [[s[0]] + rest[0]] + rest[1..]
  }

  /** `parts.join(sep)`; the empty list joins to "". */
  function Join(parts: seq<string>, sep: string): string
  {
    if parts == [] then ""
    else if |parts| == 1 then parts[0]
    else parts[0] + sep + Join(parts[1..], sep)
  }

  /** No part contains the separator character. */
  ghost predicate NoneContains(parts: seq<string>, c: char)
  {
    forall i :: 0 <= i < |parts| ==> c !in parts[i]
  }

  lemma {:induction false} SplitCount(s: string, c: char)
    ensures |Split(s, c)| == Count(s, c) + 1
  {
    if s != [] {
      SplitCount(s[1..], c);
    }
  }

  lemma {:induction false} SplitPartsFree(s: string, c: char)
    ensures NoneContains(Split(s, c), c)
  {
    if s != [] {
      SplitPartsFree(s[1..], c);
      var rest := Split(s[1..], c);
      assert c !in rest[0];
    }
  }

  /** Joining the pieces of a split with the separator gives the string back. */
  lemma {:induction false} JoinSplit(s: string, c: char)
    ensures Join(Split(s, c), [c]) == s
  {
    if s != [] {
      JoinSplit(s[1..], c);
      var rest := Split(s[1..], c);
      if s[0] != c && |rest| > 1 {
        assert Join(rest, [c]) == rest[0] + [c] + Join(rest[1..], [c]);
      }
    }
  }

  lemma {:induction false} SplitPrefix(a: string, t: string, c: char)
    requires c !in a
    ensures Split(a + t, c) == [a + Split(t, c)[0]] + Split(t, c)[1..]
  {
    if a != [] {
      assert (a + t)[0] == a[0] != c;
      assert (a + t)[1..] == a[1..] + t;
      SplitPrefix(a[1..], t, c);
      var x := Split(t, c);
      assert [a[0]] + (a[1..] + x[0]) == a + x[0];
    } else {
      var x := Split(t, c);
      assert a + t == t;
      assert a + x[0] == x[0];
      assert [x[0]] + x[1..] == x;
    }
  }

  /** Splitting a join of separator-free pieces gives the pieces back. */
  lemma {:induction false} SplitJoin(parts: seq<string>, c: char)
    requires |parts| >= 1
    requires NoneContains(parts, c)
    ensures Split(Join(parts, [c]), c) == parts
  {
    if |parts| == 1 {
      SplitPrefix(parts[0], "", c);
      assert parts[0] + "" == parts[0];
    } else {
      SplitJoin(parts[1..], c);
      var t := Join(parts[1..], [c]);
      assert Join(parts, [c]) == parts[0] + ([c] + t);
      SplitPrefix(parts[0], [c] + t, c);
      assert ([c] + t)[1..] == t;
      assert Split([c] + t, c) == [""] + Split(t, c);
      assert parts[0] + "" == parts[0];
      assert [parts[0]] + parts[1..] == parts;
    }
  }

  // ---------------------------------------------------------------------
  // split on a pattern `[class]+`

  /** `s` with its leading characters of the class removed. */
  function DropRun(s: string, sep: char -> bool): (r: string)
    ensures |r| <= |s|
    ensures r == [] || !sep(r[0])
  {
    if s != [] && sep(s[0]) then DropRun(s[1..], sep) else s
  }

  /**
   * `s.split(/[class]+/)`: the pieces between maximal runs of characters of
   * the class; a run at the start or the end gives an empty first or last
   * piece, and "" splits to [""].
   */
  function SplitRuns(s: string, sep: char -> bool): (parts: seq<string>)
    ensures |parts| >= 1
    decreases |s|
  {
    if s == [] then [""]
    else if sep(s[0]) then [""] + SplitRuns(DropRun(s[1..], sep), sep)
    else
      var rest := SplitRuns(s[1..], sep);
      [[s[0]] + rest[0]] + rest[1..]
  }

  /** The non-empty entries of `parts`, in order (`filter(p => p.length > 0)`). */
  function NonEmpty(parts: seq<string>): (r: seq<string>)
    ensures |r| <= |parts|
    ensures forall i :: 0 <= i < |r| ==> r[i] != []
  {
    if parts == [] then []
    else if parts[0] == [] then NonEmpty(parts[1..])
    else [parts[0]] + NonEmpty(parts[1..])
  }

  /** Independent reading of "maximal runs outside the class": skip a run of
      separators, take a run of the rest, repeat. */
  function Tokens(s: string, sep: char -> bool): seq<string>
    decreases |s|
  {
    var t := DropRun(s, sep);
    if t == [] then [] else [TakeRun(t, sep)] + Tokens(t[|TakeRun(t, sep)|..], sep)
  }

  /** The longest prefix of `s` with no character of the class. */
  function TakeRun(s: string, sep: char -> bool): (r: string)
    ensures |r| <= |s| && r == s[..|r|]
    ensures forall i :: 0 <= i < |r| ==> !sep(r[i])
    ensures |r| < |s| ==> sep(s[|r|])
  {
    if s == [] || sep(s[0]) then [] else [s[0]] + TakeRun(s[1..], sep)
  }

  /** Number of maximal runs outside the class, counted by the positions
      that end one. */
  function RunCount(s: string, sep: char -> bool): nat
  {
    if s == [] then 0
    else (if !sep(s[0]) && (|s| == 1 || sep(s[1])) then 1 else 0) + RunCount(s[1..], sep)
  }

  lemma {:induction false} NonEmptyAppend(a: seq<string>, b: seq<string>)
    ensures NonEmpty(a + b) == NonEmpty(a) + NonEmpty(b)
  {
    if a != [] {
      assert (a + b)[0] == a[0];
      assert (a + b)[1..] == a[1..] + b;
      NonEmptyAppend(a[1..], b);
    } else {
      assert a + b == b;
    }
  }

  lemma {:induction false} SplitRunsOfRun(s: string, sep: char -> bool)
    requires s != [] && !sep(s[0])
    ensures SplitRuns(s, sep) ==
      [TakeRun(s, sep) + SplitRuns(s[|TakeRun(s, sep)|..], sep)[0]] + SplitRuns(s[|TakeRun(s, sep)|..], sep)[1..]
    decreases |s|
  {
    var rest := SplitRuns(s[1..], sep);
    assert SplitRuns(s, sep) == [[s[0]] + rest[0]] + rest[1..];
    if |s| > 1 && !sep(s[1]) {
      SplitRunsOfRun(s[1..], sep);
      var w := TakeRun(s[1..], sep);
      assert TakeRun(s, sep) == [s[0]] + w;
      assert s[1..][|w|..] == s[|TakeRun(s, sep)|..];
      var u := SplitRuns(s[|TakeRun(s, sep)|..], sep);
      assert rest == [w + u[0]] + u[1..];
      assert [s[0]] + (w + u[0]) == TakeRun(s, sep) + u[0];
    } else {
      assert TakeRun(s, sep) == [s[0]];
    }
  }

  /** No part of a split on runs holds a separator. */
  lemma {:induction false} SplitRunsFree(s: string, sep: char -> bool)
    ensures forall i, j :: 0 <= i < |SplitRuns(s, sep)| && 0 <= j < |SplitRuns(s, sep)[i]| ==>
      !sep(SplitRuns(s, sep)[i][j])
    decreases |s|
  {
    if s != [] {
      if sep(s[0]) {
        SplitRunsFree(DropRun(s[1..], sep), sep);
      } else {
        SplitRunsFree(s[1..], sep);
        var rest := SplitRuns(s[1..], sep);
        assert forall j :: 1 <= j < |[s[0]] + rest[0]| ==> ([s[0]] + rest[0])[j] == rest[0][j - 1];
      }
    }
  }

  /**
   * `filter(nonEmpty)` of `split(/[class]+/)` is exactly the list of maximal
   * runs outside the class.
   */
  lemma {:induction false} SplitRunsTokens(s: string, sep: char -> bool)
    ensures NonEmpty(SplitRuns(s, sep)) == Tokens(s, sep)
    decreases |s|
  {
    if s == [] {
    } else if sep(s[0]) {
      SplitRunsTokens(DropRun(s[1..], sep), sep);
      DropRunTwice(s, sep);
    } else {
      var w := TakeRun(s, sep);
      var t := s[|w|..];
      SplitRunsOfRun(s, sep);
      if t == [] {
        assert SplitRuns(t, sep) == [""];
        assert w + "" == w;
        assert SplitRuns(s, sep) == [w];
      } else {
        assert sep(t[0]);
        SplitRunsTokens(DropRun(t[1..], sep), sep);
        DropRunTwice(t, sep);
        var u := SplitRuns(DropRun(t[1..], sep), sep);
        assert SplitRuns(t, sep) == [""] + u;
        assert SplitRuns(t, sep)[0] == "" && SplitRuns(t, sep)[1..] == u;
        assert w + "" == w;
        assert SplitRuns(s, sep) == [w] + SplitRuns(DropRun(t[1..], sep), sep);
        NonEmptyAppend([w], SplitRuns(DropRun(t[1..], sep), sep));
        assert Tokens(t, sep) == Tokens(DropRun(t, sep), sep);
      }
    }
  }

  lemma {:induction false} DropRunTwice(s: string, sep: char -> bool)
    requires s != [] && sep(s[0])
    ensures DropRun(s, sep) == DropRun(s[1..], sep)
    ensures Tokens(s, sep) == Tokens(DropRun(s[1..], sep), sep)
  {
    DropRunIdem(s[1..], sep);
  }

  lemma {:induction false} DropRunIdem(s: string, sep: char -> bool)
    ensures DropRun(DropRun(s, sep), sep) == DropRun(s, sep)
  {
  }

  /** Every token is a non-empty run with no character of the class. */
  lemma {:induction false} TokensShape(s: string, sep: char -> bool)
    ensures forall i :: 0 <= i < |Tokens(s, sep)| ==>
      Tokens(s, sep)[i] != [] && forall j :: 0 <= j < |Tokens(s, sep)[i]| ==> !sep(Tokens(s, sep)[i][j])
    decreases |s|
  {
    var t := DropRun(s, sep);
    if t != [] {
      TokensShape(t[|TakeRun(t, sep)|..], sep);
    }
  }

  lemma {:induction false} DropRunRuns(s: string, sep: char -> bool)
    ensures RunCount(DropRun(s, sep), sep) == RunCount(s, sep)
  {
    if s != [] && sep(s[0]) {
      DropRunRuns(s[1..], sep);
    }
  }

  lemma {:induction false} TakeRunRuns(s: string, sep: char -> bool)
    requires s != [] && !sep(s[0])
    ensures RunCount(s, sep) == 1 + RunCount(s[|TakeRun(s, sep)|..], sep)
  {
    if |s| > 1 && !sep(s[1]) {
      TakeRunRuns(s[1..], sep);
      assert s[1..][|TakeRun(s[1..], sep)|..] == s[|TakeRun(s, sep)|..];
    }
  }

  /** There are as many tokens as maximal runs outside the class. */
  lemma {:induction false} TokensCount(s: string, sep: char -> bool)
    ensures |Tokens(s, sep)| == RunCount(s, sep)
    decreases |s|
  {
    var t := DropRun(s, sep);
    DropRunRuns(s, sep);
    if t != [] {
      TakeRunRuns(t, sep);
      TokensCount(t[|TakeRun(t, sep)|..], sep);
    }
  }

  lemma {:induction false} DropRunAppend(u: string, w: string, sep: char -> bool)
    ensures DropRun(u, sep) != [] ==> DropRun(u + w, sep) == DropRun(u, sep) + w
    ensures DropRun(u, sep) == [] ==> DropRun(u + w, sep) == DropRun(w, sep)
  {
    if u == [] {
      assert u + w == w;
    } else {
      assert (u + w)[0] == u[0];
      assert (u + w)[1..] == u[1..] + w;
      if sep(u[0]) {
        DropRunAppend(u[1..], w, sep);
      }
    }
  }

  lemma {:induction false} TakeRunAppend(u: string, w: string, sep: char -> bool)
    requires w == [] || sep(w[0])
    ensures TakeRun(u + w, sep) == TakeRun(u, sep)
  {
    if u == [] {
      assert u + w == w;
    } else {
      assert (u + w)[0] == u[0];
      assert (u + w)[1..] == u[1..] + w;
      TakeRunAppend(u[1..], w, sep);
    }
  }

  /** Separators appended at the end add no token. */
  lemma {:induction false} TokensAppendSeps(u: string, w: string, sep: char -> bool)
    requires forall i :: 0 <= i < |w| ==> sep(w[i])
    ensures Tokens(u + w, sep) == Tokens(u, sep)
    decreases |u|
  {
    DropRunAppend(u, w, sep);
    var t := DropRun(u, sep);
    if t == [] {
      DropRunAll(w, sep);
    } else {
      TakeRunAppend(t, w, sep);
      var k := |TakeRun(t, sep)|;
      assert k >= 1 by { assert TakeRun(t, sep) == [t[0]] + TakeRun(t[1..], sep); }
      assert (t + w)[k..] == t[k..] + w;
      DropRunSuffix(u, sep);
      TokensAppendSeps(t[k..], w, sep);
    }
  }

  lemma {:induction false} DropRunAll(w: string, sep: char -> bool)
    requires forall i :: 0 <= i < |w| ==> sep(w[i])
    ensures DropRun(w, sep) == []
  {
    if w != [] {
      DropRunAll(w[1..], sep);
    }
  }

  /** The length of the longest prefix of `s` whose characters satisfy `p`. */
  function Span(s: string, p: char -> bool): (n: nat)
    ensures n <= |s|
    ensures forall i :: 0 <= i < n ==> p(s[i])
    ensures n < |s| ==> !p(s[n])
  {
    if s != [] && p(s[0]) then 1 + Span(s[1..], p) else 0
  }

  // ---------------------------------------------------------------------
  // trim

  function TrimStart(s: string): (r: string)
    ensures r == [] || !IsSpace(r[0])
    ensures |r| <= |s| && r == s[|s| - |r|..]
    ensures forall i :: 0 <= i < |s| - |r| ==> IsSpace(s[i])
  {
    DropRunSuffix(s, IsSpace);
    DropRun(s, IsSpace)
  }

  lemma {:induction false} DropRunSuffix(s: string, sep: char -> bool)
    ensures s[|s| - |DropRun(s, sep)|..] == DropRun(s, sep)
    ensures forall i :: 0 <= i < |s| - |DropRun(s, sep)| ==> sep(s[i])
  {
    if s != [] && sep(s[0]) {
      DropRunSuffix(s[1..], sep);
    }
  }

  function TrimEnd(s: string): (r: string)
    ensures r == [] || !IsSpace(r[|r| - 1])
    ensures |r| <= |s| && r == s[..|r|]
    ensures forall i :: |r| <= i < |s| ==> IsSpace(s[i])
  {
    if s != [] && IsSpace(s[|s| - 1]) then TrimEnd(s[..|s| - 1]) else s
  }

  /** `s.trim()`. */
  function Trim(s: string): (r: string)
    ensures r == [] || (!IsSpace(r[0]) && !IsSpace(r[|r| - 1]))
  {
    TrimEnd(TrimStart(s))
  }

  /** Trimming keeps the maximal runs of non-space characters. */
  lemma TrimTokens(s: string)
    ensures Tokens(Trim(s), IsSpace) == Tokens(s, IsSpace)
  {
    TokensTrimStart(s);
    TokensTrimEnd(TrimStart(s));
  }

  lemma TokensTrimStart(s: string)
    ensures Tokens(TrimStart(s), IsSpace) == Tokens(s, IsSpace)
  {
    DropRunIdem(s, IsSpace);
  }

  lemma TokensTrimEnd(u: string)
    ensures Tokens(TrimEnd(u), IsSpace) == Tokens(u, IsSpace)
  {
    var e := TrimEnd(u);
    var tail := u[|e|..];
    assert e + tail == u;
    assert forall i :: 0 <= i < |tail| ==> IsSpace(tail[i]) by {
      assert forall i :: 0 <= i < |tail| ==> tail[i] == u[|e| + i];
    }
    TokensAppendSeps(e, tail, IsSpace);
  }

  /** A string that neither starts nor ends with a separator splits into
      non-empty pieces only. */
  lemma {:induction false} SplitRunsTrimmed(t: string, sep: char -> bool)
    requires t != [] && !sep(t[0]) && !sep(t[|t| - 1])
    ensures NonEmpty(SplitRuns(t, sep)) == SplitRuns(t, sep)
    decreases |t|
  {
    SplitRunsOfRun(t, sep);
    var w := TakeRun(t, sep);
    var rest := t[|w|..];
    assert w != [] by { assert w == [t[0]] + TakeRun(t[1..], sep); }
    if rest == [] {
      assert SplitRuns(rest, sep) == [""];
      assert w + "" == w;
      assert SplitRuns(t, sep) == [w];
    } else {
      var v := DropRun(rest[1..], sep);
      DropRunSuffix(rest[1..], sep);
      assert v != [] && v[|v| - 1] == t[|t| - 1];
      SplitRunsTrimmed(v, sep);
      assert SplitRuns(rest, sep) == [""] + SplitRuns(v, sep);
      assert w + "" == w;
      assert SplitRuns(t, sep) == [w] + SplitRuns(v, sep);
      NonEmptyAppend([w], SplitRuns(v, sep));
    }
  }

  /** True when `s` has a character outside `\s`; `s.trim()` is then non-empty. */
  predicate HasNonSpace(s: string)
  {
    exists i :: 0 <= i < |s| && !IsSpace(s[i])
  }

  lemma TrimEmpty(s: string)
    ensures Trim(s) == [] <==> !HasNonSpace(s)
  {
    var t := TrimStart(s);
    if Trim(s) == [] {
      assert t == [];
    } else {
      var r := Trim(s);
      assert r[0] == t[0] == s[|s| - |t|];
    }
  }

  // ---------------------------------------------------------------------
  // repeat and replace

  /** `s.repeat(n)`. */
  function Repeat(s: string, n: nat): (r: string)
    ensures |r| == n * |s|
  {
    if n == 0 then "" else s + Repeat(s, n - 1)
  }

  /** `s.replace(/c/g, r)`: every `c` becomes `r`. */
  function ReplaceChar(s: string, c: char, r: string): (t: string)
  {
    if s == [] then ""
    else (if s[0] == c then r else [s[0]]) + ReplaceChar(s[1..], c, r)
  }

  /** Each occurrence of `c` grows or shrinks the text by `|r| - 1`. */
  lemma {:induction false} ReplaceCharLength(s: string, c: char, r: string)
    ensures |ReplaceChar(s, c, r)| == |s| + Count(s, c) * (|r| - 1)
  {
    if s != [] {
      ReplaceCharLength(s[1..], c, r);
    }
  }

  /** Putting a character in front of the first part puts it in front of
      the joined text. */
  lemma JoinConsHead(x: char, parts: seq<string>, sep: string)
    requires |parts| >= 1
    ensures Join([[x] + parts[0]] + parts[1..], sep) == [x] + Join(parts, sep)
  {
    var q := [[x] + parts[0]] + parts[1..];
    assert q[1..] == parts[1..];
  }

  /** Replacing every `c` by `r` is splitting at `c` and joining with `r`. */
  lemma {:induction false} ReplaceCharSplit(s: string, c: char, r: string)
    ensures ReplaceChar(s, c, r) == Join(Split(s, c), r)
  {
    if s != [] {
      var rest := Split(s[1..], c);
      if s[0] == c {
        calc {
          ReplaceChar(s, c, r);
          r + ReplaceChar(s[1..], c, r);
          { ReplaceCharSplit(s[1..], c, r); }
          r + Join(rest, r);
          { assert ([""] + rest)[1..] == rest; }
          Join([""] + rest, r);
          Join(Split(s, c), r);
        }
      } else {
        calc {
          ReplaceChar(s, c, r);
          [s[0]] + ReplaceChar(s[1..], c, r);
          { ReplaceCharSplit(s[1..], c, r); }
          [s[0]] + Join(rest, r);
          { JoinConsHead(s[0], rest, r); }
          Join([[s[0]] + rest[0]] + rest[1..], r);
          Join(Split(s, c), r);
        }
      }
    }
  }

  lemma {:induction false} ReplaceCharAbsent(s: string, c: char, r: string)
    requires c !in s
    ensures ReplaceChar(s, c, r) == s
  {
    if s != [] {
      ReplaceCharAbsent(s[1..], c, r);
    }
  }

  // ---------------------------------------------------------------------
  // numbers

  function DigitChar(d: nat): (c: char)
    requires d < 16
    ensures IsDigit(c) || ('a' <= c <= 'f')
  {
    if d < 10 then ('0' as int + d) as char else ('a' as int + d - 10) as char
  }

  /** `n.toString()` for a natural number. */
  function NatToString(n: nat): (s: string)
    ensures |s| >= 1
    ensures forall i :: 0 <= i < |s| ==> IsDigit(s[i])
  {
    if n < 10 then [DigitChar(n)] else NatToString(n / 10) + [DigitChar(n % 10)]
  }

  /** A non-empty string of decimal digits, as `n.toString()` prints. */
  predicate IsNumeral(s: string)
  {
    |s| >= 1 && forall i :: 0 <= i < |s| ==> IsDigit(s[i])
  }

  function DigitValue(c: char): nat
  {
    if IsDigit(c) then c as int - '0' as int else 0
  }

  /** The value of a string of decimal digits. */
  function DecimalValue(s: string): nat
  {
    if s == [] then 0 else DecimalValue(s[..|s| - 1]) * 10 + DigitValue(s[|s| - 1])
  }

  /** The digits `n.toString()` prints denote `n`. */
  lemma {:induction false} DecimalValueOf(n: nat)
    ensures IsNumeral(NatToString(n)) && DecimalValue(NatToString(n)) == n
  {
    var s := NatToString(n);
    if n < 10 {
      assert s[..0] == [];
    } else {
      DecimalValueOf(n / 10);
      assert s[..|s| - 1] == NatToString(n / 10);
    }
  }

  /** `n.toString()` for an integer. */
  function IntToString(n: int): (s: string)
    ensures |s| >= 1
  {
    if n < 0 then "-" + NatToString(-n) else NatToString(n)
  }

  /** `n.toString(16)` for a natural number: lowercase hex digits. */
  function NatToHex(n: nat): (s: string)
    ensures |s| >= 1
    ensures forall i :: 0 <= i < |s| ==> IsDigit(s[i]) || ('a' <= s[i] <= 'f')
    ensures n < 16 ==> |s| == 1
    ensures 16 <= n < 256 ==> |s| == 2
  {
    if n < 16 then [DigitChar(n)] else NatToHex(n / 16) + [DigitChar(n % 16)]
  }

  /** `s.padStart(2, "0")`. */
  function PadStart2(s: string): (r: string)
    ensures |r| == if |s| >= 2 then |s| else 2
  {
    if |s| >= 2 then s else Repeat("0", 2 - |s|) + s
  }

  // ---------------------------------------------------------------------
  // [...new Set(xs)]

  /** `[...new Set(xs)]`: each element once, in order of first occurrence. */
  function Dedupe<T(==)>(xs: seq<T>): (r: seq<T>)
    ensures forall i :: 0 <= i < |r| ==> r[i] in xs
    ensures forall i :: 0 <= i < |xs| ==> xs[i] in r
    ensures |r| <= |xs|
  {
    if xs == [] then []
    else
      var d := Dedupe(xs[..|xs| - 1]);
      if xs[|xs| - 1] in d then d else d + [xs[|xs| - 1]]
  }

  ghost predicate Distinct<T>(xs: seq<T>)
  {
    forall i, j :: 0 <= i < j < |xs| ==> xs[i] != xs[j]
  }

  /** Index of the first occurrence of `x` in `xs`. */
  function FirstIndex<T(==)>(xs: seq<T>, x: T): (k: nat)
    requires x in xs
    ensures k < |xs| && xs[k] == x && x !in xs[..k]
  {
    if xs[0] == x then 0 else 1 + FirstIndex(xs[1..], x)
  }

  lemma {:induction false} DedupeDistinct<T>(xs: seq<T>)
    ensures Distinct(Dedupe(xs))
  {
    if xs != [] {
      DedupeDistinct(xs[..|xs| - 1]);
    }
  }

  lemma {:induction false} DedupeOfDistinct<T>(xs: seq<T>)
    requires Distinct(xs)
    ensures Dedupe(xs) == xs
  {
    if xs != [] {
      var init := xs[..|xs| - 1];
      DedupeOfDistinct(init);
      assert xs[|xs| - 1] !in init;
      assert init + [xs[|xs| - 1]] == xs;
    }
  }

  /** Applying the de-duplication twice equals applying it once. */
  lemma DedupeIdempotent<T>(xs: seq<T>)
    ensures Dedupe(Dedupe(xs)) == Dedupe(xs)
  {
    DedupeDistinct(xs);
    DedupeOfDistinct(Dedupe(xs));
  }

  lemma {:induction false} FirstIndexPrefix<T>(xs: seq<T>, x: T, n: nat)
    requires n <= |xs| && x in xs[..n]
    ensures FirstIndex(xs[..n], x) == FirstIndex(xs, x)
  {
    if xs[0] != x {
      assert xs[..n][1..] == xs[1..][..n - 1];
      FirstIndexPrefix(xs[1..], x, n - 1);
    }
  }

  /** The survivors appear in the order of their first occurrences. */
  lemma {:induction false} DedupeOrder<T>(xs: seq<T>)
    ensures forall i, j :: 0 <= i < j < |Dedupe(xs)| ==>
      FirstIndex(xs, Dedupe(xs)[i]) < FirstIndex(xs, Dedupe(xs)[j])
  {
    if xs != [] {
      var n := |xs| - 1;
      var init := xs[..n];
      var d := Dedupe(init);
      DedupeOrder(init);
      forall y | y in d ensures FirstIndex(xs, y) == FirstIndex(init, y) {
        FirstIndexPrefix(xs, y, n);
      }
      if xs[n] !in d {
        assert xs[n] !in init;
        assert FirstIndex(xs, xs[n]) == n;
      }
    }
  }
}
