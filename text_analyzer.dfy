/**
 * The text analyser: words, sentences and paragraphs, reading and speaking
 * times, the word frequency table with its five most used words, the number
 * of distinct words, and the longest and shortest alphabetic words.
 */
module TextAnalyzer {
  import opened Wrappers
  import opened Chars
  import opened Strings
  import opened JsMath

  // ---------------------------------------------------------------------
  // Segmentation

  /** `text.trim().split(/\s+/).filter(w => w.length > 0)`. */
  function Words(text: string): seq<string>
  {
    NonEmpty(SplitRuns(Trim(text), IsSpace))
  }

  /** The words are the maximal runs of non-whitespace characters. */
  lemma WordsAreRuns(text: string)
    ensures Words(text) == Tokens(text, IsSpace)
    ensures |Words(text)| == RunCount(text, IsSpace)
  {
    SplitRunsTokens(Trim(text), IsSpace);
    TrimTokens(text);
    TokensCount(text, IsSpace);
  }

  /** The parts that are not blank (`filter(p => p.trim().length > 0)`):
      every non-blank part is kept as often as it occurs, every blank part
      is dropped. */
  function NonBlank(parts: seq<string>): (r: seq<string>)
    ensures |r| <= |parts|
    ensures forall i :: 0 <= i < |r| ==> HasNonSpace(r[i]) && r[i] in parts
    ensures forall i :: 0 <= i < |parts| && HasNonSpace(parts[i]) ==> parts[i] in r
    ensures forall p :: multiset(r)[p] == if HasNonSpace(p) then multiset(parts)[p] else 0
  {
    if parts == [] then []
    else
      assert parts == [parts[0]] + parts[1..];
      if HasNonSpace(parts[0]) then [parts[0]] + NonBlank(parts[1..])
      else NonBlank(parts[1..])
  }

  /** The filter keeps the order of the parts: filtering a concatenation
      concatenates the filtered halves. */
  lemma {:induction false} NonBlankConcat(a: seq<string>, b: seq<string>)
    ensures NonBlank(a + b) == NonBlank(a) + NonBlank(b)
  {
    if a == [] {
      assert a + b == b;
    } else {
      var ab := a + b;
      assert ab[0] == a[0] && ab[1..] == a[1..] + b;
      NonBlankConcat(a[1..], b);
      if HasNonSpace(a[0]) {
        calc {
          NonBlank(ab);
          [a[0]] + NonBlank(a[1..] + b);
          [a[0]] + (NonBlank(a[1..]) + NonBlank(b));
          ([a[0]] + NonBlank(a[1..])) + NonBlank(b);
        }
      }
    }
  }

  predicate IsSentenceEnd(c: char) { c == '.' || c == '!' || c == '?' }

  /** `text.split(/[.!?]+/)` without its blank parts. */
  function Sentences(text: string): seq<string>
  {
    NonBlank(SplitRuns(text, IsSentenceEnd))
  }

  lemma {:induction false} SplitRunsNone(s: string, sep: char -> bool)
    requires forall i :: 0 <= i < |s| ==> !sep(s[i])
    ensures SplitRuns(s, sep) == [s]
  {
    if s != [] {
      SplitRunsNone(s[1..], sep);
      assert [s[0]] + s[1..] == s;
    }
  }

  /** Every sentence is non-blank and holds no `.`, `!` or `?`; text without
      any of them that is not blank is one sentence. */
  lemma SentencesShape(text: string)
    ensures forall i :: 0 <= i < |Sentences(text)| ==>
      HasNonSpace(Sentences(text)[i]) && forall j :: 0 <= j < |Sentences(text)[i]| ==> !IsSentenceEnd(Sentences(text)[i][j])
    ensures (forall i :: 0 <= i < |text| ==> !IsSentenceEnd(text[i])) && HasNonSpace(text) ==> Sentences(text) == [text]
  {
    SplitRunsFree(text, IsSentenceEnd);
    if (forall i :: 0 <= i < |text| ==> !IsSentenceEnd(text[i])) && HasNonSpace(text) {
      SplitRunsNone(text, IsSentenceEnd);
    }
  }

  /** The index of the last line feed in `t`, if any. */
  function LastNewline(t: string): (k: Option<nat>)
    ensures k.Some? ==> k.value < |t| && t[k.value] == '\n' && '\n' !in t[k.value + 1..]
    ensures k.None? ==> '\n' !in t
  {
    if t == [] then None
    else if t[|t| - 1] == '\n' then Some(|t| - 1)
    else
      var k := LastNewline(t[..|t| - 1]);
      assert t == t[..|t| - 1] + [t[|t| - 1]];
      k
  }

  /** The length of a match of `/\n\s*\n/` at the start of `s`, or 0. The
      `\s*` takes the whole whitespace run and gives back characters until
      a line feed follows, so the match ends at the run's last line feed. */
  function ParagraphBreak(s: string): (m: nat)
    ensures m == 0 || (2 <= m <= |s| && s[0] == '\n' && s[m - 1] == '\n')
    ensures |s| == 0 || s[0] != '\n' ==> m == 0
  {
    if |s| == 0 || s[0] != '\n' then 0
    else
      var run := s[1..][..Span(s[1..], IsSpace)];
      match LastNewline(run)
      case None => 0
      case Some(k) =>
        assert s[k + 1] == run[k];
        k + 2
  }

  /** `text.split(/\n\s*\n/)`. */
  function SplitParagraphs(s: string): (parts: seq<string>)
    ensures |parts| >= 1
    decreases |s|
  {
    if s == [] then [""]
    else if ParagraphBreak(s) > 0 then [""] + SplitParagraphs(s[ParagraphBreak(s)..])
    else
      var rest := SplitParagraphs(s[1..]);
      [[s[0]] + rest[0]] + rest[1..]
  }

  /** `text.split(/\n\s*\n/)` without its blank parts. */
  function Paragraphs(text: string): seq<string>
  {
    NonBlank(SplitParagraphs(text))
  }

  lemma {:induction false} SplitParagraphsSingle(s: string)
    requires '\n' !in s
    ensures SplitParagraphs(s) == [s]
  {
    if s != [] {
      assert s[0] != '\n';
      SplitParagraphsSingle(s[1..]);
      assert [s[0]] + s[1..] == s;
    }
  }

  /** Every paragraph is non-blank; text on one line that is not blank is
      one paragraph. */
  lemma ParagraphsShape(text: string)
    ensures forall i :: 0 <= i < |Paragraphs(text)| ==> HasNonSpace(Paragraphs(text)[i])
    ensures '\n' !in text && HasNonSpace(text) ==> Paragraphs(text) == [text]
  {
    if '\n' !in text {
      SplitParagraphsSingle(text);
    }
  }

  // ---------------------------------------------------------------------
  // Reading and speaking time

  /** `formatTime(words / wpm)` as written: minutes are cut down and the
      remaining fraction rounded to seconds, so a fraction just below a
      whole minute shows as 60 seconds. */
  function FormatTimeAsWritten(words: nat, wpm: Pos): string
  {
    if words < wpm then NatToString(Round(60 * words, wpm)) + " seconds"
    else
      var mins := words / wpm;
      var secs := Round(60 * (words % wpm), wpm);
      NatToString(mins) + " min" + (if mins != 1 then "s" else "") + " "
      + NatToString(secs) + " sec" + (if secs != 1 then "s" else "")
  }

  /** 399 words at 200 words per minute read as "1 min 60 secs". */
  lemma SixtySeconds()
    ensures FormatTimeAsWritten(399, 200) == "1 min 60 secs"
  {
    assert Round(60 * 199, 200) == 60;
    assert NatToString(60) == "60" by {
      assert NatToString(6) == "6";
    }
  }

  /** Whole minutes and leftover seconds of the rounded total time. */
  function MinutesSeconds(words: nat, wpm: Pos): (ms: (nat, nat))
    ensures ms.1 < 60 && 60 * ms.0 + ms.1 == Round(60 * words, wpm)
  {
    var total := Round(60 * words, wpm);
    (total / 60, total % 60)
  }

  /** `formatTime` with the seconds carried into the minutes. */
  function FormatTime(words: nat, wpm: Pos): string
  {
    if words < wpm then NatToString(Round(60 * words, wpm)) + " seconds"
    else
      var (mins, secs) := MinutesSeconds(words, wpm);
      NatToString(mins) + " min" + (if mins != 1 then "s" else "") + " "
      + NatToString(secs) + " sec" + (if secs != 1 then "s" else "")
  }

  /** The carried version differs from the code only when the code shows
      60 seconds: otherwise the two agree. */
  lemma FormatTimeAgrees(words: nat, wpm: Pos)
    ensures Round(60 * (words % wpm), wpm) < 60 ==> FormatTime(words, wpm) == FormatTimeAsWritten(words, wpm)
  {
    var q, r := words / wpm, words % wpm;
    var secs := Round(60 * r, wpm);
    if secs < 60 {
      assert 60 * words == 60 * r + wpm * (60 * q);
      RoundShift(60 * r, wpm, 60 * q);
      assert Round(60 * words, wpm) == 60 * q + secs;
      assert (60 * q + secs) / 60 == q && (60 * q + secs) % 60 == secs;
    }
  }

  // ---------------------------------------------------------------------
  // Word frequency

  predicate IsLowerAlnum(c: char) { IsLower(c) || IsDigit(c) }

  /** `s.replace(/[^a-z0-9]/g, "")`. */
  function KeepLowerAlnum(s: string): (r: string)
    ensures |r| <= |s| && forall i :: 0 <= i < |r| ==> IsLowerAlnum(r[i])
  {
    if s == [] then ""
    else (if IsLowerAlnum(s[0]) then [s[0]] else "") + KeepLowerAlnum(s[1..])
  }

  /** `word.toLowerCase().replace(/[^a-z0-9]/g, "")`. */
  function CleanWord(w: string): string
  {
    KeepLowerAlnum(Lower(w))
  }

  /** The non-empty cleaned words, in order. */
  function Cleaned(words: seq<string>): (r: seq<string>)
    ensures forall i :: 0 <= i < |r| ==> r[i] != ""
  {
    if words == [] then []
    else
      var c := CleanWord(words[|words| - 1]);
      Cleaned(words[..|words| - 1]) + (if c == "" then [] else [c])
  }

  datatype Entry = Entry(word: string, count: nat)

  function Keys(t: seq<Entry>): (ks: seq<string>)
    ensures |ks| == |t| && forall i :: 0 <= i < |t| ==> ks[i] == t[i].word
  {
    if t == [] then [] else [t[0].word] + Keys(t[1..])
  }

  /** The count stored for `k` (the first entry with that word), or 0. */
  function CountOf(t: seq<Entry>, k: string): nat
  {
    if t == [] then 0 else if t[0].word == k then t[0].count else CountOf(t[1..], k)
  }

  /** `acc[w] = (acc[w] || 0) + 1` on a table kept in insertion order. */
  function Bump(t: seq<Entry>, w: string): (r: seq<Entry>)
    ensures |r| == |t| || |r| == |t| + 1
  {
    if t == [] then [Entry(w, 1)]
    else if t[0].word == w then [Entry(w, t[0].count + 1)] + t[1..]
    else [t[0]] + Bump(t[1..], w)
  }

  /** The frequency table of the cleaned words, in order of first occurrence. */
  function Frequency(words: seq<string>): seq<Entry>
  {
    if words == [] then []
    else
      var t := Frequency(words[..|words| - 1]);
      var c := CleanWord(words[|words| - 1]);
      if c == "" then t else Bump(t, c)
  }

  lemma {:induction false} BumpAt(t: seq<Entry>, w: string, j: nat)
    requires j < |t| && t[j].word == w && forall i :: 0 <= i < j ==> t[i].word != w
    ensures Bump(t, w) == t[j := Entry(w, t[j].count + 1)]
  {
    if j > 0 {
      BumpAt(t[1..], w, j - 1);
      assert [t[0]] + t[1..][j - 1 := Entry(w, t[j].count + 1)] == t[j := Entry(w, t[j].count + 1)];
    }
  }

  lemma {:induction false} BumpAbsent(t: seq<Entry>, w: string)
    requires forall i :: 0 <= i < |t| ==> t[i].word != w
    ensures Bump(t, w) == t + [Entry(w, 1)]
  {
    if t != [] {
      BumpAbsent(t[1..], w);
      assert [t[0]] + (t[1..] + [Entry(w, 1)]) == t + [Entry(w, 1)];
    }
  }

  /** `acc[c] = (acc[c] || 0) + 1`: find the entry of `c`, then increment
      it or append a new one. */
  method BumpEntry(table: seq<Entry>, c: string) returns (t: seq<Entry>)
    ensures t == Bump(table, c)
  {
    var j := 0;
    while j < |table| && table[j].word != c
      invariant 0 <= j <= |table|
      invariant forall k :: 0 <= k < j ==> table[k].word != c
    {
      j := j + 1;
    }
    if j < |table| {
      BumpAt(table, c, j);
      t := table[j := Entry(c, table[j].count + 1)];
    } else {
      BumpAbsent(table, c);
      t := table + [Entry(c, 1)];
    }
  }

  /** `analyzeText`'s reduce: one pass over the words, looking up each
      cleaned word and incrementing or appending its entry. */
  method CountFrequencies(words: seq<string>) returns (table: seq<Entry>)
    ensures table == Frequency(words)
  {
    table := [];
    var i := 0;
    while i < |words|
      invariant 0 <= i <= |words|
      invariant table == Frequency(words[..i])
    {
      assert words[..i + 1][..i] == words[..i];
      var c := CleanWord(words[i]);
      if c != "" {
        table := BumpEntry(table, c);
      }
      i := i + 1;
    }
    assert words[..|words|] == words;
  }

  /** The number of times `k` occurs in `xs`. */
  function Occurrences(xs: seq<string>, k: string): nat
  {
    if xs == [] then 0 else Occurrences(xs[..|xs| - 1], k) + (if xs[|xs| - 1] == k then 1 else 0)
  }

  lemma {:induction false} KeysBump(t: seq<Entry>, w: string, k: string)
    ensures Keys(Bump(t, w)) == if w in Keys(t) then Keys(t) else Keys(t) + [w]
    ensures CountOf(Bump(t, w), k) == CountOf(t, k) + (if k == w then 1 else 0)
  {
    if t != [] {
      KeysBump(t[1..], w, k);
      assert Keys(t) == [t[0].word] + Keys(t[1..]);
      if t[0].word != w {
        assert w in Keys(t) <==> w in Keys(t[1..]);
        assert [t[0].word] + (Keys(t[1..]) + [w]) == Keys(t) + [w];
      }
    }
  }

  lemma DedupeSnoc(xs: seq<string>, w: string)
    ensures Dedupe(xs + [w]) == if w in Dedupe(xs) then Dedupe(xs) else Dedupe(xs) + [w]
  {
    assert (xs + [w])[..|xs|] == xs;
  }

  lemma OccurrencesSnoc(xs: seq<string>, w: string, k: string)
    ensures Occurrences(xs + [w], k) == Occurrences(xs, k) + (if w == k then 1 else 0)
  {
    assert (xs + [w])[..|xs|] == xs;
  }

  /** The table's words are the distinct non-empty cleaned words in order of
      first occurrence, and each count is the number of occurrences. */
  lemma {:induction false} FrequencyCounts(words: seq<string>, k: string)
    ensures Keys(Frequency(words)) == Dedupe(Cleaned(words))
    ensures CountOf(Frequency(words), k) == Occurrences(Cleaned(words), k)
  {
    if words != [] {
      var init := words[..|words| - 1];
      var c := CleanWord(words[|words| - 1]);
      FrequencyCounts(init, k);
      if c == "" {
        assert Cleaned(words) == Cleaned(init) + [];
        assert Cleaned(init) + [] == Cleaned(init);
      } else {
        assert Cleaned(words) == Cleaned(init) + [c];
        KeysBump(Frequency(init), c, k);
        DedupeSnoc(Cleaned(init), c);
        OccurrencesSnoc(Cleaned(init), c, k);
      }
    }
  }

  /** `uniqueWords`: the number of distinct non-empty cleaned words. */
  lemma UniqueWords(words: seq<string>)
    ensures |Frequency(words)| == |Dedupe(Cleaned(words))|
    ensures Distinct(Keys(Frequency(words)))
    ensures forall k :: k in Keys(Frequency(words)) <==> k in Cleaned(words)
  {
    FrequencyCounts(words, "");
    DedupeDistinct(Cleaned(words));
  }

  /** A JavaScript value held by the frequency object as written. */
  datatype JsValue = Number(n: nat) | Text(s: string) | ObjectFunction | Undefined

  const ObjectFunctionText: string := "function Object() { [native code] }"

  /** `acc[k]` on an object created by `{}`: missing keys fall through to
      `Object.prototype`, whose lowercase alphanumeric key is `constructor`. */
  function Lookup(acc: map<string, JsValue>, k: string): JsValue
  {
    if k in acc then acc[k] else if k == "constructor" then ObjectFunction else Undefined
  }

  /** `(acc[k] || 0) + 1`: a number is incremented, while the inherited
      function is converted to text and "1" is appended to it. */
  function Increment(v: JsValue): JsValue
  {
    match v
    case Undefined => Number(1)
    case Number(n) => if n == 0 then Number(1) else Number(n + 1)
    case ObjectFunction => Text(ObjectFunctionText + "1")
    case Text(s) => if s == "" then Number(1) else Text(s + "1")
  }

  /** The frequency object as written. */
  function FrequencyAsWritten(cleaned: seq<string>): map<string, JsValue>
  {
    if cleaned == [] then map[]
    else
      var acc := FrequencyAsWritten(cleaned[..|cleaned| - 1]);
      var k := cleaned[|cleaned| - 1];
      acc[k := Increment(Lookup(acc, k))]
  }

  lemma {:induction false} OccurrencesAbsent(xs: seq<string>, k: string)
    requires k !in xs
    ensures Occurrences(xs, k) == 0
  {
    if xs != [] {
      var init := xs[..|xs| - 1];
      assert forall x :: x in init ==> x in xs;
      OccurrencesAbsent(init, k);
    }
  }

  /** Without the word "constructor", the frequency object as written holds
      exactly the cleaned words, each with its number of occurrences. */
  lemma {:induction false} FrequencyAsWrittenCounts(cleaned: seq<string>)
    requires "constructor" !in cleaned
    ensures forall k :: k in FrequencyAsWritten(cleaned) <==> k in cleaned
    ensures forall k :: k in FrequencyAsWritten(cleaned) ==>
      FrequencyAsWritten(cleaned)[k] == Number(Occurrences(cleaned, k))
  {
    if cleaned != [] {
      var init := cleaned[..|cleaned| - 1];
      var w := cleaned[|cleaned| - 1];
      assert cleaned == init + [w];
      assert forall x :: x in cleaned <==> x in init || x == w;
      FrequencyAsWrittenCounts(init);
      var acc := FrequencyAsWritten(init);
      if w !in acc {
        OccurrencesAbsent(init, w);
      }
      assert Lookup(acc, w) == Number(Occurrences(init, w)) || Lookup(acc, w) == Undefined;
      forall k | k in FrequencyAsWritten(cleaned)
        ensures FrequencyAsWritten(cleaned)[k] == Number(Occurrences(cleaned, k))
      {
        OccurrencesSnoc(init, w, k);
      }
    }
  }

  /** Without the word "constructor", the object as written and the table
      agree on every word and every count. */
  lemma FrequencyAgrees(words: seq<string>)
    requires "constructor" !in Cleaned(words)
    ensures forall k :: k in FrequencyAsWritten(Cleaned(words)) <==> k in Keys(Frequency(words))
    ensures forall k :: k in FrequencyAsWritten(Cleaned(words)) ==>
      FrequencyAsWritten(Cleaned(words))[k] == Number(CountOf(Frequency(words), k))
  {
    FrequencyAsWrittenCounts(Cleaned(words));
    UniqueWords(words);
    forall k | k in FrequencyAsWritten(Cleaned(words))
      ensures FrequencyAsWritten(Cleaned(words))[k] == Number(CountOf(Frequency(words), k))
    {
      FrequencyCounts(words, k);
    }
  }

  /** The word "constructor" is not counted as 1 but turned into text,
      while the table keyed only by the words themselves counts it once. */
  lemma ConstructorCount()
    ensures FrequencyAsWritten(["constructor"])["constructor"] == Text(ObjectFunctionText + "1")
    ensures CountOf(Frequency(["constructor"]), "constructor") == 1
  {
    var w: string := "constructor";
    var empty: map<string, JsValue> := map[];
    assert [w][..0] == [];
    assert FrequencyAsWritten([w]) == empty[w := Increment(Lookup(empty, w))];
    assert forall j :: 0 <= j < |w| ==> IsLowerAlnum(w[j]);
    CleanWordKeeps(w);
    assert Frequency([w]) == Bump([], w);
  }

  /** A word already made of lowercase letters and digits cleans to itself. */
  lemma CleanWordKeeps(w: string)
    requires forall j :: 0 <= j < |w| ==> IsLowerAlnum(w[j])
    ensures CleanWord(w) == w
  {
    assert Lower(w) == w;
    KeepLowerAlnumKeeps(w);
  }

  lemma {:induction false} KeepLowerAlnumKeeps(s: string)
    requires forall j :: 0 <= j < |s| ==> IsLowerAlnum(s[j])
    ensures KeepLowerAlnum(s) == s
  {
    if s != [] {
      KeepLowerAlnumKeeps(s[1..]);
      assert s == [s[0]] + s[1..];
    }
  }

  // ---------------------------------------------------------------------
  // Most used words

  const StopWords: seq<string> := ["the", "a", "an", "and", "or", "but", "in", "on", "at", "to"]

  function WithoutStopWords(t: seq<Entry>): (r: seq<Entry>)
    ensures forall i :: 0 <= i < |r| ==> r[i].word !in StopWords
    ensures multiset(r) <= multiset(t)
    ensures forall i :: 0 <= i < |t| && t[i].word !in StopWords ==> t[i] in r
  {
    if t == [] then []
    else if t[0].word in StopWords then
      assert t == [t[0]] + t[1..];
      WithoutStopWords(t[1..])
    else
      assert t == [t[0]] + t[1..];
      [t[0]] + WithoutStopWords(t[1..])
  }

  ghost predicate ByCountDescending(t: seq<Entry>)
  {
    forall i, j :: 0 <= i < j < |t| ==> t[i].count >= t[j].count
  }

  /** Places `e` after the entries with a count at least its own. */
  function Insert(e: Entry, t: seq<Entry>): seq<Entry>
  {
    if t == [] || t[0].count < e.count then [e] + t else [t[0]] + Insert(e, t[1..])
  }

  lemma InsertSorted(e: Entry, t: seq<Entry>)
    requires ByCountDescending(t)
    ensures ByCountDescending(Insert(e, t))
    ensures multiset(Insert(e, t)) == multiset(t) + multiset{e}
  {
    InsertOrdered(e, t);
    InsertPermutes(e, t);
  }

  lemma {:induction false} InsertPermutes(e: Entry, t: seq<Entry>)
    ensures multiset(Insert(e, t)) == multiset(t) + multiset{e}
  {
    if t != [] && t[0].count >= e.count {
      InsertPermutes(e, t[1..]);
      assert t == [t[0]] + t[1..];
    }
  }

  /** Inserting under a bound keeps every count under it. */
  lemma {:induction false} InsertBounded(e: Entry, t: seq<Entry>, m: int)
    requires forall i :: 0 <= i < |t| ==> t[i].count <= m
    requires e.count <= m
    ensures forall i :: 0 <= i < |Insert(e, t)| ==> Insert(e, t)[i].count <= m
  {
    if t != [] && t[0].count >= e.count {
      InsertBounded(e, t[1..], m);
    }
  }

  lemma {:induction false} InsertOrdered(e: Entry, t: seq<Entry>)
    requires ByCountDescending(t)
    ensures ByCountDescending(Insert(e, t))
  {
    if t != [] && t[0].count >= e.count {
      var rest := Insert(e, t[1..]);
      assert ByCountDescending(t[1..]);
      InsertOrdered(e, t[1..]);
      InsertBounded(e, t[1..], t[0].count);
      assert Insert(e, t) == [t[0]] + rest;
    }
  }

  /** `sort(([, a], [, b]) => b - a)`, a stable sort by descending count. */
  function SortByCount(t: seq<Entry>): seq<Entry>
  {
    if t == [] then [] else Insert(t[|t| - 1], SortByCount(t[..|t| - 1]))
  }

  /** The sort orders by non-increasing count and keeps every entry. */
  lemma {:induction false} SortByCountSorted(t: seq<Entry>)
    ensures ByCountDescending(SortByCount(t)) && multiset(SortByCount(t)) == multiset(t)
  {
    if t != [] {
      SortByCountSorted(t[..|t| - 1]);
      InsertSorted(t[|t| - 1], SortByCount(t[..|t| - 1]));
      assert t == t[..|t| - 1] + [t[|t| - 1]];
    }
  }

  /** `mostUsedWords`: the first five entries of the sorted, filtered table. */
  function MostUsed(t: seq<Entry>): seq<Entry>
  {
    var sorted := SortByCount(WithoutStopWords(t));
    if |sorted| <= 5 then sorted else sorted[..5]
  }

  /** At most five entries, none a stop word, all from the table, by
      non-increasing count; and no left-out entry has a higher count than
      an entry shown. */
  lemma MostUsedShape(t: seq<Entry>)
    ensures |MostUsed(t)| <= 5
    ensures ByCountDescending(MostUsed(t))
    ensures forall i :: 0 <= i < |MostUsed(t)| ==> MostUsed(t)[i] in t && MostUsed(t)[i].word !in StopWords
    ensures forall e, i :: e in t && e.word !in StopWords && e !in MostUsed(t) && 0 <= i < |MostUsed(t)| ==>
      e.count <= MostUsed(t)[i].count
  {
    SortByCountSorted(WithoutStopWords(t));
    MostUsedFromTable(t);
    MostUsedTop(t);
  }

  lemma MostUsedFromTable(t: seq<Entry>)
    ensures forall i :: 0 <= i < |MostUsed(t)| ==> MostUsed(t)[i] in t && MostUsed(t)[i].word !in StopWords
  {
    var f := WithoutStopWords(t);
    var sorted := SortByCount(f);
    SortByCountSorted(f);
    var top := MostUsed(t);
    forall i | 0 <= i < |top| ensures top[i] in t && top[i].word !in StopWords {
      assert top[i] == sorted[i];
      assert top[i] in multiset(sorted);
      assert top[i] in multiset(t);
    }
  }

  lemma MostUsedTop(t: seq<Entry>)
    ensures forall e, i :: e in t && e.word !in StopWords && e !in MostUsed(t) && 0 <= i < |MostUsed(t)| ==>
      e.count <= MostUsed(t)[i].count
  {
    var f := WithoutStopWords(t);
    var sorted := SortByCount(f);
    SortByCountSorted(f);
    var top := MostUsed(t);
    forall e, i | e in t && e.word !in StopWords && e !in top && 0 <= i < |top|
      ensures e.count <= top[i].count
    {
      var k :| 0 <= k < |t| && t[k] == e;
      assert e in f;
      assert e in multiset(sorted);
      var j :| 0 <= j < |sorted| && sorted[j] == e;
      assert top[i] == sorted[i];
      assert forall m :: 0 <= m < |top| ==> sorted[m] == top[m] != e;
      assert j >= |top|;
    }
  }

  // ---------------------------------------------------------------------
  // Longest and shortest words

  /** `/^[a-zA-Z]+$/`. */
  predicate IsAlphaWord(w: string)
  {
    |w| > 0 && forall i :: 0 <= i < |w| ==> IsAlpha(w[i])
  }

  /** `words.filter(word => word.match(/^[a-zA-Z]+$/))`: exactly the
      alphabetic words, kept in order (see `AlphaWordsConcat`). */
  function AlphaWords(ws: seq<string>): (r: seq<string>)
    ensures forall i :: 0 <= i < |r| ==> IsAlphaWord(r[i])
    ensures forall w :: w in r <==> w in ws && IsAlphaWord(w)
  {
    if ws == [] then []
    else
      assert ws == ws[..|ws| - 1] + [ws[|ws| - 1]];
      AlphaWords(ws[..|ws| - 1]) + (if IsAlphaWord(ws[|ws| - 1]) then [ws[|ws| - 1]] else [])
  }

  /** The filter keeps the order: filtering a concatenation concatenates
      the filtered halves. */
  lemma {:induction false} AlphaWordsConcat(a: seq<string>, b: seq<string>)
    ensures AlphaWords(a + b) == AlphaWords(a) + AlphaWords(b)
  {
    if b == [] {
      assert a + b == a;
    } else {
      var ab := a + b;
      var init, last := b[..|b| - 1], b[|b| - 1];
      var kept := if IsAlphaWord(last) then [last] else [];
      calc {
        AlphaWords(ab);
        { assert ab[|ab| - 1] == last; }
        AlphaWords(ab[..|ab| - 1]) + kept;
        { assert ab[..|ab| - 1] == a + init; }
        AlphaWords(a + init) + kept;
        { AlphaWordsConcat(a, init); }
        (AlphaWords(a) + AlphaWords(init)) + kept;
        AlphaWords(a) + (AlphaWords(init) + kept);
        AlphaWords(a) + AlphaWords(b);
      }
    }
  }

  /** The reduce keeping the first word of greatest length. */
  function Longest(ws: seq<string>): (r: string)
    ensures ws == [] ==> r == ""
    ensures forall i :: 0 <= i < |ws| ==> |ws[i]| <= |r|
    ensures ws != [] ==> exists i :: 0 <= i < |ws| && ws[i] == r && forall j :: 0 <= j < i ==> |ws[j]| < |r|
  {
    if ws == [] then ""
    else
      var init := ws[..|ws| - 1];
      var l := Longest(init);
      var w := ws[|ws| - 1];
      assert forall i :: 0 <= i < |init| ==> init[i] == ws[i];
      if |w| > |l| then
        assert ws[|ws| - 1] == w;
        w
      else if init == [] then
        assert ws[0] == w == l;
        l
      else
        var i :| 0 <= i < |init| && init[i] == l && forall j :: 0 <= j < i ==> |init[j]| < |l|;
        assert ws[i] == l;
        l
  }

  /** The reduce keeping the first word of least length; an empty
      accumulator is replaced by the next word. */
  function Shortest(ws: seq<string>): (r: string)
    ensures ws == [] ==> r == ""
    ensures (forall i :: 0 <= i < |ws| ==> ws[i] != "") ==>
      && (forall i :: 0 <= i < |ws| ==> |r| <= |ws[i]|)
      && (ws != [] ==> exists i :: 0 <= i < |ws| && ws[i] == r && forall j :: 0 <= j < i ==> |r| < |ws[j]|)
  {
    if ws == [] then ""
    else
      var init := ws[..|ws| - 1];
      var s := Shortest(init);
      var w := ws[|ws| - 1];
      if s == "" || |w| < |s| then
        assert (forall i :: 0 <= i < |ws| ==> ws[i] != "") && s == "" ==> init == [];
        assert ws[|ws| - 1] == w;
        w
      else if forall i :: 0 <= i < |ws| ==> ws[i] != "" then
        assert forall i :: 0 <= i < |init| ==> init[i] == ws[i];
        var i :| 0 <= i < |init| && init[i] == s && forall j :: 0 <= j < i ==> |s| < |init[j]|;
        assert ws[i] == s;
        s
      else
        s
  }

  /** The longest and shortest of alphabetic words are alphabetic words. */
  lemma ExtremesAlpha(alpha: seq<string>)
    requires forall i :: 0 <= i < |alpha| ==> IsAlphaWord(alpha[i])
    ensures Longest(alpha) == "" || IsAlphaWord(Longest(alpha))
    ensures Shortest(alpha) == "" || IsAlphaWord(Shortest(alpha))
  {
    if alpha != [] {
      var longest, shortest := Longest(alpha), Shortest(alpha);
      var i :| 0 <= i < |alpha| && alpha[i] == longest && forall j :: 0 <= j < i ==> |alpha[j]| < |longest|;
      var k :| 0 <= k < |alpha| && alpha[k] == shortest && forall j :: 0 <= j < k ==> |shortest| < |alpha[j]|;
    }
  }

  // ---------------------------------------------------------------------
  // The analysis

  datatype Stats = Stats(
    characters: nat, words: nat, sentences: nat, paragraphs: nat,
    readingTime: string, speakingTime: string,
    mostUsedWords: seq<Entry>, uniqueWords: nat,
    longestWord: string, shortestWord: string)

  /** `analyzeText`: no statistics for blank text; otherwise the words are
      the maximal non-whitespace runs, the distinct words are counted once
      each, and the longest and shortest words are alphabetic. */
  function Analyze(text: string): (s: Option<Stats>)
    ensures s.None? <==> !HasNonSpace(text)
    ensures s.Some? ==> s.value.characters == |text| && s.value.words == RunCount(text, IsSpace)
    ensures s.Some? ==> s.value.uniqueWords == |Dedupe(Cleaned(Words(text)))|
    ensures s.Some? ==> s.value.longestWord == "" || IsAlphaWord(s.value.longestWord)
    ensures s.Some? ==> s.value.shortestWord == "" || IsAlphaWord(s.value.shortestWord)
    ensures s.Some? ==> (s.value.longestWord == Longest(AlphaWords(Words(text))) &&
                         s.value.shortestWord == Shortest(AlphaWords(Words(text))))
    ensures s.Some? ==> s.value.sentences == |Sentences(text)| && s.value.paragraphs == |Paragraphs(text)|
    ensures s.Some? ==> s.value.mostUsedWords == MostUsed(Frequency(Words(text)))
    ensures s.Some? ==> (s.value.readingTime == FormatTime(|Words(text)|, 200) &&
                         s.value.speakingTime == FormatTime(|Words(text)|, 130))
    ensures s.Some? && Round(60 * (|Words(text)| % 200), 200) < 60 ==>
      s.value.readingTime == FormatTimeAsWritten(|Words(text)|, 200)
    ensures s.Some? && Round(60 * (|Words(text)| % 130), 130) < 60 ==>
      s.value.speakingTime == FormatTimeAsWritten(|Words(text)|, 130)
  {
    TrimEmpty(text);
    if Trim(text) == [] then None
    else
      var words := Words(text);
      WordsAreRuns(text);
      var table := Frequency(words);
      UniqueWords(words);
      FormatTimeAgrees(|words|, 200);
      FormatTimeAgrees(|words|, 130);
      var alpha := AlphaWords(words);
      var longest, shortest := Longest(alpha), Shortest(alpha);
      ExtremesAlpha(alpha);
      Some(Stats(
        |text|, |words|, |Sentences(text)|, |Paragraphs(text)|,
        FormatTime(|words|, 200), FormatTime(|words|, 130),
        MostUsed(table), |table|, longest, shortest))
  }
}
