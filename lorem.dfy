/**
 * The lorem-ipsum generator widget: the random word count of each text
 * length, sentences of 10 to 19 lorem words, paragraphs of about one
 * sentence per ten words, and the three generation modes. Every
 * `Math.random()` call is one draw from the oracle, in program order.
 */
module Lorem {
  import opened Wrappers
  import opened Strings
  import opened Random

  // The 66-entry word list (with its repeated "ut", "dolor" and "dolore"),
  // in its own order, written as eleven rows of six.
  const Row0: seq<string> := ["lorem", "ipsum", "dolor", "sit", "amet", "consectetur"]
  const Row1: seq<string> := ["adipiscing", "elit", "sed", "do", "eiusmod", "tempor"]
  const Row2: seq<string> := ["incididunt", "ut", "labore", "et", "dolore", "magna"]
  const Row3: seq<string> := ["aliqua", "enim", "ad", "minim", "veniam", "quis"]
  const Row4: seq<string> := ["nostrud", "exercitation", "ullamco", "laboris", "nisi", "ut"]
  const Row5: seq<string> := ["aliquip", "ex", "ea", "commodo", "consequat", "duis"]
  const Row6: seq<string> := ["aute", "irure", "dolor", "in", "reprehenderit", "voluptate"]
  const Row7: seq<string> := ["velit", "esse", "cillum", "dolore", "eu", "fugiat"]
  const Row8: seq<string> := ["nulla", "pariatur", "excepteur", "sint", "occaecat", "cupidatat"]
  const Row9: seq<string> := ["non", "proident", "sunt", "culpa", "qui", "officia"]
  const Row10: seq<string> := ["deserunt", "mollit", "anim", "id", "est", "laborum"]

  const LoremWords: seq<string> := Row0 + Row1 + Row2 + Row3 + Row4 + Row5 + Row6 + Row7 + Row8 + Row9 + Row10

  datatype TextLength = Short | Medium | Long

  datatype GenerationType = Paragraphs | Sentences | Words

  /** A non-empty word of lowercase ASCII letters. */
  predicate IsLowerWord(w: string)
  {
    w != [] && forall j :: 0 <= j < |w| ==> 'a' <= w[j] <= 'z'
  }

  ghost predicate AllLower(ws: seq<string>)
  {
    forall i :: 0 <= i < |ws| ==> IsLowerWord(ws[i])
  }

  lemma LowerAppend(a: seq<string>, b: seq<string>)
    requires AllLower(a) && AllLower(b)
    ensures AllLower(a + b)
  {
    assert forall i :: |a| <= i < |a + b| ==> (a + b)[i] == b[i - |a|];
  }

  lemma RowsLower0()
    ensures AllLower(Row0)
    ensures AllLower(Row1)
  {
  }

  lemma RowsLower1()
    ensures AllLower(Row2)
    ensures AllLower(Row3)
  {
  }

  lemma RowsLower2()
    ensures AllLower(Row4)
    ensures AllLower(Row5)
  {
  }

  lemma RowsLower3()
    ensures AllLower(Row6)
    ensures AllLower(Row7)
  {
  }

  lemma RowsLower4()
    ensures AllLower(Row8)
    ensures AllLower(Row9)
  {
  }

  lemma RowsLower5()
    ensures AllLower(Row10)
  {
  }

  /** The list holds 66 words. */
  lemma LoremWordsCount()
    ensures |LoremWords| == 66
  {
  }

  /** Every lorem word is a non-empty run of lowercase letters, so none
      holds a space, a full stop or a line break. */
  lemma LoremWordsLower()
    ensures |LoremWords| == 66
    ensures AllLower(LoremWords)
  {
    RowsLower0();
    RowsLower1();
    RowsLower2();
    RowsLower3();
    RowsLower4();
    RowsLower5();
    LowerAppend(Row0, Row1);
    LowerAppend(Row0 + Row1, Row2);
    LowerAppend(Row0 + Row1 + Row2, Row3);
    LowerAppend(Row0 + Row1 + Row2 + Row3, Row4);
    LowerAppend(Row0 + Row1 + Row2 + Row3 + Row4, Row5);
    LowerAppend(Row0 + Row1 + Row2 + Row3 + Row4 + Row5, Row6);
    LowerAppend(Row0 + Row1 + Row2 + Row3 + Row4 + Row5 + Row6, Row7);
    LowerAppend(Row0 + Row1 + Row2 + Row3 + Row4 + Row5 + Row6 + Row7, Row8);
    LowerAppend(Row0 + Row1 + Row2 + Row3 + Row4 + Row5 + Row6 + Row7 + Row8, Row9);
    LowerAppend(Row0 + Row1 + Row2 + Row3 + Row4 + Row5 + Row6 + Row7 + Row8 + Row9, Row10);
  }

  // ---------------------------------------------------------------------
  // counting a character across concatenation and join

  lemma {:induction false} CountAppend(a: string, b: string, c: char)
    ensures Count(a + b, c) == Count(a, c) + Count(b, c)
  {
    if a != [] {
      assert (a + b)[1..] == a[1..] + b;
      CountAppend(a[1..], b, c);
    } else {
      assert a + b == b;
    }
  }

  lemma {:induction false} CountLower(w: string, c: char)
    requires forall j :: 0 <= j < |w| ==> 'a' <= w[j] <= 'z'
    requires !('a' <= c <= 'z')
    ensures Count(w, c) == 0
  {
    if w != [] {
      CountLower(w[1..], c);
    }
  }

  /** Joining parts that each hold one `c`, with separators that hold
      none, gives one `c` per part. */
  lemma {:induction false} CountJoinOnes(parts: seq<string>, sep: string, c: char)
    requires forall i :: 0 <= i < |parts| ==> Count(parts[i], c) == 1
    requires Count(sep, c) == 0
    ensures Count(Join(parts, sep), c) == |parts|
  {
    if |parts| > 1 {
      CountJoinOnes(parts[1..], sep, c);
      CountAppend(parts[0], sep, c);
      CountAppend(parts[0] + sep, Join(parts[1..], sep), c);
    }
  }

  /** Joining parts that hold no `c` with separators that hold none. */
  lemma {:induction false} CountJoinNone(parts: seq<string>, sep: string, c: char)
    requires forall i :: 0 <= i < |parts| ==> Count(parts[i], c) == 0
    requires Count(sep, c) == 0
    ensures Count(Join(parts, sep), c) == 0
  {
    if |parts| > 1 {
      CountJoinNone(parts[1..], sep, c);
      CountAppend(parts[0], sep, c);
      CountAppend(parts[0] + sep, Join(parts[1..], sep), c);
    }
  }

  /** Joining line-free parts with a blank line between each pair: two
      line breaks per gap. */
  lemma {:induction false} CountJoinBlank(parts: seq<string>)
    requires forall i :: 0 <= i < |parts| ==> Count(parts[i], '\n') == 0
    ensures parts != [] ==> Count(Join(parts, "\n\n"), '\n') == 2 * (|parts| - 1)
  {
    if |parts| > 1 {
      CountJoinBlank(parts[1..]);
      CountAppend(parts[0], "\n\n", '\n');
      CountAppend(parts[0] + "\n\n", Join(parts[1..], "\n\n"), '\n');
    }
  }

  // ---------------------------------------------------------------------
  // getWordCount

  /** `getWordCount`: one draw, scaled to the range of the length. */
  function WordCount(len: TextLength, rand: Oracle, k: nat): (n: nat)
    ensures len == Short ==> 10 <= n < 20
    ensures len == Medium ==> 20 <= n < 40
    ensures len == Long ==> 40 <= n < 70
  {
    match len
    case Short => Pick(rand, k, 10) + 10
    case Medium => Pick(rand, k, 20) + 20
    case Long => Pick(rand, k, 30) + 40
  }

  /** Every count in the range of a length is reached by some draw. */
  lemma WordCountReaches(len: TextLength, n: nat)
    requires len == Short ==> 10 <= n < 20
    requires len == Medium ==> 20 <= n < 40
    requires len == Long ==> 40 <= n < 70
    ensures var low := match len case Short => 10 case Medium => 20 case Long => 40;
      WordCount(len, _ => n - low, 0) == n
  {
  }

  // ---------------------------------------------------------------------
  // words and sentences

  /** `list[Math.floor(Math.random() * list.length)]` at draw `k`. */
  function Draw(list: seq<string>, rand: Oracle, k: nat): (w: string)
    requires list != []
  {
    list[Pick(rand, k, |list|)]
  }

  /** The entries picked by `n` consecutive draws starting at draw `k`. */
  function Draws(list: seq<string>, rand: Oracle, k: nat, n: nat): (ws: seq<string>)
    requires list != []
    ensures |ws| == n
  {
    if n == 0 then [] else Draws(list, rand, k, n - 1) + [Draw(list, rand, k + n - 1)]
  }

  /** Each drawn word is an entry of the list. */
  lemma {:induction false} DrawsFrom(list: seq<string>, rand: Oracle, k: nat, n: nat)
    requires list != []
    ensures forall i :: 0 <= i < n ==>
      exists j :: 0 <= j < |list| && list[j] == Draws(list, rand, k, n)[i]
  {
    if n > 0 {
      DrawsFrom(list, rand, k, n - 1);
      var ws := Draws(list, rand, k, n);
      forall i | 0 <= i < n
        ensures exists j :: 0 <= j < |list| && list[j] == ws[i]
      {
        if i < n - 1 {
          assert ws[i] == Draws(list, rand, k, n - 1)[i];
        } else {
          assert list[Pick(rand, k + n - 1, |list|)] == ws[i];
        }
      }
    }
  }

  /** The loop of `generateSentence` and of the `words` branch: `n` draws
      from `list`, pushed in order. */
  method DrawWords(list: seq<string>, rand: Oracle, k: nat, n: nat) returns (words: seq<string>, next: nat)
    requires list != []
    ensures words == Draws(list, rand, k, n) && next == k + n
  {
    words := [];
    next := k;
    var i := 0;
    while i < n
      invariant 0 <= i <= n
      invariant words == Draws(list, rand, k, i) && next == k + i
    {
      words := words + [list[Pick(rand, next, |list|)]];
      next := next + 1;
      i := i + 1;
    }
  }

  /** The lorem words picked by `n` consecutive draws starting at draw `k`. */
  function PickWords(rand: Oracle, k: nat, n: nat): (ws: seq<string>)
    ensures |ws| == n
  {
    LoremWordsCount();
    Draws(LoremWords, rand, k, n)
  }

  /** One of the entries of the word list. */
  ghost predicate IsLoremWord(w: string)
  {
    exists j :: 0 <= j < |LoremWords| && LoremWords[j] == w
  }

  /** Each picked word is an entry of the list, so a run of lowercase
      letters. */
  lemma PickWordsShape(rand: Oracle, k: nat, n: nat)
    ensures forall i :: 0 <= i < n ==>
      IsLoremWord(PickWords(rand, k, n)[i]) && IsLowerWord(PickWords(rand, k, n)[i])
  {
    LoremWordsLower();
    DrawsFrom(LoremWords, rand, k, n);
  }

  /** `generateSentence` starting at draw `k`: the sentence and the next
      unused draw (one for the count, one per word). */
  function SentenceOf(rand: Oracle, k: nat): (r: (string, nat))
    ensures 11 <= r.1 - k <= 20
  {
    var count := WordCount(Short, rand, k);
    (Join(PickWords(rand, k + 1, count), " ") + ".", k + 1 + count)
  }

  /** What every sentence looks like: 10 to 19 lorem words separated by
      single spaces, then a full stop. */
  ghost predicate IsLoremSentence(s: string)
  {
    && s != [] && s[|s| - 1] == '.'
    && var ws := Split(s[..|s| - 1], ' ');
    && 10 <= |ws| < 20
    && forall i :: 0 <= i < |ws| ==> IsLoremWord(ws[i])
  }

  method GenerateSentence(rand: Oracle, k: nat) returns (s: string, next: nat)
    ensures (s, next) == SentenceOf(rand, k)
  {
    var wordCount := WordCount(Short, rand, k);
    LoremWordsCount();
    var words;
    words, next := DrawWords(LoremWords, rand, k + 1, wordCount);
    s := Join(words, " ") + ".";
  }

  /** A generated sentence is a lorem sentence with exactly one full stop
      and no line break. */
  lemma SentenceShape(rand: Oracle, k: nat)
    ensures IsLoremSentence(SentenceOf(rand, k).0)
    ensures Count(SentenceOf(rand, k).0, '.') == 1
    ensures Count(SentenceOf(rand, k).0, '\n') == 0
  {
    var count := WordCount(Short, rand, k);
    var ws := PickWords(rand, k + 1, count);
    PickWordsShape(rand, k + 1, count);
    JoinedWords(ws);
  }

  /** Lowercase words joined by spaces and closed by a full stop split back
      into the same words, with one full stop and no line break. */
  lemma JoinedWords(ws: seq<string>)
    requires forall i :: 0 <= i < |ws| ==> IsLowerWord(ws[i])
    ensures var s := Join(ws, " ") + ".";
      && s[..|s| - 1] == Join(ws, " ")
      && (ws != [] ==> Split(s[..|s| - 1], ' ') == ws)
      && Count(s, '.') == 1 && Count(s, '\n') == 0
  {
    var body := Join(ws, " ");
    var s := body + ".";
    assert s[..|s| - 1] == body;
    if ws != [] {
      assert NoneContains(ws, ' ') by {
        forall i | 0 <= i < |ws| ensures ' ' !in ws[i] {
          assert IsLowerWord(ws[i]);
        }
      }
      SplitJoin(ws, ' ');
    }
    forall i | 0 <= i < |ws| ensures Count(ws[i], '.') == 0 && Count(ws[i], '\n') == 0 {
      CountLower(ws[i], '.');
      CountLower(ws[i], '\n');
    }
    CountJoinNone(ws, " ", '.');
    CountJoinNone(ws, " ", '\n');
    CountAppend(body, ".", '.');
    CountAppend(body, ".", '\n');
  }

  /** Consecutive sentences starting at draw `k`, and the next unused draw. */
  function SentencesOf(rand: Oracle, k: nat, n: nat): (r: (seq<string>, nat))
    ensures |r.0| == n
    ensures k + 11 * n <= r.1 <= k + 20 * n
  {
    if n == 0 then ([], k)
    else
      var prev := SentencesOf(rand, k, n - 1);
      var s := SentenceOf(rand, prev.1);
      (prev.0 + [s.0], s.1)
  }

  /** What `SentenceShape` shows of one sentence. */
  ghost predicate WellFormedSentence(s: string)
  {
    IsLoremSentence(s) && Count(s, '.') == 1 && Count(s, '\n') == 0
  }

  lemma {:induction false} SentencesShape(rand: Oracle, k: nat, n: nat)
    ensures forall i :: 0 <= i < n ==> WellFormedSentence(SentencesOf(rand, k, n).0[i])
  {
    if n > 0 {
      var prev := SentencesOf(rand, k, n - 1);
      var last := SentenceOf(rand, prev.1).0;
      SentencesShape(rand, k, n - 1);
      SentenceShape(rand, prev.1);
      SentencesSnoc(prev.0, last);
    }
  }

  lemma SentencesSnoc(ss: seq<string>, s: string)
    requires forall i :: 0 <= i < |ss| ==> WellFormedSentence(ss[i])
    requires WellFormedSentence(s)
    ensures forall i :: 0 <= i < |ss| + 1 ==> WellFormedSentence((ss + [s])[i])
  {
    assert forall i :: 0 <= i < |ss| ==> (ss + [s])[i] == ss[i];
  }

  // ---------------------------------------------------------------------
  // paragraphs

  /** The number of sentences `generateParagraph` writes for a word count.
      Its loop runs while `i < count / 10` over the reals, that is while
      `10 * i < count`: the least `n` with `10 * n >= count`. */
  function SentencesPerParagraph(count: nat): (n: nat)
    ensures 10 * n >= count
    ensures n == 0 || 10 * (n - 1) < count
  {
    (count + 9) / 10
  }

  /** `generateParagraph` starting at draw `k`: one draw for the length,
      then the sentences, joined by single spaces. */
  function ParagraphOf(len: TextLength, rand: Oracle, k: nat): (r: (string, nat))
    ensures r.1 > k
  {
    var count := WordCount(len, rand, k);
    var ss := SentencesOf(rand, k + 1, SentencesPerParagraph(count));
    (Join(ss.0, " "), ss.1)
  }

  method GenerateParagraph(len: TextLength, rand: Oracle, k: nat) returns (p: string, next: nat)
    ensures (p, next) == ParagraphOf(len, rand, k)
  {
    var sentences: seq<string> := [];
    var wordCount := WordCount(len, rand, k);
    ghost var n := SentencesPerParagraph(wordCount);
    next := k + 1;
    var i := 0;
    while 10 * i < wordCount
      invariant i <= n
      invariant (sentences, next) == SentencesOf(rand, k + 1, i)
      decreases n - i
    {
      var s;
      s, next := GenerateSentence(rand, next);
      sentences := sentences + [s];
      i := i + 1;
    }
    assert i == n;
    p := Join(sentences, " ");
  }

  /** The fewest and the most sentences a paragraph of each length has. */
  function MinSentences(len: TextLength): nat
  {
    match len case Short => 1 case Medium => 2 case Long => 4
  }

  function MaxSentences(len: TextLength): nat
  {
    match len case Short => 2 case Medium => 4 case Long => 7
  }

  /** A paragraph holds one full stop per sentence, ⌈count / 10⌉ of them,
      and no line break. */
  lemma ParagraphShape(len: TextLength, rand: Oracle, k: nat)
    ensures var p := ParagraphOf(len, rand, k).0;
      && Count(p, '.') == SentencesPerParagraph(WordCount(len, rand, k))
      && MinSentences(len) <= Count(p, '.') <= MaxSentences(len)
      && Count(p, '\n') == 0
  {
    var n := SentencesPerParagraph(WordCount(len, rand, k));
    var ss := SentencesOf(rand, k + 1, n).0;
    SentencesShape(rand, k + 1, n);
    assert forall i :: 0 <= i < |ss| ==> WellFormedSentence(ss[i]);
    CountJoinOnes(ss, " ", '.');
    CountJoinNone(ss, " ", '\n');
  }

  /** Consecutive paragraphs starting at draw `k`, and the next unused draw. */
  function ParagraphsOf(len: TextLength, rand: Oracle, k: nat, n: nat): (r: (seq<string>, nat))
    ensures |r.0| == n
    ensures r.1 >= k + n
  {
    if n == 0 then ([], k)
    else
      var prev := ParagraphsOf(len, rand, k, n - 1);
      var p := ParagraphOf(len, rand, prev.1);
      (prev.0 + [p.0], p.1)
  }

  /** What `ParagraphShape` shows of one paragraph of a length. */
  ghost predicate WellFormedParagraph(len: TextLength, p: string)
  {
    Count(p, '\n') == 0 && MinSentences(len) <= Count(p, '.') <= MaxSentences(len)
  }

  lemma {:induction false} ParagraphsShape(len: TextLength, rand: Oracle, k: nat, n: nat)
    ensures forall i :: 0 <= i < n ==> WellFormedParagraph(len, ParagraphsOf(len, rand, k, n).0[i])
  {
    if n > 0 {
      var prev := ParagraphsOf(len, rand, k, n - 1);
      var last := ParagraphOf(len, rand, prev.1).0;
      ParagraphsShape(len, rand, k, n - 1);
      ParagraphWellFormed(len, rand, prev.1);
      ParagraphsSnoc(len, prev.0, last);
      assert ParagraphsOf(len, rand, k, n).0 == prev.0 + [last];
    }
  }

  lemma ParagraphWellFormed(len: TextLength, rand: Oracle, k: nat)
    ensures WellFormedParagraph(len, ParagraphOf(len, rand, k).0)
  {
    ParagraphShape(len, rand, k);
  }

  lemma ParagraphsSnoc(len: TextLength, ps: seq<string>, p: string)
    requires forall i :: 0 <= i < |ps| ==> WellFormedParagraph(len, ps[i])
    requires WellFormedParagraph(len, p)
    ensures forall i :: 0 <= i < |ps| + 1 ==> WellFormedParagraph(len, (ps + [p])[i])
  {
    assert forall i :: 0 <= i < |ps| ==> (ps + [p])[i] == ps[i];
  }

  // ---------------------------------------------------------------------
  // generateLorem

  /** The text `generateLorem` produces for a mode and an amount, or None
      when `Array(amount)` throws (a negative amount in the paragraph and
      sentence modes), with the next unused draw. */
  function Generate(g: GenerationType, amount: int, len: TextLength, rand: Oracle, k: nat)
    : (r: (Option<string>, nat))
    ensures r.0.None? <==> g != Words && amount < 0
    ensures r.0.None? ==> r.1 == k
  {
    match g
    case Paragraphs =>
      if amount < 0 then (None, k)
      else
        var ps := ParagraphsOf(len, rand, k, amount);
        (Some(Join(ps.0, "\n\n")), ps.1)
    case Sentences =>
      if amount < 0 then (None, k)
      else
        var ss := SentencesOf(rand, k, amount);
        (Some(Join(ss.0, " ")), ss.1)
    case Words =>
      var n := if amount < 0 then 0 else amount;
      (Some(Join(PickWords(rand, k, n), " ") + "."), k + n)
  }

  /** Paragraph mode: `amount` paragraphs separated by blank lines, so
      exactly 2 * (amount - 1) line breaks, and between the fewest and the
      most sentences of the length in each. */
  lemma ParagraphMode(amount: int, len: TextLength, rand: Oracle, k: nat)
    requires amount >= 0
    ensures var text := Generate(Paragraphs, amount, len, rand, k).0.value;
      && (amount == 0 ==> text == "")
      && (amount > 0 ==> Count(text, '\n') == 2 * (amount - 1))
  {
    var ps := ParagraphsOf(len, rand, k, amount).0;
    ParagraphsShape(len, rand, k, amount);
    assert forall i :: 0 <= i < |ps| ==> WellFormedParagraph(len, ps[i]);
    CountJoinBlank(ps);
  }

  /** Sentence mode: `amount` lorem sentences joined by spaces, so exactly
      `amount` full stops and no line break. */
  lemma SentenceMode(amount: int, len: TextLength, rand: Oracle, k: nat)
    requires amount >= 0
    ensures var text := Generate(Sentences, amount, len, rand, k).0.value;
      && Count(text, '.') == amount
      && Count(text, '\n') == 0
  {
    var ss := SentencesOf(rand, k, amount).0;
    SentencesShape(rand, k, amount);
    assert forall i :: 0 <= i < |ss| ==> WellFormedSentence(ss[i]);
    CountJoinOnes(ss, " ", '.');
    CountJoinNone(ss, " ", '\n');
  }

  /** Word mode: the text ends in a full stop; before it stand `amount`
      lorem words separated by single spaces, or nothing at all when the
      amount is not positive (the loop never runs). */
  lemma WordMode(amount: int, len: TextLength, rand: Oracle, k: nat)
    ensures var text := Generate(Words, amount, len, rand, k).0.value;
      && text != [] && text[|text| - 1] == '.'
      && (amount <= 0 ==> text == ".")
      && (amount > 0 ==> var ws := Split(text[..|text| - 1], ' ');
            |ws| == amount && forall i :: 0 <= i < amount ==> IsLoremWord(ws[i]))
  {
    var n := if amount < 0 then 0 else amount;
    var ws := PickWords(rand, k, n);
    PickWordsShape(rand, k, n);
    JoinedWords(ws);
  }

  /** The widget's state: the output text and the three controls. */
  class LoremPage {
    var output: string
    var generationType: GenerationType
    var amount: int
    var textLength: TextLength

    constructor()
      ensures output == "" && generationType == Paragraphs && amount == 3 && textLength == Medium
    {
      output := "";
      generationType := Paragraphs;
      amount := 3;
      textLength := Medium;
    }

    /** `generateLorem`: builds the text of the selected mode and shows it;
        when `Array(amount)` throws, the output is left as it was. */
    method GenerateLorem(rand: Oracle, k: nat) returns (next: nat)
      modifies this
      ensures var r := Generate(old(generationType), old(amount), old(textLength), rand, k);
        && next == r.1
        && output == (if r.0.Some? then r.0.value else old(output))
      ensures generationType == old(generationType) && amount == old(amount)
      ensures textLength == old(textLength)
    {
      var text;
      text, next := Run(generationType, amount, textLength, rand, k);
      if text.Some? {
        output := text.value;
      }
    }
  }

  /** The body of `generateLorem` before the output is set. */
  method Run(g: GenerationType, amount: int, len: TextLength, rand: Oracle, k: nat)
    returns (text: Option<string>, next: nat)
    ensures (text, next) == Generate(g, amount, len, rand, k)
  {
    match g
    case Paragraphs =>
      if amount < 0 {
        return None, k;
      }
      var paragraphs;
      paragraphs, next := GenerateParagraphs(len, rand, k, amount);
      text := Some(Join(paragraphs, "\n\n"));
    case Sentences =>
      if amount < 0 {
        return None, k;
      }
      var sentences;
      sentences, next := GenerateSentences(rand, k, amount);
      text := Some(Join(sentences, " "));
    case Words =>
      var words;
      words, next := GenerateWords(rand, k, amount);
      text := Some(Join(words, " ") + ".");
  }

  /** The `words` branch: `amount` picks, none when it is not positive. */
  method GenerateWords(rand: Oracle, k: nat, amount: int) returns (words: seq<string>, next: nat)
    ensures var n := if amount < 0 then 0 else amount;
      words == PickWords(rand, k, n) && next == k + n
  {
    var n: nat := if amount < 0 then 0 else amount;
    LoremWordsCount();
    words, next := DrawWords(LoremWords, rand, k, n);
  }

  /** `Array(count).fill(null).map(() => generateParagraph())`. */
  method GenerateParagraphs(len: TextLength, rand: Oracle, k: nat, count: nat)
    returns (paragraphs: seq<string>, next: nat)
    ensures (paragraphs, next) == ParagraphsOf(len, rand, k, count)
  {
    paragraphs := [];
    next := k;
    var i := 0;
    while i < count
      invariant 0 <= i <= count
      invariant (paragraphs, next) == ParagraphsOf(len, rand, k, i)
    {
      var p;
      p, next := GenerateParagraph(len, rand, next);
      paragraphs := paragraphs + [p];
      i := i + 1;
    }
  }

  /** `Array(count).fill(null).map(() => generateSentence())`. */
  method GenerateSentences(rand: Oracle, k: nat, count: nat)
    returns (sentences: seq<string>, next: nat)
    ensures (sentences, next) == SentencesOf(rand, k, count)
  {
    sentences := [];
    next := k;
    var i := 0;
    while i < count
      invariant 0 <= i <= count
      invariant (sentences, next) == SentencesOf(rand, k, i)
    {
      var s;
      s, next := GenerateSentence(rand, next);
      sentences := sentences + [s];
      i := i + 1;
    }
  }
}
