/**
 * The text formatter page: the input and output texts, and the undo/redo
 * history of typed texts with its cursor. Typing truncates the history
 * after the cursor and appends; undo and redo only move the cursor and load
 * the entry; formatting and find/replace overwrite the texts and leave the
 * history alone.
 */
module FormatterPage {
  import opened Wrappers
  import opened Strings
  import TextFormatter
  import Base64
  import UrlCodec

  /** The keys of the `formatText` table. */
  datatype FormatKey =
    | Bold | Italic | Underline | Strikethrough | Subscript | Superscript
    | Uppercase | Lowercase | Capitalize | Sentence | Toggle
    | RemoveExtraSpaces | Trim | TabsToSpaces | SpacesToTabs | AddLineBreaks | RemoveLineBreaks
    | ToNumberedList | ToBulletedList | RemoveSpecialChars | RemoveHtmlTags
    | RemoveDuplicateLines | RemoveDuplicateWords
    | UrlEncode | UrlDecode | Base64Encode | Base64Decode | EscapeHtml | UnescapeHtml
    | GenerateLoremIpsum | CountWords | CountCharacters | CountLines

  /** What `handleFormat` does with a key: a new text, an exception out of
      the formatter, or the `default` branch for the entries that are not
      text-to-text. */
  datatype Outcome = Formatted(text: string) | Threw | NotAFormat

  /** A formatter that throws leaves `handleFormat` with an exception. */
  function FromResult<E>(r: Result<string, E>): (o: Outcome)
    ensures o.Threw? <==> r.Err?
    ensures r.Ok? ==> o == Formatted(r.value)
  {
    match r
    case Ok(t) => Formatted(t)
    case Err(_) => Threw
  }

  /** The switch of `handleFormat`; tab conversions use their default of 4 spaces. */
  function Apply(key: FormatKey, input: string): (o: Outcome)
    ensures o.NotAFormat? <==> key.GenerateLoremIpsum? || key.CountWords? || key.CountCharacters? || key.CountLines?
    ensures o.Threw? ==> key.UrlDecode? || key.Base64Encode? || key.Base64Decode?
  {
    match key
    case UrlEncode => Formatted(UrlCodec.Encode(input))
    case UrlDecode => FromResult(UrlCodec.Decode(input))
    case Base64Encode => FromResult(Base64.Encode(input))
    case Base64Decode => FromResult(Base64.Decode(input))
    case GenerateLoremIpsum => NotAFormat
    case CountWords => NotAFormat
    case CountCharacters => NotAFormat
    case CountLines => NotAFormat
    case _ => Formatted(Transform(key, input))
  }

  /** The entries of the switch that cannot fail: one text transformation each. */
  function Transform(key: FormatKey, input: string): string
  {
    match key
    case Bold => TextFormatter.Bold(input)
    case Italic => TextFormatter.Italic(input)
    case Underline => TextFormatter.Underline(input)
    case Strikethrough => TextFormatter.Strikethrough(input)
    case Subscript => TextFormatter.Subscript(input)
    case Superscript => TextFormatter.Superscript(input)
    case Uppercase => TextFormatter.Uppercase(input)
    case Lowercase => TextFormatter.Lowercase(input)
    case Capitalize => TextFormatter.Capitalize(input)
    case Sentence => TextFormatter.Sentence(input)
    case Toggle => TextFormatter.Toggle(input)
    case RemoveExtraSpaces => TextFormatter.RemoveExtraSpaces(input)
    case Trim => TextFormatter.TrimText(input)
    case TabsToSpaces => TextFormatter.TabsToSpaces(input, 4)
    case SpacesToTabs => TextFormatter.SpacesToTabs(input, 4)
    case AddLineBreaks => TextFormatter.AddLineBreaks(input)
    case RemoveLineBreaks => TextFormatter.RemoveLineBreaks(input)
    case ToNumberedList => TextFormatter.ToNumberedList(input)
    case ToBulletedList => TextFormatter.ToBulletedList(input)
    case RemoveSpecialChars => TextFormatter.RemoveSpecialChars(input)
    case RemoveHtmlTags => TextFormatter.RemoveHtmlTags(input)
    case RemoveDuplicateLines => TextFormatter.RemoveDuplicateLines(input)
    case RemoveDuplicateWords => TextFormatter.RemoveDuplicateWords(input)
    case EscapeHtml => TextFormatter.EscapeHtml(input)
    case UnescapeHtml => TextFormatter.UnescapeHtml(input)
    case _ => input
  }

  /** URL-encoding then URL-decoding through the page gives the text back. */
  lemma UrlRoundTrip(text: string)
    ensures Apply(UrlDecode, Apply(UrlEncode, text).text) == Formatted(text)
  {
    var e := UrlCodec.Encode(text);
    assert Apply(UrlEncode, text) == Formatted(e);
    UrlCodec.DecodeEncode(text);
    UrlDecodeEntry(e);
  }

  // The decoder entries show whatever the decoder returns.
  lemma UrlDecodeEntry(e: string)
    ensures Apply(UrlDecode, e) == FromResult(UrlCodec.Decode(e))
  {
  }

  lemma Base64DecodeEntry(e: string)
    ensures Apply(Base64Decode, e) == FromResult(Base64.Decode(e))
  {
  }

  /** Base64 round trip through the page, for text `btoa` accepts. */
  lemma Base64RoundTrip(text: string)
    requires Base64.Encode(text).Ok?
    ensures Apply(Base64Decode, Apply(Base64Encode, text).text) == Formatted(text)
  {
    var e := Base64.Encode(text).value;
    assert Apply(Base64Encode, text) == Formatted(e);
    Base64.DecodeEncode(text);
    Base64DecodeEntry(e);
  }

  /** HTML escaping then unescaping through the page gives the text back. */
  lemma HtmlRoundTrip(text: string)
    ensures Apply(UnescapeHtml, Apply(EscapeHtml, text).text) == Formatted(text)
  {
    var e := TextFormatter.EscapeHtml(text);
    assert Apply(EscapeHtml, text) == Formatted(e);
    TextFormatter.UnescapeEscape(text);
    assert Transform(UnescapeHtml, e) == TextFormatter.UnescapeHtml(e);
  }

  /** The page's state as a value. */
  datatype Snapshot = Snapshot(input: string, output: string, history: seq<string>, index: int)

  /** The cursor points into the history, and is -1 exactly when it is empty. */
  predicate Inv(s: Snapshot)
  {
    -1 <= s.index < |s.history| && (s.index == -1 <==> s.history == [])
  }

  predicate CanUndo(s: Snapshot) { s.index > 0 }
  predicate CanRedo(s: Snapshot) { s.index < |s.history| - 1 }

  /** `handleInputChange`: both texts become the typed text, the entries
      after the cursor are dropped and the typed text becomes the last entry. */
  function InputChange(s: Snapshot, text: string): (r: Snapshot)
    requires Inv(s)
    ensures Inv(r) && !CanRedo(r)
    ensures r.input == text && r.output == text
    ensures r.index == s.index + 1 && r.history[r.index] == text
    ensures r.history[..r.index] == s.history[..s.index + 1]
  {
    var h := s.history[..s.index + 1] + [text];
    Snapshot(text, text, h, |h| - 1)
  }

  /** `handleUndo`: step back and load that entry into the input (not the output). */
  function Undo(s: Snapshot): (r: Snapshot)
    requires Inv(s)
    ensures Inv(r) && r.history == s.history && r.output == s.output
    ensures CanUndo(s) ==> r.index == s.index - 1 && r.input == s.history[r.index]
    ensures !CanUndo(s) ==> r == s
  {
    if CanUndo(s) then s.(index := s.index - 1, input := s.history[s.index - 1]) else s
  }

  /** `handleRedo`: step forward and load that entry into the input. */
  function Redo(s: Snapshot): (r: Snapshot)
    requires Inv(s)
    ensures Inv(r) && r.history == s.history && r.output == s.output
    ensures CanRedo(s) ==> r.index == s.index + 1 && r.input == s.history[r.index]
    ensures !CanRedo(s) ==> r == s
  {
    if CanRedo(s) then s.(index := s.index + 1, input := s.history[s.index + 1]) else s
  }

  /** `handleFormat`: a formatted text replaces input and output; an exception
      or a non-format key changes nothing. */
  function Format(s: Snapshot, key: FormatKey): (r: Snapshot)
    ensures r.history == s.history && r.index == s.index
    ensures Apply(key, s.input).Formatted? ==> r.input == r.output == Apply(key, s.input).text
    ensures !Apply(key, s.input).Formatted? ==> r == s
  {
    match Apply(key, s.input)
    case Formatted(t) => s.(input := t, output := t)
    case _ => s
  }

  /** `handleFindReplace`, with the regular-expression replacement given as a
      function of (input, pattern, replacement) that yields None when the
      pattern does not compile. */
  function FindReplace(s: Snapshot, findText: string, replaceText: string,
                       regexReplace: (string, string, string) -> Option<string>): (r: Snapshot)
    ensures r.history == s.history && r.index == s.index
    ensures findText == "" ==> r == s
    ensures findText != "" && regexReplace(s.input, findText, replaceText).Some? ==>
      r.input == r.output == regexReplace(s.input, findText, replaceText).value
    ensures regexReplace(s.input, findText, replaceText).None? ==> r == s
  {
    if findText == "" then s
    else match regexReplace(s.input, findText, replaceText)
      case Some(t) => s.(input := t, output := t)
      case None => s
  }

  /** An undo that took effect, then a redo, is back at the same entry. */
  lemma RedoUndo(s: Snapshot)
    requires Inv(s) && CanUndo(s)
    ensures Redo(Undo(s)) == s.(input := s.history[s.index])
  {
  }

  /** A redo that took effect, then an undo, is back at the same entry. */
  lemma UndoRedo(s: Snapshot)
    requires Inv(s) && CanRedo(s) && s.index >= 0
    ensures Undo(Redo(s)) == s.(input := s.history[s.index])
  {
  }

  /** Undo after typing brings back the entry that was current before. */
  lemma UndoAfterInput(s: Snapshot, text: string)
    requires Inv(s) && s.index >= 0
    ensures Undo(InputChange(s, text)).input == s.history[s.index]
    ensures Undo(InputChange(s, text)).history[..s.index + 1] == s.history[..s.index + 1]
  {
    var r := InputChange(s, text);
    assert r.history[s.index] == r.history[..r.index][s.index];
  }

  /** Counts of the statistics panel, recomputed from the input. */
  datatype Stats = Stats(words: nat, chars: nat, lines: nat)

  function StatsOf(input: string): (st: Stats)
    ensures st.chars == |input| && st.lines == Count(input, '\n') + 1 && st.words >= 1
  {
    Stats(TextFormatter.CountWords(input), TextFormatter.CountCharacters(input), TextFormatter.CountLines(input))
  }

  /** The page, whose handlers update its fields in place. */
  class Page {
    var input: string
    var output: string
    var history: seq<string>
    var historyIndex: int

    function State(): Snapshot
      reads this
    {
      Snapshot(input, output, history, historyIndex)
    }

    predicate Valid()
      reads this
    {
      Inv(State())
    }

    /** A fresh page: empty texts and an empty history. */
    constructor()
      ensures Valid() && State() == Snapshot("", "", [], -1)
    {
      input := "";
      output := "";
      history := [];
      historyIndex := -1;
    }

    method HandleInputChange(text: string)
      requires Valid()
      modifies this
      ensures Valid() && State() == InputChange(old(State()), text)
    {
      var newHistory := history[..historyIndex + 1] + [text];
      input := text;
      output := text;
      history := newHistory;
      historyIndex := |newHistory| - 1;
    }

    method HandleUndo()
      requires Valid()
      modifies this
      ensures Valid() && State() == Undo(old(State()))
    {
      if historyIndex > 0 {
        input := history[historyIndex - 1];
        historyIndex := historyIndex - 1;
      }
    }

    method HandleRedo()
      requires Valid()
      modifies this
      ensures Valid() && State() == Redo(old(State()))
    {
      if historyIndex < |history| - 1 {
        input := history[historyIndex + 1];
        historyIndex := historyIndex + 1;
      }
    }

    method HandleFormat(key: FormatKey)
      requires Valid()
      modifies this
      ensures Valid() && State() == Format(old(State()), key)
    {
      match Apply(key, input)
      case Formatted(t) =>
        input := t;
        output := t;
      case _ =>
    }

    method HandleFindReplace(findText: string, replaceText: string,
                             regexReplace: (string, string, string) -> Option<string>)
      requires Valid()
      modifies this
      ensures Valid() && State() == FindReplace(old(State()), findText, replaceText, regexReplace)
    {
      if findText == "" {
        return;
      }
      var replaced := regexReplace(input, findText, replaceText);
      if replaced.Some? {
        input := replaced.value;
        output := replaced.value;
      }
    }

    /** The statistics panel for the current input. */
    function CurrentStats(): Stats
      reads this
    {
      StatsOf(input)
    }
  }
}
