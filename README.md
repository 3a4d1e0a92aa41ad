# Browser text and colour tools, modelled in Dafny

The repository is a single-page web application. It bundles small
utilities that run entirely in the browser:

- a text formatter with undo and redo;
- a password generator;
- a colour converter;
- a text analyzer;
- a UUID generator;
- a case converter;
- a letter-profile (initials avatar) maker;
- a lorem-ipsum generator.

This project models the logic behind those pages. It covers:

- the `formatText` table of pure text transformations;
- the state each page keeps and the handlers that update it;
- the JavaScript built-ins that logic relies on: `split`, `trim`,
  `encodeURIComponent`/`decodeURIComponent`, `btoa`/`atob`, `Math.round`
  and ASCII case mapping.

Modules:

- `Chars`, `Strings`, `JsMath`, `Random`, `Wrappers`: character classes,
  the string built-ins, rounding, the random oracle, Option/Result.
- `UrlCodec`, `Base64`: `encodeURIComponent`/`decodeURIComponent` over UTF-8,
  and `btoa`/`atob` with the forgiving decoder.
- `TextFormatter`: every entry of `formatText`.
- `FormatterPage`: the formatter page.
  - Its undo/redo history is a `Snapshot` value with transition functions.
  - A `Page` class has handlers proved equal to those functions.
- `Password`: character tables, the generator (methods with loops), the
  strength score and the length settings (a `Generator` class).
- `Color`: the parsers for hex, rgb(a), hsl(a) and cmyk, the hex renderer,
  the recent-colours list and the `Converter` class.
- `TextAnalyzer`: word, sentence and paragraph splitting; reading time;
  the word-frequency table (built by a loop); the top-five list;
  longest and shortest words.
- `Uuid`: version-4 generation, output formats, the history and CSV
  export, and the `Generator` class.
- `CaseConverter`: the whitespace options and the five case modes.
- `LetterProfile`: the initials, the download file name, the CSV drop and
  the SVG document.
- `Lorem`: the word list and the generators for words, sentences and
  paragraphs (loops as methods), plus the `LoremPage` class.

Conventions:

- Randomness is a parameter `rand: nat -> nat`. The k-th call of
  `Math.random()` is modelled by draw number k, and a draw from n choices
  is `rand(k) % n`. Methods return the next unused draw number.
- Strings are sequences of characters.
- Case mapping and `\w` are ASCII. `\s` and `trim` use the exact
  ECMAScript whitespace set.
- JavaScript numbers that stay rational are exact rationals.
  `Math.round(x)` is `floor(x + 1/2)`.
- A `Number(...)` that is NaN is modelled as NaN. An rgb or hsl input
  without an alpha part therefore gets alpha NaN, as the code does: the
  `= "1"` default never applies, because `match.map(Number)` has already
  turned `undefined` into NaN.

Where the program's own comments, labels or wording say something other
than its code does, the model follows the code:

- `formatText.capitalize` removes the `-`, `_` and whitespace runs in front of
  each capitalised character. It produces `HelloWorld`, not `Hello World`.
- The uppercase table in src/pages/PasswordGenerator.tsx:32 carries the
  comment "Excluding O", but it leaves out both `I` and `O`.
- The lowercase table in src/pages/PasswordGenerator.tsx:34 carries the
  comment "Excluding l, i", but it leaves out `i`, `l` and `o`.
- The digit table in src/pages/PasswordGenerator.tsx:36 leaves out `0` and
  `1`, as its comment says.
- The checkbox label at src/pages/PasswordGenerator.tsx:377 names only
  `O`, `0`, `l` and `I`. The tables also leave out `i`, `o` and `1`.

## Model

| member | source | states |
|---|---|---|
| `Chars.ToUpper` | src/utils/textFormatter.ts:29 | a lowercase ASCII letter maps to its uppercase partner (code minus 32); every other character is unchanged |
| `Chars.ToLower` | src/utils/textFormatter.ts:30 | an uppercase ASCII letter maps to its lowercase partner (code plus 32); every other character is unchanged |
| `Chars.Upper` | src/utils/textFormatter.ts:29 | `toUpperCase` keeps the length and maps every position independently |
| `Chars.Lower` | src/utils/textFormatter.ts:30 | `toLowerCase` keeps the length and maps every position independently |
| `Chars.UpperOfLower` | src/pages/UuidGenerator.tsx:63-64 | uppercasing after lowercasing is the same as uppercasing alone |
| `Chars.UpperConcat` | src/utils/textFormatter.ts:29 | uppercasing distributes over concatenation |
| `Chars.LowerConcat` | src/utils/textFormatter.ts:30 | lowercasing distributes over concatenation |
| `JsMath.Round` | src/pages/ColorConverter.tsx:97-99 | `Math.round(n/d)` is the integer r with r - 1/2 <= n/d < r + 1/2 (halves round up); non-negative for non-negative input |
| `JsMath.RoundShift` | src/pages/TextAnalyzer.tsx:55-56 | adding a whole number m to the rounded quantity shifts the result by exactly m |
| `Random.Pick` | src/pages/LoremGenerator.tsx:101 | `Math.floor(Math.random() * n)` is always a valid index below n |
| `Strings.Split` | src/utils/textFormatter.ts:118 | `split(c)` always yields at least one part |
| `Strings.SplitCount` | src/utils/textFormatter.ts:118 | `split(c)` yields one more part than there are separators, so `countLines` is newline count plus one |
| `Strings.SplitPartsFree` | src/utils/textFormatter.ts:70-71 | no part of `split(c)` contains the separator |
| `Strings.JoinSplit` | src/utils/textFormatter.ts:56-60 | joining the parts of `split(c)` with c gives back the text |
| `Strings.SplitJoin` | src/utils/textFormatter.ts:70-71 | splitting a join of separator-free parts gives back exactly those parts |
| `Strings.SplitRuns` | src/utils/textFormatter.ts:72-73 | `split(/\s+/)` always yields at least one part |
| `Strings.SplitRunsFree` | src/utils/textFormatter.ts:72-73 | no part of `split(/\s+/)` contains whitespace |
| `Strings.SplitRunsTokens` | src/pages/TextAnalyzer.tsx:33-36 | dropping the empty parts of `split(/\s+/)` leaves exactly the maximal non-whitespace runs of the text |
| `Strings.TokensCount` | src/utils/textFormatter.ts:116 | the number of tokens equals the number of non-whitespace runs |
| `Strings.TrimStart` | src/utils/textFormatter.ts:47 | removes exactly the leading whitespace: the result is a suffix, everything removed is whitespace, and it starts with non-whitespace or is empty |
| `Strings.TrimEnd` | src/utils/textFormatter.ts:47 | removes exactly the trailing whitespace, mirror image of `TrimStart` |
| `Strings.Trim` | src/utils/textFormatter.ts:47 | `trim()` leaves text that neither starts nor ends with whitespace |
| `Strings.TrimTokens` | src/utils/textFormatter.ts:116 | trimming does not change the sequence of words |
| `Strings.TrimEmpty` | src/pages/TextAnalyzer.tsx:26 | `text.trim()` is empty exactly when the text has no non-whitespace character |
| `Strings.Repeat` | src/utils/textFormatter.ts:48-49 | `" ".repeat(n)`-style repetition has n times the length |
| `Strings.ReplaceCharLength` | src/utils/textFormatter.ts:48-49 | replacing every c by r changes the length by the length of r minus one per occurrence of c |
| `Strings.ReplaceCharSplit` | src/utils/textFormatter.ts:54 | replacing every c by r is splitting at c and joining with r |
| `Strings.NatToString` | src/utils/textFormatter.ts:59 | a number prints as a non-empty run of decimal digits |
| `Strings.DecimalValueOf` | src/pages/LetterProfile.tsx:124-132 | the digits a natural number prints as form a numeral whose value is that number |
| `Strings.NatToHex` | src/pages/ColorConverter.tsx:103-104 | `toString(16)` prints lowercase hex digits: one digit below 16, two below 256 |
| `Strings.PadStart2` | src/pages/ColorConverter.tsx:104 | `padStart(2, "0")` makes the text at least two characters long |
| `Strings.Dedupe` | src/utils/textFormatter.ts:70-71 | `[...new Set(xs)]` keeps exactly the elements of xs and is no longer than xs |
| `Strings.DedupeDistinct` | src/utils/textFormatter.ts:70-71 | the elements of a `Set` are pairwise distinct |
| `Strings.DedupeOfDistinct` | src/utils/textFormatter.ts:70-71 | a list that is already distinct passes through a `Set` unchanged |
| `Strings.DedupeIdempotent` | src/utils/textFormatter.ts:70-71 | deduplicating twice is the same as once |
| `Strings.DedupeOrder` | src/utils/textFormatter.ts:70-71 | the `Set` keeps elements in the order of their first occurrence |
| `UrlCodec.Encode` | src/utils/textFormatter.ts:76 | `encodeURIComponent` output contains only unreserved characters, `%` and hex digits |
| `UrlCodec.Decode` | src/utils/textFormatter.ts:77 | `decodeURIComponent` leaves text without `%` unchanged and fails (URIError) on malformed escapes or UTF-8 |
| `UrlCodec.DecodeRejectsBareEscape` | src/utils/textFormatter.ts:77 | a `%` not followed by two hex digits makes decoding throw |
| `UrlCodec.Utf8RoundTrip` | src/utils/textFormatter.ts:76-77 | the UTF-8 bytes of a non-ASCII character have the right lead byte and continuation bytes, and decode back to the character |
| `UrlCodec.DecodeEncodeChar` | src/utils/textFormatter.ts:76-77 | decoding the encoding of one character followed by any text yields that character in front of the decoded text |
| `UrlCodec.DecodeEncode` | src/utils/textFormatter.ts:76-77 | `decodeURIComponent(encodeURIComponent(t)) == t` for every text |
| `Base64.Digit` | src/utils/textFormatter.ts:78 | every six-bit value has a Base64 alphabet character |
| `Base64.ValueDigit` | src/utils/textFormatter.ts:78-79 | a six-bit value maps to a digit and back |
| `Base64.DigitValue` | src/utils/textFormatter.ts:78-79 | a Base64 digit maps to its value and back |
| `Base64.EncodeDigits` | src/utils/textFormatter.ts:78 | the unpadded digits of `btoa` are all alphabet characters, ceil(8n/6) of them |
| `Base64.EncodedLength` | src/utils/textFormatter.ts:78 | digits plus padding fill whole groups of four, and never leave a lone digit in the last group |
| `Base64.EncodeBinary` | src/utils/textFormatter.ts:78 | `btoa` output has length 4*ceil(n/3) and holds only alphabet characters and `=` |
| `Base64.Encode` | src/utils/textFormatter.ts:78 | `btoa` succeeds exactly when every character is below U+0100, with the length above; otherwise it throws |
| `Base64.StripWhitespace` | src/utils/textFormatter.ts:79 | `atob` first removes all ASCII whitespace |
| `Base64.DecodeDigits` | src/utils/textFormatter.ts:79 | decoded output is binary (every character below U+0100) |
| `Base64.DropPadding` | src/utils/textFormatter.ts:79 | stripping the trailing `=` never lengthens the text |
| `Base64.Decode` | src/utils/textFormatter.ts:79 | `atob` yields binary text, and throws when the unpadded length leaves one digit over |
| `Base64.DecodeEncodeDigits` | src/utils/textFormatter.ts:78-79 | decoding the unpadded digits of binary text gives back the text |
| `Base64.DropPaddingEncoded` | src/utils/textFormatter.ts:78-79 | the padding `btoa` adds is exactly what `atob` strips |
| `Base64.DecodeEncode` | src/utils/textFormatter.ts:78-79 | `atob(btoa(t)) == t` whenever `btoa(t)` succeeds |
| `Base64.EncodeDecoded` | src/utils/textFormatter.ts:78-79 | whatever `atob` returns can be encoded again |
| `Base64.DecodeRejectsForeign` | src/utils/textFormatter.ts:79 | a character that is not a digit, `=` or whitespace makes `atob` throw |
| `TextFormatter.Wrap` | src/utils/textFormatter.ts:21-26 | wrapping adds exactly the two markers, and removing them gives back the text |
| `TextFormatter.Bold` | src/utils/textFormatter.ts:21 | `**text**` unwraps to the text |
| `TextFormatter.Italic` | src/utils/textFormatter.ts:22 | `*text*` unwraps to the text |
| `TextFormatter.Underline` | src/utils/textFormatter.ts:23 | `__text__` unwraps to the text |
| `TextFormatter.Strikethrough` | src/utils/textFormatter.ts:24 | `~~text~~` unwraps to the text |
| `TextFormatter.Subscript` | src/utils/textFormatter.ts:25 | `<sub>text</sub>` unwraps to the text |
| `TextFormatter.Superscript` | src/utils/textFormatter.ts:26 | `<sup>text</sup>` unwraps to the text |
| `TextFormatter.Uppercase` | src/utils/textFormatter.ts:29 | same length, no lowercase letter left, and each position differs from the input only in case |
| `TextFormatter.Lowercase` | src/utils/textFormatter.ts:30 | same length, no uppercase letter left, and each position differs from the input only in case |
| `TextFormatter.Toggle` | src/utils/textFormatter.ts:39-43 | even positions are lowercase and odd positions uppercase, each differing from the input only in case |
| `TextFormatter.CapitalizeWords` | src/utils/textFormatter.ts:31-34 | on words joined by spaces, `capitalize` lowercases every word, uppercases its first letter and removes the separators |
| `TextFormatter.SentenceCapitals` | src/utils/textFormatter.ts:35-38 | `sentence` lowercases everything except the characters that start a line or follow `.` plus whitespace, which are uppercased |
| `TextFormatter.RemoveExtraSpacesShape` | src/utils/textFormatter.ts:46 | after `removeExtraSpaces` every whitespace is a single space with no whitespace next to it |
| `TextFormatter.RemoveExtraSpacesIdempotent` | src/utils/textFormatter.ts:46 | applying `removeExtraSpaces` twice is the same as once |
| `TextFormatter.NoTabAfterRemoveExtraSpaces` | src/utils/textFormatter.ts:46 | no tab survives `removeExtraSpaces` |
| `TextFormatter.TrimText` | src/utils/textFormatter.ts:47 | `trim` keeps the same words and leaves no whitespace at either end |
| `TextFormatter.TabsToSpaces` | src/utils/textFormatter.ts:48-49 | each tab becomes n spaces, so the length grows by n - 1 per tab |
| `TextFormatter.SpacesToTabsUndoes` | src/utils/textFormatter.ts:48-51 | on text without spaces, `spacesToTabs` undoes `tabsToSpaces` |
| `TextFormatter.AddLineBreaks` | src/utils/textFormatter.ts:54 | the result is the lines of the text joined by a blank line, so every newline is doubled and every other character is kept; the length grows by the number of newlines |
| `TextFormatter.RemoveLineBreaks` | src/utils/textFormatter.ts:55 | the result is the pieces between runs of newlines joined by single spaces, so each run becomes one space and every other character is kept; no newline is left |
| `TextFormatter.ReplaceRunsSplit` | src/utils/textFormatter.ts:55 | replacing every run of a class by r is splitting at the runs and joining with r |
| `TextFormatter.NumberLines` | src/utils/textFormatter.ts:56-60 | line i gets the prefix `i+1. ` |
| `TextFormatter.BulletLines` | src/utils/textFormatter.ts:61-65 | every line gets the prefix `• ` |
| `TextFormatter.NumberedListLines` | src/utils/textFormatter.ts:56-60 | the numbered list has as many lines as the text, and line i is the number i+1, a dot, a space and the original line |
| `TextFormatter.BulletedListLines` | src/utils/textFormatter.ts:61-65 | the bulleted list has as many lines as the text, and line i is the bullet followed by the original line |
| `TextFormatter.RemoveSpecialChars` | src/utils/textFormatter.ts:68 | only word characters and whitespace remain, and each of them is kept as many times as it occurs in the input |
| `TextFormatter.RemoveHtmlTags` | src/utils/textFormatter.ts:69 | only characters of the input remain |
| `TextFormatter.RemoveHtmlTagsTagFree` | src/utils/textFormatter.ts:69 | the result contains no complete `<...>` tag |
| `TextFormatter.RemoveHtmlTagsIdempotent` | src/utils/textFormatter.ts:69 | removing tags twice is the same as once |
| `TextFormatter.DuplicateLinesRemoved` | src/utils/textFormatter.ts:70-71 | the lines of the result are the distinct lines of the input, each kept once, in order of first occurrence |
| `TextFormatter.RemoveDuplicateLinesIdempotent` | src/utils/textFormatter.ts:70-71 | removing duplicate lines twice is the same as once |
| `TextFormatter.WordsDeduplicated` | src/utils/textFormatter.ts:72-73 | the space-separated parts of the result are the distinct `\s+` parts of the input, in first-occurrence order |
| `TextFormatter.EscapeHtml` | src/utils/textFormatter.ts:80-93 | no `<`, `>`, `"` or `'` remains after escaping |
| `TextFormatter.UnescapeEscape` | src/utils/textFormatter.ts:80-107 | `unescapeHtml(escapeHtml(t)) == t` for every text |
| `TextFormatter.GenerateLoremIpsum` | src/utils/textFormatter.ts:110-113 | the join of n copies of the fixed paragraph with a blank line between them; empty for n = 0 |
| `TextFormatter.CountWords` | src/utils/textFormatter.ts:116 | `countWords` is never below 1 |
| `TextFormatter.CountCharacters` | src/utils/textFormatter.ts:117 | the character count is the length |
| `TextFormatter.CountLines` | src/utils/textFormatter.ts:118 | the line count is the number of newlines plus one |
| `TextFormatter.CountWordsRuns` | src/utils/textFormatter.ts:116 | `countWords` is the number of non-whitespace runs, except that blank text counts as one word |
| `FormatterPage.FromResult` | src/pages/TextFormatter.tsx:145-152 | a throwing encoder or decoder yields a thrown outcome, a successful one its text |
| `FormatterPage.Apply` | src/pages/TextFormatter.tsx:112-159 | exactly the generator and counter keys are not formats; only the URL decoder and the Base64 coders can throw |
| `FormatterPage.UrlRoundTrip` | src/pages/TextFormatter.tsx:145-151 | pressing URL encode then URL decode restores the text |
| `FormatterPage.Base64RoundTrip` | src/pages/TextFormatter.tsx:145-151 | pressing Base64 encode then Base64 decode restores binary text |
| `FormatterPage.HtmlRoundTrip` | src/pages/TextFormatter.tsx:145-151 | pressing escape HTML then unescape HTML restores the text |
| `FormatterPage.InputChange` | src/pages/TextFormatter.tsx:55-64 | typing truncates the redo tail, appends the new text, points the index at it and sets input and output to it |
| `FormatterPage.Undo` | src/pages/TextFormatter.tsx:40-45 | steps one entry back and loads it when possible, and otherwise changes nothing; the history is untouched |
| `FormatterPage.Redo` | src/pages/TextFormatter.tsx:47-52 | steps one entry forward and loads it when possible, and otherwise changes nothing; the history is untouched |
| `FormatterPage.Format` | src/pages/TextFormatter.tsx:112-159 | a format sets input and output to the transformed text; a non-format key or a thrown error leaves the state unchanged; the history is never touched |
| `FormatterPage.FindReplace` | src/pages/TextFormatter.tsx:91-109 | an empty search or an invalid pattern changes nothing; otherwise input and output become the replaced text |
| `FormatterPage.RedoUndo` | src/pages/TextFormatter.tsx:40-52 | undo followed by redo returns to the current history entry |
| `FormatterPage.UndoRedo` | src/pages/TextFormatter.tsx:40-52 | redo followed by undo returns to the current history entry |
| `FormatterPage.UndoAfterInput` | src/pages/TextFormatter.tsx:40-64 | undo right after typing restores the entry before the typing and keeps the earlier history |
| `FormatterPage.StatsOf` | src/pages/TextFormatter.tsx:31-37 | the statistics count the characters, the lines (newlines plus one) and at least one word |
| `FormatterPage.Page.constructor` | src/pages/TextFormatter.tsx:8-15 | the page starts with empty input and output, empty history and index -1 |
| `FormatterPage.Page.HandleInputChange` | src/pages/TextFormatter.tsx:55-64 | the handler's new state is `InputChange` of the old one |
| `FormatterPage.Page.HandleUndo` | src/pages/TextFormatter.tsx:40-45 | the handler's new state is `Undo` of the old one |
| `FormatterPage.Page.HandleRedo` | src/pages/TextFormatter.tsx:47-52 | the handler's new state is `Redo` of the old one |
| `FormatterPage.Page.HandleFormat` | src/pages/TextFormatter.tsx:112-159 | the handler's new state is `Format` of the old one |
| `FormatterPage.Page.HandleFindReplace` | src/pages/TextFormatter.tsx:91-109 | the handler's new state is `FindReplace` of the old one |
| `Password.UpperAlphabet` | src/pages/PasswordGenerator.tsx:31-39 | the uppercase table holds only uppercase letters, leaves out I and O when ambiguous characters are excluded, and holds every letter otherwise |
| `Password.LowerAlphabet` | src/pages/PasswordGenerator.tsx:31-39 | the lowercase table holds only lowercase letters, leaves out i, l and o when ambiguous characters are excluded, and holds every letter otherwise |
| `Password.DigitAlphabet` | src/pages/PasswordGenerator.tsx:31-39 | the number table holds only digits, leaves out 0 and 1 when ambiguous characters are excluded, and holds every digit otherwise |
| `Password.UppercaseTables` | src/pages/PasswordGenerator.tsx:32-33 | the two uppercase strings have the contents their names promise |
| `Password.LowercaseTables` | src/pages/PasswordGenerator.tsx:34-35 | the two lowercase strings have the contents their names promise |
| `Password.NumberTables` | src/pages/PasswordGenerator.tsx:36-37 | the two digit strings have the contents their names promise |
| `Password.SymbolsAreOther` | src/pages/PasswordGenerator.tsx:38 | the symbol table is non-empty and holds no letter or digit |
| `Password.Charset` | src/pages/PasswordGenerator.tsx:85-101 | the character set is empty exactly when no class is enabled, and holds exactly the characters of the enabled tables |
| `Password.ClassCount` | src/pages/PasswordGenerator.tsx:111-160 | at most four guaranteed characters, none exactly when the character set is empty |
| `Password.Shuffle` | src/pages/PasswordGenerator.tsx:167-171 | the random-comparator sort returns a permutation of its input |
| `Password.ShuffleKeeps` | src/pages/PasswordGenerator.tsx:167-171 | a permutation keeps the length, the presence of each class and membership in the character set |
| `Password.DrawFrom` | src/pages/PasswordGenerator.tsx:112-126 | one guaranteed draw appends a character of the class table and keeps everything already there |
| `Password.Guaranteed` | src/pages/PasswordGenerator.tsx:111-160 | one character from each enabled class, all within the character set |
| `Password.FillRest` | src/pages/PasswordGenerator.tsx:162-165 | the fill loop reaches max(length, class count) characters from the character set with every enabled class present |
| `Password.GenerateOne` | src/pages/PasswordGenerator.tsx:85-172 | a generated password has length max(length, class count), uses only the character set, and contains every enabled class |
| `Password.ShuffleWellFormed` | src/pages/PasswordGenerator.tsx:167-171 | shuffling a well-formed password leaves it well formed |
| `Password.Score` | src/pages/PasswordGenerator.tsx:41-64 | the strength score is at most 7 |
| `Password.StrengthOf` | src/pages/PasswordGenerator.tsx:41-64 | the strength label follows the score thresholds 2, 4 and 6 |
| `Password.AllClassesStrong` | src/pages/PasswordGenerator.tsx:41-64 | a password generated with all four classes rates at least Strong from length 8, and Very Strong from length 12 |
| `Password.WithMinLength` | src/pages/PasswordGenerator.tsx:252-257 | setting the minimum raises the length to it if needed and changes no other option |
| `Password.WithMaxLength` | src/pages/PasswordGenerator.tsx:272-277 | setting the maximum lowers the length to it if needed and changes no other option |
| `Password.BoundsKept` | src/pages/PasswordGenerator.tsx:252-277 | min <= length <= max survives either setter when the new bound does not cross the other |
| `Password.Generator.constructor` | src/pages/PasswordGenerator.tsx:18-29 | the page starts with no password and the default options |
| `Password.Generator.GeneratePassword` | src/pages/PasswordGenerator.tsx:81-180 | with no class enabled it shows the message and generates nothing; otherwise it makes `count` well-formed passwords and shows one or lists several |
| `Password.Generator.SetMinLength` | src/pages/PasswordGenerator.tsx:252-257 | the options become `WithMinLength` of the old ones; the passwords are untouched |
| `Password.Generator.SetMaxLength` | src/pages/PasswordGenerator.tsx:272-277 | the options become `WithMaxLength` of the old ones; the passwords are untouched |
| `Color.DecimalNumber` | src/pages/ColorConverter.tsx:66 | `Number` of an empty string, of "." or of text with two dots is NaN |
| `Color.ParseIntHex` | src/pages/ColorConverter.tsx:55-59 | `parseInt(_, 16)` gives a number only when some hex digit is present |
| `Color.RemoveFirstHash` | src/pages/ColorConverter.tsx:54 | only the first `#` is removed; text without one is unchanged |
| `Color.Match` | src/pages/ColorConverter.tsx:62-64 | a successful regular-expression match captures one number per digit group, and the optional alpha group holds only digits and dots |
| `Color.ParseHex` | src/pages/ColorConverter.tsx:53-60 | the alpha slider value is kept unless the hex code has exactly eight digits |
| `Color.Parse` | src/pages/ColorConverter.tsx:52-100 | hex input is handed to the hex parser, which never throws |
| `Color.ParseFails` | src/pages/ColorConverter.tsx:52-100 | a non-hex format throws exactly when its pattern does not match, and the message names that format |
| `Color.ParseRgb` | src/pages/ColorConverter.tsx:61-66 | rgb(a) fails exactly when the pattern does not match, with the RGB message |
| `Color.ParseHsl` | src/pages/ColorConverter.tsx:67-88 | hsl(a) fails exactly when the pattern does not match, with the HSL message |
| `Color.ParseCmyk` | src/pages/ColorConverter.tsx:89-99 | cmyk fails exactly when the pattern does not match, with the CMYK message |
| `Color.GrayRange` | src/pages/ColorConverter.tsx:80-81 | zero saturation gives three equal channels, round(l * 2.55), within 0..255 for l <= 100 |
| `Color.CmykChannelRange` | src/pages/ColorConverter.tsx:97-99 | a cmyk channel within 0..100% gives 0..255; black at 100% gives 0; no ink gives 255 |
| `Color.ByteHex` | src/pages/ColorConverter.tsx:103-104 | a byte prints as two hex digits that `parseInt(_, 16)` reads back |
| `Color.RenderHexShape` | src/pages/ColorConverter.tsx:103-111 | an opaque colour renders as `#` and six lowercase hex digits |
| `Color.ParseSixDigits` | src/pages/ColorConverter.tsx:53-57 | a six-digit code splits into three two-digit channels and keeps the alpha |
| `Color.ParseEightDigits` | src/pages/ColorConverter.tsx:53-60 | an eight-digit code also reads its alpha from the last pair, divided by 255 |
| `Color.HexRoundTrip` | src/pages/ColorConverter.tsx:53-111 | parsing the rendered hex of an opaque colour gives back its channels |
| `Color.HexAlphaRoundTrip` | src/pages/ColorConverter.tsx:53-111 | parsing the rendered hex of a colour with alpha x/255 below one gives back channels and alpha |
| `Color.Without` | src/pages/ColorConverter.tsx:35 | the filter removes every entry with the given value and keeps only old entries |
| `Color.WithoutCounts` | src/pages/ColorConverter.tsx:35 | the filter keeps every entry with a different value as many times as it occurs, and drops every entry with the given value |
| `Color.WithoutConcat` | src/pages/ColorConverter.tsx:35 | the filter keeps the entries in their order: filtering a concatenation concatenates the filtered halves |
| `Color.Recent` | src/pages/ColorConverter.tsx:31-39 | the newest colour comes first, then a prefix of the filtered old entries (in their order, by `WithoutConcat`), cut to ten in all |
| `Color.RecentDistinct` | src/pages/ColorConverter.tsx:31-39 | the recent list never holds the same value twice |
| `Color.RecentRepeat` | src/pages/ColorConverter.tsx:31-39 | converting the colour already at the head leaves the list unchanged |
| `Color.WithoutAbsent` | src/pages/ColorConverter.tsx:35 | filtering a value that is absent changes nothing |
| `Color.OutputsOf` | src/pages/ColorConverter.tsx:102-151 | the hex and rgb outputs are the rendered colour |
| `Color.Converter.constructor` | src/pages/ColorConverter.tsx:10-25 | the converter starts empty, in hex mode with alpha 1 and the saved recent list |
| `Color.Converter.AddToRecent` | src/pages/ColorConverter.tsx:31-39 | the recent list becomes `Recent` of the old one; nothing else changes |
| `Color.Converter.ConvertColor` | src/pages/ColorConverter.tsx:41-168 | on success the outputs are set, the error cleared and the colour recorded; on failure the outputs are cleared, the message shown and the list kept |
| `Color.Converter.HandleInputChange` | src/pages/ColorConverter.tsx:170-173 | stores the input, and converts it in the selected format when it is not empty |
| `TextAnalyzer.WordsAreRuns` | src/pages/TextAnalyzer.tsx:33-36 | the words are the non-whitespace runs of the text |
| `TextAnalyzer.NonBlank` | src/pages/TextAnalyzer.tsx:37-43 | the filter keeps each part with a non-whitespace character as many times as it occurs and drops every blank part |
| `TextAnalyzer.NonBlankConcat` | src/pages/TextAnalyzer.tsx:37-43 | the filter keeps the parts in their order: filtering a concatenation concatenates the filtered halves |
| `TextAnalyzer.SentencesShape` | src/pages/TextAnalyzer.tsx:37-39 | every sentence holds no `.`, `!` or `?` and is not blank; text with no terminator is one sentence |
| `TextAnalyzer.SplitParagraphs` | src/pages/TextAnalyzer.tsx:40-42 | splitting on blank lines always yields at least one part |
| `TextAnalyzer.ParagraphsShape` | src/pages/TextAnalyzer.tsx:40-42 | no paragraph is blank, and text without a newline is one paragraph |
| `TextAnalyzer.SixtySeconds` | src/pages/TextAnalyzer.tsx:51-60 | 399 words at 200 words per minute print as "1 min 60 secs" |
| `TextAnalyzer.MinutesSeconds` | src/pages/TextAnalyzer.tsx:55-56 | the carried form splits the rounded seconds into minutes and fewer than 60 seconds |
| `TextAnalyzer.FormatTimeAgrees` | src/pages/TextAnalyzer.tsx:51-60 | the carried form prints the same text as the code whenever the code's seconds are below 60 |
| `TextAnalyzer.KeepLowerAlnum` | src/pages/TextAnalyzer.tsx:65 | cleaning keeps only lowercase letters and digits |
| `TextAnalyzer.Cleaned` | src/pages/TextAnalyzer.tsx:63-72 | words that clean to nothing are skipped |
| `TextAnalyzer.Bump` | src/pages/TextAnalyzer.tsx:66-68 | counting a word adds at most one entry |
| `TextAnalyzer.BumpEntry` | src/pages/TextAnalyzer.tsx:66-68 | the search loop increments the word's entry, or appends it with count 1 |
| `TextAnalyzer.CountFrequencies` | src/pages/TextAnalyzer.tsx:63-72 | the reduce loop builds the frequency table of the words |
| `TextAnalyzer.FrequencyCounts` | src/pages/TextAnalyzer.tsx:63-72 | the table's keys are the distinct cleaned words in first-occurrence order, and each count is that word's number of occurrences |
| `TextAnalyzer.UniqueWords` | src/pages/TextAnalyzer.tsx:94 | the unique-word count is the number of distinct cleaned words, and the keys are distinct |
| `TextAnalyzer.ConstructorCount` | src/pages/TextAnalyzer.tsx:63-72 | the word "constructor" ends up as text in the object the code builds, while the corrected table counts it as 1 |
| `TextAnalyzer.OccurrencesAbsent` | src/pages/TextAnalyzer.tsx:63-72 | a word that does not occur has no occurrences |
| `TextAnalyzer.FrequencyAsWrittenCounts` | src/pages/TextAnalyzer.tsx:63-72 | without the word "constructor", the object the code builds has exactly the cleaned words as keys, each with its number of occurrences |
| `TextAnalyzer.FrequencyAgrees` | src/pages/TextAnalyzer.tsx:63-72 | without the word "constructor", the object the code builds and the corrected table hold the same words with the same counts |
| `TextAnalyzer.WithoutStopWords` | src/pages/TextAnalyzer.tsx:74-89 | stop words are removed and every other entry is kept |
| `TextAnalyzer.InsertSorted` | src/pages/TextAnalyzer.tsx:90 | inserting into a list sorted by descending count keeps it sorted and adds exactly the entry |
| `TextAnalyzer.SortByCountSorted` | src/pages/TextAnalyzer.tsx:90 | the sort orders by descending count and is a permutation |
| `TextAnalyzer.MostUsedShape` | src/pages/TextAnalyzer.tsx:74-92 | at most five non-stop-word entries of the table, by descending count, none of them outranked by an entry left out |
| `TextAnalyzer.AlphaWords` | src/pages/TextAnalyzer.tsx:95 | a word is kept exactly when it occurs in the input and is made of ASCII letters only |
| `TextAnalyzer.AlphaWordsConcat` | src/pages/TextAnalyzer.tsx:95 | the filter keeps the words in their order: filtering a concatenation concatenates the filtered halves |
| `TextAnalyzer.Longest` | src/pages/TextAnalyzer.tsx:102-105 | the first word of maximal length, or "" when there is none |
| `TextAnalyzer.Shortest` | src/pages/TextAnalyzer.tsx:106-110 | the first word of minimal length, or "" when there is none |
| `TextAnalyzer.ExtremesAlpha` | src/pages/TextAnalyzer.tsx:95-110 | the longest and shortest words are letter-only words or empty |
| `TextAnalyzer.Analyze` | src/pages/TextAnalyzer.tsx:25-125 | there are no statistics exactly for blank text. Otherwise the character, word, sentence, paragraph and unique counts and the top words are as above, and both times are the carried form. Each time equals the code's text whenever the code's seconds are below 60. The longest and shortest word are `Longest` and `Shortest` of the alphabetic words, so the first longest and first shortest of them, or empty when there is none |
| `Uuid.Fill` | src/pages/UuidGenerator.tsx:49-55 | each `x` becomes a lowercase hex digit and each `y` one of 8, 9, a or b; other characters are kept |
| `Uuid.V4Shape` | src/pages/UuidGenerator.tsx:49-55 | a generated UUID has hyphens at 8, 13, 18 and 23, a `4` at 14, a variant digit at 19 and hex digits elsewhere |
| `Uuid.TemplateDraws` | src/pages/UuidGenerator.tsx:49-55 | one UUID takes 31 random draws |
| `Uuid.RemoveHyphens` | src/pages/UuidGenerator.tsx:62 | no hyphen remains and the length drops by the number of hyphens |
| `Uuid.RemoveHyphensV4` | src/pages/UuidGenerator.tsx:61-62 | removing the hyphens of a v4 UUID leaves its 32 hex digits |
| `Uuid.NoHyphensDigits` | src/pages/UuidGenerator.tsx:57-68 | the no-hyphens format has 32 digits, and putting the hyphens back gives the UUID |
| `Uuid.UppercaseFormats` | src/pages/UuidGenerator.tsx:57-68 | the uppercase formats lower back to the UUID or to its digits |
| `Uuid.Batch` | src/pages/UuidGenerator.tsx:70-76 | a batch has exactly `count` UUIDs |
| `Uuid.BatchShape` | src/pages/UuidGenerator.tsx:70-76 | every UUID of a batch is a v4 UUID in the chosen format |
| `Uuid.PushHistory` | src/pages/UuidGenerator.tsx:79-85 | the new entry comes first, then the previous history, cut to ten |
| `Uuid.PushKeepsDuplicates` | src/pages/UuidGenerator.tsx:79-85 | the history does not deduplicate: a repeated entry is stored again |
| `Uuid.ClampCount` | src/pages/UuidGenerator.tsx:137 | the count is clamped to 1..100 and kept as is inside that range |
| `Uuid.CsvLines` | src/pages/UuidGenerator.tsx:99-101 | one CSV line per UUID with its version and timestamp |
| `Uuid.CsvRoundTrip` | src/pages/UuidGenerator.tsx:97-102 | the CSV export splits back into the header and one line per UUID, and each line into its three fields |
| `Uuid.Generator.constructor` | src/pages/UuidGenerator.tsx:16-23 | the generator starts with no UUIDs, count 1, default format and the saved history |
| `Uuid.Generator.SetCount` | src/pages/UuidGenerator.tsx:136-138 | the count becomes the clamped value; nothing else changes |
| `Uuid.Generator.GenerateUuids` | src/pages/UuidGenerator.tsx:70-86 | the shown UUIDs are the batch, and the first one is pushed onto the history, which stays at most ten long |
| `CaseConverter.ExpandTabs` | src/pages/CaseConverter.tsx:31-33 | no tab remains, and a non-tab first or last character stays in place |
| `CaseConverter.WhitespaceShape` | src/pages/CaseConverter.tsx:20-36 | with no option the text is unchanged; trim leaves no edge whitespace; removeExtra leaves only single spaces; tabsToSpaces leaves no tab |
| `CaseConverter.TabStepRedundant` | src/pages/CaseConverter.tsx:27-33 | with removeExtra on, the tabsToSpaces option has no effect |
| `CaseConverter.ProperFrom` | src/pages/CaseConverter.tsx:43-46 | proper casing keeps the length |
| `CaseConverter.ProperCaseShape` | src/pages/CaseConverter.tsx:43-46 | the first character of each word is uppercased and every other character lowercased |
| `CaseConverter.ProperCaseIdempotent` | src/pages/CaseConverter.tsx:43-46 | proper casing twice is the same as once |
| `CaseConverter.ConvertCase` | src/pages/CaseConverter.tsx:38-65 | empty input gives empty output |
| `CaseConverter.ConvertCaseKeeps` | src/pages/CaseConverter.tsx:38-65 | every mode keeps the whitespace-processed text up to letter case |
| `CaseConverter.CaseOnly` | src/pages/CaseConverter.tsx:42-64 | each case mode keeps the length and changes only letter case |
| `CaseConverter.ConvertCaseClasses` | src/pages/CaseConverter.tsx:51-61 | upper leaves no lowercase letter, lower no uppercase letter, and toggle alternates lower and upper |
| `CaseConverter.ToggleOption` | src/pages/CaseConverter.tsx:110-116 | toggling flips the presence of one option and leaves the others |
| `CaseConverter.ToggleTwice` | src/pages/CaseConverter.tsx:110-116 | toggling twice restores the option set, and the list stays free of duplicates |
| `LetterProfile.Heads` | src/pages/LetterProfile.tsx:51-53 | one first character per non-empty part |
| `LetterProfile.FirstTwo` | src/pages/LetterProfile.tsx:55 | `slice(0, 2)` keeps the first two characters, or fewer |
| `LetterProfile.Initials` | src/pages/LetterProfile.tsx:49-57 | the initials have at most two characters and no lowercase letter |
| `LetterProfile.InitialsOfRuns` | src/pages/LetterProfile.tsx:49-57 | the initials are the uppercased first characters of the first two words; blank names give none |
| `LetterProfile.TypedInitials` | src/pages/LetterProfile.tsx:253-255 | typed initials are uppercased and keep their length |
| `LetterProfile.FileNameRoundTrip` | src/pages/LetterProfile.tsx:151-157 | the download name is `profile-`, the lowercased initials, a dot and the extension, and the initials can be read back from it |
| `LetterProfile.FirstLine` | src/pages/LetterProfile.tsx:206 | the dropped name is a single line with no whitespace at its ends |
| `LetterProfile.FirstLineOf` | src/pages/LetterProfile.tsx:206 | the dropped name is the trimmed first line of the file |
| `LetterProfile.Dropped` | src/pages/LetterProfile.tsx:200-209 | a file that is not a CSV, or whose text is empty, changes nothing; otherwise the name becomes the trimmed first line and the initials are derived from it |
| `LetterProfile.AmpersandInitials` | src/pages/LetterProfile.tsx:49-57 | "first & last" gives initials the first letter and `&` |
| `LetterProfile.SvgAsWrittenBreaks` | src/pages/LetterProfile.tsx:119-148 | such initials put a bare `&` just before `</text>` in the SVG as written |
| `LetterProfile.SvgDocumentText` | src/pages/LetterProfile.tsx:119-148 | with the initials escaped the text element holds no `<` and unescapes to the initials |
| `LetterProfile.SvgClip` | src/pages/LetterProfile.tsx:123-133 | read as numbers, the clip element is a circle whose centre coordinates and radius are one numeral worth size/2, a square of side size whose corner radius prints as a numeral, a dot and one digit worth size/10, or the plain square of side size |
| `LetterProfile.ClipCircle` | src/pages/LetterProfile.tsx:124-127 | the circle's cx, cy and r print as one numeral worth size/2 |
| `LetterProfile.ClipRounded` | src/pages/LetterProfile.tsx:128-131 | the rounded square has width and height worth size and a corner radius worth size/10 |
| `LetterProfile.ClipSquare` | src/pages/LetterProfile.tsx:132 | the plain square has width and height worth size |
| `LetterProfile.TenthDigits` | src/pages/LetterProfile.tsx:129-131 | `size * 0.1` prints as a numeral, a dot and one digit worth size/10 |
| `Lorem.LoremWordsLower` | src/pages/LoremGenerator.tsx:6-73 | the word list has 66 entries, all lowercase words |
| `Lorem.WordCount` | src/pages/LoremGenerator.tsx:85-94 | short gives 10..19 words, medium 20..39 and long 40..69 |
| `Lorem.WordCountReaches` | src/pages/LoremGenerator.tsx:85-94 | every count in each range is reachable by some draw |
| `Lorem.Draws` | src/pages/LoremGenerator.tsx:100-103 | n draws give n words |
| `Lorem.DrawsFrom` | src/pages/LoremGenerator.tsx:100-103 | every drawn word comes from the list |
| `Lorem.DrawWords` | src/pages/LoremGenerator.tsx:100-103 | the draw loop returns exactly `Draws` and uses n draws |
| `Lorem.PickWords` | src/pages/LoremGenerator.tsx:135-140 | words mode picks exactly `amount` words |
| `Lorem.PickWordsShape` | src/pages/LoremGenerator.tsx:135-140 | each picked word is a lowercase lorem word |
| `Lorem.SentenceOf` | src/pages/LoremGenerator.tsx:96-106 | a sentence uses 11 to 20 draws: one for its length, then one per word |
| `Lorem.GenerateSentence` | src/pages/LoremGenerator.tsx:96-106 | the method produces the sentence `SentenceOf` specifies |
| `Lorem.SentenceShape` | src/pages/LoremGenerator.tsx:96-106 | a sentence is lorem words joined by spaces with one final dot, and holds no other dot and no newline |
| `Lorem.JoinedWords` | src/pages/LoremGenerator.tsx:105 | the words can be split back out of a sentence |
| `Lorem.SentencesOf` | src/pages/LoremGenerator.tsx:129-134 | n sentences use between 11n and 20n draws |
| `Lorem.SentencesShape` | src/pages/LoremGenerator.tsx:129-134 | every generated sentence is well formed |
| `Lorem.SentencesPerParagraph` | src/pages/LoremGenerator.tsx:110-114 | the loop runs ceil(count/10) times |
| `Lorem.ParagraphOf` | src/pages/LoremGenerator.tsx:108-117 | a paragraph uses at least one draw |
| `Lorem.GenerateParagraph` | src/pages/LoremGenerator.tsx:108-117 | the method produces the paragraph `ParagraphOf` specifies |
| `Lorem.ParagraphShape` | src/pages/LoremGenerator.tsx:108-117 | a paragraph has ceil(count/10) sentences, within the bounds of its length setting, and no newline |
| `Lorem.ParagraphsOf` | src/pages/LoremGenerator.tsx:123-128 | n paragraphs use at least n draws |
| `Lorem.ParagraphsShape` | src/pages/LoremGenerator.tsx:123-128 | every generated paragraph is well formed |
| `Lorem.Generate` | src/pages/LoremGenerator.tsx:119-146 | paragraph and sentence modes throw (`Array(-1)`) exactly on a negative amount, and then use no draws |
| `Lorem.ParagraphMode` | src/pages/LoremGenerator.tsx:123-128 | amount paragraphs separated by blank lines: 2*(amount-1) newlines |
| `Lorem.SentenceMode` | src/pages/LoremGenerator.tsx:129-134 | amount sentences: exactly amount dots and no newline |
| `Lorem.WordMode` | src/pages/LoremGenerator.tsx:135-143 | words mode ends with a dot and holds exactly amount lorem words (just "." when amount <= 0) |
| `Lorem.LoremPage.constructor` | src/pages/LoremGenerator.tsx:79-83 | the page starts in paragraph mode, amount 3, medium length, no output |
| `Lorem.LoremPage.GenerateLorem` | src/pages/LoremGenerator.tsx:119-147 | the output becomes the generated text, and stays unchanged when generation throws |
| `Lorem.Run` | src/pages/LoremGenerator.tsx:119-146 | the switch computes `Generate` |
| `Lorem.GenerateWords` | src/pages/LoremGenerator.tsx:135-143 | the words loop computes `PickWords` |
| `Lorem.GenerateParagraphs` | src/pages/LoremGenerator.tsx:123-128 | the paragraphs loop computes `ParagraphsOf` |
| `Lorem.GenerateSentences` | src/pages/LoremGenerator.tsx:129-134 | the sentences loop computes `SentencesOf` |

## Left out

- Browser I/O is not modelled: `localStorage` persistence, the clipboard,
  file upload, drag-and-drop reading, downloads and object URLs. Saved
  histories and lists enter as constructor parameters.
- Canvas drawing in `generateImage` and the PNG and JPEG export are not
  modelled; only the SVG text and the file names are.
- Timers are not modelled: the analyzer's 500 ms debounce and the live
  preview effects. Each handler is modelled as running at once.
- `Math.random()` is an oracle parameter, so uniformity of the shuffle
  and the draws is not stated.
- `Password.Shuffle`: `sort(() => Math.random() - 0.5)` is modelled as
  repeated random selection. Only that the result is a permutation is
  stated. The engine's sort algorithm, and which permutation it picks,
  are not modelled.
- UUID version 1 (`generateV1UUID`) is not modelled. It depends on the
  clock and on 32-bit bit operations on a timestamp. Generation is
  modelled for version 4, and the version label is "v4".
- `Uuid.CsvLines`: one timestamp parameter serves every CSV line. The code
  calls `new Date().toISOString()` once per line, so its lines may carry
  different times.
- `Uuid.Generator.SetCount`: the count is an integer. The field holds
  `Number(e.target.value)`, which may be fractional, and
  `Array.from({ length: 2.5 })` then makes 2 UUIDs. Fractional counts
  are not modelled.
- `Lorem.LoremPage.GenerateLorem`: the amount is an integer. The field
  holds `Number(e.target.value)`, which may be fractional. Then
  `Array(2.5)` throws for paragraphs and sentences, and the words loop
  runs the amount rounded up times. Fractional amounts are not modelled.
- `TextAnalyzer.Analyze`: it reports the times and the word table in their
  corrected forms (see the findings below). The code shows
  "1 min 60 secs" for 399 words at 200 per minute. It also turns the word
  "constructor" into text. The ensures state that the times equal the
  code's text whenever its seconds are below 60, and
  `TextAnalyzer.FrequencyAgrees` states that the tables agree when
  "constructor" does not occur.
- `Color.OutputsOf`: the floating-point rgba, hsl, hsla and cmyk output
  strings are not modelled. They come in as an oracle parameter, and only
  the hex and rgb outputs are stated.
- `Color.ParseHsl`: the chromatic branch of hsl-to-rgb (the `hueToRgb`
  float arithmetic, lines 82-88) is an oracle parameter. Only the gray
  branch (saturation 0) is computed.
- `JsMath.Round`: it rounds exact rationals. Ties that a binary double
  would round differently are not modelled.
- `Number(...)` is modelled only as the regular expressions allow: digit
  strings and digit/dot strings (with NaN for the malformed ones). JavaScript
  number formatting of fractional alphas and of the average word length
  (`toFixed(1)`) is not modelled.
- Only the offered sizes 128, 256 and 512 are modelled in the SVG, because
  that is where `size / 2` and `size * 0.1` print as exact decimals.
- `LetterProfile.TypedInitials` requires at most two characters. That is
  the input's `maxLength` attribute, which the browser enforces.
- Case mapping is ASCII only: non-ASCII letters keep their case. `\w` is
  ASCII in JavaScript too.
- Strings are sequences of Unicode scalar values. The model agrees with
  JavaScript's UTF-16 strings for text in the Basic Multilingual Plane.
  Lone surrogates, on which `encodeURIComponent` throws, cannot occur.
- `TextAnalyzer.MostUsedShape`: the order among entries with equal counts
  is not stated. `Object.entries` orders integer-like keys first, which is
  not modelled. Entries are kept in insertion order and the sort is a
  stable insertion sort.
- `FormatterPage.FindReplace`: the regular-expression replacement is an
  oracle parameter. It returns None when the pattern is invalid (the
  throwing constructor). Regular-expression semantics are not modelled.
- Find and replace has a regex toggle, but both branches build the same
  `RegExp`. The model therefore does not distinguish them.
- The length slider and the checkboxes of the password page are not
  modelled; only the min and max handlers are. They are plain field
  assignments.
- The alpha slider (`setAlpha(Number(e.target.value))`) and the format
  select (`setSelectedFormat`) of the colour converter are not modelled as
  handlers. They are plain field assignments. The fields `alpha` and
  `selectedFormat` of `Color.Converter` hold their values, and
  `Color.Converter.HandleInputChange` reads both.
- The JSON formatter and image resizer pages are not part of this model.

## Findings

| source | as written | input that shows it | evidently intended | confidence | as-written member | corrected member |
|---|---|---|---|---|---|---|
| src/pages/TextAnalyzer.tsx:55-59 | `formatTime` floors the minutes, then rounds the leftover fraction to seconds, which can give 60 | 399 words at 200 wpm: 1.995 min prints "1 min 60 secs" | carry the rounded seconds into the minutes ("2 mins 0 secs") | not executed | `TextAnalyzer.SixtySeconds` | `TextAnalyzer.MinutesSeconds` |
| src/pages/TextAnalyzer.tsx:63-68 | the frequency object `{}` inherits `Object.prototype`, so `acc["constructor"]` is a function | the text "constructor": the fallback to 0 is skipped and adding 1 concatenates "1" to the function's source text | count the word as 1 (an object without a prototype, or a Map) | not executed | `TextAnalyzer.ConstructorCount` | `TextAnalyzer.FrequencyCounts` |
| src/pages/LetterProfile.tsx:146 | the initials are pasted into the SVG text element without escaping | the name "Tom & Jerry" gives initials "T&", and the SVG holds a bare `&` before `</text>`, which is not well-formed XML | escape the initials as XML text | not executed | `LetterProfile.SvgAsWrittenBreaks` | `LetterProfile.SvgDocumentText` |
