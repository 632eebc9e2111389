# DeepSeek console demos: the string logic under the HTTP calls

The repository is a set of Kotlin console programs that send chat requests
to the DeepSeek chat-completions endpoint and print the answers. Under the
networking, each program carries its own copy of a few string routines.
This project models each routine once and maps every copy to it:

- `escapeJson`: quotes a text and escapes backslash, quote, line feed,
  carriage return and tab. These are five of the escapes of section 7 of
  RFC 8259. It lives in module `JsonEscape`, file `escapes.dfy`.
- `extractContent` / `extractDeltaContent`: find the first `"content":"`,
  scan to the end of the string value, cut out the raw text and undo three
  escapes. They live in module `ContentScan`, file `scan.dfy`.
- The server-sent-event read loop of `streamCompletion` and
  `createCompletion`. It is a reduced form of the event-stream format of the
  WHATWG HTML Living Standard, section 9.2. It lives in module
  `EventStream`, file `sse.dfy`.
- The JSON request bodies: `buildBody`, `buildBodyWithTemperature`, the body
  of `createCompletion` with its optional `max_tokens` and `stop` fields,
  the body of `sendRequest` in Main.kt, and the message list of
  `requestWithTemperature`. They live in module `Request`, file
  `request.dfy`.
- The five request functions, with the HTTP exchange given as a parameter:
  what each posts, prints or returns. They live in module `Completion`,
  file `completion.dfy`.
- The `main` of Main.kt: one request built from the arguments, or an
  interactive loop over input lines that stops at an empty line or `exit`.
  It lives in module `Console`, file `console.dfy`.
- `readApiKey` and the `DEEPSEEK_API_KEY` build-config literal of
  app/build.gradle.kts. They live in module `ApiKey`, file `apikey.dfy`.
- Module `Text` (file `text.dfy`) holds the Kotlin string functions these
  use: `indexOf`, `replace`, `trim`, `joinToString`, `startsWith` and
  `equals(ignoreCase = true)`.

The copies of `escapeJson` in LogicTaskCompareMain.kt, CompareFormatsMain.kt,
Main.kt and TemperatureCompareMain.kt make the same five `replace` calls in
the same order and put the result between two quotes; two of them are
written with an expression body and two as a block with `return`. The
copies of the extractors likewise perform the same steps. The table cites
one copy per row.

Where the code and its description disagree, the model follows the code:

- The scan can run one position past the end of the text, when the text
  ends in a lone backslash. `substring` then throws. It is modelled as the
  result `Overrun` / `Threw`, not as a scan that never raises. In a stream,
  the exception ends the whole read loop; the caller's `catch` reports it.
- The extractors take the first `"content":"` anywhere in the text, not
  only one nested under `delta` or `message`.

The extractor's unescape is not the inverse of `escapeJson` for every text.
It replaces `\n` before `\\`, so an escaped backslash followed by `n` comes
back as a backslash and a line feed. `ContentScan.BackslashNBreaksRoundTrip`
states this on the input `\n` (backslash, `n`).
`ContentScan.EscapeThenExtract` states the round trip that does hold.

## Model

| member | source | states |
|---|---|---|
| Text.StartsWith | app/src/main/java/com/example/deepseek/console/LogicTaskCompareMain.kt:172 | definition (no contract of its own): `startsWith`, the text begins with the prefix; used by `EventStream.SkippedLine` and `ApiKey.FirstWithPrefixIndex` |
| Text.IndexOf | app/src/main/java/com/example/deepseek/console/LogicTaskCompareMain.kt:241 | `indexOf` returns -1, or a position at which the whole pattern fits inside the text |
| Text.IndexOfFirst | app/src/main/java/com/example/deepseek/console/LogicTaskCompareMain.kt:241 | a non-negative result is an occurrence of the pattern; no occurrence starts before it, and none at all when the result is -1 |
| Text.IndexOfAbsent | app/src/main/java/com/example/deepseek/console/LogicTaskCompareMain.kt:242 | `indexOf` is -1 exactly when the pattern occurs nowhere |
| Text.IndexOfAt | app/src/main/java/com/example/deepseek/console/LogicTaskCompareMain.kt:241 | an occurrence with none before it is the position `indexOf` returns |
| Text.IndexOfExtend | app/src/main/java/com/example/deepseek/console/LogicTaskCompareMain.kt:241 | text appended after an occurrence does not change the first occurrence |
| Text.ReplaceAll | app/src/main/java/com/example/deepseek/console/LogicTaskCompareMain.kt:253-255 | definition (no contract of its own): Kotlin `replace`, left to right and without overlap; stated by `Text.ReplaceAllLength`, `Text.ReplaceAllHit`, `Text.ReplaceAllSkip` and `Text.ReplaceAllNone` |
| Text.ReplaceAllLength | app/src/main/java/com/example/deepseek/console/LogicTaskCompareMain.kt:253-255 | `replace` changes the length by the difference of replacement and pattern length, once per replaced occurrence |
| Text.CountZero | app/src/main/java/com/example/deepseek/console/LogicTaskCompareMain.kt:253-255 | `replace` replaces nothing exactly when `indexOf` finds no occurrence |
| Text.ReplaceAllNone | app/src/main/java/com/example/deepseek/console/LogicTaskCompareMain.kt:253-255 | when nothing is replaced the text is returned unchanged |
| Text.ReplaceAllSkip | app/src/main/java/com/example/deepseek/console/LogicTaskCompareMain.kt:253-255 | a leading character that cannot start the pattern is copied and the scan moves on by one |
| Text.ReplaceAllHit | app/src/main/java/com/example/deepseek/console/LogicTaskCompareMain.kt:253-255 | a leading occurrence is replaced and the scan resumes after it, without overlap |
| Text.ReplaceCharConcat | app/src/main/java/com/example/deepseek/console/LogicTaskCompareMain.kt:237 | replacing a one-character pattern distributes over concatenation |
| Text.ReplaceCharAbsent | app/src/main/java/com/example/deepseek/console/LogicTaskCompareMain.kt:237 | replacing a character that does not occur changes nothing |
| Text.ReplaceAllAbsentHead | app/src/main/java/com/example/deepseek/console/LogicTaskCompareMain.kt:253-255 | a text without the pattern's first character is left unchanged |
| Text.Trim | app/src/main/java/com/example/deepseek/console/LogicTaskCompareMain.kt:173 | `trim` never lengthens the text, and a non-empty result neither starts nor ends with whitespace |
| Text.TrimIsSlice | app/src/main/java/com/example/deepseek/console/LogicTaskCompareMain.kt:173 | the result of `trim` is the contiguous slice of the text after the leading whitespace |
| Text.TrimDropsWhitespace | app/src/main/java/com/example/deepseek/console/LogicTaskCompareMain.kt:173 | everything `trim` removes, before and after the slice it keeps, is whitespace |
| Text.TrimEmptyIff | app/build.gradle.kts:15 | `trim` gives the empty text exactly when the text is all whitespace |
| Text.TrimUnchanged | app/src/main/java/com/example/deepseek/console/LogicTaskCompareMain.kt:173 | a text that starts and ends with non-whitespace is left as it is |
| Text.Join | app/src/main/java/com/example/deepseek/console/LogicTaskCompareMain.kt:223-225 | definition (no contract of its own): `joinToString(sep)`; stated by `Text.JoinAppend` and `Request.JoinThree` |
| Text.JoinAppend | app/src/main/java/com/example/deepseek/console/LogicTaskCompareMain.kt:223-225 | `joinToString` with one more element adds the separator and that element at the end |
| Text.EqualsIgnoreCase | app/src/main/java/com/example/deepseek/console/Main.kt:42 | definition (no contract of its own): `equals(ignoreCase = true)` with ASCII folding; stated by `Console.ExitAnyCase` |
| JsonEscape.EscapeJson | app/src/main/java/com/example/deepseek/console/LogicTaskCompareMain.kt:236-237 | the result is the text between two quotes; its length is the text's length plus 2 plus the number of backslashes, quotes, LFs, CRs and TABs; between the quotes each character is escaped on its own; no raw LF, CR or TAB remains (the same function in the other three programs) |
| JsonEscape.EscapeBody | app/src/main/java/com/example/deepseek/console/LogicTaskCompareMain.kt:237 | definition (no contract of its own): the five chained `replace` calls; `JsonEscape.EscapeBodyPerChar` proves they escape each character on its own |
| JsonEscape.EscapeBodyPerChar | app/src/main/java/com/example/deepseek/console/CompareFormatsMain.kt:167-174 | because the backslash is replaced first, the chain of five `replace` calls equals escaping each character on its own: no escape introduced by a later call is escaped again |
| JsonEscape.EscapeBodyConcat | app/src/main/java/com/example/deepseek/console/CompareFormatsMain.kt:168-173 | the replace chain distributes over concatenation |
| JsonEscape.EscapeBodyChar | app/src/main/java/com/example/deepseek/console/CompareFormatsMain.kt:168-173 | each of backslash, quote, LF, CR and TAB becomes its two-character escape, and every other character stays as it is |
| JsonEscape.EscapeCharsLength | app/src/main/java/com/example/deepseek/console/Main.kt:92-99 | the escaped text is one character longer per escaped character |
| JsonEscape.EscapeCharsNoRawControl | app/src/main/java/com/example/deepseek/console/TemperatureCompareMain.kt:158-159 | the escaped text holds no raw LF, CR or TAB |
| JsonEscape.EscapeCharsIsBody | app/src/main/java/com/example/deepseek/console/CompareFormatsMain.kt:167-174 | the escaped text is a string body in which every quote is the second half of a backslash pair |
| JsonEscape.EscapeJsonDecodes | app/src/main/java/com/example/deepseek/console/CompareFormatsMain.kt:167-174 | reading the escape pairs of RFC 8259 left to right recovers the original text from between the quotes |
| JsonEscape.EscapeCharsDecode | app/src/main/java/com/example/deepseek/console/CompareFormatsMain.kt:167-174 | the per-character escaping decodes back to the text |
| JsonEscape.DecodeEscapeChar | app/src/main/java/com/example/deepseek/console/CompareFormatsMain.kt:167-174 | one escaped character followed by a decodable text decodes to that character followed by the decoded text |
| ContentScan.ScanFrom | app/src/main/java/com/example/deepseek/console/LogicTaskCompareMain.kt:244-251 | the scan index never goes back and never goes beyond one past the end of the text |
| ContentScan.ScanSkipsBody | app/src/main/java/com/example/deepseek/console/LogicTaskCompareMain.kt:244-251 | the scan passes over a well-formed string body without stopping |
| ContentScan.ScanStopsAt | app/src/main/java/com/example/deepseek/console/LogicTaskCompareMain.kt:244-251 | the scan stops at a position inside the text exactly when the text up to it is a string body (a backslash skips the next character) and the position holds a quote or is the end |
| ContentScan.ScanOverrun | app/src/main/java/com/example/deepseek/console/LogicTaskCompareMain.kt:245-252 | the scan ends one past the end of the text exactly when the last character is a backslash that opens a pair |
| ContentScan.Locate | app/src/main/java/com/example/deepseek/console/LogicTaskCompareMain.kt:240-252 | definition (no contract of its own): what `indexOf` and the scan find: no key, an overrun, or the raw value; stated by `ContentScan.RawValue` and `ContentScan.AbsentIffNoKey` |
| ContentScan.Unescape | app/src/main/java/com/example/deepseek/console/LogicTaskCompareMain.kt:253-255 | definition (no contract of its own): the three replacements in their order; stated by `ContentScan.UnescapeShrinks` and `ContentScan.UnescapeEscapeChars` |
| ContentScan.DeltaContent | app/src/main/java/com/example/deepseek/console/LogicTaskCompareMain.kt:239-256 | definition (no contract of its own): `extractDeltaContent`; implemented by `ContentScan.ExtractDeltaContent`, stated by `ContentScan.AbsentIffNoKey` and `ContentScan.EscapeThenExtract` |
| ContentScan.Content | app/src/main/java/com/example/deepseek/console/LogicTaskCompareMain.kt:258-275 | definition (no contract of its own): `extractContent`; implemented by `ContentScan.ExtractContent`, stated by `ContentScan.AbsentIffNoKey` and `ContentScan.ThrowsIffTrailingBackslash` |
| ContentScan.ScanContent | app/src/main/java/com/example/deepseek/console/LogicTaskCompareMain.kt:240-252 | the `indexOf` and the `while (end < json.length)` loop find what `Locate` describes: no key, an overrun, or the raw value |
| ContentScan.ExtractDeltaContent | app/src/main/java/com/example/deepseek/console/LogicTaskCompareMain.kt:239-256 | `extractDeltaContent` returns "" without a key, throws on an overrun, and otherwise returns the raw value after the three replacements (the same function in CompareFormatsMain.kt) |
| ContentScan.ExtractContent | app/src/main/java/com/example/deepseek/console/LogicTaskCompareMain.kt:258-275 | `extractContent` returns null without a key, throws on an overrun, and otherwise returns the unescaped raw value (the same function in Main.kt and TemperatureCompareMain.kt) |
| ContentScan.AbsentIffNoKey | app/src/main/java/com/example/deepseek/console/LogicTaskCompareMain.kt:259-261 | `extractContent` returns null exactly when `"content":"` does not occur, and `extractDeltaContent` then returns ""; the two throw on the same texts |
| ContentScan.RawValue | app/src/main/java/com/example/deepseek/console/LogicTaskCompareMain.kt:240-252 | the raw value starts right after the first key and ends before the first quote that is not the second half of a backslash pair, or at the end of the text |
| ContentScan.RawFrom | app/src/main/java/com/example/deepseek/console/LogicTaskCompareMain.kt:244-252 | the slice cut out from a start position is a given text exactly when that text is a string body followed by a quote or the end |
| ContentScan.ThrowsIffTrailingBackslash | app/src/main/java/com/example/deepseek/console/LogicTaskCompareMain.kt:245-252 | `extractContent` throws exactly when the key is present and the text after it ends in a backslash that opens a pair |
| ContentScan.UnescapeShrinks | app/src/main/java/com/example/deepseek/console/LogicTaskCompareMain.kt:252-255 | unescaping never lengthens the raw value; the length stays the same exactly when no replacement fired, and then the text is unchanged; a value without backslash is returned as it is |
| ContentScan.EscapedValueLocated | app/src/main/java/com/example/deepseek/console/CompareFormatsMain.kt:150-161 | for any text, scanning `"content":` followed by its `escapeJson` stops exactly at the closing quote that `escapeJson` added |
| ContentScan.FirstStepDecodesNewlines | app/src/main/java/com/example/deepseek/console/CompareFormatsMain.kt:162 | on escaped text without backslash, CR or TAB, the `\n` replacement turns every escaped LF back into an LF and leaves the escaped quotes |
| ContentScan.NewlineStepSkipsQuote | app/src/main/java/com/example/deepseek/console/CompareFormatsMain.kt:162 | an escaped quote is copied by the `\n` replacement |
| ContentScan.SecondStepDecodesQuotes | app/src/main/java/com/example/deepseek/console/CompareFormatsMain.kt:163 | the `\"` replacement turns the escaped quotes back into quotes |
| ContentScan.UnescapeEscapeChars | app/src/main/java/com/example/deepseek/console/CompareFormatsMain.kt:162-164 | the three replacements undo the escaping of a text without backslash, CR or TAB |
| ContentScan.EscapeThenExtract | app/src/main/java/com/example/deepseek/console/CompareFormatsMain.kt:148-173 | for a text without backslash, CR or TAB, both extractors return the text from `"content":` followed by its `escapeJson` |
| ContentScan.BackslashNBreaksRoundTrip | app/src/main/java/com/example/deepseek/console/CompareFormatsMain.kt:162-164 | the round trip fails for a backslash followed by `n`: it comes back as a backslash and a line feed |
| ContentScan.UnescapeBackslashN | app/src/main/java/com/example/deepseek/console/CompareFormatsMain.kt:162-164 | the three replacements turn an escaped backslash followed by `n` into a backslash and a line feed |
| EventStream.Classify | app/src/main/java/com/example/deepseek/console/LogicTaskCompareMain.kt:171-175 | definition (no contract of its own): one pass of the loop body; implemented by `EventStream.ClassifyLine` |
| EventStream.Run | app/src/main/java/com/example/deepseek/console/LogicTaskCompareMain.kt:176-179 | no printed chunk is empty |
| EventStream.Decode | app/src/main/java/com/example/deepseek/console/LogicTaskCompareMain.kt:170-180 | definition (no contract of its own): what the whole loop prints and how it ends; implemented by `EventStream.ReadEvents`, stated by `EventStream.DecodeAppend`, `EventStream.ExhaustedIff` and `EventStream.StreamRoundTrip` |
| EventStream.ClassifyLine | app/src/main/java/com/example/deepseek/console/LogicTaskCompareMain.kt:171-175 | the loop body skips a line without the `data: ` prefix, stops at a trimmed `[DONE]`, fails when the extractor throws, and otherwise yields the chunk |
| EventStream.ReadEvents | app/src/main/java/com/example/deepseek/console/LogicTaskCompareMain.kt:170-180 | the `readLine` loop prints what `Decode` says and ends as it says (the same loop in CompareFormatsMain.kt) |
| EventStream.RunAppend | app/src/main/java/com/example/deepseek/console/LogicTaskCompareMain.kt:170-180 | the lines are read in order: a prefix that stops the loop decides the outcome, and one that runs out prints first and leaves the rest to the later lines |
| EventStream.DecodeAppend | app/src/main/java/com/example/deepseek/console/LogicTaskCompareMain.kt:170-180 | the same for the lines the server sends |
| EventStream.DecodeUnfold | app/src/main/java/com/example/deepseek/console/LogicTaskCompareMain.kt:170-180 | one pass of the loop: skip, stop, abort, or print a non-empty chunk and go on |
| EventStream.SkippedLine | app/src/main/java/com/example/deepseek/console/LogicTaskCompareMain.kt:172 | a line not starting with exactly `data: ` contributes nothing and does not stop the loop, wherever it appears |
| EventStream.DoneStops | app/src/main/java/com/example/deepseek/console/LogicTaskCompareMain.kt:173-174 | the first data line whose trimmed payload is `[DONE]` ends the loop, and no later line is examined |
| EventStream.ExhaustedIff | app/src/main/java/com/example/deepseek/console/LogicTaskCompareMain.kt:170-180 | the loop runs out of lines exactly when no line is the sentinel and no payload makes the extractor throw |
| EventStream.RunExhaustedIff | app/src/main/java/com/example/deepseek/console/LogicTaskCompareMain.kt:170-180 | the same, over the actions of the lines |
| EventStream.FragmentLineEmits | app/src/main/java/com/example/deepseek/console/LogicTaskCompareMain.kt:171-176 | a data line carrying a chunk `{"choices":[{"delta":{"content":...}}]}` with the escaped text of a fragment (without backslash, CR or TAB) yields that fragment |
| EventStream.NoKeyInDeltaOpen | app/src/main/java/com/example/deepseek/console/LogicTaskCompareMain.kt:240-241 | the key `"content":"` does not start inside the opening `{"choices":[{"delta":{` of a chunk |
| EventStream.FragmentChunkDecodes | app/src/main/java/com/example/deepseek/console/LogicTaskCompareMain.kt:239-256 | `extractDeltaContent` reads the fragment back out of its chunk |
| EventStream.DoneLineStops | app/src/main/java/com/example/deepseek/console/LogicTaskCompareMain.kt:174 | the line `data: [DONE]` stops the loop |
| EventStream.StreamRoundTrip | app/src/main/java/com/example/deepseek/console/LogicTaskCompareMain.kt:170-180 | a stream of such fragment lines closed by `data: [DONE]` prints exactly the non-empty fragments, in order, and ends at the sentinel, whatever follows |
| EventStream.ConcatNonEmpty | app/src/main/java/com/example/deepseek/console/LogicTaskCompareMain.kt:176-177 | skipping the empty chunks does not change the printed text |
| EventStream.StreamPrintsFragments | app/src/main/java/com/example/deepseek/console/LogicTaskCompareMain.kt:170-180 | the console text of such a stream is the fragments joined in order |
| Request.MessageJson | app/src/main/java/com/example/deepseek/console/LogicTaskCompareMain.kt:224 | definition (no contract of its own): one message object; stated by `Request.ExtractFromMessage` |
| Request.MessagesJson | app/src/main/java/com/example/deepseek/console/LogicTaskCompareMain.kt:223-225 | definition (no contract of its own): the messages joined by commas; stated by `Request.MessagesJsonAppend`, `Request.MessagesJsonSingle` and `Request.ExtractFirstMessage` |
| Request.MessagesJsonAppend | app/src/main/java/com/example/deepseek/console/LogicTaskCompareMain.kt:223-225 | one more message adds a comma and its object at the end of the array |
| Request.MessagesJsonSingle | app/src/main/java/com/example/deepseek/console/LogicTaskCompareMain.kt:223-225 | a single message gives its object alone, without a separator |
| Request.BuildBody | app/src/main/java/com/example/deepseek/console/LogicTaskCompareMain.kt:222-234 | definition (no contract of its own): `buildBody`; its layout is stated by `Request.ObjectThree` |
| Request.BuildBodyWithTemperature | app/src/main/java/com/example/deepseek/console/TemperatureCompareMain.kt:144-156 | definition (no contract of its own): `buildBodyWithTemperature`; its layout is stated by `Request.ObjectFour` |
| Request.SendRequestBody | app/src/main/java/com/example/deepseek/console/Main.kt:52-60 | definition (no contract of its own): the body of `sendRequest`, one user message with the escaped prompt |
| Request.ObjectThree | app/src/main/java/com/example/deepseek/console/LogicTaskCompareMain.kt:227-233 | a three-member body is the braces around the members, one per line, separated by commas |
| Request.ObjectFour | app/src/main/java/com/example/deepseek/console/TemperatureCompareMain.kt:148-155 | a four-member body is the braces around the members, one per line, separated by commas |
| Request.JoinThree | app/src/main/java/com/example/deepseek/console/LogicTaskCompareMain.kt:227-233 | three joined parts have the separator between each pair |
| Request.ChosenMessagesArray | app/src/main/java/com/example/deepseek/console/TemperatureCompareMain.kt:112-117 | the posted messages array is the system object, a comma and the user object when a system text is given, and the user object alone otherwise |
| Request.ChosenMessagesFirstContent | app/src/main/java/com/example/deepseek/console/TemperatureCompareMain.kt:112-117 | the extractor reads the system text out of that array when one is given, and the user message otherwise (texts without backslash, CR or TAB) |
| Request.MaxTokensField | app/src/main/java/com/example/deepseek/console/CompareFormatsMain.kt:95 | definition (no contract of its own): `"max_tokens":N` when a limit is given; stated by `Request.OptionalFields` and `Request.DigitsRoundTrip` |
| Request.StopField | app/src/main/java/com/example/deepseek/console/CompareFormatsMain.kt:96 | definition (no contract of its own): `"stop":[...]` when a stop list is given; stated by `Request.OptionalFields`, `Request.EmptyStopList` and `Request.StopElementsDecode` |
| Request.OptionalLine | app/src/main/java/com/example/deepseek/console/CompareFormatsMain.kt:97-98 | definition (no contract of its own): the optional fields after `", "`, or nothing; stated by `Request.OptionalFields` |
| Request.CompletionBody | app/src/main/java/com/example/deepseek/console/CompareFormatsMain.kt:92-106 | definition (no contract of its own): the body of `createCompletion` |
| Request.Digits | app/src/main/java/com/example/deepseek/console/CompareFormatsMain.kt:95 | the rendered number is a non-empty run of decimal digits |
| Request.DigitsRoundTrip | app/src/main/java/com/example/deepseek/console/CompareFormatsMain.kt:95 | the rendered digits read back as the number |
| Request.StopElementsDecode | app/src/main/java/com/example/deepseek/console/CompareFormatsMain.kt:96 | each element of the `"stop"` array is a quoted JSON string whose body decodes back to the stop text at the same position |
| Request.OptionalFields | app/src/main/java/com/example/deepseek/console/CompareFormatsMain.kt:95-98 | `"max_tokens":N` is present exactly when a limit is given and `"stop":[...]` exactly when a stop list is given; max_tokens comes first, they are joined by ", ", and nothing is appended when both are absent |
| Request.NonEmptyPair | app/src/main/java/com/example/deepseek/console/CompareFormatsMain.kt:97 | the filter keeps the non-empty fields of the two, in order |
| Request.EmptyStopList | app/src/main/java/com/example/deepseek/console/CompareFormatsMain.kt:96-98 | an empty stop list still yields the field, with an empty array |
| Request.LocateAfter | app/src/main/java/com/example/deepseek/console/LogicTaskCompareMain.kt:224 | after a prefix that holds no key, `"content":` followed by an escaped text is located at that text's escaped body |
| Request.NoKeyInRole | app/src/main/java/com/example/deepseek/console/LogicTaskCompareMain.kt:224 | the start of a message object, with a role without quotes, holds no `"content":"` before the content member |
| Request.MessagesHead | app/src/main/java/com/example/deepseek/console/LogicTaskCompareMain.kt:223-225 | the messages array starts with the first message's object |
| Request.ExtractFromMessage | app/src/main/java/com/example/deepseek/console/LogicTaskCompareMain.kt:224 | the extractors read a message's content back out of its object, whatever follows, for a role without quotes and content without backslash, CR or TAB |
| Request.ExtractFirstMessage | app/src/main/java/com/example/deepseek/console/LogicTaskCompareMain.kt:223-225 | `extractContent` returns the first message's content and `extractDeltaContent` returns it too, read out of the messages array (role without quotes, content without backslash, CR or TAB) |
| Completion.StreamOutcome | app/src/main/java/com/example/deepseek/console/LogicTaskCompareMain.kt:161-188 | definition (no contract of its own): what `streamCompletion` shows for an exchange; implemented by `Completion.StreamCompletion`, stated by `Completion.AbortKeepsPrinted` |
| Completion.StreamCompletion | app/src/main/java/com/example/deepseek/console/LogicTaskCompareMain.kt:145-189 | `streamCompletion` posts `buildBody(messages, true)`; an HTTP error or a failed call reports an error and prints nothing; a missing body ends silently; otherwise the read loop prints its chunks, then a newline unless the extractor threw, in which case the error is reported after the chunks |
| Completion.CreateCompletion | app/src/main/java/com/example/deepseek/console/CompareFormatsMain.kt:85-145 | `createCompletion` posts the body with the optional fields, shows what `streamCompletion` shows, and returns null on every path |
| Completion.AbortKeepsPrinted | app/src/main/java/com/example/deepseek/console/LogicTaskCompareMain.kt:170-188 | a payload that makes the extractor throw ends the stream: the chunks before it stay printed, no newline follows, and the error is reported |
| Completion.FullResponse | app/src/main/java/com/example/deepseek/console/LogicTaskCompareMain.kt:207-219 | definition (no contract of its own): what `requestFullResponse` returns for an exchange; stated by `Completion.FullResponseIff` |
| Completion.RequestFullResponse | app/src/main/java/com/example/deepseek/console/LogicTaskCompareMain.kt:191-220 | `requestFullResponse` posts `buildBody(messages, false)` and returns null on an HTTP error or an exception, and otherwise what `extractContent` returns |
| Completion.RequestWithTemperature | app/src/main/java/com/example/deepseek/console/TemperatureCompareMain.kt:105-142 | `requestWithTemperature` posts the chosen messages with the temperature, and returns as `requestFullResponse` does |
| Completion.FullResponseIff | app/src/main/java/com/example/deepseek/console/LogicTaskCompareMain.kt:207-215 | a successful exchange yields a value exactly when the key is present and its value does not run off the end; a missing body yields null |
| Completion.SendOutcomeOf | app/src/main/java/com/example/deepseek/console/Main.kt:70-89 | definition (no contract of its own): which of its four messages `sendRequest` prints; stated by `Completion.SendOutcomeIff` |
| Completion.SendRequest | app/src/main/java/com/example/deepseek/console/Main.kt:48-90 | `sendRequest` posts one user message with the escaped prompt and `"stream": false`; it prints the content, the extraction error with the response, the HTTP status, or the exception message |
| Completion.SendOutcomeIff | app/src/main/java/com/example/deepseek/console/Main.kt:79-84 | the extraction error is printed exactly when the key is absent, the exception message exactly when the value runs off the end, and the content exactly when a raw value is found |
| Console.InteractivePrompts | app/src/main/java/com/example/deepseek/console/Main.kt:39-45 | definition (no contract of its own): the prompts the interactive loop sends; stated by `Console.InteractivePromptsSpec` and `Console.InteractivePromptsUnique` |
| Console.LinesRead | app/src/main/java/com/example/deepseek/console/Main.kt:39-42 | definition (no contract of its own): the number of lines the loop reads; stated by `Console.LinesReadCount` |
| Console.Prompts | app/src/main/java/com/example/deepseek/console/Main.kt:30-45 | definition (no contract of its own): the prompts `main` sends in either mode; stated by `Console.ArgsMode` and `Console.RunMain` |
| Console.RunMain | app/src/main/java/com/example/deepseek/console/Main.kt:30-45 | `main` sends the prompts `Prompts` describes and reads the lines `LinesRead` counts; with arguments it reads none |
| Console.InteractivePromptsSpec | app/src/main/java/com/example/deepseek/console/Main.kt:39-45 | each sent prompt is the trimmed input line at its position and is neither empty nor `exit` in any case; the loop ends at the end of input or at such a line, which is not sent |
| Console.InteractivePromptsUnique | app/src/main/java/com/example/deepseek/console/Main.kt:39-45 | the characterisation above determines the list of prompts |
| Console.LinesReadCount | app/src/main/java/com/example/deepseek/console/Main.kt:39-42 | the loop reads one line more than it sends, unless the input runs out |
| Console.ArgsMode | app/src/main/java/com/example/deepseek/console/Main.kt:30-34 | with arguments exactly one request is sent, with the arguments joined by single spaces |
| Console.ExitAnyCase | app/src/main/java/com/example/deepseek/console/Main.kt:42 | for every input line: it stops the loop exactly when it is empty or is `exit` once its letters are folded to lower case |
| ApiKey.FirstWithPrefix | app/build.gradle.kts:14 | a found line is one of the file's lines and starts with `deepseek.api.key=` |
| ApiKey.FirstWithPrefixIndex | app/build.gradle.kts:14 | the line found is the first one that starts with the prefix |
| ApiKey.FirstWithPrefixNone | app/build.gradle.kts:14 | no line is found exactly when no line starts with the prefix |
| ApiKey.FirstWithPrefixAppend | app/build.gradle.kts:14 | lines after the first one with the prefix are never looked at |
| ApiKey.FromFile | app/build.gradle.kts:13-15 | a value found in the file is non-empty and neither starts nor ends with whitespace |
| ApiKey.ReadApiKey | app/build.gradle.kts:12-17 | a non-empty key neither starts nor ends with whitespace |
| ApiKey.SubstringAfter | app/build.gradle.kts:15 | definition (no contract of its own): `substringAfter(delim, "")`; stated by `ApiKey.SubstringAfterPrefix` |
| ApiKey.SubstringAfterPrefix | app/build.gradle.kts:15 | on a line starting with the prefix, `substringAfter` gives the rest of the line |
| ApiKey.ReadApiKeyFirstLine | app/build.gradle.kts:14-16 | the key is the trimmed text after the prefix on the first line that carries it; it is empty exactly when that text is all whitespace, even if a later line has a value |
| ApiKey.ReadApiKeyFallback | app/build.gradle.kts:16 | a missing file, or a file without the property, gives the empty key |
| ApiKey.ReadApiKeyLaterLinesIgnored | app/build.gradle.kts:14 | lines added after a line with the property do not change the key |
| ApiKey.EscapeKey | app/build.gradle.kts:19 | definition (no contract of its own): the two chained `replace` calls; stated by `ApiKey.EscapeKeyPerChar`, `ApiKey.EscapeKeyLength` and `ApiKey.EscapeKeyDecodes` |
| ApiKey.EscapeKeyPerChar | app/build.gradle.kts:19 | because backslashes are doubled first, the two `replace` calls escape each character on its own |
| ApiKey.EscapeKeyCharAlone | app/build.gradle.kts:19 | a backslash and a quote become two-character escapes, and any other character stays |
| ApiKey.EscapeKeyLength | app/build.gradle.kts:19 | the escaped key is one character longer per backslash and per quote |
| ApiKey.EscapeKeyDecodes | app/build.gradle.kts:19 | every quote of the escaped key is the second half of a backslash pair, and decoding the pairs gives the key back |
| ApiKey.BuildConfigLiteral | app/build.gradle.kts:34 | the build-config value is the escaped key between double quotes, a literal whose body decodes to the key |

## Left out

- Networking: the OkHttp client, headers, `execute()`, reading the body and UTF-8 decoding. An exchange is a parameter: a failed call, an HTTP status, or the body text (or the lines of the stream).
- Console output: `println`, `print`, `flush`, the texts written to standard error and the stack traces. A call's output is the list of printed chunks, whether the closing newline was printed, and whether an error was reported; `sendRequest` reports which of its four messages it prints.
- The `main` functions of LogicTaskCompareMain.kt, CompareFormatsMain.kt and TemperatureCompareMain.kt: fixed prompts and the order of the calls, with no logic of their own. The API-key check at the start of each `main` is left out as well.
- Reading standard input in Main.kt: the lines are given as a sequence, and the end of input is its end.
- The temperature `Float` and its rendering: `Request.BuildBodyWithTemperature` takes the rendered text.
- `trimIndent()`: the bodies are modelled as the text it gives when no substituted value holds a line break. Contents, prompts and stop texts are substituted only through `escapeJson`, whose output holds no LF or CR, and the number and the temperature are single lines, so the modelled bodies are exact for every content, prompt and stop text. Only a role text holding a line break, which would change the lines `trimIndent` sees, is outside the model; the source passes only the constant roles `system` and `user`.
- Text.Trim: whitespace is the ASCII part of Kotlin's `Char.isWhitespace` (tab to carriage return, U+001C to U+001F, space); Unicode spaces are not modelled.
- Text.EqualsIgnoreCase: case folding covers the ASCII letters only.
- Reading `local.properties`: whether it exists and the lines `readLines` returns are a parameter; a missing file is `None`.
- The Android and Gradle configuration of app/build.gradle.kts apart from lines 12-19 and 34.
