# Weather forecast reply renderer

A Dafny model of the rendering core of a Telegram weather bot. The bot
takes a city name, asks a weather provider for a four-day forecast, and
replies with a Russian message in Telegram MarkdownV2 markup. The model
covers the pure part of `src/weather.ts`:

- `escapeMarkdown` (module `Markdown`): a backslash goes before each of the
  19 MarkdownV2 reserved characters `` _ * [ ] ( ) ~ ` > # + - = | { } . ! \ ``.
- `getWeatherEmoji` (module `Emoji`): lower-case the condition text, then scan
  an ordered chain of English/Russian substring rules. The first rule that
  fires picks one of eight icons, and the thermometer is the fallback.
- the message assembly of `getWeatherForecast` (module `Forecast`): the fixed
  header `📍 *<location>* — прогноз на 4 дня:`, one `📅` block per day in
  provider order, a final `trim()`, and the fixed "city not found" reply for
  every failure.
- the JavaScript string primitives these use (module `Strings`):
  `includes`, `trim` and `toLowerCase`.

The model keeps the quirks of the code:
- the condition text is escaped twice, once into `conditionText` and again
  when it is shown (`Markdown.DoubleEscapeGrows` shows this changes the text);
- the icon is computed from the escaped text (`Emoji.EscapeKeepsIcon` proves
  this gives the same icon as the raw text);
- the location in the header is not escaped;
- the header always says "4 дня", whatever the number of days.

The code has no input validator for city names and no per-language message
table. Russian is hard-coded in the request, the header and the date format.
The model follows the code and has neither.

Strings are sequences of Unicode scalar values, while JavaScript strings are
sequences of UTF-16 code units. The operations do inspect characters outside
the Basic Multilingual Plane, such as the pin U+1F4CD that trimming reaches
first. But every character they match against lies in the Basic Multilingual
Plane and is not a surrogate: the 19 reserved characters, the keyword letters
and the whitespace set. A character outside that plane is two surrogate code
units in JavaScript, and neither unit matches any of them. So the two views
agree on escaping, keyword search and trimming.

## Model

| member | source | states |
|---|---|---|
| Markdown.ReservedCharsAreReserved | src/weather.ts:12 | a character is reserved exactly when it belongs to the 19-character class of the escaping regular expression |
| Markdown.Escape | src/weather.ts:11-13 | the escaped text is as long as the input plus the number of reserved characters in it |
| Markdown.EscapeAppend | src/weather.ts:12 | escaping works character by character, in order: escaping a concatenation concatenates the escapes |
| Markdown.EscapeIdentityIff | src/weather.ts:12 | escaping leaves a text unchanged exactly when it contains none of the 19 reserved characters |
| Markdown.UnescapeEscape | src/weather.ts:12 | dropping the backslash of each `\c` pair recovers the original text from its escape |
| Markdown.EscapeInjective | src/weather.ts:12 | two different texts never escape to the same string |
| Markdown.EscapeIsWellEscaped | src/weather.ts:12 | every escape output pairs each backslash with a reserved character and leaves no reserved character alone |
| Markdown.EscapeUnescape | src/weather.ts:12 | every well-escaped string is the escape of its unescaping, so escaping is a bijection onto well-escaped strings |
| Markdown.DoubleEscapeGrows | src/weather.ts:53-59 | escaping an already escaped text that had a reserved character makes it longer, so the double escape of the condition is visible |
| Markdown.LowerCharKeepsReserved | src/weather.ts:12-16 | lower-casing fixes every reserved character and never creates one |
| Markdown.LowerEscapeChar | src/weather.ts:12-16 | lower-casing the escape of one character gives the escape of its lower case |
| Markdown.LowerEscape | src/weather.ts:12-16 | lower-casing the escaped text equals escaping the lower-cased text |
| Markdown.StartsWithEscape | src/weather.ts:12 | escaping neither creates nor destroys a prefix that has no reserved character |
| Markdown.ContainsEscape | src/weather.ts:12-23 | escaping neither creates nor destroys an occurrence of a non-empty text without reserved characters |
| Markdown.EscapeMarkdown | src/weather.ts:12 | the left-to-right replace scan yields the escape, and unescaping its output gives back the input |
| Strings.Contains | src/weather.ts:17-23 | `includes` holds exactly when the keyword occurs at some position of the text |
| Strings.TrimStart | src/weather.ts:62 | removes the longest all-whitespace prefix and nothing else |
| Strings.TrimEnd | src/weather.ts:62 | removes the longest all-whitespace suffix and nothing else |
| Strings.TrimCuts | src/weather.ts:62 | trimming the start and then the end leaves the slice between the whitespace prefix and the whitespace suffix, with visible characters at both ends |
| Strings.Trim | src/weather.ts:62 | the result is a contiguous middle part of the input, with only whitespace cut off and no whitespace left at either end |
| Strings.TrimDropsTrailingWhitespace | src/weather.ts:62 | trimming a text that starts and ends visibly, followed by whitespace, removes exactly that whitespace |
| Strings.LowerChar | src/weather.ts:16 | each Latin or Cyrillic capital becomes the small letter at the same place of its alphabet (`A`-`Z` to `a`-`z`, `А`-`Я` to `а`-`я`, `Ѐ`-`Џ` to `ѐ`-`џ`); the result is never a capital and every other character is kept |
| Strings.Lower | src/weather.ts:16 | lower-casing keeps the length and maps each character on its own, so no Latin or Cyrillic capital is left and every other character stays in place |
| Strings.LowerIdempotent | src/weather.ts:16 | lower-casing twice is lower-casing once |
| Strings.LowerAppend | src/weather.ts:16 | lower-casing acts position by position across a concatenation |
| Emoji.Symbol | src/weather.ts:17-24 | each icon is one pictograph, followed by the emoji variation selector U+FE0F when it has a second character |
| Emoji.SymbolInjective | src/weather.ts:17-24 | the eight icons are eight different strings |
| Emoji.FirstMatchUnique | src/weather.ts:16-24 | the first-match scan of the rule table picks exactly one icon for every text |
| Emoji.RulesFire | src/weather.ts:17-23 | each rule of the table fires exactly when one of the keywords tested on its source line occurs |
| Emoji.Classify | src/weather.ts:17-24 | the chain of `if` tests returns the icon of the first rule, top to bottom, with a keyword in the text, or the thermometer when no rule fires |
| Emoji.WeatherEmoji | src/weather.ts:15-25 | the icon is the first-match choice of the rule table over the lower-cased condition |
| Emoji.ThermometerIffNoKeyword | src/weather.ts:15-24 | the thermometer is returned if and only if no keyword of any rule occurs in the lower-cased text |
| Emoji.SunWins | src/weather.ts:17 | a text with `sun` or `солнечно` is always sunny, even if it also has `partly` or `cloud` |
| Emoji.PartlyBeatsCloud | src/weather.ts:17-19 | without a sun keyword, a `partly`/`переменная` text is partly cloudy even if it also has `cloud` |
| Emoji.SunnyIsSunny | src/weather.ts:16-17 | the capitalised condition "Sunny" is sunny, because it is lower-cased before the keyword test |
| Emoji.SolnechnoIsSunny | src/weather.ts:16-17 | the capitalised Russian condition "Солнечно" is sunny for the same reason |
| Emoji.KeywordSurvivesEscape | src/weather.ts:12-23 | a keyword made of lower-case Latin or Cyrillic letters occurs in the escaped text exactly when it occurs in the text |
| Emoji.RulesHavePlainKeywords | src/weather.ts:17-23 | every keyword of the chain is non-empty and made of lower-case Latin or Cyrillic letters |
| Emoji.AnyOccursEscape | src/weather.ts:12-23 | a rule fires on the escaped text exactly when it fires on the text |
| Emoji.FirstMatchTransfer | src/weather.ts:16-24 | two texts on which the same rules fire get the same icon |
| Emoji.EscapeKeepsIcon | src/weather.ts:53-54 | classifying the escaped condition gives the same icon as classifying the raw condition |
| Forecast.HeaderLine | src/weather.ts:44 | the header is 24 characters longer than the location, opens with the pin, carries the location verbatim and unescaped from its fourth character, and ends with the fixed "4 дня:" |
| Forecast.DayBlock | src/weather.ts:46-59 | a day block opens with the calendar and ends with the closing parenthesis of the temperature line; the literal text between the slots is the template `Forecast.BlockText`, copied from line 59 and fixed by no contract |
| Forecast.DayBlockShows | src/weather.ts:46-59 | a day block shows the raw condition's icon, the date escaped once, the condition escaped twice and the temperatures verbatim, in the slots of `Forecast.BlockText`, whose literals (`°C`, `°`, the spaces and line breaks) are fixed only by that template's text |
| Forecast.DayBlocks | src/weather.ts:46-59 | there is one block per day, in the provider's order, each ending with a closing parenthesis |
| Forecast.JoinedAppend | src/weather.ts:46-60 | joined runs of blocks concatenate in order |
| Forecast.JoinedSnoc | src/weather.ts:46-60 | joining one more block appends a blank line and the block |
| Forecast.Accumulated | src/weather.ts:44-60 | the loop result, built one block and one blank line per pass, is the header, the blocks separated by blank lines, and one trailing blank line |
| Forecast.JoinedLast | src/weather.ts:59-62 | joined blocks end with the last character of the last block |
| Forecast.LayoutEnds | src/weather.ts:44-62 | the laid-out message starts with the pin and ends with the header's colon when there are no days, otherwise with the last block's closing parenthesis |
| Forecast.TrimAccumulated | src/weather.ts:44-62 | trimming the loop result of a header and blocks with visible ends removes exactly the trailing blank line |
| Forecast.TrimmedAccumulated | src/weather.ts:44-62 | trimming the loop result removes exactly the trailing blank line |
| Forecast.GetWeatherForecast | src/weather.ts:44-66 | any failure yields exactly the fixed "city not found" text; otherwise the reply is the header followed by the day blocks in order, separated by blank lines, with nothing trailing |
| Forecast.HeaderIgnoresDays | src/weather.ts:44 | whatever the number of days, the reply starts with the header: the unescaped location from its fourth character, and "4 дня:" as the header's last six characters |
| Forecast.LayoutAppendsDay | src/weather.ts:46-62 | one more day in the report appends exactly a blank line and its block to the reply |
| Forecast.DayBlocksSnoc | src/weather.ts:46-60 | one more day adds exactly its block at the end |

## Left out

- The HTTP request to the weather provider, `dotenv` and the API key (src/weather.ts:1-8, 29-42). These are network and environment I/O. Their outcome, together with reading `location.name` and `forecast.forecastday` from the payload, is the input `Forecast.Fetch`.
- `new Date(day.date).toLocaleDateString('ru-RU', …)` (src/weather.ts:47-51). This is locale-library behaviour. The localized date is an opaque input string, and only its escaping is modelled.
- The number-to-text conversion of `avgtemp_c`, `maxtemp_c` and `mintemp_c` (src/weather.ts:55-59). These are floating-point values. The temperatures are opaque input strings, shown verbatim.
- The error-message extraction and the logger call in the failure branch (src/weather.ts:64-65). They only produce a log entry and do not change the reply.
- Any failure inside the loop (a day without `day.condition`, for example) reaches the same catch branch. The model folds such failures into `Forecast.Failed` instead of tracing where they occur.
- Strings.Lower: lowers only Latin `A`–`Z` and the Cyrillic capitals U+0400–U+042F, leaving other capitals unchanged, where JavaScript applies full Unicode case mapping. The keywords use only Latin and Russian lower-case letters, and outside these ranges only KELVIN SIGN (to `k`) and LATIN CAPITAL LETTER I WITH DOT ABOVE (to `i` plus a combining dot) lower-case into such letters; no keyword contains `k`, and the one with `i` (`rain`) needs `n` right after it.
- Lone UTF-16 surrogates: a JavaScript string may contain one, but a Dafny `string` is a sequence of Unicode scalar values and cannot, so such inputs are outside the model.
- `src/logger.ts`: logging configuration and an asynchronous file transport, which is pure I/O.
- `app.ts`: the Telegram transport, signal handlers and launch. It sends the reply with `parse_mode: 'HTML'`, which does not match the MarkdownV2 escaping; that mismatch lies outside the renderer.
