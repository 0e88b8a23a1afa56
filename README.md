# fundacao_scrapper core in Dafny

The scraper fetches news pages of the Fundação site, asks a language model
for a summary and tags, and assembles one `noticia` record per page. This
project models the two pieces of `src/main.ts` that are logic rather than I/O.

- **The date normaliser `transformarData`** (`date_pattern.dfy`,
  `date_normalizer.dfy`, `ecma_date.dfy`). The regular expression
  `(\d{2})\/(\d{2})\/(\d{4})\s+às\s+(\d{1,2})h(\d{2})` is modelled as a
  leftmost, unanchored search over a `string`. `MatchAt` is the scanner at one
  position. It is proved sound and complete against `Spelled`/`WellFormed`,
  which read the pattern as a set of strings. The five groups go through
  `parseInt` and `new Date(year, month - 1, day, hour, minute)`. The Date
  arithmetic follows ECMA-262, section 21.4.1: `MakeDay` with month carry,
  `MakeTime`, `MakeDate`, `UTC` for a fixed offset, `TimeClip` (NaN), and
  `MakeFullYear` (years 0..99 are 1900..1999). `Math.floor(getTime() / 1000)`
  completes the conversion. The host's time zone is a parameter `tz`, in
  minutes east of UTC.
- **The record-assembly rule of `simpleExample`** (`aggregator.dfy`).
  - `Callback` is the `forEach` callback. Its early returns and throws come in
    source order, with JavaScript truthiness for `if (error)`, `!body`, `!tags`,
    `tags.erro` and `!timeStap`.
  - `AssembleNoticias` runs it over the fetch results, one after the other, and
    appends to `noticias_ok`.
  - The fetch result, including the shape of `buscarCampos`' catch branch, is
    an input datatype.
  - Each enrichment reply is given as either a parsed JSON value or the reason
    `JSON.parse(reply.choices[0].message.content)` threw.

`date_examples.dfy` and `aggregator_examples.dfy` hold worked instances:
- a date inside surrounding text;
- roll-over of out-of-range fields;
- the single-article run with `{resumo: "Resumo curto"}` and `{tags: ["saude"]}`;
- a timestamp of 0 that is thrown away.

Where the code and its description differ, the model follows the code:

- The record's `tags` is the whole parsed tags payload (`tags: tags`,
  src/main.ts:223). In the single-article run it is therefore the object
  `{tags: ["saude"]}`, not the list `["saude"]`.
- The record's `resumo` is `resumo.resumo`, whatever its type, and it is
  absent (`undefined`) when the payload has no such key.

## Model

| member | source | states |
|---|---|---|
| `DatePattern.Match` | src/main.ts:148-153 | `match` returns null exactly when the pattern matches at no position of the string; a match's groups are digit strings of lengths 2, 2, 4, 1..2 and 2 |
| `DatePattern.MatchAt` | src/main.ts:148 | the scanner at one position; its groups fit the quantifiers; it is sound and complete by `DatePattern.MatchAtSound` and `DatePattern.MatchAtComplete` |
| `DatePattern.MatchAtSound` | src/main.ts:148 | a position the scanner accepts is an occurrence of the pattern with those groups and two non-empty whitespace runs |
| `DatePattern.MatchAtComplete` | src/main.ts:148 | every occurrence of the pattern is accepted by the scanner at its start, with the same groups (greedy `\s+` and `\d{1,2}` lose nothing) |
| `DatePattern.Search` | src/main.ts:149 | the position found is the first one from `from` on that matches; none is found only when no position matches |
| `DatePattern.MatchIsLeftmost` | src/main.ts:149 | the groups returned are those of the leftmost position at which the pattern matches |
| `DatePattern.NoMatchNoOccurrence` | src/main.ts:148-153 | when `match` returns null, no substring spells the pattern |
| `DatePattern.MatchInText` | src/main.ts:148-149 | text without digits before the date, and any text after it, leave the match unchanged: the search is unanchored |
| `DatePattern.WholeMatch` | src/main.ts:148-149 | a string that is exactly one date, with any whitespace runs around "às", matches with its own groups |
| `DatePattern.SkipSpaces` | src/main.ts:148 | `\s+` consumes the longest run of whitespace, and the character after it is not whitespace |
| `DatePattern.SkipSpacesExact` | src/main.ts:148 | a whitespace run followed by a non-space is exactly what greedy `\s+` consumes |
| `DateNormalizer.TransformarData` | src/main.ts:147-170 | the function throws exactly when no position of the input matches, and then with "Formato de data inválido"; the "Datas estão vazias" branch is never taken |
| `DateNormalizer.FromGroups` | src/main.ts:161-169 | definition: `new Date(...)` on the parsed groups, in seconds; its value is `DateNormalizer.FromGroupsValue` |
| `DateNormalizer.EpochSeconds` | src/main.ts:169 | `Math.floor(t / 1000)`: NaN exactly for NaN, and otherwise the number of whole seconds in t, that is, 1000 times the result is at most t and within 1000 of it |
| `DateNormalizer.ParseInt` | src/main.ts:162-166 | `parseInt(ds, 10)` of an n-digit string is below 10^n |
| `DateNormalizer.ParseIntDigits` | src/main.ts:162-166 | the value of a one-, two- or four-digit group, digit by digit, most significant first |
| `DateNormalizer.TransformarDataValue` | src/main.ts:155-169 | for an offset of at most a day, a matching string yields the seconds of the leftmost match's date in local time, a whole number of minutes |
| `DateNormalizer.FromValues` | src/main.ts:161-169 | `Math.floor(new Date(...).getTime() / 1000)` equals the MakeDay day number times 86400 plus the time of day minus the offset; the floor loses nothing |
| `DateNormalizer.FromGroupsValue` | src/main.ts:161-169 | the same for the parsed groups of a match |
| `DateNormalizer.GroupBounds` | src/main.ts:155-167 | the parsed year is below 10000 and the other fields below 100 |
| `DateNormalizer.CivilInYear` | src/main.ts:161-167 | a month 1..12 does not carry: the result is DaysFromCivil(year, month, day) * 86400 + hour * 3600 + minute * 60 - offset * 60 |
| `DateNormalizer.WholeMinutes` | src/main.ts:161-169 | for any fields, the result is a multiple of 60 |
| `DateNormalizer.NeverNaN` | src/main.ts:161-169 | for an offset of at most a day, the result is never NaN |
| `EcmaDate.TimeClip` | src/main.ts:161-167 | definition of TimeClip (a time value beyond 8.64e15 ms in magnitude makes an invalid Date); its property for this code is `EcmaDate.NoClip` |
| `EcmaDate.NewDate` | src/main.ts:161-167 | definition of `new Date(year, monthIndex, day, hours, minutes)`; its properties are `EcmaDate.NoClip`, `EcmaDate.NewDateSeconds`, `EcmaDate.HourCarry`, `EcmaDate.MinuteCarry` and `EcmaDate.WholeMinutes` |
| `EcmaDate.NoClip` | src/main.ts:161-167 | fields read from the pattern never make an invalid Date when the offset is at most a day |
| `EcmaDate.NewDateSeconds` | src/main.ts:161-169 | for such fields, the time value is 1000 times the seconds of the rolled-over local date minus the offset |
| `EcmaDate.DayFromYearStep` | src/main.ts:161-167 | each year begins exactly DaysInYear (365 or 366, under the Gregorian leap rule) days after the previous one |
| `EcmaDate.DayFromYearCounts` | src/main.ts:161-167 | the closed form of DayFromYear equals counting year lengths from 1970, forwards and backwards |
| `EcmaDate.MonthsTile` | src/main.ts:161-167 | each month begins where the previous one ends |
| `EcmaDate.MonthsFillYear` | src/main.ts:161-167 | the twelve months fill the year exactly |
| `EcmaDate.MonthCarry` | src/main.ts:163 | a month index 12 higher is the same month of the next year |
| `EcmaDate.DayCarry` | src/main.ts:164 | day DaysInMonth + d of a month is day d of the next one, including from December into January |
| `EcmaDate.HourCarry` | src/main.ts:165 | hour h + 24 is hour h of the next day |
| `EcmaDate.MinuteCarry` | src/main.ts:166 | minute m + 60 is minute m of the next hour |
| `EcmaDate.WholeMinutes` | src/main.ts:161-167 | every valid time value the constructor builds is a whole number of minutes |
| `DateExamples.GroupValues` | src/main.ts:162-166 | the decimal values of the five captured groups |
| `DateExamples.DenotedSeconds` | src/main.ts:147-170 | a string that is exactly one date, with single spaces around "às", converts to the local-time seconds of its fields |
| `DateExamples.WholeStringDate` | src/main.ts:147-170 | the same single-space spelling, stated with the groups' own values |
| `DateExamples.SurroundingTextMatch` | src/main.ts:148-149 | "Publicado em 05/03/2024 às 9h05 por X" matches with groups 05, 03, 2024, 9, 05; the one-digit hour is accepted |
| `DateExamples.SurroundingTextFields` | src/main.ts:162-166 | those groups are the fields 2024, 3, 5, 9, 5 |
| `DateExamples.SurroundingTextSeconds` | src/main.ts:161-169 | 2024-03-05 09:05 local time is 1709629500 - 60 tz |
| `DateExamples.AfternoonSeconds` | src/main.ts:161-169 | 2024-03-05 14:30 local time is 1709649000 - 60 tz |
| `DateExamples.OtherFormatRejected` | src/main.ts:151-153 | "2024-03-05" is rejected with "Formato de data inválido" |
| `DateExamples.NewYearFields` | src/main.ts:162-166 | "01/01/2024 às 10h00" has the fields 2024, 1, 1, 10, 0 |
| `DateExamples.NewYearSeconds` | src/main.ts:161-169 | 2024-01-01 10:00 local time is 1704103200 - 60 tz |
| `DateExamples.NewYearNotEpoch` | src/main.ts:161-169 | that timestamp is never 0 for an offset of at most a day |
| `DateExamples.EpochFields` | src/main.ts:162-166 | "01/01/1970 às 0h00" has the fields 1970, 1, 1, 0, 0 |
| `DateExamples.EpochSeconds` | src/main.ts:161-169 | on 1970-01-01, only the time of day and the offset count |
| `DateExamples.MonthThirteen` | src/main.ts:163 | month 13 is January of the next year |
| `DateExamples.MonthZero` | src/main.ts:163 | month 00 is December of the previous year |
| `DateExamples.DayThirtyTwo` | src/main.ts:164 | 32/01 is February 1st |
| `DateExamples.FebruaryThirty` | src/main.ts:164 | 30/02 is March 1st in a leap year and March 2nd in a common year |
| `DateExamples.HourTwentyFive` | src/main.ts:165 | hour 25 is 01h of the next day |
| `DateExamples.CenturyShift` | src/main.ts:162 | the four-digit year 0024 is read as 1924 |
| `Aggregator.Get` | src/main.ts:207-220 | definition of `v.erro` and `v.resumo`, the only keys read; its properties for this code are in `Aggregator.Callback` and `Aggregator.RecordOf` |
| `Aggregator.Truthy` | src/main.ts:202-207 | definition of JavaScript truthiness of a parsed value (`!tags`, `!resumo`, `tags.erro`, `resumo.erro`); used by `Aggregator.Callback` |
| `Aggregator.Present` | src/main.ts:186-189 | definition of the truthiness of a nullable string field (`if (error)`, `!body`, `!date`, `!title`): present and non-empty; used by `Aggregator.Callback` |
| `Aggregator.StampFalsy` | src/main.ts:214 | definition of `!timeStap`: true for 0 and NaN; `AggregatorExamples.KeptUnlessZero` and `AggregatorExamples.EpochTimestampIsEmpty` use it |
| `Aggregator.Keeps` | src/main.ts:186-216 | definition of the keep rule: every check passes and the timestamp is truthy; `Aggregator.Callback` pushes exactly when it holds, and `Aggregator.KeepsByPattern` restates it through the pattern |
| `Aggregator.KeptRecords` | src/main.ts:184-228 | definition of the records of the kept results in order; `Aggregator.AssembleNoticias` computes it, and the `Aggregator.KeptRecords*` lemmas state its properties |
| `Aggregator.CaughtFetch` | src/main.ts:54-62 | the catch branch keeps the id, sets every field to null and carries the exception's message in `error` |
| `Aggregator.RecordOf` | src/main.ts:218-225 | `titulo`, `conteudo` and `imagens` are title, body and images unchanged; `resumo` is the payload's `resumo`; `tags` is the whole tags payload; `local_id` is absent; `data_publicacao` is the timestamp |
| `Aggregator.Callback` | src/main.ts:184-228 | each way the callback can end happens exactly under its condition, in source order (logged fetch error, missing field, parse throw of the tags reply before the summary reply, falsy payload, `erro` payload logging the first truthy `erro`, date throw, empty timestamp); a record is pushed exactly when the item is kept, and it is RecordOf the item |
| `Aggregator.AssembleNoticias` | src/main.ts:182-228 | `noticias_ok` ends as the records of the kept results, in order; every record has a title, a body, no `local_id`, a non-zero timestamp and truthy tags without `erro`; each result's outcome agrees with the keep rule |
| `Aggregator.KeptRecordsStep` | src/main.ts:228 | one more result appends at most its own record |
| `Aggregator.KeptRecordsSingle` | src/main.ts:186-228 | a single result yields its record exactly when it is kept |
| `Aggregator.KeptRecordsAppend` | src/main.ts:184-228 | records are assembled in order: the results of a concatenation give the concatenation of the records |
| `Aggregator.KeptRecordsLength` | src/main.ts:228 | each result yields at most one record |
| `Aggregator.KeptIgnoresFailedFetches` | src/main.ts:186-188 | removing the results whose fetch failed changes no record |
| `Aggregator.ErrorFreeSound` | src/main.ts:186 | the error-free results are results, none of whose fetch failed |
| `Aggregator.AtMostErrorFree` | src/main.ts:186-228 | there are at most as many records as error-free results |
| `Aggregator.KeptRecordsSource` | src/main.ts:186-228 | every record is the record of a result that passed every check |
| `Aggregator.KeptRecordsComplete` | src/main.ts:186-228 | every result that passes every check has its record among the records |
| `Aggregator.KeepsByPattern` | src/main.ts:186-216 | for an offset of at most a day, a result is kept exactly when every check before the date passes, the date text contains the pattern, and the leftmost match is not the epoch; the timestamp is then that match's local seconds, a multiple of 60 |
| `Aggregator.CaughtFetchNeverKept` | src/main.ts:54-62 | a result from the catch branch never yields a record; it is logged exactly when the message is non-empty |
| `AggregatorExamples.SingleArticleRun` | src/main.ts:182-228 | page 1301 with title "Teste", date "01/01/2024 às 10h00", body "Corpo de teste" and the two replies yields exactly one record; its timestamp is 2024-01-01 10:00 local time, its `resumo` is "Resumo curto", and its `tags` is the whole object `{tags: ["saude"]}` |
| `AggregatorExamples.RunSingle` | src/main.ts:186-228 | page 1301 with a date that converts to a non-zero timestamp t yields that one record |
| `AggregatorExamples.RunReachesDate` | src/main.ts:186-210 | page 1301 with both replies passes every check before the date |
| `AggregatorExamples.RunKept` | src/main.ts:186-216 | with a non-zero timestamp, page 1301 is kept |
| `AggregatorExamples.RunRecord` | src/main.ts:218-225 | the record of page 1301 is filled from the page and the replies |
| `AggregatorExamples.FailedTagsCall` | src/main.ts:199 | when the tags reply cannot be parsed, the article yields no record |
| `AggregatorExamples.KeptUnlessZero` | src/main.ts:212-216 | a result that reaches the date conversion is kept exactly when its timestamp is not 0 |
| `AggregatorExamples.EpochTimestampIsEmpty` | src/main.ts:212-216 | "01/01/1970 às 0h00" converts to -60 tz, which is 0, and so throws "TimeStamp veio vazio", exactly on a UTC host |

## Left out

- The page fetch of `buscarCampos` (navigation, `waitForSelector`, DOM extraction and `trim`, src/main.ts:18-53) and the browser launch and close (173, 233) are browser I/O. Only the record they resolve to is modelled, as `FetchResult`; any title, date, body, image list and error is admitted as input.
- `gerarResumo` and `gerarTags` (src/main.ts:68-145) are prompt text, an HTTP call, `response.json()` and an environment credential, all network I/O. Their outcomes are inputs.
- `JSON.parse` and the `.choices[0].message.content` access (src/main.ts:199-200) are a foreign parser over untrusted text. Each is given as `Parsed(value)` or `Failed(reason)`.
- The `Promise.all` fan-out (src/main.ts:178-180) and the unawaited `async` `forEach` callbacks (184-231) are concurrency. In the program, callbacks interleave at their `await`s, so records may be pushed in the order the replies arrive. The model runs the callbacks one after another in the order of the results.
- An exception thrown in a callback is modelled as ending that callback only. In Node.js it is an unhandled rejection, which can also end the process; that is not modelled.
- The host time zone is a fixed offset of a whole number of minutes. There is no time-zone database and no daylight-saving transitions. The whole-minute results (the second ensures of `DateNormalizer.TransformarDataValue`, `DateNormalizer.WholeMinutes` and `Aggregator.KeepsByPattern`) hold only for such an offset. A real zone database has historical local-mean-time offsets with seconds, for example America/Sao_Paulo before 1914, which year groups 0000-0013 and 1000-1913 reach.
- `\s` is the fixed ECMAScript whitespace set listed in `DatePattern.IsSpace`. Strings are sequences of code points, not UTF-16 code units. Every character the pattern names lies in the Basic Multilingual Plane, so the groups found are the same. The `à` of the pattern is the precomposed U+00E0, with no Unicode normalisation.
- Aggregator.Get: models property access only for the keys `erro` and `resumo`, the only keys the callback reads, which no prototype of a parsed value carries. Inherited properties such as `"x".length` or `({}).toString` are not modelled.
- `console.log` output, `dotenv.config()` and the unused `execSync` and `fs` imports are left out.
- `date.toString()` (src/main.ts:212) is the date string itself, since `date` is always a string there.
