# Revive click monitor: a Dafny model of `test.js`

The monitor is a run-once Node script. It logs in to a Revive ad server and
scrapes the advertiser statistics table for today. It reads the daily click
targets from a Google Sheet and joins the two by advertiser id. It then
builds a Telegram message, one line per advertiser, and posts it when a bot
token and a chat id are configured.

This project models that pipeline with the network, the HTML parser and the
Sheets client abstracted away. What each request returns is an input, and
every request the run makes is recorded as an effect. The model has five
modules over a shared `Wrappers` module (`Option`, `Result`):

- `JsText` (`js_text.dfy`) holds the JavaScript built-ins the script relies
  on: `String.prototype.trim`, `replace(/,/g, "")`, `parseInt(_, 10)`
  (section 19.2.5 of ECMA-262) and the decimal text of a non-negative
  integral Number.
- `StatsTable` (`stats_table.dfy`) covers row extraction: the `.each` loop
  that turns table rows into `{ name, id, clicks }` records.
- `SheetTargets` (`sheet_targets.dfy`) covers `getTargetsFromSheet`. The
  per-id sum is a dictionary updated in place. It is proved equal to an
  independent description: "NaN, or the sum of the targets after the last
  unparseable one".
- `Report` (`report.dfy`) covers the message built with `+=`.
- `Pipeline` (`pipeline.dfy`) covers `loginAndFetchStats`: the login state
  machine (Start to LoggedIn, Aborted or Failed), the order of requests, the
  send guard, and the exit code set by the top-level `.catch`.

The loops of the script are methods with loop invariants:
`ExtractAdvertisers`, `GetTargetsFromSheet` and `BuildMessage`. Each is
proved equal to a function on its inputs, and the lemmas state what the
script promises about those functions.

Behaviour of the script worth noting, all of it modelled as written:

- No row is singled out by its text. A summary row such as "Total" that
  passes the checks is reported like an advertiser.
- The stats URL is fixed to `period_preset=today`; no other period is ever
  requested.
- A login POST answered with 200 ends the run quietly: nothing more is
  requested and the process exits with 0.
- The id of a row without a matching client link is `-`.
- The target suffix is left out whenever `targets[id] || 0` is not
  positive: a missing id, a zero target, a negative sum and a NaN sum all
  give the short line.
- A missing `oa_cookiecheck` token does not stop the login. The form then
  carries the text `undefined`.
- An empty sheet makes `headers.indexOf` throw, so the run fails. A sheet
  without the expected headers is not an error: every row reads
  `undefined`.

## Model

| member | source | states |
|---|---|---|
| JsText.TrimStartSpec | test.js:110 | the leading part `trim` removes is white space, and what is left does not start with white space |
| JsText.TrimEndSpec | test.js:110 | the trailing part `trim` removes is white space, and what is left does not end with white space |
| JsText.TrimSpec | test.js:110 | `trim(s)` is a slice of `s` with only white space before and after it |
| JsText.TrimEnds | test.js:110 | a non-empty `trim(s)` starts and ends with a character that is not white space |
| JsText.TrimBlank | test.js:110 | `trim(s)` is empty exactly when `s` is all white space, so the `name &&` test rejects blank cells |
| JsText.TrimUnpadded | test.js:110 | text with no white space at either end is unchanged by `trim` |
| JsText.StripCommasSpec | test.js:111 | `replace(/,/g, "")` leaves no comma and leaves comma-free text unchanged |
| JsText.StripCommasKeeps | test.js:111 | `replace(/,/g, "")` deletes the commas rather than replacing them: every other character is kept, as often as it occurs |
| JsText.StripCommasConcat | test.js:111 | comma removal works piece by piece on a concatenation |
| JsText.DigitPrefixSpec | test.js:116-117 | the run `\d+` captures is a prefix of the text, all digits, and as long as possible |
| JsText.DigitPrefixStops | test.js:116-117 | a digit run followed by a non-digit (or nothing) is captured whole and no further |
| JsText.ParseDigitsIsPrefix | test.js:111 | after the sign, `parseInt` reads exactly the longest run of leading digits: NaN when it is empty, its value otherwise |
| JsText.ParseIntSpec | test.js:111 | `parseInt` gives NaN when the text has no digit, and a negative value only when there is a minus sign |
| JsText.ParseIntDigits | test.js:111 | `parseInt` of a digit run followed by any text is the value of the digits, so trailing text is ignored |
| JsText.NatToStringSpec | test.js:134-136 | the decimal text of a count is all digits, has no leading zero (zero prints as "0") and reads back as the count |
| JsText.ParseIntOfNatToString | test.js:134-136 | `parseInt` of a printed count gives the count back |
| StatsTable.FirstClientHrefSpec | test.js:114-115 | the href used is `""` exactly when no anchor href contains `clientid=`; otherwise it is the first one that does |
| StatsTable.ClientIdFromSpec | test.js:116-117 | `/clientid=(\d+)/` fails exactly when no `clientid=` is followed by a digit; otherwise it captures the whole digit run after the leftmost such occurrence, which is not empty |
| StatsTable.IdShape | test.js:114-117 | a record's id is `-` or a non-empty run of digits |
| StatsTable.RowKeepRule | test.js:108-121 | a row yields a record exactly when it has at least 5 cells, its name cell is not blank and its clicks parse to a number >= 0; the record holds the trimmed name, the captured id and those clicks |
| StatsTable.ExtractAdvertisers | test.js:106-123 | the `.each` loop returns exactly the records of the kept rows, in row order |
| StatsTable.ExtractedConcat | test.js:106-123 | extraction works row by row: the records of two runs of rows are the records of each, concatenated |
| StatsTable.ExtractedInDocumentOrder | test.js:106-123 | the j-th record comes from the j-th kept row; kept rows ascend in document order; no row that passes is dropped |
| StatsTable.ThousandsSeparatedClicks | test.js:111 | the clicks cell "1,234" parses to 1234 |
| StatsTable.ClientIdOfAnchor | test.js:114-117 | an anchor `?clientid=42` in the name cell gives the id "42" |
| StatsTable.AcmeRow | test.js:108-121 | a five-cell row named Acme with that anchor and "1,234" clicks yields `{ Acme, 42, 1234 }` |
| StatsTable.NoAnchorNoId | test.js:115-117 | a name cell without anchors gives the id `-` |
| StatsTable.TotalRowIsKept | test.js:108-121 | a "Total" row with a parseable click count is kept like any other row |
| SheetTargets.IndexOfSpec | test.js:53-54 | `indexOf` is -1 exactly when the header is absent; otherwise it is the header's first position |
| SheetTargets.LastNaNSpec | test.js:61-62 | the position found holds NaN, and only numbers follow it |
| SheetTargets.GetTargetsFromSheet | test.js:50-63 | the `forEach` over the data rows, with its reset and `+=`, builds exactly the dictionary the fold over the rows' entries describes; an empty sheet fails |
| SheetTargets.AccumulateStep | test.js:61-62 | one turn keeps the invariant: the keys are the ids seen so far, and each holds the settled value of its targets |
| SheetTargets.FoldSettles | test.js:57-63 | after the loop the keys are exactly the ids of the data rows, and each holds NaN if its last target is NaN, otherwise the sum of its targets after the last NaN |
| SheetTargets.SettledAppend | test.js:61-62 | resetting a falsy (0 or NaN) accumulator and then adding the next target gives the settled value of the longer run |
| SheetTargets.SumWhenAllParse | test.js:60-62 | when every target of an id parses or is empty, its entry is the plain sum of them |
| SheetTargets.KeysOfEntries | test.js:59 | the keys the rows put in are exactly the rows' ids |
| SheetTargets.EntryOfRow | test.js:59-60 | the entry of a data row holds that row's id cell and parsed target cell |
| SheetTargets.ContributionsAreRowTargets | test.js:59-60 | every target counted for an id comes from a row carrying that id |
| SheetTargets.TargetsKeys | test.js:51-63 | the header row never contributes: a key is in the dictionary exactly when some data row after it carries that id |
| SheetTargets.TargetsValues | test.js:51-63 | each key holds the settled value of the targets of its rows, which are not empty |
| SheetTargets.MissingTargetHeader | test.js:54-60 | without a `daily_target_clicks` header every row's target cell is `undefined`, which counts as 0, so every id's target is 0 |
| SheetTargets.MissingIdHeader | test.js:53-59 | without an `advertiser_id` header every row reads `r[-1]`, so the only key is "undefined" |
| SheetTargets.FoldAllZero | test.js:60-62 | rows whose targets are all 0 leave every key at 0 |
| SheetTargets.TwoRowsAddUp | test.js:50-63 | two rows for id 42 with targets "100" and "50" give `{ "42": 150 }` |
| Report.LookupTargetSpec | test.js:131 | the looked-up target (`targets[id]`, or 0 when falsy) is 0 exactly when the id is missing or holds 0 or NaN; otherwise it is the entry |
| Report.PercentRounding | test.js:133 | the tenths of a percent shown are `clicks * 1000 / target` rounded to the nearest, a half rounded up |
| Report.BuildMessage | test.js:129-138 | the `forEach` with `+=` builds the header followed by one line per record, in record order |
| Report.LinesConcat | test.js:130-138 | the lines of two runs of records are the lines of each, concatenated |
| Report.LineShowsTargetIff | test.js:131-137 | each line ends with a newline, and `)` comes just before it exactly when the looked-up target is positive; the suffix then ends with `%)` |
| Report.LineStartsWithName | test.js:134-136 | each line starts with the advertiser's name |
| Report.LineHasOneNewline | test.js:134-136 | a line holds exactly one newline when the name and id hold none |
| Report.MessageNewlines | test.js:129-138 | when no record's name or id holds a newline, the message has exactly (number of records + 2) newlines: none dropped, none merged. A trimmed name can keep an inner newline, and then the count is higher |
| Report.AcmeWithTarget | test.js:131-134 | 1234 clicks against a target of 150 show as `1234 / 150 (822.7%)` |
| Report.AcmeWithNaNTarget | test.js:131-136 | a NaN target shows the short line, with no target |
| Pipeline.LoginOutcome | test.js:90-99 | 302 logs in, 200 stops the run quietly, and any other status or a transport error rejects it |
| Pipeline.LoginAndFetchStats | test.js:68-156 | requests happen in the order login page, login POST, stats page, sheet, Telegram. The stats page is fetched only after a 302. On a 200 the run stops before any further request. The message is sent, last, exactly when the bot token and chat id are both set. Each failed request rejects the run. The process exits with 1 exactly when a request fails, the login status is neither 302 nor 200, or the sheet is empty; otherwise it exits with 0 |
| Pipeline.ReportStage | test.js:126-150 | after the stats page: an unreadable or empty sheet rejects the run; otherwise the built message is posted exactly when token and chat id are set |

## Left out

- `index.js` is not part of this model. Its login branch repeats the one in `test.js`, and the rest is one selector read.
- HTTP, cookies and redirects are not modelled. The login page is reduced to its `oa_cookiecheck` value, the login response to its status, the stats page to its table rows and the sheet to its `values`. A request that rejects, because of the transport or a non-2xx status, is the input `TransportError`.
- HTML parsing (cheerio) is not modelled. A row is given as its `td` cells, each cell as its text and the `href` of each of its anchors, in document order.
- Google Sheets authentication and the Telegram POST are left out. The POST is recorded as a `SendMessage` effect carrying the URL, the chat id and the text.
- Reading `config.json` and the `File` polyfill are left out. Config entries are strings or missing; non-string JSON values are not modelled.
- Console output is left out.
- PercentTenths: this is exact round-half-up of `clicks * 1000 / target` in rational arithmetic. `toFixed(1)` rounds the double nearest `clicks / target * 100`, so the two can differ when that value is a tie or close to one.
- JsText.ParseIntSpec: values are exact integers. Numbers beyond 2^53 lose precision in JavaScript, and counts of 10^21 or more print in exponent form; neither is modelled.
- SheetTargets.GetTargetsFromSheet: keys are plain strings. Ids that name `Object.prototype` properties (`constructor`, `__proto__`) behave differently in JavaScript and are not modelled. Sheet cells are taken as strings, as the API's formatted values are.
- Negative zero is folded into zero. It prints as "0" and passes `>= 0`, so nothing in the script observes it.
