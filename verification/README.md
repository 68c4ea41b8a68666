# HGL standings scraper, modelled in Dafny

`server.js` serves two JSON endpoints built by scraping a billiards league
site. `GET /api/competities` lists the competitions linked from the
league's standings page. `GET /api/standen/:competitieId` returns one
competition's title, a capture time and one record per player row. Both
answers sit behind a five-minute in-memory cache.

This project models the extraction logic and the cache as pure Dafny
functions and proves what they promise.

- `optional.dfy` (`Optional`): the `Option` type. `None` stands for JSON `null` and for `NaN`.
- `js_text.dfy` (`JsText`): the JavaScript string operations the scraper relies on.
  - `trim`, with the exact ECMAScript white-space set, which is also what `\s` matches.
  - `toLowerCase` on header cells.
  - `replace` with a one-character string pattern, which replaces only the first occurrence.
- `js_number.dfy` (`JsNumber`): `parseInt` and `parseFloat`.
  - `parseInt` handles leading white space, one sign, the `0x` prefix and the longest digit run.
  - `parseFloat` is an exact decimal-to-rational reader. It handles `Infinity`, an optional fraction and an optional exponent.
- `competitions.dfy` (`Competitions`): the link loop of `GET /api/competities`.
  - The `href` pattern match and `parseInt` of the id.
  - The trimmed-text filter, and deduplication by id where the first link wins.
- `cells.dfy` (`Cells`): the per-cell normalisers.
  - The `^(.+?)\s*\((\d+)\)\s*$` name/handicap split, including the lazy group and the rule that `.` excludes line terminators.
  - `parseNumber`.
  - The `|| null` pass-through of the text columns.
- `standings.dfy` (`Standings`): the standings extraction.
  - The title scan.
  - The header test that qualifies a table.
  - The row fold that threads `lastPos` across all qualifying tables.
  - The fixed 16-field column mapping.
- `cache.dfy` (`Cache`): the two cache slots and both request handlers.
  - Clock readings and the upstream response are parameters.

cheerio parsing is not modelled. A page is given as its already-selected parts:
- the `(href, text)` pairs of its `a` elements;
- the texts of its `h1, h2, h3` elements;
- for each table, its header cell texts and its body rows. A row holds its cell texts and the text of the links in its second cell.

Each extraction is a fold over those lists in document order. Every fold is
related to an independent reference definition:
- `FirstEntries` for the competition list;
- `PlayerRows`, `PositionAt` and `Expected` for the players.

Three details of `server.js` a reader might not expect, all modelled as written:
- `parseNumber` removes the first `%` anywhere in the cell, not only a trailing one (server.js:158). It also turns only the first `,` into `.`.
- A non-blank position cell that `parseInt` cannot read still replaces `lastPos` (server.js:138-139).
  - The model keeps that value as `NotANumber`.
  - Blank cells after it copy `NotANumber`, not the last successfully parsed position.
- Nothing orders positions. A page that lists 5 before 3 gives records in page order, with those positions.

## Model

| member | source | states |
|---|---|---|
| JsText.Trim | server.js:109 | The result has no white space at either end. It is a slice of the input with only white space on both sides of it. |
| JsText.TrimEmpty | server.js:110 | Trimmed text is empty, and so falsy, exactly when the input is all white space. |
| JsText.TrimFixedPoints | server.js:109 | Trimming changes nothing exactly when the text already has no white space at either end. |
| JsText.ReplaceFirst | server.js:158 | Without the character the text is unchanged. Otherwise only the first occurrence is replaced, and the text before and after it is kept. |
| JsText.ReplaceFirstAt | server.js:158 | In text whose first `c` follows `a`, replacing `c` gives `a`, the replacement, and the rest unchanged. |
| JsNumber.LeadingDigits | server.js:60 | The result is a prefix of the input made only of digits of the radix. It is the longest such prefix: the character after it is not a digit. |
| JsNumber.ParseIntDecimal | server.js:138 | A decimal digit run followed by a non-digit reads as the run's value. The one exception is a lone `0` followed by `x`/`X`, which starts a hexadecimal number. |
| JsNumber.ParseIntRoundTrip | server.js:60 | `parseInt` reads the decimal numeral of any natural number back as that number. |
| JsNumber.ParseIntNaN | server.js:138 | Text whose first character after white space and sign is not a digit is `NaN`. |
| JsNumber.ParseFloatNaN | server.js:158 | `parseFloat` is `NaN` exactly when, after white space and one sign, the text starts with neither a digit, nor a point followed by a digit, nor `Infinity`. |
| JsNumber.ParseFloatDecimal | server.js:158 | `digits.digits` reads as its exact decimal value. |
| JsNumber.ParseFloatInteger | server.js:158 | A digit string reads as its integer value. |
| Cells.HandicapTailShape | server.js:149 | The tail part `\s*\((\d+)\)\s*$` matches the whole text exactly when the text is white space, `(`, digits, `)`, white space. The captured group is those digits. |
| Cells.SplitHandicap | server.js:146-153 | The handicap is null exactly when no prefix ending can be followed by a handicap tail. In that case the name is the whole text. Otherwise the split is at the leftmost such ending: the name is the trimmed prefix and the handicap is the digits' value. |
| Cells.SplitHandicapRoundTrip | server.js:149-152 | A trimmed, non-empty, one-line name followed by ` (digits)` splits back into that name and the digits' value. |
| Cells.SplitHandicapNoParen | server.js:146-147 | Text without `)` keeps the whole text as the name, with a null handicap. |
| Cells.SplitHandicapWithHandicap | server.js:149-153 | `"Jan de Vries (12)"` gives the name `"Jan de Vries"` and handicap 12. |
| Cells.SplitHandicapWithoutHandicap | server.js:146-147 | `"Jan de Vries"` gives the name `"Jan de Vries"` and a null handicap. |
| Cells.ParseNumber | server.js:157 | A missing cell, `""` and `"-"` are null. |
| Cells.ParseNumberNull | server.js:157-159 | A cell is null exactly when it is empty, a dash, or does not start numerically once normalised. |
| Cells.ParseNumberDecimalComma | server.js:158 | `digits,digits` reads as the decimal `digits.digits`. |
| Cells.ParseNumberPercent | server.js:158 | `digits%` reads as the integer the digits denote. |
| Cells.ParseNumberCommaExample | server.js:156-160 | `"12,5"` gives 12.5. |
| Cells.ParseNumberPercentExample | server.js:156-160 | `"85%"` gives 85. |
| Cells.ParseNumberNullExamples | server.js:156-160 | `"-"`, `""`, `"abc"` and a missing cell give null. |
| Cells.TextOrNull | server.js:175-176 | The result is null exactly when the cell is missing or empty. Otherwise it is the cell text unchanged. |
| Competitions.HrefId | server.js:54-59 | Null exactly when the path pattern occurs nowhere in the `href`. Otherwise the result is the non-empty digit run after the leftmost occurrence. |
| Competitions.HrefIdOfPath | server.js:54-59 | `/hetgroenelaken/standen/id/` followed by digits and a non-digit yields exactly those digits. |
| Competitions.IdOf | server.js:60 | The id is the decimal value of the digit group, which is what `parseInt` gives. |
| Competitions.Candidate | server.js:57-63 | A link contributes exactly when it has an `href`, the pattern occurs in it, and its trimmed text is not empty. It then contributes the decimal value of the digit group as id and the trimmed text as name, which is non-empty and has no white space at either end. |
| Competitions.ExtractWellFormed | server.js:56-67 | No two listed competitions share an id. Every listed competition is the contribution of some link on the page. |
| Competitions.ExtractIds | server.js:56-67 | An id is listed exactly when some link qualifies for it. |
| Competitions.ExtractEmpty | server.js:53-67 | The list is empty exactly when no link qualifies. |
| Competitions.ExtractIsFirstEntries | server.js:53-67 | The list equals the independently defined list of the first qualifying link of each id, in document order. |
| Competitions.CollectIsFirstEntries | server.js:63-64 | The fold with its "already has this id" test builds exactly the first entry of each id. |
| Competitions.FirstWins | server.js:63-64 | The first qualifying link of an id is listed, and it is the only entry with that id. Later links with the same id are dropped even when their text differs. |
| Competitions.NonQualifyingIgnored | server.js:57-64 | A link without an href, with a non-matching href, or with empty text changes nothing, wherever it stands. |
| Standings.Title | server.js:107-113 | The title is empty exactly when every heading is all white space, which is when it trims to the empty string. Otherwise it is the trimmed text of the first heading that is not. |
| Standings.HeaderQualifies | server.js:120-126 | A header cell that reads `pos`, `speler` or `wed` in any letter case, with white space around it, makes its table a standings table. |
| Standings.ExtractPlayers | server.js:116-185 | There are as many records as there are body rows with at least one cell in qualifying tables. |
| Standings.ExtractPlayersSpec | server.js:116-185 | Record `i` is built from the `i`-th row with cells of the qualifying tables, in document order, using the position the carry rule gives that row. |
| Standings.FoldRowsSpec | server.js:127-182 | Folding rows with cells appends exactly the expected records. `lastPos` ends as the parse of the last non-blank position cell, or keeps its value when all are blank. |
| Standings.FoldRowsWithCells | server.js:128-129 | Rows without cells are skipped and leave `lastPos` and the records untouched. |
| Standings.FoldTablesIsFoldRows | server.js:117-127 | The pass over all tables is one fold over the qualifying tables' rows. `lastPos` is not reset between tables. |
| Standings.FoldTablesAppend | server.js:119-185 | The fold over two runs of tables is the fold over the second, started from the state the first left. |
| Standings.PositionCarry | server.js:137-139 | A non-blank cell gives its `parseInt`, `NaN` included. A blank first row gives the starting position. A later blank row gives the previous row's position. |
| Standings.PlayerPosition | server.js:137-163 | Record `i`'s `pos` is the position the carry rule assigns to row `i`. |
| Standings.BlankCopiesPrevious | server.js:137-139 | A blank position cell copies the previous record's position, even when that record came from an earlier table. |
| Standings.LeadingBlankIsNull | server.js:117-138 | A record whose position cell and all earlier ones are blank has a null position. |
| Standings.LeadingBlanksKeepStart | server.js:137-139 | Rows whose position cells are all blank up to row `i` all take the position in force before the first of them. |
| Standings.TieExample | server.js:137-139 | Position cells blank, `p`, blank after position `s` give `s`, `p`, `p`. |
| Standings.TieAtRank | server.js:137-139 | Cells blank, the decimal numeral of `n`, blank after position `n` give `n` three times: a shared rank. |
| Standings.TieOfThree | server.js:137-139 | Cells blank, `3`, blank after position 3 give the tie 3, 3, 3. |
| Standings.NoStandingsTable | server.js:119-126 | Without a qualifying table there are no records. |
| Standings.NumericColumns | server.js:166-179 | Columns 2-10 and 13-15 are `parseNumber` of the cell. They are null past the end of the row and for an empty or `-` cell. |
| Standings.TextColumns | server.js:175-176 | `car` and `omh` are null exactly when the cell is missing or empty. Otherwise they are the trimmed cell text. |
| Standings.PlayerColumn | server.js:142-144 | Name and handicap are split from the trimmed link text when the player cell has links, else from the trimmed cell text. |
| Cache.CompetitionsHit | server.js:35-37 | The list is served exactly when one is stored and less than five minutes old. It is the stored list. |
| Cache.GetCompetities | server.js:32-80 | The handler goes upstream exactly on a cache miss. A hit answers the stored list and changes nothing. A failure answers the fixed 500 message and leaves the cache as it was. The standings cache is untouched. |
| Cache.StandingsHit | server.js:88-91 | Standings are served exactly when an entry exists for the identifier and is less than five minutes old. |
| Cache.GetStanden | server.js:83-204 | The handler goes upstream exactly on a miss. A hit answers the stored standings unchanged. A failure answers the fixed 500 message and leaves the cache as it was. Other identifiers' entries and the competitions slot are untouched. |
| Cache.FreshWindow | server.js:15-36 | The window is half-open: an entry stamped `t` is served at `t + 299999` and not at `t + 300000`. |
| Cache.ColdStartFetches | server.js:10-36 | The first competitions request after start-up always goes upstream. |
| Cache.CompetitiesServedWithinTtl | server.js:35-73 | A successful scrape is stored with the request's clock reading. Any request within five minutes then gets the same list without going upstream. |
| Cache.CompetitiesExpire | server.js:35-73 | Once five minutes have passed, the list is fetched again. |
| Cache.CompetitiesScraped | server.js:46-75 | A successful fetch answers the list extracted from the page's links. |
| Cache.CompetitiesFailureRetries | server.js:46-79 | A failed or non-2xx fetch answers `Failed to fetch competitions` and changes nothing. The next request goes upstream again. |
| Cache.StandenServedWithinTtl | server.js:88-197 | A successful standings scrape is stored under its identifier with the request's clock reading. A request for it within five minutes gets the same standings, `laatstBijgewerkt` included, without going upstream. |
| Cache.StandenScraped | server.js:99-199 | A successful fetch answers the page's title, the capture time and the extracted players. |
| Cache.StandenKeysIndependent | server.js:194-197 | Scraping one identifier does not change whether, or with what, another identifier is served. |
| Cache.EndpointsIndependent | server.js:10-13 | A standings request does not change whether, or with what, the competitions list is served. |

## Left out

- Express routing, the CORS headers, static file serving, `app.listen`, the port setting and console logging (server.js:6-7, 21-29, 206-209). These are plumbing around the core.
- The `node-fetch` request and its User-Agent header. The upstream answer is a parameter: a network error, or a status with the already-selected parts of the page.
- A failure of `response.text()` is not modelled. Neither is any exception cheerio could raise.
- cheerio's HTML parsing and CSS selection. Pages are given as their selected parts.
  - Nested tables are not modelled. Such a table's rows also match the outer table's `tbody tr` selector.
- JsNumber.ParseFloatDecimal: the value is exact. The rounding of `parseFloat` to a binary double is not modelled, nor is overflow to `Infinity` for very long digit strings.
- JsNumber.ParseIntDecimal: the value is exact. `parseInt` loses precision above 2^53, so very long ids could collide in the dedup test. The model keeps them distinct.
- `toLowerCase` is modelled for ASCII letters only. No other character lowercases to a letter of `pos`, `speler` or `wed`, so the header test is unaffected.
- The ISO 8601 text of `laatstBijgewerkt`. It is modelled as the clock reading passed to the handler.
- JSON serialisation is not modelled.
  - `NaN` and `Infinity` become `null` in the output. `NotANumber` and `NoPosition` are therefore printed alike.
  - `Number` keeps `Infinity` apart.
- Concurrent cache misses for the same key. Each handler call is atomic in the model; in the server, two overlapping misses both fetch and the last write wins.
- `cache.standen` is a plain object. Identifiers such as `__proto__` or `constructor` hit inherited properties there. The model uses a map, so only stored identifiers are present.
