# hsscguru — a verified model of its decision logic

hsscguru is a Next.js site for HSSC exam practice. It has practice quizzes, admin CSV uploads
of questions, a results index, a Haryana news aggregator, an auth middleware and a sitemap.
Almost everything it does goes through a hosted database and auth service. This project models
the logic that sits between those calls, in Dafny. Every outcome of a query, an auth call or a
fetch is an input to the model.

The model covers:

- **The admin CSV upload** (`upload_page.dfy`, module `UploadPage`):
  - the quote-aware line parser, as a `while` loop proved against the scanner function `Scan`;
  - the whole-file parser and the check for the fourteen required headers, also as loops;
  - the row-to-record pipeline with its filters;
  - the upload action's redirect outcomes.
- **The older upload action** (`upload_actions.dfy`, module `UploadActions`):
  - a naive comma-split parser that looks up columns by their lowercased header names;
  - options read either as JSON or as a `|`/`,` separated list;
  - the action's failure cases.
- **The practice quiz** (`start_client.dfy`, module `PracticeQuiz`):
  - option normalisation;
  - the correct answer derived from `correct_index`;
  - the score loop;
  - recording an answer.
- **The route gate** (`middleware.dfy`, module `Middleware`): admin routes, protected routes,
  and session errors.
- **The admin landing page** (`admin_page.dfy`, module `AdminPage`): ordered membership checks,
  then the `ADMIN_EMAILS` / owner allowlist.
- **The results index** (`results_page.dfy`, module `ResultsPage`):
  - the first data source that answers;
  - test ids without duplicates;
  - the test-name lookup map and enrichment;
  - the greeting name chain.
- **The Haryana news page** (`haryana_updates.dfy`, module `HaryanaUpdates`):
  - `pick` (the first case-insensitive `<tag>…</tag>` pair);
  - the `items` regex loop;
  - CDATA stripping;
  - the title, link and date fallback chains;
  - the ten-items-per-feed cut.
- **Practice start page and practice form** (`practice_start_page.dfy`, `practice_client.dfy`):
  - topic trimming;
  - the `n` clamp and default;
  - the submit URL, with `encodeURIComponent` modelled over UTF-8 bytes.
- **Navigation highlight** (`navbar.dfy`) and **sitemap generation** (`sitemap.dfy`).

Shared modules:

- `Wrappers` holds `Option`.
- `JsText` holds the JavaScript string operations the code uses: `trim` with the ECMA-262
  white-space set, ASCII `toLowerCase`, `split` on a character or a one-character class, `join`,
  `startsWith`, `indexOf`, `filter(Boolean)` and `split(/\r?\n/)`.
- `JsModel` holds JavaScript numbers (NaN, ±Infinity, finite reals), `||`, `Math.max`,
  `Math.min`, untyped JSON-like values and `String(value)`.

`Number(text)` and `JSON.parse(text)` are not implemented. They are function parameters
(`NumberParser`, `JsonParser`), and every contract holds whatever they return.

## Model

| member | source | states |
|---|---|---|
| UploadPage.ParseLine | src/app/admin/upload/page.tsx:31-46 | The per-line loop returns exactly the field list of the scanner `Scan`: a doubled quote adds one quote in either state, a lone quote toggles quoting, an unquoted comma ends the trimmed field, and the end of the line ends the last one |
| UploadPage.Scan | src/app/admin/upload/page.tsx:35-44 | The scanner the loop is proved against: a doubled quote adds one quote in either state, a lone quote toggles quoting, an unquoted comma ends the trimmed field, and the end of the line ends the last one (a definition, with no contract of its own) |
| UploadPage.FieldCount | src/app/admin/upload/page.tsx:35-44 | A line yields one field more than it has unquoted commas; a comma inside quotes never ends a field |
| UploadPage.FieldsTrimmed | src/app/admin/upload/page.tsx:41-44 | Every emitted field is trimmed |
| UploadPage.LoneQuotesVanish | src/app/admin/upload/page.tsx:37-40 | In a line without a doubled quote, no field contains a quote: lone quotes only toggle the state |
| UploadPage.DoubledQuoteStep | src/app/admin/upload/page.tsx:37-38 | `""` appends one literal quote to the field and leaves the quote state unchanged |
| UploadPage.LoneQuoteStep | src/app/admin/upload/page.tsx:40 | A quote that is not doubled flips the quote state and adds nothing |
| UploadPage.CommaStep | src/app/admin/upload/page.tsx:41 | An unquoted comma emits the trimmed current field and starts an empty one |
| UploadPage.ScanQuoted | src/app/admin/upload/page.tsx:35-42 | Inside quotes, text without quotes (commas included) goes into the current field |
| UploadPage.ScanUnquoted | src/app/admin/upload/page.tsx:35-42 | Outside quotes, text without quotes or commas goes into the current field |
| UploadPage.QuotedField | src/app/admin/upload/page.tsx:35-44 | A quoted field holding commas is read up to its closing quote as one field |
| UploadPage.RoundTrip | src/app/admin/upload/page.tsx:31-46 | Plain fields (trimmed, without quotes), quoted when they hold a comma and joined with commas, parse back to the same fields |
| UploadPage.PlainLine | src/app/admin/upload/page.tsx:35-44 | A trimmed line without quotes or commas is a single field |
| UploadPage.EmptyQuotedFieldReadsAsQuote | src/app/admin/upload/page.tsx:37-38 | `a,"",b` parses as `a`, a single quote character, `b`: the empty quoted field is read as an escaped quote |
| UploadPage.NonBlankLines | src/app/admin/upload/page.tsx:26 | The kept lines are exactly the non-blank ones: none is blank after trimming, each is a line of the file, and every line of the file that is not blank after trimming is kept |
| UploadPage.NonBlankAppend | src/app/admin/upload/page.tsx:26 | Lines are kept or dropped one at a time, so the kept lines of two stretches are those of the first followed by those of the second (file order) |
| UploadPage.HeaderNames | src/app/admin/upload/page.tsx:29 | Header i is the i-th piece of the first line split on every comma, trimmed; there is one more header than commas, and quotes are not interpreted |
| UploadPage.HeaderNamesJoin | src/app/admin/upload/page.tsx:29 | Trimmed names without commas, joined with commas, read back as exactly those names |
| UploadPage.DataRowsAt | src/app/admin/upload/page.tsx:31-46 | Row k is the scanner's field list for data line k |
| UploadPage.CsvOf | src/app/admin/upload/page.tsx:25-49 | Headers and rows are both empty exactly when fewer than two non-blank lines remain; otherwise there is one row per data line |
| UploadPage.ParseCsv | src/app/admin/upload/page.tsx:25-49 | The loop over data lines, each parsed by `ParseLine`, computes `CsvOf` |
| UploadPage.RowShape | src/app/admin/upload/page.tsx:31-46 | Each row of the parsed file has unquoted-commas-plus-one fields, all trimmed |
| UploadPage.FindMissingHeader | src/app/admin/upload/page.tsx:68-77 | Returns none exactly when all fourteen required headers are present. When required header k is absent and all those listed before it are present, returns header k |
| UploadPage.SomeFirstMissing | src/app/admin/upload/page.tsx:68-77 | When some required header is absent, there is a first absent one in the listed order |
| UploadPage.Cell | src/app/admin/upload/page.tsx:79-99 | `r[idx(name)]`: undefined when the header is absent or the row is too short; otherwise the cell under the first header with that name |
| UploadPage.NonEmptyOrNull | src/app/admin/upload/page.tsx:91 | The `or null` default: a non-empty cell is kept; an undefined or empty one becomes null |
| UploadPage.NonEmptyOr | src/app/admin/upload/page.tsx:93 | The `or` default: a non-empty cell, otherwise the fallback |
| UploadPage.ToRecord | src/app/admin/upload/page.tsx:83-102 | Four options; `lang` is the cell, or "en" when that is empty or absent; `published` is false exactly when the cell lowercases to "false" |
| UploadPage.Payload | src/app/admin/upload/page.tsx:81-104 | Every kept record has non-empty text and four non-empty options, and there are at most as many records as rows |
| UploadPage.Keep | src/app/admin/upload/page.tsx:104 | The final filter: a record is kept when its text and all its options are non-empty (a definition) |
| UploadPage.PayloadFromRows | src/app/admin/upload/page.tsx:81-83 | Every record in the payload is the record of a row that has a non-empty cell, so rows whose cells are all empty are dropped |
| UploadPage.PayloadAppend | src/app/admin/upload/page.tsx:81-104 | The payload is built row by row and keeps the row order |
| UploadPage.ValidRowKept | src/app/admin/upload/page.tsx:104 | A row whose record has text and four non-empty options is inserted |
| UploadPage.OptionsInColumnOrder | src/app/admin/upload/page.tsx:84-89 | A kept record's options are the option_a, option_b, option_c and option_d cells, in that order |
| UploadPage.Message | src/app/admin/upload/page.tsx:63-112 | The message shown with each rejection: "No file provided", "Missing header: " and the name, "No valid rows", or the database error message (a definition) |
| UploadPage.UploadAction | src/app/admin/upload/page.tsx:52-117 | Sends to /admin/login exactly when there is no user, or the owner is set and differs from the user's email. An admitted user without a file gets "No file provided". With a file, when required header k is the first absent one, the rejection names header k. With all headers present: an empty payload gives "No valid rows"; otherwise an insert error gives that error's message; otherwise exactly the payload is uploaded |
| UploadActions.Col | src/app/admin/upload/actions.tsx:47-54 | `cols[i] ?? ""`: the column when the index is in range, else "" |
| UploadActions.HeaderKeys | src/app/admin/upload/actions.tsx:20 | Key i is the i-th comma-separated piece of the header line, trimmed and lowercased; one key per piece |
| UploadActions.HeaderKeysJoin | src/app/admin/upload/actions.tsx:20 | Trimmed lower-case keys without commas, joined with commas, read back as exactly those keys |
| UploadActions.FindColumns | src/app/admin/upload/actions.tsx:21-29 | Fails exactly when text, options, answer or topic is missing; each index is the first position of its key; explanation is optional and -1 exactly when absent |
| UploadActions.OptionsOf | src/app/admin/upload/actions.tsx:33-44 | A JSON array gives its elements through `String`, in order; JSON of another shape gives no options; non-JSON text gives exactly the split-trim-filter pieces on bar and comma (`SplitTrimFilter`), each non-empty, trimmed and without a bar or a comma |
| UploadActions.OptionsListRoundTrip | src/app/admin/upload/actions.tsx:40-43 | Non-empty trimmed options without separators, joined with a bar (and not JSON), are read back one for one |
| UploadActions.RowOf | src/app/admin/upload/actions.tsx:46-54 | text, answer and topic are their columns trimmed ("" when the column is missing), so "" exactly when the column is absent or blank. explanation is null exactly when its header is absent or its trimmed cell is empty, and is otherwise that trimmed cell. options are read from the options cell |
| UploadActions.RowReadsCells | src/app/admin/upload/actions.tsx:31-54 | A data line written from trimmed, comma-free cells reads text, answer, topic and options back from the cells under their headers |
| UploadActions.Rows | src/app/admin/upload/actions.tsx:31-32 | Exactly one row per data line, each built from that line split on every comma |
| UploadActions.Lines | src/app/admin/upload/actions.tsx:17 | The lines of the text (split on line feeds, a carriage return before one dropped) that are not the empty string; lines of white space stay (a definition) |
| UploadActions.LinesShape | src/app/admin/upload/actions.tsx:17 | Every kept line is non-empty and holds no line feed |
| UploadActions.ParseQuestions | src/app/admin/upload/actions.tsx:16-57 | Gives `[]` with fewer than two lines or a missing required column; otherwise one row per line after the header |
| UploadActions.FailureMessage | src/app/admin/upload/actions.tsx:67-78 | The error each failure throws: "No file uploaded", "No valid rows found in CSV", or the insert error (a definition) |
| UploadActions.UploadAction | src/app/admin/upload/actions.tsx:59-82 | Not signed in means a redirect to /admin/login. No file means "No file uploaded". An empty parse means "No valid rows found in CSV". A non-empty parse with an insert error fails with that error. Rows are inserted exactly when the parse is non-empty and the insert succeeds, and then they are the parse |
| UploadActions.TwoLines | src/app/admin/upload/actions.tsx:17 | Two lines separated by a line feed are read as those two lines |
| UploadActions.OneDataLine | src/app/admin/upload/actions.tsx:31-32 | A header and one data line give exactly one row, read from that line |
| UploadActions.BlankRow | src/app/admin/upload/actions.tsx:46-54 | The columns of a line of white space all read as "" and explanation as null |
| UploadActions.BlankLineGivesRow | src/app/admin/upload/actions.tsx:17-32 | A line of white space is not dropped and yields a row |
| UploadActions.ParsersDisagree | src/app/admin/upload/actions.tsx:32 | A quoted field holding a comma is one field for the quote-aware parser and at least two for this one |
| PracticeQuiz.ToOptions | src/app/practice/start/StartClient.tsx:26-46 | An array gives its elements through `String`, same length and order. A string that is JSON of an array gives that array's elements the same way. Any other string gives exactly its split-trim-filter pieces on bar and comma (`SplitTrimFilter`), each non-empty, trimmed and without a bar or a comma. Every other value gives `[]` |
| PracticeQuiz.ToOptionsListRoundTrip | src/app/practice/start/StartClient.tsx:40-42 | A bar-joined list of clean options that is not JSON of an array is read back one for one |
| PracticeQuiz.JsonScalarOptions | src/app/practice/start/StartClient.tsx:34-42 | The JSON scalar "5" gives the option "5" in the quiz, but no options in the older upload action |
| PracticeQuiz.AnswerFor | src/app/practice/start/StartClient.tsx:89-91 | The answer is the option at `correct_index` exactly when that is a whole number in `[0, options.length)`, otherwise null; it is always one of the options |
| PracticeQuiz.Normalize | src/app/practice/start/StartClient.tsx:83-95 | The shown question keeps id, text, explanation and topic; its options are the normalised options; its answer is `AnswerFor(correct_index, options)`, the option at a whole in-range index and null otherwise, so it is always among the options |
| PracticeQuiz.NormalizeAll | src/app/practice/start/StartClient.tsx:83 | One normalised question per row, in order |
| PracticeQuiz.NullAnswerNeverCounts | src/app/practice/start/StartClient.tsx:111 | A question with a null answer never counts |
| PracticeQuiz.CountCorrect | src/app/practice/start/StartClient.tsx:107-113 | The count lies in `[0, questions.length]`; it equals the length exactly when every question is correct, and 0 exactly when none is |
| PracticeQuiz.Score | src/app/practice/start/StartClient.tsx:105-114 | Null exactly until submitted; afterwards the loop's count equals `CountCorrect` |
| PracticeQuiz.SelectAnswer | src/app/practice/start/StartClient.tsx:116-118 | Sets `qid` to `v`, adds only `qid` to the keys and leaves every other entry unchanged |
| PracticeQuiz.SelectElsewhere | src/app/practice/start/StartClient.tsx:116-118 | Answering an id that no question has leaves the score unchanged |
| PracticeQuiz.SelectCorrect | src/app/practice/start/StartClient.tsx:116-118 | Choosing a question's non-empty correct answer makes it count |
| Middleware.Decide | src/middleware.ts:14-60 | Sends to /login?error=session_error exactly when the session lookup failed. Sends to /login exactly when there is no session on an admin or protected route. Sends to / exactly on an admin route whose session email differs from the owner's. Otherwise passes |
| Middleware.IsProtectedRoute | src/middleware.ts:29 | The path begins, as plain text, with one of the five protected prefixes (a definition) |
| Middleware.IsAdminRoute | src/middleware.ts:30 | The path begins with "/admin" (a definition) |
| Middleware.AdminNotProtected | src/middleware.ts:29-30 | No path is both an admin route and a protected route |
| Middleware.ProtectedExtends | src/middleware.ts:29 | Extending a protected path keeps it protected (plain prefix test) |
| Middleware.TestsXIsProtected | src/middleware.ts:29 | "/testsX" is protected and without a session goes to /login |
| Middleware.PublicPathPasses | src/middleware.ts:46-52 | Outside both kinds of route, every lookup that did not fail passes |
| AdminPage.FirstGrant | src/app/admin/page.tsx:46-53 | The first check with a non-empty row array; none exactly when no check has one |
| AdminPage.RunChecks | src/app/admin/page.tsx:46-53 | The loop makes the user admin exactly when a check grants it, and stops right after the first such check |
| AdminPage.ListedEmails | src/app/admin/page.tsx:58-61 | ADMIN_EMAILS split on commas, each entry trimmed and lowercased, empty entries dropped (a definition) |
| AdminPage.ListedEmailsShape | src/app/admin/page.tsx:58-61 | Every listed email is non-empty, trimmed, lower-case and free of commas |
| AdminPage.KeysShape | src/app/admin/page.tsx:58-60 | Every trimmed, lowercased comma-separated entry is trimmed, lower-case and comma-free |
| AdminPage.EntryShape | src/app/admin/page.tsx:60 | The key of a comma-free entry is trimmed, lower-case and comma-free |
| AdminPage.KeyKeepsOut | src/app/admin/page.tsx:60 | Trimming and lowering never bring in a comma |
| AdminPage.Allowlist | src/app/admin/page.tsx:57-62 | The listed emails, then the trimmed lowercased owner when it is set and non-empty |
| AdminPage.Allowed | src/app/admin/page.tsx:63 | The allowlist test: the list is non-empty, the email is non-empty, and its lowercase form is listed (a definition) |
| AdminPage.InAllowlist | src/app/admin/page.tsx:56-66 | Built as the page builds it, the test admits exactly a non-empty email whose lowercase form is in a non-empty allowlist |
| AdminPage.Decide | src/app/admin/page.tsx:12-85 | No user gives the guard view and runs no check. Otherwise checks run until the first grant, the dashboard is shown exactly when a check granted or the allowlist admits the email, and the "not an admin" view is shown otherwise |
| AdminPage.LowerIdempotent | src/app/admin/page.tsx:63 | Lowering twice equals lowering once |
| AdminPage.AllowedIgnoresCase | src/app/admin/page.tsx:63 | The allowlist ignores the case of the user's email |
| AdminPage.NothingAllowsEmpty | src/app/admin/page.tsx:63 | An empty email or an empty allowlist never grants admin |
| AdminPage.OwnerAllowed | src/app/admin/page.tsx:62-63 | The owner is admitted whatever the padding and case of the configured value |
| ResultsPage.FirstSuccess | src/app/results/page.tsx:56-62 | The first run without error and with array data; none exactly when no run succeeds |
| ResultsPage.SelectRows | src/app/results/page.tsx:54-64 | The first successful run supplies the rows and clears the error, and no later run is tried. When all fail, the rows are empty and the error is the last run's |
| ResultsPage.Dedupe | src/app/results/page.tsx:68 | No duplicates, and the same members as the input |
| ResultsPage.DedupeOfDistinct | src/app/results/page.tsx:68 | A list without duplicates comes back unchanged |
| ResultsPage.TestIds | src/app/results/page.tsx:68 | The ids looked up are exactly the rows' test ids, each once |
| ResultsPage.Index | src/app/results/page.tsx:74-77 | The map's keys are exactly the lookup rows' ids |
| ResultsPage.IndexLastWins | src/app/results/page.tsx:76 | When ids repeat, the last row with that id wins |
| ResultsPage.BuildIndex | src/app/results/page.tsx:74-77 | The loop that fills `byId` computes `Index` |
| ResultsPage.Enrich | src/app/results/page.tsx:78-81 | Same count and order, only `tests` changes; it is set exactly when the id is in the map, to the mapped value |
| ResultsPage.LoadAttempts | src/app/results/page.tsx:54-82 | Ids are looked up exactly when the chosen rows are non-empty and the first has no joined test. Only then are the rows enriched from the lookup; otherwise they are the chosen rows as they were |
| ResultsPage.FirstNonEmpty | src/app/results/page.tsx:86-92 | The first non-empty candidate; none exactly when all are empty |
| ResultsPage.FriendlyName | src/app/results/page.tsx:84-93 | The first non-empty of: name, full name, first and last name joined, the email's local part |
| ResultsPage.JoinedNameParts | src/app/results/page.tsx:89 | First and last name are joined by one space, and a missing part is skipped |
| ResultsPage.EmailNameIsLocalPart | src/app/results/page.tsx:90 | The email's contribution is the text before its first "@" |
| ResultsPage.GreetingFromEmail | src/app/results/page.tsx:84-93 | Without names in the metadata, the greeting is the email's local part |
| HaryanaUpdates.MatchAt | src/app/haryana-updates/page.tsx:27 | The pattern occurs at a position when the text there equals it with ASCII letters folded, as the `i` flag compares the page's ASCII tag names (a definition) |
| HaryanaUpdates.Find | src/app/haryana-updates/page.tsx:28 | A found position lies at or after the start and the pattern fits there |
| HaryanaUpdates.FindIsFirst | src/app/haryana-updates/page.tsx:28 | A found position matches (ignoring ASCII case) and no earlier one does; -1 means no match from the start on |
| HaryanaUpdates.FindAt | src/app/haryana-updates/page.tsx:28 | The first occurrence from the start on is what the search gives |
| HaryanaUpdates.PickSpan | src/app/haryana-updates/page.tsx:27-30 | The span read lies within the text |
| HaryanaUpdates.Pick | src/app/haryana-updates/page.tsx:27-30 | Null exactly when there is no span; otherwise the span's text, trimmed |
| HaryanaUpdates.PickNone | src/app/haryana-updates/page.tsx:27-30 | Null exactly when no `<tag>` is followed by a `</tag>` |
| HaryanaUpdates.PickReadsFirstPair | src/app/haryana-updates/page.tsx:28-29 | The span runs from the first `<tag>` to the nearest `</tag>` after it |
| HaryanaUpdates.NextItem | src/app/haryana-updates/page.tsx:34-37 | A found block starts at or after the search position and closes inside the text |
| HaryanaUpdates.ItemsFrom | src/app/haryana-updates/page.tsx:33-39 | The bodies of the successive `<item>…</item>` blocks, each search resuming after the previous closing tag (a definition, which `Items` computes) |
| HaryanaUpdates.Items | src/app/haryana-updates/page.tsx:33-39 | The `exec` loop, each search resuming after the previous block, returns the successive item bodies `ItemsFrom` |
| HaryanaUpdates.ItemBodiesUnclosed | src/app/haryana-updates/page.tsx:34 | No item body contains `</item>` (the lazy match stops at the first one) |
| HaryanaUpdates.BodyUnclosed | src/app/haryana-updates/page.tsx:34 | Text up to the nearest `</item>` holds no `</item>` |
| HaryanaUpdates.CloseSkips | src/app/haryana-updates/page.tsx:34 | The nearest `</item>` from a position on is one written at c, when the text between holds no `</item>`: none can start there and run into the one at c |
| HaryanaUpdates.WrappedItems | src/app/haryana-updates/page.tsx:33-39 | Item blocks whose bodies hold no `</item>`, written out from a position on, are read back one for one |
| HaryanaUpdates.ItemsRoundTrip | src/app/haryana-updates/page.tsx:33-39 | Bodies holding no `</item>` (other markup allowed), wrapped in `<item>` blocks, are read back in document order |
| HaryanaUpdates.ItemsRoundTripExactly | src/app/haryana-updates/page.tsx:33-39 | Wrapped bodies are read back exactly when none of them holds a `</item>` |
| HaryanaUpdates.StripCdata | src/app/haryana-updates/page.tsx:95 | Removing the markers never lengthens the text |
| HaryanaUpdates.StripOpenMarker | src/app/haryana-updates/page.tsx:95 | A leading `<![CDATA[` is removed, whatever follows |
| HaryanaUpdates.StripCloseMarker | src/app/haryana-updates/page.tsx:95 | A leading `]]>` is removed, whatever follows |
| HaryanaUpdates.StripPrefixPlain | src/app/haryana-updates/page.tsx:95 | Characters at which no marker starts pass through unchanged, and the rest is stripped as before |
| HaryanaUpdates.CloseAfterFree | src/app/haryana-updates/page.tsx:95 | No marker starts inside marker-free text when `]]>` follows it |
| HaryanaUpdates.MarkerAcrossJoin | src/app/haryana-updates/page.tsx:95 | A marker can form across a join: "]]" holds none, yet "]]" followed by ">" is removed |
| HaryanaUpdates.StripKeeps | src/app/haryana-updates/page.tsx:95 | A first character other than `<` or `]`, the characters the markers start with, is kept |
| HaryanaUpdates.StripPlain | src/app/haryana-updates/page.tsx:95 | Text without `<` or `]` passes through unchanged |
| HaryanaUpdates.CdataRoundTrip | src/app/haryana-updates/page.tsx:95 | The text of a CDATA section comes out as written, whenever it holds no complete `<![CDATA[` or `]]>` of its own |
| HaryanaUpdates.OrElse | src/app/haryana-updates/page.tsx:97-98 | The `or` of two picks: a non-empty `a`, otherwise `b` |
| HaryanaUpdates.Title | src/app/haryana-updates/page.tsx:95 | The title tag's text with the CDATA markers removed, trimmed; "" when the item has no title |
| HaryanaUpdates.Link | src/app/haryana-updates/page.tsx:96-99 | A non-empty link tag wins; otherwise the guid tag; otherwise "". The chosen text has its CDATA markers removed and is trimmed |
| HaryanaUpdates.PubDate | src/app/haryana-updates/page.tsx:100-104 | A non-empty pubDate; otherwise a non-empty updated; otherwise a non-empty dc:date; null exactly when none of the three is present and non-empty |
| HaryanaUpdates.FeedItems | src/app/haryana-updates/page.tsx:91-112 | One item per block, in order, each with the feed's source and its block's title, link and date |
| HaryanaUpdates.TopItems | src/app/haryana-updates/page.tsx:123-131 | At most ten items, the feed's first ones; a failed feed gives none |
| HaryanaUpdates.Collect | src/app/haryana-updates/page.tsx:135 | No more than ten items for each feed in the list |
| HaryanaUpdates.CollectOne | src/app/haryana-updates/page.tsx:123-135 | A single feed contributes exactly its top items |
| HaryanaUpdates.CollectAppend | src/app/haryana-updates/page.tsx:135 | Feeds are flattened in order: the items of earlier feeds come first |
| HaryanaUpdates.CollectSources | src/app/haryana-updates/page.tsx:123-135 | Every collected item carries the name of a feed that was fetched |
| PracticeStart.ClampCount | src/app/practice/start/page.tsx:16 | Always finite and in `[1, 100]`; 10 when `n` is absent |
| PracticeStart.ClampCases | src/app/practice/start/page.tsx:16 | NaN and 0 become 10; values above 100 become 100; non-zero values below 1 become 1; values in range pass through |
| PracticeStart.StartPage | src/app/practice/start/page.tsx:15-31 | "No topic" exactly when the topic is absent or blank; otherwise the quiz gets the trimmed topic and the clamped count |
| PracticeStart.PaddedTopic | src/app/practice/start/page.tsx:15 | Padding around the topic does not change the page |
| PracticeForm.CountDefault | src/app/practice/PracticeClient.tsx:20-23 | 10 when `n` is absent or not finite and positive; otherwise the converted value, with no upper bound |
| PracticeForm.Submit | src/app/practice/PracticeClient.tsx:45-52 | Nothing happens exactly when the topic is empty; otherwise the form goes to /practice/start with the topic and `n` (default "10") |
| PracticeForm.QueryFields | src/app/practice/PracticeClient.tsx:51 | The query always splits on `&` into exactly the topic and `n` parameters, whatever they hold |
| PracticeForm.NoAmpersand | src/app/practice/PracticeClient.tsx:51 | A parameter name followed by an encoded value holds no `&` |
| PracticeForm.EncodeUriComponent | src/app/practice/PracticeClient.tsx:51 | The encoding is never shorter than the text |
| PracticeForm.EncodedIsSafe | src/app/practice/PracticeClient.tsx:51 | The encoding holds only unreserved characters and `%` |
| PracticeForm.Utf8 | src/app/practice/PracticeClient.tsx:51 | One to four bytes; one byte, the code itself, exactly for ASCII |
| PracticeForm.DecodePercentAll | src/app/practice/PracticeClient.tsx:51 | `%XX` escapes decode back to their bytes |
| PracticeForm.DecodeEncode | src/app/practice/PracticeClient.tsx:51 | Percent-decoding the encoding gives the text's UTF-8 bytes |
| Navbar.IsActive | src/components/Navbar.tsx:10-11 | A link is active when the path is its target or, for a target other than "/", begins with it (a definition) |
| Navbar.ActiveOnOwnPath | src/components/Navbar.tsx:10-11 | A link is active on its own path |
| Navbar.HomeOnlyExact | src/components/Navbar.tsx:11 | The "/" link is active exactly on "/" |
| Navbar.ActiveIsPrefix | src/components/Navbar.tsx:11 | Any other link is active exactly on paths it is a textual prefix of |
| Navbar.TestsXActivatesTests | src/components/Navbar.tsx:11 | "/tests-x" highlights the "/tests" link |
| Navbar.NoPathNoActive | src/components/Navbar.tsx:10-11 | With no path known, no link is active |
| Navbar.ActiveStarts | src/components/Navbar.tsx:10-11 | An active link's target begins the path |
| Navbar.ActiveFlags | src/components/Navbar.tsx:53-57 | One flag per header link, each the active test for that link |
| Navbar.HeaderTargetsApart | src/components/Navbar.tsx:53-57 | No header target is a prefix of another |
| Navbar.AtMostOneActive | src/components/Navbar.tsx:53-57 | At most one header link is highlighted for any path |
| Navbar.Account | src/components/Navbar.tsx:61-86 | The profile link shows the email, with Logout, exactly when the email is non-empty; otherwise the Login link is shown |
| Sitemap.StripSlash | src/app/sitemap.ts:6 | One trailing `/` is removed, and nothing else changes |
| Sitemap.Base | src/app/sitemap.ts:5-7 | Never empty: the stripped value when it is non-empty, otherwise the default address |
| Sitemap.OneSlashOnly | src/app/sitemap.ts:6 | Only one trailing slash is stripped |
| Sitemap.PlainBase | src/app/sitemap.ts:5-7 | A value without a trailing slash is used as it is |
| Sitemap.FallbackBase | src/app/sitemap.ts:5-7 | Unset, "" and "/" all give the default address |
| Sitemap.RouteEntry | src/app/sitemap.ts:23-28 | url is base + path with the shared time; the root is daily at priority 1, every other route weekly at 0.7 |
| Sitemap.Entries | src/app/sitemap.ts:10-28 | One entry per route, in the listed order, all stamped with the same time |
| Sitemap.EntriesUnderBase | src/app/sitemap.ts:23-27 | The first entry is the base itself at priority 1, and every url begins with the base |
| Sitemap.DistinctRoutes | src/app/sitemap.ts:10-19 | No route is listed twice |
| Sitemap.DistinctUrls | src/app/sitemap.ts:10-24 | All entry urls are distinct |
| JsText.Trim | src/app/practice/start/page.tsx:15 | `trim` leaves no white space at either end and never lengthens; which text it is, is stated by TrimPadding and TrimAround |
| JsText.TrimPadding | src/app/practice/start/page.tsx:15 | The trimmed text is a slice of the text with only white space before and after it |
| JsText.TrimAround | src/app/practice/start/page.tsx:15 | A trimmed text padded with white space on both sides trims back to itself; with TrimPadding this fixes `trim` on every input |
| JsText.TrimEmpty | src/app/practice/start/page.tsx:21 | A trimmed text is empty exactly when the text is all white space |
| JsText.TrimIdempotent | src/app/practice/start/page.tsx:15 | Trimming twice equals trimming once |
| JsText.TrimKeepsOut | src/app/admin/page.tsx:60 | Trimming brings in no character |
| JsText.Lower | src/app/admin/page.tsx:60 | `toLowerCase` keeps the length and lowers each ASCII letter |
| JsText.KeyNoUpper | src/app/admin/upload/actions.tsx:20 | A trimmed, lowercased key has no upper-case letter |
| JsText.KeyOfKey | src/app/admin/upload/actions.tsx:20 | A text already trimmed and lower-case is its own key |
| JsText.MapKey | src/app/admin/upload/actions.tsx:20 | One key per string, key i being string i trimmed and lowercased |
| JsText.MapKeyShape | src/app/admin/upload/actions.tsx:20 | Every header key is trimmed and has no upper-case letter |
| JsText.SplitOn | src/app/admin/upload/actions.tsx:32 | `split` gives one piece more than there are separators |
| JsText.SplitOnPieces | src/app/admin/upload/actions.tsx:32 | No piece contains a separator |
| JsText.JoinSplit | src/app/admin/upload/actions.tsx:32 | Joining the pieces of a split with the same character gives the text back |
| JsText.SplitJoin | src/app/practice/start/StartClient.tsx:41 | Splitting a join gives back parts that hold no separator |
| JsText.SplitOnPiece | src/app/results/page.tsx:90 | A separator-free piece before a separator is split off whole |
| JsText.SplitTwo | src/app/practice/PracticeClient.tsx:51 | Two separator-free texts around one separator split into exactly those two |
| JsText.FilterNonEmptyFrom | src/app/admin/page.tsx:61 | `filter(Boolean)` keeps only non-empty strings of the input |
| JsText.FilterNonEmptyKeeps | src/app/practice/start/StartClient.tsx:41 | A list of non-empty strings passes the filter unchanged |
| JsText.FilterNonEmptyComplete | src/app/admin/page.tsx:61 | Every non-empty string of the input is kept |
| JsText.FilterNonEmptyAppend | src/app/admin/page.tsx:61 | The filter works element by element, so it keeps the input order |
| JsText.MapTrim | src/app/admin/upload/page.tsx:29 | One result per string, result i being string i trimmed |
| JsText.SplitTrimFilterShape | src/app/practice/start/StartClient.tsx:41 | Split, trim and filter gives non-empty, trimmed, separator-free pieces |
| JsText.SplitTrimFilterPiece | src/app/practice/start/StartClient.tsx:41 | A separator-free piece followed by a separator contributes its trimmed text unless that is empty, and the rest is read on its own |
| JsText.SplitTrimFilterLast | src/app/practice/start/StartClient.tsx:41 | Text without a separator gives its trimmed self, or nothing when that is empty; with SplitTrimFilterPiece this fixes the result on every input |
| JsText.SplitTrimFilterJoin | src/app/practice/start/StartClient.tsx:41 | Clean items joined with a separator come back one for one |
| JsText.IndexOf | src/app/admin/upload/actions.tsx:21 | `indexOf` is -1 exactly when the value is absent; otherwise it is the first position of the value |
| JsText.SplitLines | src/app/admin/upload/actions.tsx:17 | One line more than there are line feeds; every line but the last is the text between line feeds with one carriage return before the line feed dropped; the last is the text after the last line feed as it is |
| JsText.SplitLinesJoin | src/app/admin/upload/actions.tsx:17 | Lines without line feeds, joined with "\r\n" or with "\n", split back into themselves; with "\n" a line other than the last must not end in a carriage return |
| JsText.SplitLinesPieces | src/app/admin/upload/actions.tsx:17 | No line holds a line feed |
| JsModel.Truthy | src/app/practice/start/page.tsx:16 | A number is truthy unless it is 0 or NaN (a definition) |
| JsModel.Or | src/app/practice/start/page.tsx:16 | The `or` of two numbers: `a` when truthy (not 0 or NaN), else `b` |
| JsModel.Max | src/app/practice/start/page.tsx:16 | NaN exactly when an argument is; otherwise one of the arguments and not less than either |
| JsModel.Min | src/app/practice/start/page.tsx:16 | NaN exactly when an argument is; otherwise one of the arguments and not greater than either |
| JsModel.ToJsString | src/app/practice/start/StartClient.tsx:29 | `String(v)` for the JSON values the code converts (a definition) |
| JsModel.StringifyAll | src/app/practice/start/StartClient.tsx:29 | `map(String)`: same length, each element through `String` |

## Left out

- Every database query, insert and auth call, `fetch`, `redirect`, `revalidatePath`, cookies and
  `FormData`/`File.text()` are foreign I/O. Their outcomes are inputs: check and run results,
  the auth outcome, the file text, the insert error and the fetched feed text. A redirect is a
  returned outcome value.
- The order in which the async calls run is not modelled. `Promise.all` over the feeds is not
  modelled either: feeds are processed as a sequence.
- `Number()` and `JSON.parse` are parameters, not implementations. The contracts hold for every
  conversion. `String(number)` is not modelled: a number value carries its own spelling.
- JsModel.JsNumber: finite numbers are exact reals. Double rounding is not modelled, -0 is not
  distinguished from 0, and the constant 0.7 is the real 7/10.
- JsText.Lower: `toLowerCase` lowers ASCII letters only. Characters outside ASCII that JavaScript
  would lowercase are left as they are. This affects the email allowlist and the header keys.
- The date sort on the Haryana page, `fmtDate`, and JavaScript `Date` are left out. They depend on
  date parsing and floating-point time. `Collect` gives the items before sorting.
- `extractImage`, `fetchOgImage` and the item's image field are left out. They involve
  backtracking attribute regexes, HTML scraping and network I/O.
- HaryanaUpdates.Find: the contract gives only bounds. That the position is the first match is
  stated separately in `FindIsFirst`.
- UploadPage.Payload: the contract gives only the keep filter and the count. Where each record
  comes from and the order are stated in `PayloadFromRows` and `PayloadAppend`.
- UploadPage.ToRecord: an undefined option cell is written as "" rather than `undefined`. A
  record holding either is dropped by the keep filter, so the inserted payload is the same. The
  other fields (subject, topic, explanation, difficulty, source, year, correct_index) follow the
  definition, and their contracts are not stated separately.
- Upload records carry `correct_index` and `year` as the converted number. What the database does
  with a non-integer or NaN value is not modelled.
- The percentage `Math.round` in the quiz is floating point and is left out. So are the quiz's
  loading flow and error display.
- PracticeForm.EncodeUriComponent: `encodeURIComponent` throws on a lone surrogate. Dafny
  characters are Unicode scalar values, so that case cannot arise in the model.
- The middleware's `config.matcher` is left out. The decision is modelled for any path, including
  paths the matcher would never route to the middleware.
- Navbar's email state, its subscription to auth changes and the sign-out click are async UI
  effects. `Account` takes the current email as an input.
- The sitemap's `now` is an integer timestamp passed in, not a `Date`.
- ResultsPage: metadata name fields are modelled as strings or absent. A non-string metadata value
  (a number, say) is not modelled. Rendering of `lastErr` is left out.
- All JSX rendering and page layout are left out. Views are datatypes naming what is shown.
