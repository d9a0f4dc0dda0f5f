# soat-checker core, modelled in Dafny

soat-checker looks up Peruvian SOAT (compulsory motor insurance) records for a
list of licence plates. For every stored plate that has no result yet, `main`
downloads a CAPTCHA image from the insurers' association site, asks an image
model to read it, cleans the model's free-text reply down to an answer, sends
the plate and the upper-cased answer to the lookup URL, parses the returned
page into either an error or a table of rows, stores the JSON of that parse
on the plate record and writes the store to disk.

This project models the logic of `index.ts`:

- `jstext.dfy` (module `JsText`): the JavaScript string primitives the code
  relies on: the ECMAScript `\s`/`trim()` white-space set, the line
  terminators a regex `.` does not cross, ASCII case folding for the `i` flag
  and `toUpperCase()`, and subsequences.
- `cleaner.dfy` (module `Cleaner`): `getTextFromCaptchaFile` after the
  recognition call. The four anchored, case-insensitive label replacements
  `^.*captcha:?\s*`, `^.*texto:?\s*`, `^.*es:?\s*` and `^.*caracteres:?\s*`,
  in that order. Each one removes everything up to the last occurrence of
  its label on the first line. Then come the quote/white-space strip at both
  ends, the removal of one final period, the removal of all white space,
  `trim()`, and the length fallback to the leftmost run of 4 to 8 ASCII
  letters or digits. Each regular expression is written out as a small
  function (a last-occurrence search, a run search, a filter).
- `jsobject.dfy` (module `JsObject`): a JavaScript object with string keys,
  as an ordered association list. Assigning an existing key overwrites it in
  place; a new key is appended.
- `resultpage.dfy` (module `ResultPage`): `getDataFromHTML` over a
  `Document`. A `Document` holds what the page's CSS selectors yield: the
  `.alert-danger` text, whether `table#example` exists, the header cell texts
  and the body rows' cell texts. The banner check comes first, then the
  missing-table check, then the two nested `.each` loops, written as methods
  with loops.
- `batch.dfy` (module `Batch`): the `getInfo` URL and `main`. Each record of
  `db.data.placas` is an object of class `Placa` with the fields of the
  store's schema. `Store.UpdatePending` filters the pending records, then
  visits them in list order. Each visit makes one attempt on the record in
  place (`Placa.Consult`) and then one `db.write()`. The write appends a
  snapshot of every record to the ghost log `written`. The collaborators the
  program reaches over the network or through libraries make up an `Env`:
  the recognised CAPTCHA text or the exception that stopped it, per attempt
  number; the response to a lookup URL or its exception, per attempt number
  and URL; the clock reading, per attempt number; the document a response
  body loads as, per body; and `JSON.stringify`, per parse result.

The run is specified twice. `RunFrom` is the run as the loop performs it.
`AfterAttempts`/`RunResult` and `WriteLog` describe it declaratively:
pending record number `m` gets attempt `m`, and write `m` holds the store
after `m + 1` attempts. `RunFromAfter` proves the two agree.

## Model

| member | source | states |
|---|---|---|
| JsText.Trim | index.ts:58 | `trim()` keeps a slice whose removed prefix and suffix are all white space; the result neither starts nor ends with white space; a string without white space is unchanged |
| Cleaner.FirstLineLength | index.ts:51-54 | the reach of `^.*`: every character before it is not a line terminator, and the one at it is |
| Cleaner.LastLabelAt | index.ts:51-54 | the greedy `.*` backs off to the last case-insensitive occurrence of the label at or before the bound; no later one exists |
| Cleaner.ColonAndSpacesLength | index.ts:51-54 | `:?\s*` after the label takes an optional colon and then the maximal run of white space |
| Cleaner.StripLabelSpec | index.ts:51-54 | one label replacement leaves the text alone when the first line has no occurrence, and otherwise removes everything through the last first-line occurrence, its colon and the white space after it |
| Cleaner.StripLabelAtLast | index.ts:51 | the replacement's result when the last first-line occurrence is known |
| Cleaner.StripLabel | index.ts:51-54 | one label replacement only deletes characters: the result is a subsequence of the text and no longer |
| Cleaner.StripLabels | index.ts:51-54 | the four label replacements together only delete characters: the result is a subsequence of the text |
| Cleaner.StripLabelsUnchanged | index.ts:51-54 | a text with no occurrence of any label passes the four replacements unchanged |
| Cleaner.StripQuotes | index.ts:55 | the result is the input without its maximal leading and trailing runs of quotes and white space; its ends are neither |
| Cleaner.DropFinalPeriod | index.ts:56 | exactly one final `.` is removed when present; otherwise the text is unchanged |
| Cleaner.RemoveSpaces | index.ts:57 | the result has no white space, is a subsequence of the input, keeps every non-white-space character as many times as the input has it, and equals the input when that had none |
| Cleaner.CleanText | index.ts:50-58 | the cleaning chain only deletes characters and leaves no white space |
| Cleaner.LengthFallback | index.ts:65-75 | the answer is always a contiguous slice of the cleaned text |
| Cleaner.FindRun | index.ts:66 | finds the leftmost position where four ASCII letters or digits follow; none exists before it |
| Cleaner.RunLength | index.ts:66 | the greedy `{4,8}` match: between 4 and 8 alphanumerics, stopping early only at the end or at a non-alphanumeric |
| Cleaner.LengthFallbackSpec | index.ts:65-75 | a cleaned text of at most 10 characters is returned as is; a longer one becomes its leftmost alphanumeric run (at most 8 long) when one exists, and is returned as is otherwise |
| Cleaner.CaptchaAnswer | index.ts:50-75 | the answer never fails, contains no white space and is a subsequence of the recognised text |
| Cleaner.AnswerIsTrimmed | index.ts:126 | the extra `.trim()` in `main` changes nothing |
| Cleaner.CleanPayload | index.ts:55-58 | a payload without quotes, white space or final period passes the strip, period, space and trim steps unchanged |
| Cleaner.StripCaptchaLabel | index.ts:51 | in `<first line> captcha: P` with no later `captcha`, the first replacement leaves exactly `P` |
| Cleaner.LabelledAnswer | index.ts:50-75 | a reply `<first line> captcha: P` (label in any letter case) answers `P` when `P` has no quotes, white space, label, or final period, and at most 10 characters |
| Cleaner.QuoteBeforePeriod | index.ts:55-56 | because quotes are stripped before the period, `El captcha es: "aB3k9".` answers `aB3k9"` |
| JsObject.Get | index.ts:105 | a property is present exactly when its key is among the object's keys |
| JsObject.Put | index.ts:105 | assigning a present key keeps the number of properties; assigning an absent one adds exactly one |
| JsObject.PutGet | index.ts:105 | after `obj[key] = value`, `key` reads `value` and every other key reads as before |
| JsObject.PutKeys | index.ts:105 | assigning an existing key keeps the key order; a new key is appended |
| JsObject.PutAppends | index.ts:105 | assigning an absent key appends the pair |
| JsObject.PutDistinct | index.ts:105 | assignment keeps keys distinct |
| JsObject.AssignKeys | index.ts:102-106 | after assigning a sequence of keys, the object's keys are those keys without repeats, in first-occurrence order |
| JsObject.AssignLast | index.ts:102-106 | a key reads the value of its last assignment |
| JsObject.AssignAbsent | index.ts:102-106 | a key never assigned is absent |
| JsObject.AssignDistinct | index.ts:102-106 | repeated assignment never produces duplicate keys |
| JsObject.AssignDistinctKeys | index.ts:102-106 | with distinct keys the object is the list of key/value pairs in order |
| ResultPage.NatToStringInjective | index.ts:104 | the decimal rendering of a column index determines the index |
| ResultPage.FallbackKeyInjective | index.ts:104 | different columns get different `columna{i}` keys |
| ResultPage.ColumnKey | index.ts:104 | a cell's key is its header when that is non-empty and `columna{i}` otherwise; it is never empty |
| ResultPage.TableRowsAt | index.ts:99-109 | one row object per body row, in document order |
| ResultPage.RowData | index.ts:100-106 | the inner `.each` yields the row built from the cells' column keys and trimmed texts |
| ResultPage.BodyRows | index.ts:99-109 | the outer `.each` pushes, in document order, the row built from each body row's trimmed cells |
| ResultPage.GetDataFromHtml | index.ts:78-117 | the method returns the parse of its document: banner, missing table, or the table's rows |
| ResultPage.Parse | index.ts:78-117 | an error result always carries a non-empty message; a success counts its rows in `totalRegistros` and stamps the clock reading |
| ResultPage.BannerWins | index.ts:83-86 | a non-empty trimmed banner is the error message, with or without a table |
| ResultPage.ParseOutcome | index.ts:83-91 | the parse succeeds exactly when there is no banner and the table exists; no banner and no table gives `No se encontró la tabla de resultados`; error messages are never empty |
| ResultPage.SuccessShape | index.ts:94-116 | on success `totalRegistros` is the number of body rows, `datos` has one row per body row in order, each built from the trimmed headers and trimmed cells, and `fechaConsulta` is the clock reading |
| ResultPage.ParseIgnoresClock | index.ts:111-116 | the clock reading only affects `fechaConsulta` |
| ResultPage.RowKeys | index.ts:102-106 | a row's keys are distinct and are the column keys of its cells in first-occurrence order |
| ResultPage.RowValue | index.ts:102-106 | a cell whose key is not repeated by a later cell is read back as its trimmed text |
| ResultPage.RowAbsent | index.ts:102-106 | a key no cell is stored under is absent from the row |
| ResultPage.HeaderedRow | index.ts:104-105 | with distinct non-empty headers covering every cell, the row pairs each header with its cell, in order |
| ResultPage.HeaderlessRow | index.ts:104-105 | with no headers the row pairs `columna0`, `columna1`, … with the cells |
| Batch.GetInfoUrl | index.ts:12 | every lookup URL starts with the fixed endpoint and query prefix; its length is the prefix, plate, `&captcha=` and answer lengths added up |
| Batch.UrlParts | index.ts:12 | the URL is the fixed prefix, the plate verbatim, `&captcha=` and the upper-cased answer, at known positions |
| Batch.UrlInjective | index.ts:12 | for plates without `&` the URL determines the plate and the upper-cased answer |
| Batch.UrlCaseInsensitive | index.ts:12 | answers equal up to ASCII letter case give the same URL |
| Batch.SentCaptcha | index.ts:126 | the answer sent has no white space and is a subsequence of the recognised text |
| Batch.IsPending | index.ts:123 | a record the filter skips holds a non-empty result |
| Batch.Try | index.ts:124-127 | an answered attempt sent an answer without white space and got back the response to that answer's URL; a thrown one carries the message of the recognition failure or of the request failure |
| Batch.TryOutcome | index.ts:124-127 | an attempt gets a response exactly when recognition and the request both succeed; the answer is the trimmed cleaned text; the request goes to the URL with the plate verbatim and the answer upper-cased; a recognition failure is the thrown message, and otherwise a request failure is |
| Batch.Attempt | index.ts:124-134 | the plate never changes; a thrown attempt sets `error` and keeps `result`, `html` and `lastCaptcha`; an answered one keeps `error` and sets all three |
| Batch.AttemptEffect | index.ts:124-134 | an exception sets `error` and changes nothing else; a response sets `lastCaptcha`, `html` and `result` to the answer, the body and the serialised parse (error parses included) and keeps an earlier `error` |
| Batch.AttemptKeeps | index.ts:123-134 | with JSON output a pending record stays pending exactly when its attempt throws |
| Batch.PendingIndices | index.ts:123 | the filter keeps only records without a result, in increasing list order |
| Batch.RankIndex | index.ts:123 | every pending record is in the filtered list, at the position given by the number of pending records before it |
| Batch.IndexRank | index.ts:123 | the record at position `m` of the filtered list has `m` pending records before it |
| Batch.RankOrder | index.ts:123 | earlier pending records are attempted earlier |
| Batch.AfterAttemptsAt | index.ts:123-134 | after `m` attempts a record holds its own attempt if it was pending and among the first `m`, and its old value otherwise |
| Batch.WriteLogPrefix | index.ts:135 | the run's writes only append to the log |
| Batch.WriteLogAt | index.ts:135 | write number `m` is the store after attempt `m`: the store before it with only the visited record replaced |
| Batch.RunFromAfter | index.ts:123-136 | the loop's run ends in the declarative final store and write log |
| Batch.RunEffect | index.ts:123-134 | a run leaves records that had a result unchanged, gives each pending record exactly its own attempt, and never changes a plate |
| Batch.RunPending | index.ts:123-134 | a run never makes a finished record pending; with JSON output exactly the pending records whose attempt throws stay pending |
| Batch.RunAttempt | index.ts:124-134 | the statements of one attempt compute the record after the attempt |
| Batch.Placa.constructor | db.ts:5-11 | a record object holds the given plate, result, error, html and answer |
| Batch.Placa.Consult | index.ts:124-134 | the record object is updated in place to its value after the attempt |
| Batch.Store.Values | db.ts:14-16 | the store's values are its record objects' fields, in list order |
| Batch.Store.constructor | db.ts:14-16 | a store of distinct fresh record objects holding the given values, with nothing written yet |
| Batch.Store.Write | index.ts:135 | `db.write()` appends a snapshot of every record to the log |
| Batch.Store.PendingRecords | index.ts:123 | the filter returns the record objects without a result, in list order |
| Batch.Store.VisitAll | index.ts:123-136 | the `for` loop ends in the store and log of the run from its start |
| Batch.Store.Visit | index.ts:124-135 | one turn of the loop replaces only the visited record's value, by its attempt, then appends a snapshot of the store to the log, which advances the run by one step |
| Batch.Store.UpdatePending | index.ts:119-139 | `main` leaves the store as the declarative run result and appends one snapshot per pending record |

## Left out

- Image handling in `getCaptchaFile` (index.ts:17-40): the download, the Jimp pixel operations and the disk writes. Its outcome is the `recognise` oracle of `Env`.
- `gemini.ts` is not part of this model. Its request, credentials and reply-shape check only produce the recognised text or an exception, which is `Env.recognise`.
- `db.ts` persistence (lowdb, file I/O) is not modelled. `db.write()` appends a snapshot to the ghost log `written`.
- The cookie-keeping `fetch` and all network transport. The response or exception of a lookup is `Env.fetch`, indexed by attempt number and URL.
- cheerio and HTML tokenising: the parser takes a `Document` of the selected texts. Only the trimming is modelled.
- The clock behind `fechaConsulta` (index.ts:115) is a parameter of the parse.
- `JSON.stringify` is the uninterpreted `Env.serialize`. Its output format and JavaScript's key enumeration order (integer-like keys first) are not modelled. `Batch.AttemptKeeps` and `Batch.RunPending` assume that the serialisation is never the empty string.
- Console logging, the final `console.log` of updated records, and the `main()` call (index.ts:60-61, 68-70, 138, 141).
- `toUpperCase()` and the regex `i` flag use ASCII case mapping only. Non-ASCII letters are not upper-cased in the URL.
- Strings are sequences of Unicode scalar values, not UTF-16 code units. Lengths differ for characters outside the Basic Multilingual Plane, which matters for the `length > 10` test only.
- A header text of `__proto__` would not create an own property in JavaScript. The model treats it as an ordinary key.
- Exceptions thrown by cheerio or `JSON.stringify` after the response arrives are not modelled. `Env.load` and `Env.serialize` are total.
- Batch.Placa.Consult: computes the record's new value first and then stores all five fields in one assignment. The source assigns `lastCaptcha` and `html` before parsing. Nothing in the model can throw between those assignments, so the final state is the same.
- Batch.Store.UpdatePending: `db.data.placas` is a fixed sequence of distinct record objects, not an array. The loop never adds or removes records, and two list entries are never the same object.
- The `for await` loop's asynchrony: attempts run one after another, as the `await`s force.
- Where the system's description and its code disagree, the model follows the code. The labels are the Spanish words the code matches, and `El captcha es: "aB3k9".` cleans to `aB3k9"` (see `Cleaner.QuoteBeforePeriod`).
