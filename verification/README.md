# FIFA finals scraper — a Dafny model of its decision logic

The scraper opens the Wikipedia list of FIFA World Cup finals. It works through rows 1 to 10 of the finals table. For each row, it reads the year, winner, score and runner-up cells. It shows each complete record on a local confirmation page and waits for the user to click one of three buttons: append, skip or quit. At the end, it sends the records chosen for appending to a Google spreadsheet in one call.

The model keeps the deterministic logic under that glue. The browser, the file system and the spreadsheet service are replaced by inputs.

- `JavaStrings` (`java_strings.dfy`) models the `java.lang.String` operations the code relies on:
  - `trim` (every character up to U+0020 is blank);
  - `replace` with a one-character target;
  - ASCII `toLowerCase`;
  - `startsWith` and `contains`;
  - `replaceAll("[^0-9]", "")`.
- `JavaIntegers` (`java_integers.dfy`) models:
  - the 32-bit `int` range;
  - the decimal rendering of `String.valueOf(int)`, which `String.format` with `%d` also produces when the default locale writes ASCII digits;
  - `Integer.parseInt`, including its sign handling and its range failure.
- `FifaFinalResult` (`fifa_final_result.dfy`) holds the record: a year and three texts.
- `FifaDataXPath` (`fifa_data_xpath.dfy`) models:
  - the four row-indexed XPath templates;
  - a single-`%d` `String.format`;
  - `getFormattedXPath`.
- `WebUIAutomator` (`web_ui_automator.dfy`) models:
  - `escapeHtml`, with a decoding of its five entities as the inverse it is proved against;
  - the `CHOICE_` page-title protocol that carries a button click back;
  - `getUserChoiceFromWebPage`, over an input `Bridge` that says what the driver and the temporary page did.
- `GoogleSheetsWriter` (`google_sheets_writer.dfy`) models:
  - `loadProperties`, with its fallback values;
  - the configuration guard;
  - the "sheet is effectively empty" test;
  - the header and data rows;
  - `appendResults`, over an input `Service` that says what the client build, the first-row read and the append did.
- `App` (`app.dfy`) models `runFifaDataFlow`:
  - as a recursive fold over the row indices, driven by two inputs: what extracting row `i` yields (`extract`), and what the confirmation bridge observes for the `k`-th offered record (`confirm`);
  - the loop is proved against independent reference definitions: `Offered` gives the records rows 1..n yield, `ChoicesFor` the answers in order, and `Confirmed` the offers answered `append`.

`getUserChoiceFromWebPage` can return `"timeout"`. The source's doc comment suggests this happens when the user makes no choice, but a timed-out wait returns `"skip"`. The `"timeout"` default survives only on one path: the wait saw a title starting with `CHOICE_`, but the title read again just afterwards no longer does. The model follows the code. `WebUIAutomator.TimeoutChoiceOrigin` states exactly when `"timeout"` comes back, and the run loop treats it like `skip`.

## Model

| member | source | states |
|---|---|---|
| JavaStrings.Trim | src/main/java/com/example/App.java:69-78 | `trim` leaves no blank at either end and never lengthens its input |
| JavaStrings.TrimSplits | src/main/java/com/example/App.java:69-78 | the input is a blank prefix, the trimmed text and a blank suffix, so trimming removes nothing else |
| JavaStrings.TrimEmptyIffAllBlank | src/main/java/com/example/App.java:80 | a trimmed field is empty exactly when every character of the raw text is blank |
| JavaStrings.TrimOfTrimmed | src/main/java/com/example/App.java:69-78 | trimming text that has no blank at either end changes nothing |
| JavaStrings.ReplaceChar | src/main/java/com/example/App.java:75 | replacing a character that does not occur changes nothing; the result holds only characters of the input other than the target, or characters of the replacement; a one-character replacement keeps the length |
| JavaStrings.ReplaceCharConcat | src/main/java/com/example/automator/WebUIAutomator.java:167-171 | replacement distributes over concatenation, because replaced text is never rescanned |
| JavaStrings.ReplaceCharPointwise | src/main/java/com/example/App.java:75 | with a one-character replacement, each position holds the input character, or the replacement where the input had the target |
| JavaStrings.ToLower | src/main/java/com/example/automator/WebUIAutomator.java:144 | lower-casing keeps the length and maps each character on its own |
| JavaStrings.ToLowerOfLower | src/main/java/com/example/automator/WebUIAutomator.java:144 | text without an upper-case ASCII letter is its own lower-case form |
| JavaStrings.StartsWith | src/main/java/com/example/automator/WebUIAutomator.java:141-143 | `startsWith` holds exactly when the prefix fits and agrees with the text position by position |
| JavaStrings.Contains | src/main/java/com/example/gsheets/GoogleSheetsWriter.java:57 | `contains` holds exactly when the text, from some position on, starts with the searched text |
| JavaStrings.ContainsInfix | src/main/java/com/example/gsheets/GoogleSheetsWriter.java:57 | `contains` finds a substring at any position |
| JavaStrings.KeepDigits | src/main/java/com/example/App.java:86 | the digits-only filter leaves only digits, never lengthens, and keeps a digit string as it is |
| JavaStrings.KeepDigitsChar | src/main/java/com/example/App.java:86 | a single character is kept when it is a digit and dropped otherwise, never replaced |
| JavaStrings.KeepDigitsOfNonDigits | src/main/java/com/example/App.java:86 | text without a digit leaves nothing |
| JavaStrings.KeepDigitsConcat | src/main/java/com/example/App.java:86 | the filter works piece by piece, so digit groups split by other characters are joined |
| JavaIntegers.NatDecimal | src/main/java/com/example/model/FifaDataXPath.java:15 | a natural number renders as a non-empty digit string with no leading zero |
| JavaIntegers.Decimal | src/main/java/com/example/model/FifaDataXPath.java:15 | an integer renders as digits, preceded by a minus sign exactly when it is negative |
| JavaIntegers.NatDecimalRoundTrip | src/main/java/com/example/model/FifaDataXPath.java:15 | reading back the digits of a natural number gives that number |
| JavaIntegers.DecimalRoundTrip | src/main/java/com/example/model/FifaDataXPath.java:15 | reading the rendering of any integer, sign included, gives it back |
| JavaIntegers.DecimalInjective | src/main/java/com/example/model/FifaDataXPath.java:14-16 | distinct integers render differently |
| JavaIntegers.ReadDecimal | src/main/java/com/example/App.java:86 | text denotes a value exactly when it is a non-empty digit run, or a `-` or `+` followed by one; the value is the digits' value, negated after `-` |
| JavaIntegers.ParseInt | src/main/java/com/example/App.java:86 | `parseInt` succeeds exactly when the text denotes a value that fits 32 bits, and then returns that value |
| JavaIntegers.ParseIntExamples | src/main/java/com/example/App.java:86 | `1a`, a lone `+` or `-` and 2147483648 are refused; `+7` gives 7, `-007` gives -7, and -2147483648 is accepted |
| JavaIntegers.ParseIntOfDecimal | src/main/java/com/example/automator/WebUIAutomator.java:120 | `parseInt(String.valueOf(n)) == n` for every 32-bit `n` |
| JavaIntegers.ParseIntOfDigits | src/main/java/com/example/App.java:86 | on a digit string, `parseInt` fails exactly for the empty string and for values above 2147483647 |
| FifaDataXPath.Pattern | src/main/java/com/example/model/FifaDataXPath.java:4-7 | each template is the table path and `tbody/tr[`, one `%d`, then `]/` and the field's cell step (`th/a`, `td[1]/a`, `td[2]/a[1]`, `td[3]/span/a`) |
| FifaDataXPath.NoOtherPercent | src/main/java/com/example/model/FifaDataXPath.java:4-7 | no template holds a `%` outside its placeholder |
| FifaDataXPath.PatternHasOnePlaceholder | src/main/java/com/example/model/FifaDataXPath.java:4-7 | each template is a valid single-`%d` format and holds exactly one `%d` |
| FifaDataXPath.PlaceholderIndex | src/main/java/com/example/model/FifaDataXPath.java:15 | a single-`%d` format has its `%d` at a position with no `%` before it or after the `d` |
| FifaDataXPath.FormatInt | src/main/java/com/example/model/FifaDataXPath.java:15 | `String.format` with one `%d` keeps the text before and after the placeholder and puts the decimal rendering in its place |
| FifaDataXPath.FormatIntSplit | src/main/java/com/example/model/FifaDataXPath.java:15 | formatting a single-`%d` template replaces just the placeholder with the decimal rendering and copies the rest |
| FifaDataXPath.FillPlaceholderSplit | src/main/java/com/example/model/FifaDataXPath.java:15 | text with one `%d` and no other `%` is a valid single-int format, and filling it puts the given text exactly where `%d` was |
| FifaDataXPath.OnePlaceholderSplit | src/main/java/com/example/model/FifaDataXPath.java:4-7 | text with one `%d` and no other `%` counts exactly one placeholder |
| FifaDataXPath.GetFormattedXPath | src/main/java/com/example/model/FifaDataXPath.java:14-16 | the formatted locator is the template with the index in decimal inside `tr[...]` |
| FifaDataXPath.PatternInTable | src/main/java/com/example/model/FifaDataXPath.java:4-7 | every template starts with the table container path |
| FifaDataXPath.FormattedXPathInTable | src/main/java/com/example/model/FifaDataXPath.java:14-16 | every formatted locator lies under the table container |
| FifaDataXPath.FormattedXPathInjective | src/main/java/com/example/model/FifaDataXPath.java:4-16 | two formatted locators are equal only for the same field and the same index |
| FifaDataXPath.CellTailInjective | src/main/java/com/example/model/FifaDataXPath.java:4-7 | the four cell steps are pairwise distinct |
| WebUIAutomator.EscapeHtml | src/main/java/com/example/automator/WebUIAutomator.java:165-172 | `null` escapes to the empty string, and escaped text holds no `<`, `>`, `"` or `'` |
| WebUIAutomator.ReplaceEntitiesNoMarkup | src/main/java/com/example/automator/WebUIAutomator.java:167-171 | after the five replacements no markup character is left |
| WebUIAutomator.ReplaceEntitiesConcat | src/main/java/com/example/automator/WebUIAutomator.java:167-171 | the replacement chain distributes over concatenation |
| WebUIAutomator.ReplaceEntities | src/main/java/com/example/automator/WebUIAutomator.java:167-171 | text with none of the five characters the chain targets passes it unchanged |
| WebUIAutomator.ReplaceEntitiesChar | src/main/java/com/example/automator/WebUIAutomator.java:167-171 | on one character the chain yields that character's entity, so the `&` of an entity written earlier is never escaped again |
| WebUIAutomator.EscapeHtmlIsPerCharacter | src/main/java/com/example/automator/WebUIAutomator.java:165-172 | `escapeHtml` equals the character-by-character reference escaper |
| WebUIAutomator.EscapeHtmlConcat | src/main/java/com/example/automator/WebUIAutomator.java:165-172 | escaping a concatenation escapes each part on its own |
| WebUIAutomator.EscapeHtmlPlainText | src/main/java/com/example/automator/WebUIAutomator.java:165-172 | text with none of `& < > " '` comes back unchanged |
| WebUIAutomator.DecodeEscapedChar | src/main/java/com/example/automator/WebUIAutomator.java:167-171 | decoding the five entities in an escaped character followed by other text gives that character first |
| WebUIAutomator.DecodeEscapeEach | src/main/java/com/example/automator/WebUIAutomator.java:167-171 | decoding the five entities in the reference escaping gives back the original text |
| WebUIAutomator.DecodeEscapeHtml | src/main/java/com/example/automator/WebUIAutomator.java:165-172 | decoding the five entities in the escaped text gives back the text that was escaped |
| WebUIAutomator.EscapeAll | src/main/java/com/example/automator/WebUIAutomator.java:120-123 | each field text is escaped on its own, in order, and none of the results holds markup |
| WebUIAutomator.DisplayedFields | src/main/java/com/example/automator/WebUIAutomator.java:110-123 | the page receives four field texts, none holding markup |
| WebUIAutomator.DisplayedFieldsShowRecord | src/main/java/com/example/automator/WebUIAutomator.java:120-123 | the year field is the year in decimal, unchanged, and decoding the five entities in each text field gives back the extracted text |
| WebUIAutomator.SentinelTitle | src/main/java/com/example/automator/WebUIAutomator.java:104 | the title a click sets starts with `CHOICE_`, and the rest of it is the choice, unchanged |
| WebUIAutomator.DecodeTitle | src/main/java/com/example/automator/WebUIAutomator.java:141-146 | a title yields a choice exactly when it starts with `CHOICE_`, and the choice is the rest, lower-cased position by position |
| WebUIAutomator.DecodeSentinel | src/main/java/com/example/automator/WebUIAutomator.java:141-144 | decoding an encoded choice gives its lower-case form |
| WebUIAutomator.ButtonSentinelRoundTrip | src/main/java/com/example/automator/WebUIAutomator.java:104-117 | the title each button sets decodes to that button's choice |
| WebUIAutomator.GetUserChoice | src/main/java/com/example/automator/WebUIAutomator.java:84-155 | no driver, a failed page file and a timed-out wait each give `skip`; `timeout` needs a shown page and a re-read title |
| WebUIAutomator.ChoiceMatchesTitle | src/main/java/com/example/automator/WebUIAutomator.java:143-144 | a decoded choice is lower case, and its own title equals the re-read title up to letter case |
| WebUIAutomator.ButtonClickChoice | src/main/java/com/example/automator/WebUIAutomator.java:141-146 | a button click comes back as that button's choice |
| WebUIAutomator.TimeoutChoiceOrigin | src/main/java/com/example/automator/WebUIAutomator.java:137-150 | `timeout` comes back exactly when the page was shown and the title read after the wait lost the prefix or spells `timeout` |
| GoogleSheetsWriter.LoadProperties | src/main/java/com/example/gsheets/GoogleSheetsWriter.java:28-54 | an id is always set, a present key is taken as is, and the sheet name is `Sheet1` unless the file names one |
| GoogleSheetsWriter.IsConfigured | src/main/java/com/example/gsheets/GoogleSheetsWriter.java:57 | an id passes the guard exactly when it is present and no position of it starts `FALLBACK`, `MISSING` or `ERROR` |
| GoogleSheetsWriter.MarkerAnywhereRejected | src/main/java/com/example/gsheets/GoogleSheetsWriter.java:57 | an id holding one of the three markers anywhere is refused |
| GoogleSheetsWriter.FallbackIdsRejected | src/main/java/com/example/gsheets/GoogleSheetsWriter.java:33-57 | every fallback id `loadProperties` assigns is refused by the guard |
| GoogleSheetsWriter.IsSheetEffectivelyEmpty | src/main/java/com/example/gsheets/GoogleSheetsWriter.java:76-79 | the sheet counts as empty when no values or no rows come back; otherwise exactly when the first row is present and holds no cell, so a null first row counts as data |
| GoogleSheetsWriter.DataRow | src/main/java/com/example/gsheets/GoogleSheetsWriter.java:89-95 | a data row has the header's width and starts with the year as a number |
| GoogleSheetsWriter.DataRows | src/main/java/com/example/gsheets/GoogleSheetsWriter.java:89-96 | one data row per result, in input order |
| GoogleSheetsWriter.RowsToAppend | src/main/java/com/example/gsheets/GoogleSheetsWriter.java:81-96 | the rows sent are the header when the sheet is empty, then one row per result in order |
| GoogleSheetsWriter.AppendResults | src/main/java/com/example/gsheets/GoogleSheetsWriter.java:56-117 | a bad id gives false with no request, even for an empty list; with a good id, a null or empty list gives true with no request; an append follows a read; the ranges are `<sheet>!A1` and `<sheet>!A:D`; success means nothing to do, or a completed append |
| GoogleSheetsWriter.AppendedRows | src/main/java/com/example/gsheets/GoogleSheetsWriter.java:67-104 | with a good id and results, the append is issued exactly when the client was built and the read returned, and carries the header exactly when the sheet is effectively empty, then the results |
| GoogleSheetsWriter.NoHeaderOverData | src/main/java/com/example/gsheets/GoogleSheetsWriter.java:76-87 | a sheet whose first row holds data gets only data rows |
| GoogleSheetsWriter.SingleResultIntoEmptySheet | src/main/java/com/example/gsheets/GoogleSheetsWriter.java:81-111 | one result into any effectively empty sheet sends exactly the header and that result, and the call succeeds exactly when the append does |
| App.LocatorsUnderCheckedTable | src/main/java/com/example/App.java:40-46 | every cell locator lies under the container checked for visibility |
| App.ParseYear | src/main/java/com/example/App.java:86 | a year parses exactly when its text has a digit and the digits' value fits 32 bits, and it is that value |
| App.ParseYearFootnote | src/main/java/com/example/App.java:86 | `1930*` gives 1930 |
| App.ParseYearSplitDigits | src/main/java/com/example/App.java:86 | `19 30` gives 1930 |
| App.ParseYearNoDigits | src/main/java/com/example/App.java:86-95 | every year text without a digit fails to parse |
| App.CleanScore | src/main/java/com/example/App.java:75 | the score is the trimmed text with each newline turned into a space, position by position; it holds no newline and is empty exactly when the raw text is all blank |
| App.ExtractRow | src/main/java/com/example/App.java:90-99 | a failed extraction yields no record |
| App.ExtractRowSpec | src/main/java/com/example/App.java:67-100 | a row yields a record exactly when no field is blank and the year has digits worth at most 2147483647; the record's texts are the trimmed field texts (the score also without newlines), all non-empty, and the year is the digits' value |
| App.KeepDigitsOfTrim | src/main/java/com/example/App.java:86 | trimming the year text does not change its digits |
| App.Offer | src/main/java/com/example/App.java:102-116 | an offered record and its choice are appended to the trace; `append` adds the record to the end of the batch, any other choice leaves the batch alone |
| App.Iterate | src/main/java/com/example/App.java:56-117 | the loop only extends the trace, tries at most the remaining indices, and tries them consecutively from the current one |
| App.RunFifaDataFlow | src/main/java/com/example/App.java:39-123 | the run aborts exactly when the table never became visible; otherwise row 1 is tried first |
| App.OfferedLength | src/main/java/com/example/App.java:102 | rows 1..n yield at most n records |
| App.SkipStep | src/main/java/com/example/App.java:80-99 | a row yielding no record keeps the trace in line with the reference definitions |
| App.OfferStep | src/main/java/com/example/App.java:102-116 | an offered record and its answer keep the trace in line with the reference definitions |
| App.IterateAfterSkip | src/main/java/com/example/App.java:80-99 | a row yielding no record moves the loop on to the next index with nothing offered |
| App.IterateAfterOffer | src/main/java/com/example/App.java:102-116 | after an offer the loop stops on `quit`, and otherwise moves on to the next index |
| App.IterateConsistent | src/main/java/com/example/App.java:56-117 | the loop's trace always matches the reference offers, answers and confirmed batch |
| App.IterateFinished | src/main/java/com/example/App.java:110-113 | the loop ends after 10 rows, or right after the first `quit`, on the record of the last row tried |
| App.LoopFromStart | src/main/java/com/example/App.java:53-117 | the loop from row 1 ends consistent and finished |
| App.RunTriesRowsInOrder | src/main/java/com/example/App.java:56 | rows are tried from 1 upwards with none skipped or repeated, at most 10, and all 10 unless the user quits |
| App.RunOffersExtractedRecords | src/main/java/com/example/App.java:64-104 | exactly the records the tried rows yield are offered, in row order, and the k-th offer gets the k-th confirmation outcome |
| App.RunAnswersEachOffer | src/main/java/com/example/App.java:102-104 | the k-th offered record is answered by decoding the k-th confirmation outcome |
| App.RunBatchIsAppendedOffers | src/main/java/com/example/App.java:102-109 | the batch is the offers answered `append`, in extraction order; the batch is no longer than the offers, the offers no more than the rows tried, and those at most 10 |
| App.RunStopsAtQuit | src/main/java/com/example/App.java:110-113 | the run quits exactly when `quit` was chosen; it is then the last and only `quit` choice and answers the record of the last row tried |
| App.RunWritesBatchOnce | src/main/java/com/example/App.java:119-123 | a completed run calls the writer exactly when the batch is non-empty, and then with the batch |
| App.ConfirmedPrefix | src/main/java/com/example/App.java:107-109 | the records confirmed among the first n offers are, in order, a prefix of those confirmed among all offers |
| App.RunKeepsEarlierConfirmations | src/main/java/com/example/App.java:107-116 | in a completed run, the batch at every earlier point, a `quit` included, is a prefix of the batch handed to the writer |
| App.UnusableRowNotOffered | src/main/java/com/example/App.java:80-95 | a row with a blank field, or a year without digits, adds no offer |

## Left out

- Browser work is not modelled: starting the driver, opening and re-opening the Wikipedia page (`App.java` lines 30-37, 43, 58-61), and waiting for elements. The model receives the outcomes as the `tableVisible`, `extract` and `confirm` inputs.
- The 300-second title wait is not modelled as time. Its outcome is an input: a re-read title, or a timeout.
- Creating, writing and deleting the temporary confirmation page is file-system I/O. A failure appears only as the `PageFileFailed` outcome.
- The HTML, CSS and script text of the page is presentation. Only the four escaped fields and the title protocol are modelled.
- How a browser displays the escaped fields is not modelled. It collapses whitespace and handles other entities and tags. `DecodeEntities` only undoes the five entities `escapeHtml` writes.
- `fillTextField`, `clickElement` and `setCheckboxState` are left out: they are thin driver wrappers the flow never calls.
- `SheetsServiceUtil` (credentials, HTTP transport, the client library) is external. The model sees its outcome only as `ServiceUnavailable`.
- The Gson parse of the properties file is replaced by its result: an optional id, an optional sheet name, or a failure.
- The remote meaning of the `get` and `append` calls is the service's business. This includes `USER_ENTERED` and `INSERT_ROWS`. Only the requests and the rows handed over are modelled.
- Console and error logging, `FifaFinalResult.toString` and the Lombok accessors are diagnostics.
- The outer catch-all, `e.printStackTrace` and the `driver.quit()` cleanup (`App.java` lines 128-137) are left out. So are unchecked exceptions that escape `getUserChoiceFromWebPage` (for example from `driver.get`) and would skip the final write.
- A `null` element inside the list given to `appendResults` is left out: the run loop never adds one.
- FifaDataXPath.GetFormattedXPath: assumes a default locale that writes ASCII digits. `String.format` writes `%d` with the default locale's digits, so a locale with other digits (Arabic or Persian, for example) would put those inside `tr[...]`.
- JavaStrings.ToLower: only ASCII letters are lowered; `toLowerCase` also maps other alphabets, depending on locale.
- JavaIntegers.ParseInt: reads ASCII digits only. `Integer.parseInt` also accepts other Unicode decimal digits, but none reach it here, because the `[^0-9]` filter runs first.
