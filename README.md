# Invoice uploads: client checks and server storage rules

This project models two parts of a small invoice-archiving web app in Dafny:
the browser client that checks invoice data before upload, and the Node
server that files the uploaded documents into `uploads/<year>/<month>/`.

**Client (`public/main.js`)**
- `parseAmountToCents` turns a free-form amount into whole cents. It works
  with Spanish (`1.200,50`) and English (`1,200.50`) notation.
- `validateInvoiceMeta` walks the pending files and reports the first check
  that fails on the first bad file: presence, character-set, amount-format
  or sum.
- `isValidNif` and `isValidLegalName` check the tax id and the legal name.
- `getFileExtension` splits a name at its last dot. Line 405 rebuilds the
  upload name from the edited base name and the original extension.

**Server (`server.js`)**
- `/upload` picks a date for each file: the client's `invoiceDate`, else
  the EXIF date, else now. It turns that date into a year key and a
  two-digit month key, sanitises the file name to `[A-Za-z0-9._-]` and
  retries `base_1.ext`, `base_2.ext`, … until the name is free.
- `/list` answers with a year → month → entries tree, optionally filtered
  by `year` and `month`.
- `/delete` refuses a missing path or one outside `uploads/`.

**Modules**
- `JsText`: the JavaScript string primitives both sides use (`trim`,
  `padStart`, `lastIndexOf`, `split`/`join`, `String(n)`).
- `AmountCodec`: `parseAmountToCents`.
- `InvoiceMeta`: the validator, the character sets and the file-name
  split.
- `StorageRules`: the pure server rules and the collision loop
  (`UniqueName`, a `while` loop).
- `Uploads`: the `uploads` directory as a class. `dirs` is a year → month →
  names map, updated in place by `Upload` (a `for` loop). `List` reads it
  back with nested loops.

Each method is proved against a specification function, and the lemmas
state what the source promises about those functions.

**Behaviour of the code worth knowing**
- Year keys are `getFullYear().toString()`, not always four digits: years
  below 1000, negative years and `NaN` all occur.
- Only the first comma ever becomes the decimal point. With commas only
  the later commas stay and end the number. With both separators and a
  comma last, the dots are dropped, but the first comma is still the
  one replaced: `1,5.000,3` reads as 1.5000, that is 150 cents.
- A number is read up to the first character that is not a digit, or up
  to a second point, and the rest is not read. A `-` after the digits ends
  it: `100-` is 100 euros and `2024-01` is 2024 euros. With points only,
  nothing is removed, so `1.200.000` (1.2 million written with thousands
  points) reads as 1.2, that is 120 cents.
- A file without an extension renamed to a dotted name gains an
  extension: `notes` renamed to `v1.2` goes up with extension `.2`.
- `Math.round` rounds halves up (towards +∞), not away from zero.
- The tax category is only checked for presence, not for membership in
  the list of categories.

## Model

| member | source | states |
|---|---|---|
| JsText.Trim | public/main.js:533 | `trim` removes only whitespace, from both ends only: the input is whitespace, then the result, then whitespace, and the result neither starts nor ends with whitespace |
| JsText.TrimUnique | public/main.js:524 | any text wrapped in whitespace trims back to exactly that text |
| JsText.NatToDecimal | server.js:62 | `String(n)` is non-empty digits with no leading zero that read back as `n` |
| JsText.PadStart | server.js:48 | `padStart` keeps the text as a suffix and fills only on the left; text already `width` UTF-16 code units long is returned unchanged, shorter text is filled to exactly `width` units (the same call is made on the month filter at server.js:143) |
| JsText.AstralNotPadded | server.js:48 | one character beyond the Basic Multilingual Plane already counts as two units, so padding to two leaves it unchanged |
| JsText.LastIndexOf | public/main.js:61 | `lastIndexOf` is -1 exactly when the character is absent; otherwise it holds the character and none follows |
| JsText.SplitJoin | server.js:73-75 | the pieces of `split` hold no separator, joining them gives the text back, and there is more than one piece exactly when the separator occurs |
| JsText.SplitFirst | server.js:45-48 | the first piece of `split` is the text before the first separator, and the other pieces are the split of the text after it |
| JsText.SplitAround | server.js:73 | splitting around one separator splits each side on its own |
| AmountCodec.StripJunk | public/main.js:535 | the cleaned text holds only digits, `,`, `.` and `-` and is no longer than the input; a text of only those is unchanged, and a single other character cleans to empty |
| AmountCodec.StripJunkKeeps | public/main.js:535 | a character survives cleaning exactly when the text holds it and it is a digit, `,`, `.` or `-` |
| AmountCodec.StripJunkAppend | public/main.js:535 | cleaning works character by character |
| AmountCodec.StripJunkOfTrim | public/main.js:533-536 | trimming before cleaning changes nothing that is kept, and a blank text cleans to empty |
| AmountCodec.ParseFloatPrefix | public/main.js:554 | `parseFloat` reads a number exactly when the text starts with `-?` and then a digit or `.digit`, and what it reads has digits only |
| AmountCodec.RoundHalfUp | public/main.js:556 | `Math.round` gives the nearest integer, a half going up |
| AmountCodec.ParseAmountToCents | public/main.js:531-557 | `null` in, or nothing left after cleaning, gives `null`; otherwise the result is `null` exactly when the normalised text has no number prefix |
| AmountCodec.GroupedAmount | public/main.js:542-556 | in Spanish or English notation, with any digit groups, the amount reads as the groups' digits run together, then the point, then the fraction digits |
| AmountCodec.NormalizeGrouped | public/main.js:542-549 | for a grouped amount (digit groups joined by one separator, then the other separator once before the fraction digits) every group separator is dropped and the mark becomes the point |
| AmountCodec.NormalizeFirstComma | public/main.js:550-551 | with commas only, the first comma becomes `.` and later commas stay |
| AmountCodec.CommaLast | public/main.js:542-551 | when the last separator is a comma, every `.` is dropped and the first comma becomes the point; any later comma stays |
| AmountCodec.FirstCommaWins | public/main.js:542-556 | `1,5.000,3` gives 150: the first comma is the point even though the last separator is another comma |
| AmountCodec.DotLast | public/main.js:542-549 | when the last separator is a `.`, every `,` is dropped and every `.` stays |
| AmountCodec.CommaOnly | public/main.js:550-554 | with commas only, reading stops at the first non-digit after the fraction, such as a second comma |
| AmountCodec.ReadDecimal | public/main.js:554 | `parseFloat` reads sign, whole digits, point and fraction back exactly as written and stops at the next non-digit |
| AmountCodec.CentsExact | public/main.js:556 | with at most two fraction digits the result is the exact amount in cents, with its sign |
| AmountCodec.ReadWhole | public/main.js:554 | `parseFloat` reads a signed run of digits as a whole number, stopping at the first character that is neither a digit nor a point |
| AmountCodec.WholeAmount | public/main.js:531-557 | a signed run of digits, alone or followed by a `-` and more digits and minus signs, is that many whole euros |
| AmountCodec.TrailingMinus | public/main.js:531-557 | `100-` gives 10000 |
| AmountCodec.SecondPointEndsNumber | public/main.js:538-556 | with points only the text is read as it stands and `parseFloat` stops at the second point: `1.200.000` gives 120 |
| AmountCodec.DecimalValueConcat | public/main.js:554-556 | appending k digits to a numeral multiplies its value by `Pow10(k)` before adding theirs: `Pow10(k)` is ten to the k |
| AmountCodec.UnitsAndCents | public/main.js:531-557 | `u,tt` is `u` euros and `tt` cents |
| AmountCodec.SpanishNotation | public/main.js:542-546 | `1.200,50` gives 120050 |
| AmountCodec.EnglishNotation | public/main.js:547-548 | `1,200.50` gives 120050 |
| AmountCodec.CurrencySymbolIgnored | public/main.js:535 | `€ 12,34` gives 1234 |
| AmountCodec.LoneSeparatorIsDecimalMark | public/main.js:550-554 | a lone `.` is the decimal mark: `1.200` gives 120 |
| AmountCodec.RepeatedComma | public/main.js:550-554 | `1,2,3` gives 120 |
| AmountCodec.Unreadable | public/main.js:532-536 | `null`, `""`, blanks and `abc` give `null` |
| AmountCodec.LoneMinus | public/main.js:554-555 | `-` gives `null` |
| AmountCodec.DoubleMinus | public/main.js:554-555 | `--1` gives `null` |
| InvoiceMeta.GetFileExtension | public/main.js:60-64 | base and extension concatenate back to the name; the extension is empty exactly when there is no dot, and otherwise is a dot followed by no other dot |
| InvoiceMeta.ExtensionSplitUnique | public/main.js:60-64 | a name made of a base and an extension of that shape splits back into exactly those two |
| InvoiceMeta.FinalName | public/main.js:405 | the chosen name is the edited one, or the original base when it was cleared. When the file has an extension, or the chosen name has no dot, `getFileExtension` of the upload name gives back the chosen name and the original extension. Without an extension, the upload name splits exactly as the chosen name does |
| InvoiceMeta.DottedRenameGainsExtension | public/main.js:405 | `notes` renamed to `v1.2` goes up as base `v1` with extension `.2` |
| InvoiceMeta.NewPendingFile | public/main.js:137-182 | an added file keeps its original name and holds the `getFileExtension` split of it (no extension exactly when the name has no dot); its editable name starts as the base name, its date is today and every other field starts empty |
| InvoiceMeta.UnrenamedUploadKeepsName | public/main.js:137-144 | a file uploaded without renaming goes up under its original name |
| InvoiceMeta.NifCharacterization | public/main.js:523-525 | a valid NIF is not blank, holds only ASCII letters, digits and whitespace, and has whitespace only at its ends |
| InvoiceMeta.PaddedNifValid | public/main.js:523-525 | letters and digits padded with whitespace are a valid NIF |
| InvoiceMeta.NifInnerCharInvalid | public/main.js:523-525 | any character other than a letter or a digit between two non-blank parts is refused, such as the space of `B 123` or the hyphen of `B-123` |
| InvoiceMeta.LegalNameCharacterization | public/main.js:527-529 | a valid legal name is not blank and has only ASCII letters, the accented Spanish letters and whitespace |
| InvoiceMeta.LegalNameTrimmed | public/main.js:528 | trimming does not change whether every character is in the legal-name class |
| InvoiceMeta.BlankLegalNameInvalid | public/main.js:527-529 | a legal name of blanks only is not valid |
| InvoiceMeta.AccentedLegalNameValid | public/main.js:527-529 | accented letters and inner spaces are accepted |
| InvoiceMeta.DottedLegalNameInvalid | public/main.js:527-529 | `Acme S.L.` is refused |
| InvoiceMeta.VatCents | public/main.js:491-492 | an empty or unreadable VAT field counts as 0; a readable one counts as its value |
| InvoiceMeta.ZeroAmount | public/main.js:491-492 | the fallback text `0` reads as 0 cents |
| InvoiceMeta.CheckFileReportsFirstFailure | public/main.js:447-504 | a file is accepted exactly when no check fails; otherwise the reported check fails and every check before it passes |
| InvoiceMeta.SumRule | public/main.js:500-504 | once the earlier checks pass, a file is accepted exactly when base + deductible VAT + non-deductible VAT equals the total in cents, and is otherwise reported for the sum |
| InvoiceMeta.SumExample | public/main.js:500-504 | base 1,00 with VAT 0,10 and 0,05 accepts a total of 1,15 and refuses 1,16 |
| InvoiceMeta.UnreadableVatCountsAsZero | public/main.js:491-492 | an unreadable VAT field is judged the same as an empty one |
| InvoiceMeta.AmountFormatBlamesBaseOrTotal | public/main.js:495-498 | the amount-format error is only reported when base or total is unreadable, and both are present |
| InvoiceMeta.AnyCategoryAccepted | public/main.js:473-476 | any non-empty category passes: membership in the category list is not checked |
| InvoiceMeta.BlankLegalNameReported | public/main.js:465-472 | a blank legal name passes the presence check and is reported by the character-set check |
| InvoiceMeta.NameHint | public/main.js:448 | a file is named in messages by the edited name when there is one, else the base name when there is one, else the original name when there is one, else `archivo`; the hint is never empty |
| InvoiceMeta.ErrorMessage | public/main.js:450-502 | every message ends with the file's name in double quotes |
| InvoiceMeta.ValidateInvoiceMeta | public/main.js:446-507 | the loop returns "accepted" exactly when every file is acceptable; otherwise it returns the first bad file, its first failing check and the message for it |
| StorageRules.Sanitize | server.js:68 | the result has as many characters as the name has UTF-16 units, holds only `[A-Za-z0-9._-]`, and a name already of those is unchanged |
| StorageRules.SanitizeIdempotent | server.js:68 | sanitising twice is sanitising once |
| StorageRules.SanitizeAppend | server.js:68 | the replacement works character by character |
| StorageRules.SanitizeInPlace | server.js:68 | on a name without astral characters, each safe character stays where it is and every other one becomes `_` |
| StorageRules.ClientParts | server.js:44-50 | a client date is taken exactly when the text is non-empty and contains `-`; its year is the text before the first `-`, and its month is the text between the first and the second `-` padded with `0` to two UTF-16 code units |
| StorageRules.ClientPartsOf | server.js:44-50 | `<year>-<month>` and `<year>-<month>-<more>` give that year and that month padded with `0` to two UTF-16 code units |
| StorageRules.ClientPartsExample | server.js:44-50 | `2026-03-15` gives year `2026` and month `03` |
| StorageRules.AstralClientMonth | server.js:44-50 | `2026-😀` gives year `2026` and the month `😀` as sent, not padded, since it is already two UTF-16 units long |
| StorageRules.NewDate | server.js:56 | `new Date(y, m, 1)` is the invalid date exactly when the carried year and month fall outside the ECMAScript time range; otherwise it counts the same number of months from year 0 as `y` years and `m` months, with 0–99 read as 1900–1999 |
| StorageRules.DatePriority | server.js:52-59 | once the client sent year and month, neither EXIF nor the clock matters; otherwise the EXIF date is used when present, else now |
| StorageRules.ClientMonthCarries | server.js:56 | for years from 100 on, the date keeps the client's year × 12 + month, so a month past 12 carries into the next year |
| StorageRules.TwoDigitYear | server.js:56 | a two-digit client year is filed under 19xx |
| StorageRules.FarFutureIsNaN | server.js:56-62 | a client year past 275760 is filed under `NaN/NaN` |
| StorageRules.MonthKey | server.js:62 | a month number from 1 to 12 padded with `0` to two UTF-16 code units is two digits that read back as that number |
| StorageRules.MonthBucket | server.js:62 | a valid date's month key is two digits from `01` to `12`, one more than its month index |
| StorageRules.YearBucket | server.js:61 | a valid date's year key is its year in digits without leading zeros |
| StorageRules.NaNBucket | server.js:61-62 | the year key is `NaN` exactly for the invalid date, whose month key is `NaN` too |
| StorageRules.SplitExtAgrees | server.js:73-75 | the server's split-pop-join cuts a name exactly where the client's `getFileExtension` does |
| StorageRules.CandidateParts | server.js:76 | a retry keeps the extension and puts `_counter` at the end of the base |
| StorageRules.AttemptInjective | server.js:70-77 | different counters give different names, and no retry is the sanitised name itself |
| StorageRules.AttemptsCount | server.js:70-77 | the first n names tried are n different names |
| StorageRules.AttemptsBound | server.js:72 | the loop terminates: at most as many steps are taken as the directory's entries plus `""`, `.` and `..` |
| StorageRules.FirstFree | server.js:70-78 | the loop stops at the first step whose name is not taken |
| StorageRules.FreeNameFromFirst | server.js:70-78 | the name found from step k on is the name tried at the first free step |
| StorageRules.FreeNameChoice | server.js:70-78 | the name chosen is not taken; it is the sanitised name when that is free, and otherwise the first free `base_k.ext` |
| StorageRules.CandidateSafe | server.js:73-76 | a retry of a `[A-Za-z0-9._-]` name is also in that class |
| StorageRules.FreeNameSafe | server.js:70-78 | the name chosen is as safe as the sanitised name |
| StorageRules.UniqueName | server.js:70-78 | the `while` loop returns the free name that `FreeName` specifies |
| StorageRules.Slashes | server.js:85 | every backslash becomes a slash and nothing else changes |
| StorageRules.EntryPathFormat | server.js:146 | for names without backslashes a listed path is `uploads/<y>/<m>/<f>` |
| StorageRules.DeleteGuard | server.js:97-103 | a missing or empty path is refused as missing; a path whose normalised form is not under `uploads` is refused as invalid; an accepted path is its normalised form and starts with `uploads` plus a separator |
| StorageRules.ListedPathAccepted | server.js:97-103 | a path `/list` hands out passes the guard whenever normalising leaves it unchanged |
| StorageRules.Entries | server.js:146 | a month's entries name its files in directory order |
| StorageRules.FilteredMonthsAtMost | server.js:142-144 | with both parameters, only the asked month of the asked year is shown |
| StorageRules.FilteredMonthKeys | server.js:141-147 | with both parameters, the asked year shows the asked month alone when it exists, and nothing otherwise |
| StorageRules.ListOnlyAskedYear | server.js:137-150 | with both parameters, the answer holds no year but the asked one |
| StorageRules.ListAskedMonth | server.js:137-150 | with both parameters, the asked year is listed exactly when its zero-padded month directory exists, and then holds that month alone |
| StorageRules.ListYearOnly | server.js:137-150 | with only a year sent, nothing is filtered: a year is listed exactly when it has month directories, with all of them |
| StorageRules.ListWithoutYear | server.js:137-150 | without a year, every year directory is listed, even one without months, with every month |
| StorageRules.ListEntries | server.js:145-147 | each listed month holds one entry per file, in order, with path `uploads/<y>/<m>/<f>` |
| Uploads.PlacementOf | server.js:53-68 | a file keeps its original name and gets a `[A-Za-z0-9._-]` name |
| Uploads.Place | server.js:64-88 | storing one file appends a name not yet in its month directory and reports the file under its year, month and path |
| Uploads.PlaceAll | server.js:52-89 | storing a batch reports one entry per file |
| Uploads.PlacePrefix | server.js:64-81 | storing one file only appends to its own month directory and leaves every other one as it was |
| Uploads.PlaceExtends | server.js:64-81 | storing one file removes no directory and no name |
| Uploads.PlaceDistinct | server.js:70-81 | storing one file keeps the names of every month directory distinct |
| Uploads.PlaceAllExtends | server.js:52-89 | storing a batch deletes and overwrites nothing that was there |
| Uploads.PlaceAllDistinct | server.js:52-89 | storing a batch keeps the names of every month directory distinct |
| Uploads.PlaceAllSaved | server.js:83-88 | the i-th entry reports the i-th file under its date's bucket, with the path of the name it got, which is as safe as its sanitised name |
| Uploads.PlaceAllNameKept | server.js:79-81 | the name the i-th file got is in its month directory afterwards |
| Uploads.PlaceAllNamesDiffer | server.js:70-81 | two files of one batch filed in the same month directory get different names |
| Uploads.UploadFilesEachFile | server.js:52-89 | an upload keeps what was there and keeps names distinct; it reports each file under the bucket of its date, with a `[A-Za-z0-9._-]` name kept in that month directory; two files in one month directory get different names |
| Uploads.UploadsDir.Upload | server.js:36-92 | a request without files is refused and changes nothing; otherwise the directory and the answer are those of storing each file in turn |
| Uploads.UploadsDir.List | server.js:128-154 | the nested loops build exactly the specified tree |

## Left out

- The user interface of `public/main.js`: rendering, event handlers, modals,
  toasts, `fetch` calls, navigation state, the ZIP and spreadsheet
  downloads.
- Filesystem effects: `mkdirSync`, `writeFileSync`, `unlinkSync`,
  `readdirSync`. The tree of year and month directories is a map, and a
  month directory is its sequence of names.
- The empty-directory cleanup after a delete (server.js:108-117) and the
  `existsSync`/`unlinkSync` steps after the guard.
- The missing-`uploads` early answer of `/list` (server.js:131). An absent
  directory is modelled as the empty tree, which lists the same.
- Entries at the year and month levels that are not directories. Listing
  order follows `readdirSync` and JSON key order, which a `map` does not
  keep.
- Case-insensitive file systems: names are compared exactly.
- The EXIF reader (server.js:23-34) is a foreign library; its result is an
  `Option` input. The clock (`new Date()`) is an input too. Local time
  zones are not modelled: a date is its year and month.
- `path.normalize` and `path.sep` are parameters of the `/delete` guard.
- multer's decoding of the uploaded file name. The original name is taken
  as the text the server sees.
- The request format that links the two sides: the client posts a `meta`
  array and deletes by `{id}`, which the server does not read. Each side is
  modelled on its own.
- Uploads.UploadsDir.Upload: takes one `now` for the whole request, while
  server.js:58 reads the clock once per file without a client or EXIF
  date; a request that spans a month boundary can file such files under
  two months, which the model does not show.
- Listing order: the model lists a month's files in the order they were
  stored, while `readdirSync` promises no order.
- JsText.PadStart: requires a fill character of one UTF-16 code unit.
  Every call pads with `'0'`; JavaScript cutting a two-unit fill in half
  is not modelled.
- AmountCodec.CentsExact: exact only while the amount fits a double. Above
  2^53 cents `Number` loses whole units, and beyond about 308 digits
  `parseFloat` gives `Infinity`; the model reads every amount exactly.
- Amounts are read as exact decimals. For three or more fraction digits,
  JavaScript's binary floating point can round differently (`1.005` gives
  100).
- StorageRules.FileDate: requires the client's year and month to be digit
  strings. `Number()` on other text (`NaN`, signs, blanks) is not
  modelled.
- Uploads.UploadsDir.Upload: requires the `invoiceDate` parts to be digit
  strings, for the same reason.
- StorageRules.SanitizeInPlace: states the character-by-character result
  only for names without astral characters. An astral character is two
  UTF-16 units and becomes `__`, as `Sanitize` itself models.
- InvoiceMeta.ErrorMessage: states only that each message ends with the
  quoted file name; the Spanish wording is in `Template` and is not
  restated.
- No code exists in these files for cents-to-text formatting, income and
  expense totals, spreadsheet export or import, year archives, year-wide
  delete or encryption at rest.
