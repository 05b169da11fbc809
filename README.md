# Return-series upload core, modelled in Dafny

This project models the core of a small ASP.NET MVC application. A user uploads a
two-column CSV file that lists a date and a periodic return in percent on each row.
The application does four things with it:

- It checks the uploaded file before reading it: is a file there, what is its size, how
  long is its name, what is its extension (`FileValidator`).
- It reads the file into numbered raw rows and checks the header row (`FileProcessor.ProcessFile`).
- It parses every row's date and value and gathers one error per field that fails.
- It assembles the parsed rows: sorts them by date, reports duplicate dates, and fills in
  each row's cumulative compounded percentage (`FileProcessor.ProcessCSVModels`).

The model also covers the date-only comparison that the sort relies on
(`PercentModel.CompareTo`) and the file-name sanitiser used before a file is stored
(`FileUploader.WindowsSafeFileName`).

The code keeps its shape, file by file:

- **Shared error list.** In the source, one `List<string>` belongs to the upload and is
  passed by reference to the validator and the processor. Here it is the class
  `Diagnostics.ErrorLog`, and both `FileValidator` and `FileProcessor` hold a reference to
  it. Each method that adds errors modifies only that log. Its postcondition says the new
  contents are the old contents followed by the new entries. So the log is append-only
  by construction.
- **Error values.** Errors are values of the datatype `Diagnostics.Error`.
  `Diagnostics.Message` renders the texts the source adds, with every `int` written in
  invariant form (a leading `-` for a negative value).
- **Parsed-row list.** The `List<PercentModel>` that is built, sorted and updated in place
  is the class `Processing.PercentList`, with a `seq` field.
- **Loops.** The numbering loop, the per-row conversion loop, the duplicate-reporting
  loop and the compounding loop are `while` loops, each proved against a specification:
  - the numbering loop in `ProcessFile` against the closed form "record `k` is row `k`
    numbered `k + 1`";
  - the conversion loop (`ConvertRecords`) against `KeptRows` for the rows it keeps and
    `ConversionErrors` for the errors it logs;
  - the duplicate loop (`ValidateForDuplicationOfDate`) against `DuplicateErrors` of
    `DuplicatedDates`;
  - the compounding loop (`CalculatePercents`) against `Compounded`.

  Lemmas then state what those functions promise.
- **Pure code.** `CompareTo`, the header priority chain and the sanitiser are functions.

Configuration values are passed in as the datatype `Platform.Settings`. The library calls
are passed in as uninterpreted function values in `Platform.Primitives`: the CSV reader,
`DateTime.TryParseExact`, `double.TryParse`, `int.TryParse`, the case-insensitive string
comparison, `Path.GetExtension` and `ToLower`. Dates are an ordered integer key. Returns
and percentages are `real`, so the compounding is exact.

Points where the code behaves differently from what one might expect:

- The code sorts with `List.Sort`, which is not stable. Only "sorted by date and a
  permutation" is promised (`PercentList.Sort`), not that rows with equal dates keep their
  input order.
- A name-length setting that is present but does not parse gives a limit of 0, not 150,
  because `int.TryParse` writes 0 on failure (`GetMaxFileNameLength`, `UnparsableNameLimit`).
- Both limits are exclusive. A file whose size is exactly the maximum fails, and so does a
  name whose length is exactly the limit (`SizeBoundary`, `NameLengthBoundary`).
- The error for a field count other than two always says "more than 2 columns", even when
  the count is lower.
- The size message reports `max / 1024` (truncating integer division) and labels it "MB".

## Model

| member | source | states |
|---|---|---|
| `Strings.Split` | WebApp/WebApp/Helpers/FileValidator.cs:92-97 | `Split(',')` always yields at least one piece, and no piece contains the separator |
| `Strings.JoinSplit` | WebApp/WebApp/Helpers/FileValidator.cs:88-96 | joining the pieces of a split with the separator gives back the original string |
| `Strings.SplitJoin` | WebApp/WebApp/Helpers/FileValidator.cs:88-96 | splitting a join of separator-free pieces gives back those pieces (the other direction of the round trip) |
| `Strings.Join` | WebApp/WebApp/Helpers/FileValidator.cs:89 | the joined text holds the separator exactly when there are two or more pieces or a piece holds it |
| `Diagnostics.TruncatingDiv` | WebApp/WebApp/Helpers/FileValidator.cs:63 | C#'s `int` division rounds toward zero: a non-negative dividend gives `q·b ≤ a < q·b + b`, a negative one gives `q·b − b < a ≤ q·b` |
| `Diagnostics.Message` | WebApp/WebApp/Helpers/FileProcessor.cs:95-156 | every text that reports a value ends with it: the expected header, the offending field with its row number, or the duplicated date here; likewise the limit (as `max / 1024` for the size) or the comma-joined extensions for the validator's texts at FileValidator.cs:37-89 |
| `Models.PercentModel.CompareTo` | WebApp/WebApp/Models/PercentModel.cs:15-21 | the result is -1, 0 or 1; comparing with null gives 1; 0 exactly when the dates are equal; negative exactly when this date is earlier |
| `Models.CompareToAntisymmetric` | WebApp/WebApp/Models/PercentModel.cs:18-20 | `a.CompareTo(b) == -b.CompareTo(a)` for non-null rows |
| `Models.CompareToTransitive` | WebApp/WebApp/Models/PercentModel.cs:18-20 | a ≤ b and b ≤ c under the comparison give a ≤ c |
| `Models.CompareToOnlyDates` | WebApp/WebApp/Models/PercentModel.cs:18-20 | the comparison depends only on the two dates, not on `Id`, `IRR_ACB` or `Percent` |
| `Models.SortedByDateIffCompareTo` | WebApp/WebApp/Helpers/FileProcessor.cs:114 | a list is in non-decreasing date order exactly when no row compares greater than a later row |
| `Diagnostics.ErrorLog.constructor` | WebApp/WebApp/Controllers/HomeController.cs:21 | an upload starts with an empty error list |
| `Diagnostics.ErrorLog.Add` | WebApp/WebApp/Helpers/FileProcessor.cs:95 | adding appends exactly one entry and keeps all earlier entries in order |
| `Validation.GetSupportedFileTypes` | WebApp/WebApp/Helpers/FileValidator.cs:92-97 | the extension list is the setting split at commas: at least one entry, no entry holding a comma, entries taken verbatim (joined back they are the setting) |
| `Validation.GetMaxFileNameLength` | WebApp/WebApp/Helpers/FileValidator.cs:99-110 | the limit is 150 when the setting is missing, the parsed value when it parses, and 0 when it is present but does not parse |
| `Validation.MissingFileShortCircuits` | WebApp/WebApp/Helpers/FileValidator.cs:35-39 | a missing file yields exactly the one "not provided" error and nothing else |
| `Validation.PresentFileChecks` | WebApp/WebApp/Helpers/FileValidator.cs:40-90 | for a present file at most four errors are added, with no "not provided" error among them; the zero-size error iff length ≤ 0; the size error iff size ≥ max; the name error iff name length ≥ limit; the extension error iff the extension is empty or its lower-case form is not in the list; nothing else |
| `Validation.SizeBoundary` | WebApp/WebApp/Helpers/FileValidator.cs:57-65 | a file of exactly the maximum size fails and one byte less passes |
| `Validation.NameLengthBoundary` | WebApp/WebApp/Helpers/FileValidator.cs:67-75 | the name limit is exclusive: a name of exactly the limit fails and one character shorter passes |
| `Validation.UnparsableNameLimit` | WebApp/WebApp/Helpers/FileValidator.cs:99-110 | a name-length setting that is present but does not parse makes every name fail, with limit 0 in the error |
| `Validation.ExtensionMessageListsSetting` | WebApp/WebApp/Helpers/FileValidator.cs:77-90 | a rejected extension adds one error whose text lists the configured setting exactly as written |
| `Validation.FileValidator.constructor` | WebApp/WebApp/Helpers/FileValidator.cs:22-25 | the validator writes to the error list it is given |
| `Validation.FileValidator.Validate` | WebApp/WebApp/Helpers/FileValidator.cs:33-44 | appends the "not provided" error alone for a missing file; otherwise appends the errors of the four checks in the order content length, size, name length, extension; keeps earlier entries |
| `Validation.FileValidator.CheckContentLength` | WebApp/WebApp/Helpers/FileValidator.cs:48-55 | appends the zero-size error exactly when the length is not positive |
| `Validation.FileValidator.CheckSupportedSize` | WebApp/WebApp/Helpers/FileValidator.cs:57-65 | appends the size error, carrying the limit, exactly when size ≥ limit |
| `Validation.FileValidator.CheckFileNameLength` | WebApp/WebApp/Helpers/FileValidator.cs:67-75 | appends the name error, carrying the configured limit, exactly when the name is not shorter than it |
| `Validation.FileValidator.CheckFileExtension` | WebApp/WebApp/Helpers/FileValidator.cs:77-90 | appends the extension error, listing the entries, unless the extension is non-empty and its lower-case form is an entry |
| `Processing.Delimiter` | WebApp/WebApp/Helpers/FileProcessor.cs:41-42 | the delimiter is the setting when it is present and exactly one character long, and `';'` otherwise |
| `Processing.HeaderErrors` | WebApp/WebApp/Helpers/FileProcessor.cs:127-145 | the header gate yields at most one error, and none exactly when there are two fields and both headers match their settings |
| `Processing.HeaderErrorsPriority` | WebApp/WebApp/Helpers/FileProcessor.cs:127-145 | a field count other than 2 gives only the column error; otherwise a first-header mismatch gives only its error; otherwise a second-header mismatch gives only its error |
| `Processing.DateFormat` | WebApp/WebApp/Helpers/FileProcessor.cs:74-75 | the date format is the setting unless it is missing or empty, and `dd.MM.yyyy` otherwise |
| `Processing.RecordErrorsSpec` | WebApp/WebApp/Helpers/FileProcessor.cs:86-107 | a record yields no error iff both fields parse; a date error iff the date fails and a value error iff the value fails, both naming the record's row; when both fail the date error comes first |
| `Processing.KeptRowsMembership` | WebApp/WebApp/Helpers/FileProcessor.cs:81-112 | a row is kept iff it is the parse of a record whose date and value both parse; it carries that record's `Id` and no percentage yet |
| `Processing.ConversionErrorsAt` | WebApp/WebApp/Helpers/FileProcessor.cs:79-107 | each record's errors come after those of every earlier record and before those of every later one |
| `Processing.RowFailureIsolation` | WebApp/WebApp/Helpers/FileProcessor.cs:81-112 | of three records, one whose date alone fails is dropped with exactly one error naming its row, and the other two are kept in order |
| `Processing.InsertByDate` | WebApp/WebApp/Helpers/FileProcessor.cs:114 | inserting a row during the sort keeps exactly the rows there were plus the new one |
| `Processing.InsertByDateSorted` | WebApp/WebApp/Helpers/FileProcessor.cs:114 | inserting into a date-sorted list keeps it date-sorted |
| `Processing.GroupKeys` | WebApp/WebApp/Helpers/FileProcessor.cs:149 | the grouping keys are the distinct dates of the list, each once |
| `Processing.Repeated` | WebApp/WebApp/Helpers/FileProcessor.cs:149-150 | the groups kept are exactly those whose date occurs more than once |
| `Processing.RepeatedKeepsOrder` | WebApp/WebApp/Helpers/FileProcessor.cs:149-150 | filtering the groups keeps their order, so distinct keys stay distinct and increasing keys stay increasing |
| `Processing.DuplicatedDates` | WebApp/WebApp/Helpers/FileProcessor.cs:149-150 | the `GroupBy`/`Where` selection reports a date iff it occurs at least twice, and no date twice |
| `Processing.DuplicateErrors` | WebApp/WebApp/Helpers/FileProcessor.cs:153-157 | one duplicate error per reported date, in the same order |
| `Processing.DuplicateErrorsExactlyOnce` | WebApp/WebApp/Helpers/FileProcessor.cs:147-159 | the duplicate errors name every date that occurs at least twice, each exactly once, and nothing else |
| `Processing.DuplicatesOfSortedInOrder` | WebApp/WebApp/Helpers/FileProcessor.cs:114-159 | because the check runs after the sort, the duplicate errors come in strictly increasing date order |
| `Processing.CompoundedOnlySetsPercent` | WebApp/WebApp/Helpers/FileProcessor.cs:161-169 | compounding sets every row's `Percent` and changes no other field |
| `Processing.CompoundedRecurrence` | WebApp/WebApp/Helpers/FileProcessor.cs:161-169 | the first row's percentage is its own return; for each later row, `1 + P[i]/100 = (1 + P[i-1]/100)(1 + r[i]/100)` |
| `Processing.CompoundingExample` | WebApp/WebApp/Helpers/FileProcessor.cs:161-169 | returns 10, -5 give cumulative 10, 4.5; a further 0 keeps 4.5 |
| `Processing.AssemblyFacts` | WebApp/WebApp/Helpers/FileProcessor.cs:114-118 | compounding a sorted permutation of the parsed rows keeps it sorted, keeps its dates, and clearing the percentages gives the permutation back |
| `Processing.TwoRowExample` | WebApp/WebApp/Helpers/FileProcessor.cs:71-121 | two rows with returns 10 and -5 on different dates: the postconditions of `ProcessCSVModels` force no errors, date order and cumulative percentages 10 and 4.5 |
| `Processing.PercentList.constructor` | WebApp/WebApp/Helpers/FileProcessor.cs:73 | the list of parsed rows starts empty |
| `Processing.PercentList.Add` | WebApp/WebApp/Helpers/FileProcessor.cs:111 | adding appends the row at the end |
| `Processing.PercentList.Sort` | WebApp/WebApp/Helpers/FileProcessor.cs:114 | afterwards the list is in non-decreasing date order and is a permutation of what it held |
| `Processing.FileProcessor.constructor` | WebApp/WebApp/Helpers/FileProcessor.cs:25-28 | the processor writes to the error list it is given |
| `Processing.FileProcessor.ProcessFile` | WebApp/WebApp/Helpers/FileProcessor.cs:39-64 | reads with the configured-or-default delimiter and appends the header gate's errors. With fewer than two headers and a data row it fails. Otherwise it returns one record per data row, in read order, numbered 1..n, holding that row's two fields |
| `Processing.FileProcessor.ProcessCSVModels` | WebApp/WebApp/Helpers/FileProcessor.cs:71-121 | it appends the conversion errors in record order, then one error per duplicated date. It returns the parsed rows sorted by date, as a permutation with duplicates kept. Each row's percentage is compounded in that order |
| `Processing.FileProcessor.ConvertRecords` | WebApp/WebApp/Helpers/FileProcessor.cs:79-112 | the conversion loop returns a fresh list holding exactly the parsed rows of the records that parse, in record order, and appends every record's errors in record order |
| `Processing.FileProcessor.ConvertRecord` | WebApp/WebApp/Helpers/FileProcessor.cs:86-111 | one record's step returns its parsed row exactly when both fields parse, and appends exactly that record's errors |
| `Processing.FileProcessor.ValidateHeadersAndColumns` | WebApp/WebApp/Helpers/FileProcessor.cs:127-145 | appends exactly the header gate's at most one error |
| `Processing.FileProcessor.ValidateForDuplicationOfDate` | WebApp/WebApp/Helpers/FileProcessor.cs:147-159 | appends the duplicate errors and leaves the list untouched (no row removed or moved) |
| `Processing.FileProcessor.CalculatePercents` | WebApp/WebApp/Helpers/FileProcessor.cs:161-169 | the running multiplier from 1 gives every row the percentage `(∏_{j≤i}(1 + r_j/100) − 1)·100` |
| `Uploading.IndexOfAny` | WebApp/WebApp/Helpers/FileUploader.cs:30 | the result is the first position holding one of the characters, or -1 when there is none |
| `Uploading.Replace` | WebApp/WebApp/Helpers/FileUploader.cs:32 | `Replace` keeps the length, puts the replacement at every position that held the replaced character and leaves every other position alone, so the replaced character is gone unless it is the replacement |
| `Uploading.ReplaceEach` | WebApp/WebApp/Helpers/FileUploader.cs:32 | the `Aggregate` fold keeps the length, leaves none of the replaced characters other than the replacement, and brings in no new character but the replacement |
| `Uploading.ReplaceEachAt` | WebApp/WebApp/Helpers/FileUploader.cs:32 | the fold of `Replace` calls acts per position: a delimiter becomes the replacement, anything else stays, whatever the replacement is |
| `Uploading.WindowsSafeFileNameWith` | WebApp/WebApp/Helpers/FileUploader.cs:25-36 | the output has the input's length; each position holds the replacement if the input character is a delimiter, else the input character |
| `Uploading.WindowsSafeFileName` | WebApp/WebApp/Helpers/FileUploader.cs:13-16 | the public overload replaces with `'_'`, and its output contains no delimiter |
| `Uploading.DefaultReplacementIsSafe` | WebApp/WebApp/Helpers/FileUploader.cs:15 | `'_'` is not one of the delimiters |
| `Uploading.NoDelimitersLeft` | WebApp/WebApp/Helpers/FileUploader.cs:28-32 | the output is delimiter-free iff the replacement is not a delimiter or the input had none |
| `Uploading.UnchangedWithoutDelimiters` | WebApp/WebApp/Helpers/FileUploader.cs:30-35 | a name without delimiters comes back unchanged |
| `Uploading.WindowsSafeFileNameIdempotent` | WebApp/WebApp/Helpers/FileUploader.cs:13-16 | sanitising an already-sanitised name changes nothing |
| `Uploading.WindowsSafeFileNameWithIdempotent` | WebApp/WebApp/Helpers/FileUploader.cs:25-36 | the private overload is idempotent too, for every replacement character |

## Left out

- `HomeController` is not modelled: the MVC actions, the antiforgery check, saving the file to disk, the chart strings, `ErrorsToString`, and the handler that turns any exception into two generic errors. It is the plumbing around the core.
- `CommonFunctions` is not part of this model. Settings are passed in as `Settings`. The maximum request length arrives as the byte limit, already computed, so its derivation from `httpRuntime` (including 32-bit overflow) is not modelled.
- The LumenWorks CSV reader is an uninterpreted function. Its result is the header row plus, for each data row, the values under the first two headers. Quoting, malformed rows and duplicate header names are the reader's concern and are not modelled.
- `DateTime.TryParseExact`, `double.TryParse`, `int.TryParse`, the invariant-culture case-insensitive comparison, `Path.GetExtension` and `ToLower` are uninterpreted parameters. .NET parsing is not re-implemented.
- Validation.FileValidator.CheckFileExtension: `Path.GetExtension` is a total function in the model. On .NET Framework it throws `ArgumentException` for a name holding `"`, `<`, `>`, `|` or a control character. The model then appends the extension error or accepts the file instead of throwing.
- Validation.FileValidator.Validate: for such a name the source throws after the first three checks have appended their errors, and the controller then adds its two generic errors. The model appends the fourth check's outcome instead.
- Diagnostics.Message: `int` values inside the texts are rendered with `-` for a negative number and no grouping. The source formats them with the current culture. The difference shows only for a negative limit under a culture with another minus sign.
- Dates are an integer key, so only their order and equality are modelled. `ToShortDateString` depends on the culture, so it is a parameter of `Message`.
- Doubles are modelled as `real`. IEEE-754 rounding in the compounding, and the NaN and infinity values `double.TryParse` can return, are not modelled.
- The .NET introsort is not modelled. `PercentList.Sort` inserts row by row, and its contract promises only sortedness and permutation, so no order of equal dates is promised.
- `PercentModel` objects are modelled as values in a sequence. Each is created for one record and shared with no one, so aliasing is moot. Setting `Percent` replaces the element at its position.
- Integers are unbounded. `ContentLength`, name lengths and the row counter are 32-bit in the source, and their overflow is not modelled. Name length counts Dafny characters, not UTF-16 code units, so names with surrogate pairs are not modelled. Likewise `Processing.Delimiter` takes a one-character setting as the delimiter. A setting outside the Basic Multilingual Plane is two UTF-16 units, so `char.TryParse` rejects it and the source falls back to `';'`.
- A missing extension setting makes the source throw a `NullReferenceException` on `Split`. The model takes that setting as a plain string. A null file name is not modelled either.
- `ProcessFile`: when the index error is thrown for fewer than two headers, the model returns `None` but does not model what the caller then adds to the error list.
