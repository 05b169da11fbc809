/** What the core receives from the code around it: the application settings,
    the output of the CSV reader, and the .NET parsing and comparison
    primitives, which are passed in rather than re-implemented. */
module Platform {
  import opened Wrappers
  import opened Models

  /** The two values the CSV reader yields for one data row, under the first
      and the second header. */
  datatype RawFields = RawFields(date: string, value: string)

  /** What the CSV reader yields for a file: the header row (whose length is
      the field count) and the data rows in read order. */
  datatype CsvTable = CsvTable(headers: seq<string>, rows: seq<RawFields>)

  /** The application settings the core reads; `None` is a missing key. The
      extension list is required to be present and the maximum request length
      is the already computed byte limit. */
  datatype Settings = Settings(
    delimiter: Option<string>,
    dateFormat: Option<string>,
    header0: Option<string>,
    header1: Option<string>,
    maxFileNameLength: Option<string>,
    supportedExtensions: string,
    maxRequestLength: int)

  /** The library calls the core makes, each as an uninterpreted function:
      - `readCsv(path, delimiter)`: open the stored file and read it as CSV with headers;
      - `tryParseExactDate(text, format)`: `DateTime.TryParseExact` with the invariant culture;
      - `tryParseDouble(text)`: `double.TryParse` with `NumberStyles.Any` and the invariant culture;
      - `tryParseInt(text)`: `int.TryParse`;
      - `equalsIgnoreCase(a, b)`: `string.Equals` with `InvariantCultureIgnoreCase`;
      - `getExtension(name)`: `Path.GetExtension`;
      - `toLower(text)`: `string.ToLower`. */
  datatype Primitives = Primitives(
    readCsv: (string, char) -> CsvTable,
    tryParseExactDate: (string, string) -> Option<Date>,
    tryParseDouble: string -> Option<real>,
    tryParseInt: string -> Option<int>,
    equalsIgnoreCase: (string, string) -> bool,
    getExtension: string -> string,
    toLower: string -> string)
}
