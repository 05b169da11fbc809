/** The shared error list of an upload: what can go wrong, the text shown for
    it, and the append-only log every stage writes to. */
module Diagnostics {
  import opened Wrappers
  import opened Strings
  import opened Models

  /** One entry of the error list; `Message` gives the text the source adds. */
  datatype Error =
    | FileNotProvided
    | ZeroSizeFile
    | FileTooLarge(maxContentLength: int)
    | FileNameTooLong(maxFileNameLength: int)
    | UnsupportedExtension(allowed: seq<string>)
    | TooManyColumns
    | FirstHeaderMismatch(expected: Option<string>)
    | SecondHeaderMismatch(expected: Option<string>)
    | IncorrectDate(text: string, row: Option<int>)
    | IncorrectValue(text: string, row: Option<int>)
    | DuplicateDate(date: Date)

  /** C#'s `/` on `int`, which rounds toward zero. */
  function TruncatingDiv(a: int, b: int): (q: int)
    requires b > 0
    ensures a >= 0 ==> q >= 0 && q * b <= a < q * b + b
    ensures a < 0 ==> q <= 0 && q * b - b < a <= q * b
  {
    if a >= 0 then a / b else -((-a) / b)
  }

  /** A nullable `int` inside an interpolated string: empty when null. */
  function NullableIntToString(n: Option<int>): string {
    if n.Some? then IntToString(n.value) else ""
  }

  /** `s` ends with `t`. */
  predicate EndsWith(s: string, t: string) {
    |t| <= |s| && s[|s| - |t|..] == t
  }

  /** The text the source adds for `e`; `shortDate` is the culture-dependent
      `DateTime.ToShortDateString`. Every text that reports a value ends with
      it: the offending field and its row, the expected header, the accepted
      extensions, the duplicated date or the limit. */
  function Message(e: Error, shortDate: Date -> string): (text: string)
    ensures e.IncorrectDate? || e.IncorrectValue? ==>
      EndsWith(text, e.text + " on row " + NullableIntToString(e.row))
    ensures e.FirstHeaderMismatch? || e.SecondHeaderMismatch? ==> EndsWith(text, e.expected.GetOr(""))
    ensures e.UnsupportedExtension? ==> EndsWith(text, Join(e.allowed, ',') + ".")
    ensures e.DuplicateDate? ==> EndsWith(text, shortDate(e.date))
    ensures e.FileNameTooLong? ==> EndsWith(text, IntToString(e.maxFileNameLength) + " symbols.")
    ensures e.FileTooLarge? ==> EndsWith(text, IntToString(TruncatingDiv(e.maxContentLength, 1024)) + " MB.")
  {
    match e
    case FileNotProvided => "The file is not provided."
    case ZeroSizeFile => "The file is of 0 kb size."
    case FileTooLarge(max) => Ending(SizePrefix, IntToString(TruncatingDiv(max, 1024)) + " MB.")
    case FileNameTooLong(max) => Ending(NameLengthPrefix, IntToString(max) + " symbols.")
    case UnsupportedExtension(allowed) => Ending(ExtensionPrefix, Join(allowed, ',') + ".")
    case TooManyColumns => "The file contains more than 2 columns."
    case FirstHeaderMismatch(expected) => Ending(FirstHeaderPrefix, expected.GetOr(""))
    case SecondHeaderMismatch(expected) => Ending(SecondHeaderPrefix, expected.GetOr(""))
    case IncorrectDate(text, row) => Ending(DatePrefix, text + " on row " + NullableIntToString(row))
    case IncorrectValue(text, row) => Ending(ValuePrefix, text + " on row " + NullableIntToString(row))
    case DuplicateDate(date) => Ending(DuplicatePrefix, shortDate(date))
  }

  /** The fixed wordings in front of the value a text reports. */
  const SizePrefix := "Invalid file size. Please upload a file less than "
  const NameLengthPrefix := "File name length should be less than "
  const ExtensionPrefix := "You have not selected an accepted file format to upload. Please upload: "
  const FirstHeaderPrefix := "The first header is not equal to "
  const SecondHeaderPrefix := "The second header is not equal to "
  const DatePrefix := "Incorrect date "
  const ValuePrefix := "Incorrect value "
  const DuplicatePrefix := "The list contains duplicates for BeginDate column "

  /** A fixed wording followed by the value it reports. */
  function Ending(prefix: string, value: string): (text: string)
    ensures EndsWith(text, value)
  {
    assert (prefix + value)[|prefix|..] == value;
    prefix + value
  }

  /** The `List<string>` owned by one upload and handed by reference to the
      validator and the processor. Entries are only ever appended. */
  class ErrorLog {
    var entries: seq<Error>

    constructor ()
      ensures entries == []
    {
      entries := [];
    }

    method Add(e: Error)
      modifies this
      ensures entries == old(entries) + [e]
    {
      entries := entries + [e];
    }
  }
}
