/** The pre-flight checks on an uploaded file, run before its contents are
    read: presence, size, name length and extension. */
module Validation {
  import opened Wrappers
  import opened Strings
  import opened Diagnostics
  import opened Platform

  /** The name-length limit when the setting is missing. */
  const DefaultMaxFileNameLength: int := 150

  /** What the validator sees of a posted file. */
  datatype PostedFile = PostedFile(contentLength: int, fileName: string)

  /** The extension list: the setting split at every comma, pieces used as
      they are (neither trimmed nor lower-cased). Joined back with commas it
      is the setting again. */
  function GetSupportedFileTypes(setting: string): (types: seq<string>)
    ensures |types| >= 1
    ensures forall i :: 0 <= i < |types| ==> ',' !in types[i]
    ensures Join(types, ',') == setting
  {
    JoinSplit(setting, ',');
    Split(setting, ',')
  }

  /** The name-length limit: 150 when the setting is missing, the parsed value
      when it parses, and 0 when it is present but does not parse, because
      `int.TryParse` stores 0 in its out-parameter on failure. */
  function GetMaxFileNameLength(setting: Option<string>, tryParseInt: string -> Option<int>): (limit: int)
    ensures setting.None? ==> limit == DefaultMaxFileNameLength
    ensures setting.Some? && tryParseInt(setting.value).Some? ==> limit == tryParseInt(setting.value).value
    ensures setting.Some? && tryParseInt(setting.value).None? ==> limit == 0
  {
    match setting
    case None => DefaultMaxFileNameLength
    case Some(text) => tryParseInt(text).GetOr(0)
  }

  /** The error of the content-length check, if any. */
  function ContentLengthErrors(length: int): seq<Error> {
    if length > 0 then [] else [ZeroSizeFile]
  }

  /** The error of the size check, if any: the limit is exclusive. */
  function SizeErrors(size: int, maxContentLength: int): seq<Error> {
    if size < maxContentLength then [] else [FileTooLarge(maxContentLength)]
  }

  /** The error of the name-length check, if any: the limit is exclusive. */
  function NameLengthErrors(fileName: string, maxFileNameLength: int): seq<Error> {
    if |fileName| < maxFileNameLength then [] else [FileNameTooLong(maxFileNameLength)]
  }

  /** An extension is accepted when there is one and its lower-case form is
      one of the configured pieces, compared exactly. */
  predicate ExtensionAccepted(fileName: string, supported: string, env: Primitives) {
    var extension := env.getExtension(fileName);
    extension != "" && env.toLower(extension) in GetSupportedFileTypes(supported)
  }

  /** The error of the extension check, if any. */
  function ExtensionErrors(fileName: string, supported: string, env: Primitives): seq<Error> {
    if ExtensionAccepted(fileName, supported, env) then []
    else [UnsupportedExtension(GetSupportedFileTypes(supported))]
  }

  /** Everything `Validate` appends: a single error for a missing file, or
      the errors of the four checks in their fixed order. */
  function ValidationErrors(file: Option<PostedFile>, cfg: Settings, env: Primitives): seq<Error> {
    match file
    case None => [FileNotProvided]
    case Some(f) =>
      ContentLengthErrors(f.contentLength)
      + SizeErrors(f.contentLength, cfg.maxRequestLength)
      + NameLengthErrors(f.fileName, GetMaxFileNameLength(cfg.maxFileNameLength, env.tryParseInt))
      + ExtensionErrors(f.fileName, cfg.supportedExtensions, env)
  }

  /** A missing file yields exactly the one error and nothing else. */
  lemma MissingFileShortCircuits(cfg: Settings, env: Primitives)
    ensures ValidationErrors(None, cfg, env) == [FileNotProvided]
  {
  }

  /** Four checks that each add at most their own error, of four different
      kinds, add together exactly the errors of the checks that fail. */
  lemma FourChecks(a: seq<Error>, b: seq<Error>, c: seq<Error>, d: seq<Error>,
                   ea: Error, eb: Error, ec: Error, ed: Error)
    requires a == [] || a == [ea]
    requires b == [] || b == [eb]
    requires c == [] || c == [ec]
    requires d == [] || d == [ed]
    requires ea.ZeroSizeFile? && eb.FileTooLarge? && ec.FileNameTooLong? && ed.UnsupportedExtension?
    ensures var r := a + b + c + d;
      && |r| <= 4
      && FileNotProvided !in r
      && (ea in r <==> a != []) && (eb in r <==> b != []) && (ec in r <==> c != []) && (ed in r <==> d != [])
      && (forall e :: e in r ==> e == ea || e == eb || e == ec || e == ed)
  {
    var r := a + b + c + d;
    assert forall e :: e in r <==> e in a || e in b || e in c || e in d;
  }

  /** For a file that is there, each check contributes its error exactly when
      its condition fails, and nothing else is added. */
  lemma PresentFileChecks(f: PostedFile, cfg: Settings, env: Primitives)
    ensures var r := ValidationErrors(Some(f), cfg, env);
      var limit := GetMaxFileNameLength(cfg.maxFileNameLength, env.tryParseInt);
      && |r| <= 4
      && FileNotProvided !in r
      && (ZeroSizeFile in r <==> f.contentLength <= 0)
      && (FileTooLarge(cfg.maxRequestLength) in r <==> f.contentLength >= cfg.maxRequestLength)
      && (FileNameTooLong(limit) in r <==> |f.fileName| >= limit)
      && (UnsupportedExtension(GetSupportedFileTypes(cfg.supportedExtensions)) in r
          <==> !ExtensionAccepted(f.fileName, cfg.supportedExtensions, env))
      && (forall e :: e in r ==>
            e == ZeroSizeFile || e == FileTooLarge(cfg.maxRequestLength) || e == FileNameTooLong(limit)
            || e == UnsupportedExtension(GetSupportedFileTypes(cfg.supportedExtensions)))
  {
    var limit := GetMaxFileNameLength(cfg.maxFileNameLength, env.tryParseInt);
    var types := GetSupportedFileTypes(cfg.supportedExtensions);
    FourChecks(ContentLengthErrors(f.contentLength), SizeErrors(f.contentLength, cfg.maxRequestLength),
               NameLengthErrors(f.fileName, limit), ExtensionErrors(f.fileName, cfg.supportedExtensions, env),
               ZeroSizeFile, FileTooLarge(cfg.maxRequestLength), FileNameTooLong(limit), UnsupportedExtension(types));
  }

  /** The size limit is exclusive: a file of exactly the limit fails, one
      byte less passes. */
  lemma SizeBoundary(maxContentLength: int)
    ensures SizeErrors(maxContentLength, maxContentLength) == [FileTooLarge(maxContentLength)]
    ensures SizeErrors(maxContentLength - 1, maxContentLength) == []
  {
  }

  /** The name limit is exclusive too. */
  lemma NameLengthBoundary(fileName: string)
    ensures NameLengthErrors(fileName, |fileName|) == [FileNameTooLong(|fileName|)]
    ensures NameLengthErrors(fileName, |fileName| + 1) == []
  {
  }

  /** A name-length setting that is present but does not parse gives the
      limit 0, which every name fails. */
  lemma UnparsableNameLimit(fileName: string, setting: string, tryParseInt: string -> Option<int>)
    requires tryParseInt(setting).None?
    ensures NameLengthErrors(fileName, GetMaxFileNameLength(Some(setting), tryParseInt)) == [FileNameTooLong(0)]
  {
  }

  /** The extension error lists the configured setting exactly as written. */
  lemma ExtensionMessageListsSetting(fileName: string, supported: string, env: Primitives,
                                     shortDate: Models.Date -> string)
    requires !ExtensionAccepted(fileName, supported, env)
    ensures ExtensionErrors(fileName, supported, env) ==
      [UnsupportedExtension(GetSupportedFileTypes(supported))]
    ensures Message(ExtensionErrors(fileName, supported, env)[0], shortDate) ==
      "You have not selected an accepted file format to upload. Please upload: " + supported + "."
  {
  }

  /** `FileValidator`: runs the checks and appends to the shared error list. */
  class FileValidator {
    const errors: ErrorLog

    constructor (errors: ErrorLog)
      ensures this.errors == errors
    {
      this.errors := errors;
    }

    /** A missing file adds its single error and stops; otherwise the four
        checks run in order. */
    method Validate(file: Option<PostedFile>, cfg: Settings, env: Primitives)
      modifies errors
      ensures errors.entries == old(errors.entries) + ValidationErrors(file, cfg, env)
    {
      if file.None? {
        errors.Add(FileNotProvided);
        return;
      }
      var f := file.value;
      CheckContentLength(f.contentLength);
      CheckSupportedSize(f.contentLength, cfg.maxRequestLength);
      CheckFileNameLength(f.fileName, cfg.maxFileNameLength, env.tryParseInt);
      CheckFileExtension(f.fileName, cfg.supportedExtensions, env);
    }

    method CheckContentLength(length: int)
      modifies errors
      ensures errors.entries == old(errors.entries) + ContentLengthErrors(length)
    {
      var result := length > 0;
      if !result {
        errors.Add(ZeroSizeFile);
      }
    }

    method CheckSupportedSize(size: int, maxContentLength: int)
      modifies errors
      ensures errors.entries == old(errors.entries) + SizeErrors(size, maxContentLength)
    {
      var result := size < maxContentLength;
      if !result {
        errors.Add(FileTooLarge(maxContentLength));
      }
    }

    method CheckFileNameLength(fileName: string, setting: Option<string>, tryParseInt: string -> Option<int>)
      modifies errors
      ensures errors.entries == old(errors.entries)
        + NameLengthErrors(fileName, GetMaxFileNameLength(setting, tryParseInt))
    {
      var maxFileNameLength := GetMaxFileNameLength(setting, tryParseInt);
      var result := |fileName| < maxFileNameLength;
      if !result {
        errors.Add(FileNameTooLong(maxFileNameLength));
      }
    }

    method CheckFileExtension(fileName: string, supported: string, env: Primitives)
      modifies errors
      ensures errors.entries == old(errors.entries) + ExtensionErrors(fileName, supported, env)
    {
      var extension := env.getExtension(fileName);
      var allowedFileExtensions := GetSupportedFileTypes(supported);
      if extension != "" {
        if env.toLower(extension) in allowedFileExtensions {
          return;
        }
      }
      errors.Add(UnsupportedExtension(allowedFileExtensions));
    }
  }
}
