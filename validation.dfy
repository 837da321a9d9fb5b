/** The input-directory validators of comp-cli (src/validation.ts): a check
    of the raw string, a check of the resolved path against the filesystem,
    a check that the directory holds supported images, and the chain that
    runs the three in order and stops at the first failure. */
module Validation {
  import opened Wrappers
  import opened JsString
  import opened JsArray
  import opened NodePath
  import opened NodeFs

  /** `{ isValid, error? }`; `error` may carry an informational message on success. */
  datatype ValidationResult = ValidationResult(isValid: bool, error: Option<string>)

  function Invalid(message: string): ValidationResult {
    ValidationResult(false, Some(message))
  }

  /** Longest accepted input, in UTF-16 code units. */
  const MaxPathLength: nat := 260

  const EmptyInputMessage := "Input cannot be empty"
  const InvalidCharacterMessage := "Invalid character/s in path"
  const UnsafePathMessage := "Potentially unsafe path detected"
  const PathTooLongMessage := "Path is too long"
  const NotADirectoryMessage := "Path is not a directory"
  const AccessDeniedMessage := "Access Denied."
  const EmptyDirectoryMessage := "Empty Directory"
  const FoundPrefix := "Found "
  const FoundSuffix := " image(s) to compress"

  function NotFoundMessage(resolvedPath: string): string {
    "Path does not exist. " + resolvedPath
  }

  function AccessErrorMessage(detail: string): string {
    "Error accessing path. " + detail
  }

  function NoImagesMessage(extensions: seq<string>): string {
    "No supported image files found. Accepted: " + Join(extensions, ", ")
  }

  function ReadErrorMessage(detail: string): string {
    "Error reading directory. " + detail
  }

  /** The informational message of a successful image check. */
  function FoundMessage(count: nat): string {
    FoundPrefix + NatToString(count) + FoundSuffix
  }

  /** Reads the image count back out of a "Found N image(s) to compress"
      message; N must be written as `${n}` writes it, without leading zeros. */
  function ReportedCount(message: string): Option<nat> {
    if |message| < |FoundPrefix| + |FoundSuffix| then None
    else if message[..|FoundPrefix|] != FoundPrefix then None
    else if message[|message| - |FoundSuffix|..] != FoundSuffix then None
    else
      var digits := message[|FoundPrefix|..|message| - |FoundSuffix|];
      if digits != [] && AllDigits(digits) && (digits[0] != '0' || digits == "0")
      then Some(DecimalValue(digits)) else None
  }

  // ---------------------------------------------------------------- validateInput

  predicate IsSeparator(c: char) {
    c == '/' || c == '\\'
  }

  /** A parent-directory step, `..` then a separator, starts at `i`. */
  predicate TraversalAt(s: string, i: nat) {
    i + 3 <= |s| && s[i] == '.' && s[i + 1] == '.' && IsSeparator(s[i + 2])
  }

  predicate HasParentTraversal(s: string) {
    exists i :: 0 <= i < |s| && TraversalAt(s, i)
  }

  /** One or more separators and nothing else. */
  predicate IsBareRoot(s: string) {
    s != [] && forall i :: 0 <= i < |s| ==> IsSeparator(s[i])
  }

  /** The regular expression `/\.\.[\/\\]/` searched for from position `from` on. */
  function SearchTraversal(s: string, from: nat): (found: bool)
    decreases |s| - from
    ensures found <==> exists i :: from <= i < |s| && TraversalAt(s, i)
  {
    if from + 3 > |s| then false
    else TraversalAt(s, from) || SearchTraversal(s, from + 1)
  }

  /** The regular expression `/^[\/\\]+$/` matched against all of `s`. */
  function MatchesRootPattern(s: string): (matched: bool)
    ensures matched <==> IsBareRoot(s)
  {
    |s| > 0 && IsSeparator(s[0]) && (|s| == 1 || MatchesRootPattern(s[1..]))
  }

  /** What `validateInput` accepts, stated on the trimmed input. */
  predicate AcceptableInput(t: string) {
    && t != []
    && '\0' !in t
    && !HasParentTraversal(t)
    && !IsBareRoot(t)
    && Utf16Length(t) <= MaxPathLength
  }

  /** `validateInput(input)`: the checks on the trimmed string, in order,
      the first one that fails deciding the message. */
  function ValidateInput(input: string): (r: ValidationResult)
    ensures r.isValid <==> AcceptableInput(Trim(input))
    ensures r.isValid ==> r.error == None
    ensures r.error == Some(EmptyInputMessage) <==> AllWhitespace(input)
    ensures !AllWhitespace(input) && '\0' in Trim(input) ==> r == Invalid(InvalidCharacterMessage)
    ensures '\0' !in Trim(input) && (HasParentTraversal(Trim(input)) || IsBareRoot(Trim(input)))
      ==> r == Invalid(UnsafePathMessage)
    ensures r == Invalid(PathTooLongMessage) <==>
      var t := Trim(input);
      t != [] && '\0' !in t && !HasParentTraversal(t) && !IsBareRoot(t) && Utf16Length(t) > MaxPathLength
  {
    var trimmed := Trim(input);
    if Utf16Length(trimmed) == 0 then Invalid(EmptyInputMessage)
    else if '\0' in trimmed then Invalid(InvalidCharacterMessage)
    else if SearchTraversal(trimmed, 0) || MatchesRootPattern(trimmed) then Invalid(UnsafePathMessage)
    else if Utf16Length(trimmed) > MaxPathLength then Invalid(PathTooLongMessage)
    else ValidationResult(true, None)
  }

  // ---------------------------------------------------------------- validatePath

  /** Exists, is a directory, is readable and lists at least one entry. */
  predicate UsableDirectory(fs: FileSystem, p: string) {
    && p in fs
    && fs[p].Directory?
    && fs[p].readable
    && fs[p].listing.Entries?
    && fs[p].listing.names != []
  }

  /** `validatePath(resolvedPath)`: existence, then kind, then permission,
      then emptiness; the first check that fails gives the result. */
  function ValidatePath(fs: FileSystem, resolvedPath: string): (r: ValidationResult)
    ensures r.isValid <==> UsableDirectory(fs, resolvedPath)
    ensures r.isValid ==> r.error == None
    ensures resolvedPath !in fs ==> r == Invalid(NotFoundMessage(resolvedPath))
    ensures resolvedPath in fs && fs[resolvedPath].File? ==> r == Invalid(NotADirectoryMessage)
    ensures resolvedPath in fs && fs[resolvedPath].Directory? && !fs[resolvedPath].readable
      ==> r == Invalid(AccessDeniedMessage)
    ensures resolvedPath in fs && fs[resolvedPath] == Directory(true, Entries([]))
      ==> r == Invalid(EmptyDirectoryMessage)
    ensures resolvedPath in fs && fs[resolvedPath].Directory? && fs[resolvedPath].readable
      && fs[resolvedPath].listing.ReadError?
      ==> r == Invalid(AccessErrorMessage(fs[resolvedPath].listing.message))
  {
    if !Exists(fs, resolvedPath) then Invalid(NotFoundMessage(resolvedPath))
    else if !IsDirectory(fs, resolvedPath) then Invalid(NotADirectoryMessage)
    else if !CanRead(fs, resolvedPath) then Invalid(AccessDeniedMessage)
    else match ReadDir(fs, resolvedPath)
      case Failure(message) => Invalid(AccessErrorMessage(message))
      case Success(names) =>
        if |names| == 0 then Invalid(EmptyDirectoryMessage) else ValidationResult(true, None)
  }

  // ---------------------------------------------------------------- validateImageFiles

  /** `extensions.includes(path.extname(file).toLowerCase())`. */
  predicate IsImage(file: string, extensions: seq<string>) {
    ToLower(ExtName(file)) in extensions
  }

  /** The callback handed to `filter`. */
  function ImageTest(extensions: seq<string>): string -> bool {
    f => IsImage(f, extensions)
  }

  /** The entries of `files` that are images, in listing order. */
  function ImageFiles(files: seq<string>, extensions: seq<string>): (images: seq<string>)
    ensures |images| <= |files|
    ensures forall f :: f in images ==> f in files && IsImage(f, extensions)
    ensures images == [] <==> forall f :: f in files ==> !IsImage(f, extensions)
  {
    FilterMembers(files, ImageTest(extensions));
    var images := Filter(files, ImageTest(extensions));
    assert images != [] ==> images[0] in images;
    images
  }

  /** `validateImageFiles(dirPath, extensions)`: valid exactly when the
      listing holds an image, reporting how many. */
  function ValidateImageFiles(fs: FileSystem, dirPath: string, extensions: seq<string>): (r: ValidationResult)
    ensures ReadDir(fs, dirPath).Failure? ==> r == Invalid(ReadErrorMessage(ReadDir(fs, dirPath).error))
    ensures ReadDir(fs, dirPath).Success? ==>
      var files := ReadDir(fs, dirPath).value;
      && (r.isValid <==> exists f :: f in files && IsImage(f, extensions))
      && (!r.isValid ==> r == Invalid(NoImagesMessage(extensions)))
      && (r.isValid ==> r.error.Some? && ReportedCount(r.error.value) == Some(|ImageFiles(files, extensions)|))
      && (r.isValid ==> r.error == Some(FoundMessage(|ImageFiles(files, extensions)|)))
  {
    match ReadDir(fs, dirPath)
    case Failure(message) => Invalid(ReadErrorMessage(message))
    case Success(files) =>
      var images := ImageFiles(files, extensions);
      if |images| == 0 then Invalid(NoImagesMessage(extensions))
      else
        FoundMessageReportsCount(|images|);
        ValidationResult(true, Some(FoundMessage(|images|)))
  }

  /** The count written into a success message can be read back. */
  lemma FoundMessageReportsCount(count: nat)
    ensures ReportedCount(FoundMessage(count)) == Some(count)
  {
    var m := FoundMessage(count);
    var digits := NatToString(count);
    assert m[..|FoundPrefix|] == FoundPrefix;
    assert m[|m| - |FoundSuffix|..] == FoundSuffix;
    assert m[|FoundPrefix|..|m| - |FoundSuffix|] == digits;
    NatToStringRoundTrip(count);
  }

  // ---------------------------------------------------------------- validateSourceDir

  /** `validateSourceDir(input, extensions)`. `resolve(cwd, p)` stands for
      `path.resolve(process.cwd(), p)`. */
  function ValidateSourceDir(fs: FileSystem, cwd: string, resolve: (string, string) -> string,
                             input: string, extensions: seq<string>): (r: ValidationResult)
    ensures !ValidateInput(input).isValid ==> r == ValidateInput(input)
    ensures var p := resolve(cwd, Trim(input));
      ValidateInput(input).isValid && !ValidatePath(fs, p).isValid ==> r == ValidatePath(fs, p)
    ensures var p := resolve(cwd, Trim(input));
      ValidateInput(input).isValid && ValidatePath(fs, p).isValid ==> r == ValidateImageFiles(fs, p, extensions)
    ensures var p := resolve(cwd, Trim(input));
      r.isValid <==>
        && AcceptableInput(Trim(input))
        && UsableDirectory(fs, p)
        && exists f :: f in fs[p].listing.names && IsImage(f, extensions)
    ensures var p := resolve(cwd, Trim(input));
      r.isValid ==>
        && UsableDirectory(fs, p)
        && r.error.Some?
        && ReportedCount(r.error.value) == Some(|ImageFiles(fs[p].listing.names, extensions)|)
  {
    var inputValidation := ValidateInput(input);
    if !inputValidation.isValid then inputValidation
    else
      var resolvedPath := resolve(cwd, Trim(input));
      var pathValidation := ValidatePath(fs, resolvedPath);
      if !pathValidation.isValid then pathValidation
      else ValidateImageFiles(fs, resolvedPath, extensions)
  }
}
