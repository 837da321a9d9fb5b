# comp-cli input-directory validation, modelled in Dafny

comp-cli is a command-line tool that batch-compresses the images of one
directory by handing each file to the external `sharp` codec. Its only
self-contained logic is the validation chain that runs before any image is
touched (`src/validation.ts`). This project models that chain and proves
what it guarantees:

- `validateInput` checks the raw string. It trims it and then rejects, in this
  order: an empty string, a NUL character, a parent-directory step (`..`
  followed by `/` or `\`), a bare root (only separators), and a length above
  260 UTF-16 code units.
- `validatePath` checks the resolved path against the filesystem. In order, the
  path must exist, be a directory, be readable and have at least one entry.
- `validateImageFiles` keeps the directory entries whose lower-cased
  `path.extname` is in the accepted list. It succeeds when at least one
  entry is kept, with the message "Found N image(s) to compress".
- `validateSourceDir` runs the three checks in order and returns the first
  failure.

Files and modules:

| file | module | models |
|---|---|---|
| `wrappers.dfy` | `Wrappers` | optional values and results of calls that may throw |
| `js_string.dfy` | `JsString` | `trim`, `.length` in UTF-16 code units, `toLowerCase`, rendering a count as decimal |
| `js_array.dfy` | `JsArray` | `Array.prototype.filter` and `join` |
| `node_path.dfy` | `NodePath` | the POSIX `path.basename` and `path.extname` |
| `node_fs.dfy` | `NodeFs` | a read-only filesystem snapshot with `existsSync`, `statSync().isDirectory()`, `accessSync(R_OK)` and `readdirSync` |
| `validation.dfy` | `Validation` | the `ValidationResult` record, the messages and the four validators |
| `validation_properties.dfy` | `ValidationProperties` | properties across the validators, stated on raw inputs and whole listings |

Modelling choices:

- The filesystem is a `map` from resolved path to a node. A node is either
  `File` or `Directory(readable, listing)`. The listing holds the entry names,
  or the message of the error `readdirSync` throws.
- The validators are pure functions of that snapshot.
- `path.resolve(process.cwd(), p)` is the parameter `resolve` applied to the
  parameter `cwd`.
- The accepted extensions are a parameter. Examples use the list
  `.jpeg, .jpg, .png` from `src/info.ts`.
- The two regular expressions are tested on a fresh array built at each
  call. The `g` flag's `lastIndex` state therefore never carries over between
  calls, and each test is a plain search.

Behaviour of the code worth knowing:

- The 260 limit counts UTF-16 code units (`String.length`). A character
  outside the Basic Multilingual Plane counts twice (`Utf16LengthAppend`).
- A failure of `readdirSync` inside `validatePath` is reported as
  "Error accessing path. …". The same failure inside `validateImageFiles` is
  reported as "Error reading directory. …".
- Only `..` followed by a separator is refused. A bare `..` passes
  `validateInput` (`TrailingParentAccepted`). A final `/..` is not refused on
  its own, because no separator follows the dots.

## Model

| member | source | states |
|---|---|---|
| `JsString.Trim` | src/validation.ts:13 | the result has no whitespace at either end; it is the input minus a whitespace-only prefix and suffix; it is empty exactly when the input is all whitespace |
| `JsString.TrimOf` | src/validation.ts:13 | trimming is determined by its result: whitespace around a string with non-whitespace ends is exactly what is removed |
| `JsString.TrimIdempotent` | src/validation.ts:13 | trimming twice equals trimming once |
| `JsString.TrimKeepsInfix` | src/validation.ts:13 | any stretch of the input that starts and ends with non-whitespace appears unchanged in the trimmed string |
| `JsString.Utf16Length` | src/validation.ts:15 | `.length` counts code units: between n and 2n for n characters, and equal to n exactly when every character is in the Basic Multilingual Plane; a single character counts as its own code units (one, or two outside that plane) |
| `JsString.Utf16LengthAppend` | src/validation.ts:15 | the length of a concatenation is the sum of the lengths; with the single-character clause of `Utf16Length` this fixes `.length` as one unit per Basic Multilingual Plane character and two per other character |
| `JsString.ToLower` | src/validation.ts:103 | the same length as the input, with each ASCII capital replaced by its lower-case letter and every other character unchanged |
| `JsString.NatToString` | src/validation.ts:117 | the decimal digits of a count: non-empty, digits only, no leading zero |
| `JsString.NatToStringRoundTrip` | src/validation.ts:117 | reading the decimal digits back gives the count |
| `JsArray.Filter` | src/validation.ts:102-104 | the result is no longer than the input |
| `JsArray.FilterMembers` | src/validation.ts:102-104 | an element survives filtering exactly when it is in the input and the callback accepts it |
| `JsArray.FilterAppend` | src/validation.ts:102-104 | filtering a concatenation concatenates the filtered parts |
| `JsArray.FilterSkipsRejected` | src/validation.ts:102-104 | rejected elements inserted anywhere do not change the filtered result |
| `JsArray.FilterKeepsAll` | src/validation.ts:102-104 | a sequence of accepted elements is returned unchanged |
| `JsArray.FilterRejectsAll` | src/validation.ts:102-104 | a sequence of rejected elements filters to nothing |
| `JsArray.FilterCount` | src/validation.ts:102-104 | filtering keeps every copy of an accepted element and no copy of a rejected one |
| `JsArray.FilterPermutation` | src/validation.ts:102-104 | two listings with the same entries in different orders filter to results with the same entries |
| `JsArray.Join` | src/validation.ts:109-111 | joining no parts gives the empty string, one part gives that part, and more parts start with the first part and the separator |
| `JsArray.JoinAppend` | src/validation.ts:109-111 | appending a part to a non-empty list appends the separator and that part to the joined string |
| `NodePath.Basename` | src/validation.ts:103 | the last path component contains no separator, and a separator-free name is its own basename |
| `NodePath.ComponentExt` | src/validation.ts:103 | the extension is empty or a dot with no further dot; it is a proper suffix of the name; it is empty exactly when the name has no dot after its first character or is `..` |
| `NodePath.ExtName` | src/validation.ts:103 | `path.extname` is empty or a dot with no further dot or separator, and is a suffix of the basename; it is empty exactly when the basename has no dot after its first character or is `..` |
| `NodePath.ExtNameOfFileName` | src/validation.ts:103 | `stem + ext` has extension `ext` when `ext` is a dot with no further dot, the stem is non-empty and the name is not `..` |
| `NodePath.HiddenNameHasNoExt` | src/validation.ts:103 | a name whose only dot is its first character has no extension |
| `NodeFs.Exists` | src/validation.ts:54 | `existsSync`: the path is in the snapshot |
| `NodeFs.IsDirectory` | src/validation.ts:61 | `statSync(..).isDirectory()` on an existing path: the node is a directory |
| `NodeFs.CanRead` | src/validation.ts:68-75 | `accessSync(.., R_OK)` does not throw: the node is a readable directory |
| `NodeFs.ReadDir` | src/validation.ts:77 | `readdirSync` succeeds exactly on an existing, readable directory whose listing can be read, and then returns that listing; otherwise it carries the thrown message |
| `NodeFs.ReadDirNeedsReadableDirectory` | src/validation.ts:54-77 | `readdirSync` succeeds only where `existsSync`, `isDirectory` and `accessSync` all succeed; conversely, where they all succeed and the listing can be read, it returns the entries |
| `Validation.ValidationResult` | src/validation.ts:7-10 | the result record: a validity flag and an optional message, which may also be set on success |
| `Validation.SearchTraversal` | src/validation.ts:30 | the search succeeds exactly when `..` followed by `/` or `\` occurs at or after the start position |
| `Validation.MatchesRootPattern` | src/validation.ts:31 | the anchored pattern matches exactly the non-empty strings made only of `/` and `\` |
| `Validation.ValidateInput` | src/validation.ts:12-50 | valid exactly when the trimmed input is non-empty, NUL-free, has no parent step, is not a bare root and has at most 260 code units; a valid result has no error; "Input cannot be empty" exactly for all-whitespace input; a NUL beats every later check; a parent step or bare root without NUL gives "Potentially unsafe path detected"; "Path is too long" exactly for a clean input over 260 |
| `Validation.ValidatePath` | src/validation.ts:52-94 | valid exactly for an existing, readable directory with at least one entry, with no error; otherwise the first failing check of exists, is-directory, readable, non-empty decides the message, and a failed listing gives "Error accessing path." with its message |
| `Validation.IsImage` | src/validation.ts:103 | an entry is an image exactly when its lower-cased extension is one of the accepted strings |
| `Validation.ImageFiles` | src/validation.ts:101-104 | the kept entries come from the listing and are images; none is kept exactly when no entry is an image |
| `Validation.ValidateImageFiles` | src/validation.ts:96-127 | a listing failure gives "Error reading directory." with its message; otherwise valid exactly when some entry's lower-cased extension is accepted; invalid means the "No supported image files found" message; valid means exactly "Found N image(s) to compress" for the N image entries, and N reads back from that message |
| `Validation.FoundMessageReportsCount` | src/validation.ts:115-118 | the count written into "Found N image(s) to compress" can be read back out |
| `Validation.ValidateSourceDir` | src/validation.ts:129-149 | the string check's failure is returned unchanged; else the path check's failure on the resolved trimmed input; else the image check's result; valid exactly when the input is acceptable, the directory is usable and holds an image, and then the message reports the image count |
| `ValidationProperties.NulAlwaysRejected` | src/validation.ts:22-27 | a NUL anywhere in the raw input gives "Invalid character/s in path", whatever surrounds it |
| `ValidationProperties.TraversalAlwaysRejected` | src/validation.ts:29-40 | `..` followed by a separator anywhere in the raw input is rejected; without a NUL the message is "Potentially unsafe path detected" |
| `ValidationProperties.TraversalSurvivesTrim` | src/validation.ts:13 | trimming never removes a parent-directory step from the raw input, so the pattern test on the trimmed string still sees it |
| `ValidationProperties.BareRootRejected` | src/validation.ts:31-39 | a trimmed input made only of separators is rejected as unsafe |
| `ValidationProperties.LengthDecides` | src/validation.ts:42-49 | for a trimmed, otherwise clean input, validity is exactly length at most 260, and a failure is "Path is too long" |
| `ValidationProperties.LengthBoundary` | src/validation.ts:42-49 | 260 letters are accepted with no error; 261 letters give "Path is too long" |
| `ValidationProperties.TrailingParentAccepted` | src/validation.ts:30 | a bare `..` passes the string check, because the pattern needs a separator after the dots |
| `ValidationProperties.NonImagesIgnored` | src/validation.ts:102-104 | entries that are not images, inserted anywhere in a listing, leave the list of images unchanged |
| `ValidationProperties.NonImagesDoNotChangeVerdict` | src/validation.ts:101-118 | adding unsupported entries to a directory changes neither the verdict nor the reported count |
| `ValidationProperties.NoSupportedFilesRejected` | src/validation.ts:106-113 | a readable directory with no supported image is rejected with the "No supported image files found" message, however many other entries it has |
| `ValidationProperties.SampleNoImagesMessage` | src/validation.ts:106-113 | with the list of `src/info.ts`, the rejection reads "No supported image files found. Accepted: .jpeg, .jpg, .png" |
| `ValidationProperties.UpperCaseExtensionMatches` | src/validation.ts:103 | the extension comparison ignores case: `<stem>.JPG` is accepted by the list `.jpeg, .jpg, .png` |
| `ValidationProperties.HiddenFileNotImage` | src/validation.ts:103 | a hidden file such as `.png` has no extension and is not an image |
| `ValidationProperties.InputRejectionIgnoresFilesystem` | src/validation.ts:133-136 | when the string check fails, the filesystem, working directory, resolver and extension list play no part |
| `ValidationProperties.TraversalRejectedByChain` | src/validation.ts:133-136 | a raw input with a parent step is refused by the whole chain whatever the filesystem holds |
| `ValidationProperties.ImageCountOfReordering` | src/validation.ts:101-104 | a listing whose entries, in any order, are N images and some non-images keeps exactly N entries |
| `ValidationProperties.ChainReportsImageCount` | src/validation.ts:129-149 | for a directory whose listing, in any order, holds N supported entries and any number of others, the chain succeeds with exactly the message "Found N image(s) to compress" |

## Left out

- `src/index.ts` is not part of this model. It handles readline prompting, console output, output-directory creation and the per-file calls into `sharp`, which are I/O and code outside the repository.
- `src/logger.ts` and `src/info.ts` only print coloured text. Of them, only the extension list of `src/info.ts:3` appears, as `SampleExtensions`.
- `src/types.ts` declares types only. `CompressConfig` is not modelled because no validator uses it.
- `tests/compression.test.ts` passes an object to `compressImages`, which `src/index.ts:53` declares with a string parameter, so the test states nothing about the validators. The case it aims at, a missing directory, is covered by `Validation.ValidatePath`.
- JsString.ToLower: lower-cases ASCII capitals only, not the full Unicode case mapping of `toLowerCase`. The two agree on every extension in `src/info.ts`.
- NodePath.ExtName: follows the POSIX `path` module. Windows semantics (backslash separators, drive letters) are not modelled.
- `path.resolve` and `process.cwd` are not interpreted. They are the parameters `resolve` and `cwd`, so the model says nothing about path normalisation.
- The filesystem is one snapshot shared by every call. Races between `existsSync`, `statSync`, `accessSync` and `readdirSync` are not modelled, and neither is a `statSync` that throws after `existsSync` succeeded. Of the catch-all at `src/validation.ts:86-93`, only a throwing `readdirSync` is modelled.
- A thrown value that is not an `Error` (the "Unknown error" branch) is not modelled, since the `fs` functions throw `Error` objects.
- NodeFs.ReadDir: the messages for a missing, non-directory or unreadable path follow Node's `CODE: description, scandir 'path'` form. They can only be seen when `validateImageFiles` is called on its own.
