/** Properties of the validation chain stated on raw inputs and whole
    directory listings rather than on one validator's internals. */
module ValidationProperties {
  import opened Wrappers
  import opened JsString
  import opened JsArray
  import opened NodePath
  import opened NodeFs
  import opened Validation

  /** The sample extension list of src/info.ts. */
  const SampleExtensions: seq<string> := [".jpeg", ".jpg", ".png"]

  // ---------------------------------------------------------------- validateInput

  /** A NUL anywhere in the raw input is rejected as an invalid character,
      whatever surrounds it. */
  lemma NulAlwaysRejected(input: string, i: nat)
    requires i < |input| && input[i] == '\0'
    ensures ValidateInput(input) == Invalid(InvalidCharacterMessage)
  {
    TrimKeepsInfix(input, i, i + 1);
    var lo := LeadingWhitespace(input);
    assert Trim(input)[i - lo] == Trim(input)[i - lo..i + 1 - lo][0] == '\0';
  }

  /** `..` followed by a separator anywhere in the raw input is rejected,
      with the unsafe-path message unless a NUL is reported first. */
  lemma TraversalAlwaysRejected(input: string)
    requires HasParentTraversal(input)
    ensures !ValidateInput(input).isValid
    ensures '\0' !in input ==> ValidateInput(input) == Invalid(UnsafePathMessage)
  {
    TraversalSurvivesTrim(input);
  }

  /** Trimming cannot remove a parent-directory step, since the step begins
      and ends with non-whitespace. */
  lemma TraversalSurvivesTrim(input: string)
    requires HasParentTraversal(input)
    ensures HasParentTraversal(Trim(input))
  {
    var i :| 0 <= i < |input| && TraversalAt(input, i);
    TrimKeepsInfix(input, i, i + 3);
    var lo := LeadingWhitespace(input);
    var t := Trim(input);
    assert TraversalAt(t, i - lo) by {
      assert t[i - lo..i + 3 - lo] == input[i..i + 3];
      assert t[i - lo] == input[i] && t[i - lo + 1] == input[i + 1] && t[i - lo + 2] == input[i + 2];
    }
  }

  /** A raw input made only of separators (around whitespace aside) is rejected. */
  lemma BareRootRejected(input: string)
    requires IsBareRoot(Trim(input))
    ensures ValidateInput(input) == Invalid(UnsafePathMessage)
  {
  }

  /** On an input that is already trimmed and otherwise clean, only the
      length decides: up to 260 code units passes, beyond fails. */
  lemma LengthDecides(t: string)
    requires IsTrimmed(t) && t != [] && '\0' !in t && !HasParentTraversal(t) && !IsBareRoot(t)
    ensures ValidateInput(t).isValid <==> Utf16Length(t) <= MaxPathLength
    ensures !ValidateInput(t).isValid ==> ValidateInput(t) == Invalid(PathTooLongMessage)
  {
    TrimOf([], t, []);
    assert [] + t + [] == t;
  }

  /** The 260-character boundary on a concrete path of ASCII letters. */
  lemma LengthBoundary()
    ensures ValidateInput(seq(260, _ => 'a')) == ValidationResult(true, None)
    ensures ValidateInput(seq(261, _ => 'a')) == Invalid(PathTooLongMessage)
  {
    LengthDecides(seq(260, _ => 'a'));
    LengthDecides(seq(261, _ => 'a'));
  }

  /** The traversal pattern needs a separator after the dots: a bare ".."
      passes `validateInput`. */
  lemma TrailingParentAccepted()
    ensures ValidateInput("..").isValid
  {
    var s := "..";
    assert Trim(s) == s by {
      TrimOf([], s, []);
      assert [] + s + [] == s;
    }
    assert !HasParentTraversal(s);
    assert !IsBareRoot(s) by {
      assert !IsSeparator(s[0]);
    }
  }

  // ---------------------------------------------------------------- validateImageFiles

  /** Entries that are not images leave the list of images unchanged,
      wherever in the listing they stand. */
  lemma NonImagesIgnored(before: seq<string>, junk: seq<string>, after: seq<string>, extensions: seq<string>)
    requires forall f :: f in junk ==> !IsImage(f, extensions)
    ensures ImageFiles(before + junk + after, extensions) == ImageFiles(before + after, extensions)
  {
    FilterSkipsRejected(before, junk, after, ImageTest(extensions));
  }

  /** Adding unsupported entries to a directory changes neither the
      verdict nor the reported count of `validateImageFiles`. */
  lemma NonImagesDoNotChangeVerdict(fs: FileSystem, dirPath: string, extensions: seq<string>,
                                    before: seq<string>, junk: seq<string>, after: seq<string>)
    requires forall f :: f in junk ==> !IsImage(f, extensions)
    ensures var small := fs[dirPath := Directory(true, Entries(before + after))];
      var large := fs[dirPath := Directory(true, Entries(before + junk + after))];
      ValidateImageFiles(large, dirPath, extensions) == ValidateImageFiles(small, dirPath, extensions)
  {
    NonImagesIgnored(before, junk, after, extensions);
  }

  /** A readable directory without a single supported image is rejected,
      however many other entries it has. */
  lemma NoSupportedFilesRejected(fs: FileSystem, dirPath: string, extensions: seq<string>)
    requires dirPath in fs && fs[dirPath].Directory? && fs[dirPath].readable && fs[dirPath].listing.Entries?
    requires forall f :: f in fs[dirPath].listing.names ==> !IsImage(f, extensions)
    ensures ValidateImageFiles(fs, dirPath, extensions) == Invalid(NoImagesMessage(extensions))
  {
  }

  /** With the sample list, the rejection names the accepted extensions
      separated by commas. */
  lemma SampleNoImagesMessage()
    ensures NoImagesMessage(SampleExtensions)
         == "No supported image files found. Accepted: .jpeg, .jpg, .png"
  {
    assert SampleExtensions[1..] == [".jpg", ".png"];
    assert [".jpg", ".png"][1..] == [".png"];
  }

  /** Extensions are compared after lower-casing: "<stem>.JPG" is a ".jpg" image. */
  lemma UpperCaseExtensionMatches(stem: string)
    requires stem != [] && '/' !in stem
    ensures IsImage(stem + ".JPG", SampleExtensions)
  {
    ExtNameOfFileName(stem, ".JPG");
    assert ToLower(".JPG") == ".jpg";
  }

  /** A hidden file such as ".png" has no extension, so it is not an image. */
  lemma HiddenFileNotImage(rest: string)
    requires '.' !in rest && '/' !in rest
    ensures !IsImage("." + rest, SampleExtensions)
  {
    HiddenNameHasNoExt(rest);
  }

  // ---------------------------------------------------------------- validateSourceDir

  /** When the string check fails, the filesystem, the working directory and
      the extension list play no part in the outcome. */
  lemma InputRejectionIgnoresFilesystem(fs1: FileSystem, fs2: FileSystem, cwd1: string, cwd2: string,
                                        resolve1: (string, string) -> string, resolve2: (string, string) -> string,
                                        input: string, extensions1: seq<string>, extensions2: seq<string>)
    requires !ValidateInput(input).isValid
    ensures ValidateSourceDir(fs1, cwd1, resolve1, input, extensions1)
         == ValidateSourceDir(fs2, cwd2, resolve2, input, extensions2)
         == ValidateInput(input)
  {
  }

  /** A raw input containing `..` and a separator is refused by the whole
      chain, whatever the filesystem holds. */
  lemma TraversalRejectedByChain(fs: FileSystem, cwd: string, resolve: (string, string) -> string,
                                 input: string, extensions: seq<string>)
    requires HasParentTraversal(input)
    ensures !ValidateSourceDir(fs, cwd, resolve, input, extensions).isValid
    ensures ValidateSourceDir(fs, cwd, resolve, input, extensions) == ValidateInput(input)
  {
    TraversalAlwaysRejected(input);
  }

  /** A listing that is a reordering of N images and some non-images
      holds exactly N images. */
  lemma ImageCountOfReordering(names: seq<string>, extensions: seq<string>,
                               images: seq<string>, others: seq<string>)
    requires forall f :: f in images ==> IsImage(f, extensions)
    requires forall f :: f in others ==> !IsImage(f, extensions)
    requires multiset(names) == multiset(images + others)
    ensures |ImageFiles(names, extensions)| == |images|
  {
    var keep := ImageTest(extensions);
    FilterAppend(images, others, keep);
    FilterRejectsAll(others, keep);
    FilterKeepsAll(images, keep);
    FilterPermutation(names, images + others, keep);
    var kept := Filter(names, keep);
    assert multiset(kept) == multiset(images);
    assert |kept| == |multiset(kept)| == |multiset(images)| == |images|;
  }

  /** For a directory whose entries are N supported and any number of
      unsupported names, in any order, a successful run reports exactly N. */
  lemma ChainReportsImageCount(fs: FileSystem, cwd: string, resolve: (string, string) -> string,
                               input: string, extensions: seq<string>,
                               names: seq<string>, images: seq<string>, others: seq<string>)
    requires AcceptableInput(Trim(input))
    requires images != [] && forall f :: f in images ==> IsImage(f, extensions)
    requires forall f :: f in others ==> !IsImage(f, extensions)
    requires var p := resolve(cwd, Trim(input));
      p in fs && fs[p] == Directory(true, Entries(names)) && multiset(names) == multiset(images + others)
    ensures ValidateSourceDir(fs, cwd, resolve, input, extensions)
         == ValidationResult(true, Some(FoundMessage(|images|)))
  {
    ImageCountOfReordering(names, extensions, images, others);
    assert images[0] in multiset(names);
  }
}
