/** The part of Node's POSIX `path` module the image filter uses:
    `path.basename(p)` and `path.extname(p)`. */
module NodePath {
  import opened Wrappers

  /** Index just past the last character of `p` that is not '/'
      (trailing separators do not belong to the last component). */
  function ComponentEnd(p: string): (end: nat)
    ensures end <= |p|
    ensures forall i :: end <= i < |p| ==> p[i] == '/'
    ensures end > 0 ==> p[end - 1] != '/'
  {
    if p != [] && p[|p| - 1] == '/' then ComponentEnd(p[..|p| - 1]) else |p|
  }

  /** Index of the first character of the component that ends at `end`. */
  function ComponentStart(p: string, end: nat): (start: nat)
    requires end <= |p|
    ensures start <= end
    ensures forall i :: start <= i < end ==> p[i] != '/'
    ensures start > 0 ==> p[start - 1] == '/'
  {
    if end > 0 && p[end - 1] != '/' then ComponentStart(p, end - 1) else end
  }

  /** `path.basename(p)`: the last component of `p`, trailing separators ignored. */
  function Basename(p: string): (b: string)
    ensures '/' !in b
    ensures '/' !in p && p != [] ==> b == p
  {
    var end := ComponentEnd(p);
    p[ComponentStart(p, end)..end]
  }

  /** Position of the last `c` in `s`, if any. */
  function LastIndexOf(s: string, c: char): (r: Option<nat>)
    ensures r.Some? ==> r.value < |s| && s[r.value] == c && c !in s[r.value + 1..]
    ensures r.None? ==> c !in s
  {
    if s == [] then None
    else if s[|s| - 1] == c then Some(|s| - 1)
    else LastIndexOf(s[..|s| - 1], c)
  }

  /** The extension of one path component: from its last '.' to its end,
      except that a component whose only dot is its first character, or
      that is exactly "..", has none. */
  function ComponentExt(name: string): (ext: string)
    ensures ext == [] || (ext[0] == '.' && '.' !in ext[1..])
    ensures |ext| <= |name| && ext == name[|name| - |ext|..]
    ensures ext != [] ==> |ext| < |name|
    ensures ext == [] <==> |name| <= 1 || '.' !in name[1..] || name == ".."
  {
    match LastIndexOf(name, '.')
    case None => ""
    case Some(dot) => if dot == 0 || name == ".." then "" else name[dot..]
  }

  /** `path.extname(p)`. */
  function ExtName(p: string): (ext: string)
    ensures ext == [] || (ext[0] == '.' && '.' !in ext[1..] && '/' !in ext)
    ensures var b := Basename(p); |ext| <= |b| && ext == b[|b| - |ext|..]
    ensures var b := Basename(p); ext == [] <==> |b| <= 1 || '.' !in b[1..] || b == ".."
  {
    ComponentExt(Basename(p))
  }

  /** A file name `stem + ext` whose `ext` is a dot followed by no further
      dot has the extension `ext`, unless the whole name is "..". */
  lemma ExtNameOfFileName(stem: string, ext: string)
    requires stem != [] && '/' !in stem + ext
    requires ext != [] && ext[0] == '.' && '.' !in ext[1..]
    requires stem + ext != ".."
    ensures ExtName(stem + ext) == ext
  {
    var name := stem + ext;
    assert name[|name| - 1] == ext[|ext| - 1];
    assert Basename(name) == name;
    assert name[|stem|] == '.';
    assert ext[1..] == name[|stem| + 1..];
  }

  /** A name whose only dot is its first character (a hidden file such as
      ".png") has no extension. */
  lemma HiddenNameHasNoExt(rest: string)
    requires '.' !in rest && '/' !in rest
    ensures ExtName("." + rest) == ""
  {
    var name := "." + rest;
    assert name[1..] == rest;
  }
}
