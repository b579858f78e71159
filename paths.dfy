/** Paths as sequences of components, and the few `std::path` operations the
    incremental-build core relies on: `join`, `with_extension`, `extension`,
    `starts_with`, `strip_prefix` and `to_string_lossy`. */
module Paths {
  import opened Results

  /** A file-system path, one string per component ("posts", "a.typ"). */
  type Path = seq<string>

  /** Every component of a path is a non-empty name. */
  predicate WellFormed(p: Path) {
    forall i :: 0 <= i < |p| ==> p[i] != ""
  }

  /** Index of the last '.' in a name, or -1 when it has none. */
  function LastDot(s: string): (r: int)
    ensures -1 <= r < |s|
    ensures r >= 0 ==> s[r] == '.'
    ensures forall j :: r < j < |s| ==> s[j] != '.'
  {
    if |s| == 0 then -1
    else if s[|s| - 1] == '.' then |s| - 1
    else LastDot(s[..|s| - 1])
  }

  predicate NoDot(s: string) {
    forall j :: 0 <= j < |s| ==> s[j] != '.'
  }

  /** A name has an extension when it has a '.' that is not its first
      character (".profile" has none) and it is not "..". */
  predicate HasExtension(name: string) {
    LastDot(name) > 0 && name != ".."
  }

  /** The name without its extension (Rust's `file_stem`). */
  function Stem(name: string): (r: string)
    ensures |r| <= |name| && r == name[..|r|]
    ensures name != "" ==> r != ""
    ensures !HasExtension(name) ==> r == name
  {
    if HasExtension(name) then name[..LastDot(name)] else name
  }

  /** The extension of a name, without its dot (Rust's `extension`). */
  function Extension(name: string): (r: Option<string>)
    ensures r.Some? <==> HasExtension(name)
    ensures r.Some? ==> NoDot(r.value) && name == Stem(name) + "." + r.value
  {
    if HasExtension(name) then Some(name[LastDot(name) + 1..]) else None
  }

  function Last(p: Path): string
    requires |p| > 0
  {
    p[|p| - 1]
  }

  /** The extension of the path's file name; `None` for the empty path. */
  function FileExt(p: Path): Option<string> {
    if |p| == 0 then None else Extension(Last(p))
  }

  /** `path.with_extension(ext)` for a non-empty extension: the file name's
      stem followed by "." and `ext`; a path without a file name (empty, or
      ending in "..") is returned unchanged. */
  function WithExtension(p: Path, ext: string): (r: Path)
    requires ext != ""
    ensures |r| == |p| && r[..|r| - if |p| == 0 then 0 else 1] == p[..|p| - if |p| == 0 then 0 else 1]
  {
    if |p| == 0 || Last(p) == ".." then p
    else p[..|p| - 1] + [Stem(Last(p)) + "." + ext]
  }

  lemma {:induction false} LastDotOfDotted(stem: string, ext: string)
    requires NoDot(ext)
    ensures LastDot(stem + "." + ext) == |stem|
  {
    var s := stem + "." + ext;
    if ext != [] {
      var e' := ext[..|ext| - 1];
      assert s[..|s| - 1] == stem + "." + e';
      LastDotOfDotted(stem, e');
    }
  }

  /** Giving a name a dot-free extension and reading it back yields that
      extension, and the stem is unchanged. */
  lemma {:induction false} ExtensionOfDotted(stem: string, ext: string)
    requires stem != "" && ext != "" && NoDot(ext)
    ensures Extension(stem + "." + ext) == Some(ext)
    ensures Stem(stem + "." + ext) == stem
  {
    var s := stem + "." + ext;
    LastDotOfDotted(stem, ext);
    assert |s| > 2;
    assert s[..|stem|] == stem;
    assert s[|stem| + 1..] == ext;
  }

  /** `with_extension` really sets the extension: reading it back gives the
      extension that was set. */
  lemma {:induction false} WithExtensionSetsExtension(p: Path, ext: string)
    requires WellFormed(p) && |p| > 0 && Last(p) != ".."
    requires ext != "" && NoDot(ext)
    ensures FileExt(WithExtension(p, ext)) == Some(ext)
  {
    ExtensionOfDotted(Stem(Last(p)), ext);
  }

  /** `with_extension` keeps the file stem: only the extension changes. */
  lemma {:induction false} WithExtensionKeepsStem(p: Path, ext: string)
    requires WellFormed(p) && |p| > 0 && Last(p) != ".."
    requires ext != "" && NoDot(ext)
    ensures Stem(Last(WithExtension(p, ext))) == Stem(Last(p))
  {
    ExtensionOfDotted(Stem(Last(p)), ext);
  }

  /** Component-wise prefix test (`Path::starts_with`). */
  predicate StartsWith(p: Path, base: Path) {
    |base| <= |p| && p[..|base|] == base
  }

  /** `Path::strip_prefix`: the rest of `p` after `base`, when `base` is a
      component-wise prefix of `p`. */
  function StripPrefix(p: Path, base: Path): (r: Option<Path>)
    ensures r.Some? <==> StartsWith(p, base)
    ensures r.Some? ==> base + r.value == p
  {
    if StartsWith(p, base) then Some(p[|base|..]) else None
  }

  /** `to_string_lossy`: the components joined with the platform separator. */
  function Display(p: Path, sep: char): string {
    if |p| == 0 then ""
    else if |p| == 1 then p[0]
    else Display(p[..|p| - 1], sep) + [sep] + Last(p)
  }

  /** The displayed path begins with the first component and ends with the
      file name. */
  lemma {:induction false} DisplayEnds(p: Path, sep: char)
    requires |p| > 0
    ensures |p[0]| <= |Display(p, sep)| && Display(p, sep)[..|p[0]|] == p[0]
    ensures EndsWith(Display(p, sep), Last(p))
  {
    if |p| > 1 {
      var init := p[..|p| - 1];
      DisplayEnds(init, sep);
      assert init[0] == p[0];
      var d := Display(init, sep);
      assert Display(p, sep) == d + [sep] + Last(p);
      assert (d + [sep] + Last(p))[..|p[0]|] == d[..|p[0]|];
    }
  }

  predicate EndsWith(s: string, suffix: string) {
    |suffix| <= |s| && s[|s| - |suffix|..] == suffix
  }

  /** `t` occurs in `s` starting at index `i`. */
  predicate OccursAt(s: string, t: string, i: int) {
    0 <= i <= |s| - |t| && s[i..i + |t|] == t
  }

  predicate Contains(s: string, t: string) {
    exists i | 0 <= i <= |s| - |t| :: OccursAt(s, t, i)
  }
}
