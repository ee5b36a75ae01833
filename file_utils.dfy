/** Path helpers of `util` (src/file_utils.cpp). A `/` counts as a
    directory separator unless the character before it is a backslash. */
module FileUtils {

  /** Position `i` (1-based, the character `file[i-1]`) holds a separator. */
  predicate UnescapedSlash(file: string, i: nat)
    requires 1 <= i <= |file|
  {
    file[i - 1] == '/' && (i == 1 || file[i - 2] != '\\')
  }

  /** The last separator at a position `<= i`, read right to left. */
  function LastSlashUpTo(file: string, i: nat): (r: nat)
    requires i <= |file|
    ensures r <= i
    ensures r == 0 || UnescapedSlash(file, r)
    ensures forall j :: r < j <= i ==> !UnescapedSlash(file, j)
  {
    if i == 0 then 0
    else if UnescapedSlash(file, i) then i
    else LastSlashUpTo(file, i - 1)
  }

  /** `detail::start_of_filename`, as its header documents it: the index just
      after the last unescaped `/`, or 0 when there is none. */
  function StartOfFilename(file: string): (r: nat)
    ensures r <= |file|
    ensures r == 0 || UnescapedSlash(file, r)
    ensures forall j :: r < j <= |file| ==> !UnescapedSlash(file, j)
  {
    LastSlashUpTo(file, |file|)
  }

  /** `detail::start_of_filename`: the backward index loop of the source. */
  method FindStartOfFilename(file: string) returns (r: nat)
    ensures r == StartOfFilename(file)
  {
    var i := |file|;
    while i > 0
      invariant 0 <= i <= |file|
      invariant forall j :: i < j <= |file| ==> !UnescapedSlash(file, j)
    {
      if file[i - 1] == '/' && (i == 1 || file[i - 2] != '\\') {
        SlashIsLast(file, i);
        return i;
      }
      i := i - 1;
    }
    SlashIsLast(file, 0);
    return 0;
  }

  /** A separator (or 0) with none after it is where the file name starts. */
  lemma SlashIsLast(file: string, i: nat)
    requires i <= |file|
    requires i == 0 || UnescapedSlash(file, i)
    requires forall j :: i < j <= |file| ==> !UnescapedSlash(file, j)
    ensures StartOfFilename(file) == i
  {
  }

  /** Index `k` holds a dot that directly follows a non-dot character. */
  predicate ExtDot(file: string, k: nat)
  {
    0 < k < |file| && file[k] == '.' && file[k - 1] != '.'
  }

  /** The leftmost extension dot after `lo`, or `|file|` when there is none. */
  function FirstExtDotAfter(file: string, lo: nat): (r: nat)
    requires lo <= |file|
    ensures lo < r <= |file| || r == |file|
    ensures r == |file| || ExtDot(file, r)
    ensures forall k :: lo < k < r ==> !ExtDot(file, k)
    decreases |file| - lo
  {
    if lo + 1 >= |file| then |file|
    else if file[lo + 1] == '.' && file[lo] != '.' then lo + 1
    else FirstExtDotAfter(file, lo + 1)
  }

  /** `detail::start_of_extension`, as its header documents it: the index of
      the first dot after the start of the file name that is separated from
      that start by at least one non-dot character, or `|file|`. This is the
      corrected definition (see `ScanStartOfExtension` for the code as
      written, which reads out of bounds on some inputs). */
  function StartOfExtension(file: string): (r: nat)
    ensures StartOfFilename(file) < r <= |file| || r == |file|
    ensures r == |file| || ExtDot(file, r)
    ensures forall k :: StartOfFilename(file) < k < r ==> !ExtDot(file, k)
  {
    FirstExtDotAfter(file, StartOfFilename(file))
  }

  /** The backward scan of the source reaches index 0 inside a leading run of
      dots exactly when there is no separator and the string starts with `.`;
      there its outer `--i` wraps around and the next read is out of bounds. */
  predicate ScanWraps(file: string)
  {
    StartOfFilename(file) == 0 && |file| > 0 && file[0] == '.'
  }

  /** `detail::start_of_extension` as written: an outer backward loop and an
      inner loop over a run of dots. `wrapped` reports that the outer `--i`
      would wrap around 0 (the source then reads `file[SIZE_MAX - 1]`); it is
      set exactly on the inputs `ScanWraps` describes, and on all other
      inputs the result is the documented one. */
  method ScanStartOfExtension(file: string) returns (r: nat, wrapped: bool)
    ensures wrapped <==> ScanWraps(file)
    ensures !wrapped ==> r == StartOfExtension(file)
  {
    var extDot := |file|;
    var i := |file|;
    while i > 0
      invariant 0 <= i <= |file|
      invariant forall j :: i < j <= |file| ==> !UnescapedSlash(file, j)
      invariant i < |file| ==> file[i] != '.'
      invariant extDot == FirstExtDotAfter(file, i)
    {
      if file[i - 1] == '.' {
        i := i - 1;
        var broke := false;
        while i > 0 && !broke
          invariant 0 <= i < |file|
          invariant forall j :: i < j <= |file| ==> !UnescapedSlash(file, j)
          invariant file[i] == '.'
          invariant !broke ==> extDot == FirstExtDotAfter(file, i)
          invariant broke ==> i > 0 && file[i - 1] != '.' && !UnescapedSlash(file, i)
                              && extDot == i && FirstExtDotAfter(file, i - 1) == i
          decreases i + (if broke then 0 else 1)
        {
          if file[i - 1] == '/' && (i == 1 || file[i - 2] != '\\') {
            SlashIsLast(file, i);
            return extDot, false;
          }
          if file[i - 1] != '.' {
            extDot := i;
            broke := true;
          } else {
            i := i - 1;
          }
        }
        if !broke {
          // The dot run reaches index 0 with no separator to its right.
          SlashIsLast(file, 0);
          return extDot, true;
        }
        // The skipped non-dot character is neither a separator nor a dot.
        i := i - 1;
      } else if file[i - 1] == '/' && (i == 1 || file[i - 2] != '\\') {
        SlashIsLast(file, i);
        return extDot, false;
      } else {
        i := i - 1;
      }
    }
    SlashIsLast(file, 0);
    return extDot, false;
  }

  /** On `".bashrc"` the scan wraps: the corrected definition says it has no
      extension. */
  lemma HiddenFileWraps()
    ensures ScanWraps(".bashrc")
    ensures StartOfExtension(".bashrc") == 7
  {
    var f := ".bashrc";
    SlashIsLast(f, 0);
  }

  /** `get_extension`. */
  function GetExtension(file: string): string
  {
    file[StartOfExtension(file)..]
  }

  /** `get_dir`. */
  function GetDir(file: string): string
  {
    file[..StartOfFilename(file)]
  }

  /** `get_filename`. */
  function GetFilename(file: string): string
  {
    file[StartOfFilename(file)..]
  }

  /** `replace_extension`. */
  function ReplaceExtension(file: string, ext: string): string
  {
    file[..StartOfExtension(file)] + ext
  }

  /** `replace_dir`. */
  function ReplaceDir(file: string, dir: string): string
  {
    dir + GetFilename(file)
  }

  /** A path splits into its directory and its file name. */
  lemma DirPlusFilename(file: string)
    ensures GetDir(file) + GetFilename(file) == file
  {
    assert file[..StartOfFilename(file)] + file[StartOfFilename(file)..] == file;
  }

  /** Replacing the extension by the one it has changes nothing. */
  lemma ReplaceOwnExtension(file: string)
    ensures ReplaceExtension(file, GetExtension(file)) == file
  {
    assert file[..StartOfExtension(file)] + file[StartOfExtension(file)..] == file;
  }

  /** Replacing the directory by the one it has changes nothing. */
  lemma ReplaceOwnDir(file: string)
    ensures ReplaceDir(file, GetDir(file)) == file
  {
    DirPlusFilename(file);
  }

  /** The directory part never contains the extension, and the extension is a
      suffix of the file name. */
  lemma ExtensionWithinFilename(file: string)
    ensures StartOfFilename(file) <= StartOfExtension(file)
    ensures GetExtension(file) == GetFilename(file)[StartOfExtension(file) - StartOfFilename(file)..]
  {
  }

  /** A dot run that starts right after a separator (as in `dir/.hidden`) is
      not an extension: the file name `.hidden` has none. */
  lemma HiddenAfterSlash()
    ensures StartOfExtension("dir/.hidden") == 11
  {
    var f := "dir/.hidden";
    assert UnescapedSlash(f, 4);
    SlashIsLast(f, 4);
  }
}
