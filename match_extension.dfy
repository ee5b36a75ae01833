/** `match_extension` (match_extension.hpp, first overload): find the entry of
    a map keyed by extensions (such as `".tar.gz"`) that matches the end of a
    file name. The map's `find` is a lookup in a Dafny `map`; the returned
    iterator is the matching key, `None` standing for `map.end()`. */
module MatchExtension {
  import opened Wrappers

  /** `str.find('.', from)`: the first dot at or after `from`. */
  function FindDot(str: string, from: nat): (r: Option<nat>)
    ensures r.Some? ==> from <= r.value < |str| && str[r.value] == '.'
    ensures r.Some? ==> forall j :: from <= j < r.value ==> str[j] != '.'
    ensures r.None? ==> forall j :: from <= j < |str| ==> str[j] != '.'
    decreases |str| - from
  {
    if from >= |str| then None
    else if str[from] == '.' then Some(from)
    else FindDot(str, from + 1)
  }

  /** `str.rfind('/')`. */
  function LastSlash(str: string): (r: Option<nat>)
    ensures r.Some? ==> r.value < |str| && str[r.value] == '/'
    ensures r.Some? ==> forall j :: r.value < j < |str| ==> str[j] != '/'
    ensures r.None? ==> forall j :: 0 <= j < |str| ==> str[j] != '/'
  {
    if |str| == 0 then None
    else if str[|str| - 1] == '/' then Some(|str| - 1)
    else
      var r := LastSlash(str[..|str| - 1]);
      assert forall j :: 0 <= j < |str| - 1 ==> str[..|str| - 1][j] == str[j];
      r
  }

  /** The suffix starting at a dot at or after `from` that is a key. */
  ghost predicate DotSuffixKey<V>(m: map<string, V>, str: string, from: nat, d: nat)
  {
    from <= d < |str| && str[d] == '.' && str[d..] in m
  }

  /** The suffixes starting at each dot at or after `from`, tried in
      increasing start position; the first one that is a key. */
  function FirstDotSuffix<V>(m: map<string, V>, str: string, from: nat): (r: Option<string>)
    ensures r.Some? ==> r.value in m
    ensures r.Some? ==> exists d: nat :: DotSuffixKey(m, str, from, d) && r.value == str[d..]
    ensures r.Some? ==> forall d: nat :: DotSuffixKey(m, str, from, d) ==> |str[d..]| <= |r.value|
    ensures r.None? <==> forall d: nat :: !DotSuffixKey(m, str, from, d)
    decreases |str| - from
  {
    if from >= |str| then None
    else if str[from] == '.' && str[from..] in m then
      assert DotSuffixKey(m, str, from, from);
      Some(str[from..])
    else
      var r := FirstDotSuffix(m, str, from + 1);
      assert !DotSuffixKey(m, str, from, from);
      assert forall d: nat :: DotSuffixKey(m, str, from, d) ==> DotSuffixKey(m, str, from + 1, d);
      r
  }

  /** The longest dot-suffix of `str` that is a key, scanning from the start
      of the whole string (what the first overload computes). */
  function LongestDotSuffixKey<V>(m: map<string, V>, str: string): Option<string>
  {
    FirstDotSuffix(m, str, 0)
  }

  /** `match_extension` as written: the stray `;` after
      `if(slash == std::string::npos)` makes `slash = 0` unconditional, so the
      dot search always starts at index 0, directory names included. */
  method MatchExtensionAsWritten<V>(m: map<string, V>, str: string) returns (r: Option<string>)
    ensures r == LongestDotSuffixKey(m, str)
    ensures r.None? <==> forall d: nat :: !DotSuffixKey(m, str, 0, d)
  {
    var slash: nat := 0;
    var dot := FindDot(str, slash);
    SkipToNextDot(m, str, slash);
    while dot.Some?
      invariant dot.Some? ==> dot.value < |str| && str[dot.value] == '.'
      invariant dot.Some? ==> FirstDotSuffix(m, str, 0) == FirstDotSuffix(m, str, dot.value)
      invariant dot.None? ==> FirstDotSuffix(m, str, 0).None?
      decreases if dot.Some? then |str| - dot.value else 0
    {
      var d := dot.value;
      if str[d..] in m {
        return Some(str[d..]);
      }
      SkipToNextDot(m, str, d + 1);
      dot := FindDot(str, d + 1);
    }
    return None;
  }

  /** Between `from` and the next dot no suffix is tried. */
  lemma {:induction false} SkipToNextDot<V>(m: map<string, V>, str: string, from: nat)
    ensures FindDot(str, from).Some? ==> FirstDotSuffix(m, str, from) == FirstDotSuffix(m, str, FindDot(str, from).value)
    ensures FindDot(str, from).None? ==> FirstDotSuffix(m, str, from).None?
    decreases |str| - from
  {
    if from < |str| && str[from] != '.' {
      SkipToNextDot(m, str, from + 1);
    }
  }

  /** The input that shows the stray `;`: with the key `".b/c"`, the path
      `"a.b/c"` is matched through the dot of its directory name. */
  lemma StraySemicolonMatchesDirectoryDot()
    ensures LongestDotSuffixKey(map[".b/c" := 0], "a.b/c") == Some(".b/c")
    ensures MatchExtensionFromSlash(map[".b/c" := 0], "a.b/c").None?
  {
    var s := "a.b/c";
    assert s[1..] == ".b/c";
    assert LastSlash(s) == Some(3);
    assert FindDot(s, 3).None?;
  }

  /** `match_extension` as evidently intended: the dot search starts at the
      last `/` (or at 0 when there is none). */
  function MatchExtensionFromSlash<V>(m: map<string, V>, str: string): (r: Option<string>)
    ensures r.Some? ==> r.value in m && |r.value| > 0 && r.value[0] == '.'
    ensures r.Some? ==> forall j :: 0 <= j < |r.value| ==> r.value[j] != '/'
    ensures r.Some? ==> exists d :: 0 <= d < |str| && r.value == str[d..]
  {
    var slash := match LastSlash(str) case Some(s) => s case None => 0;
    SuffixAfterLastSlash(m, str, slash);
    FirstDotSuffix(m, str, slash)
  }

  /** A dot suffix found at or after the last `/` contains no `/`. */
  lemma SuffixAfterLastSlash<V>(m: map<string, V>, str: string, slash: nat)
    requires LastSlash(str) == Some(slash) || (LastSlash(str).None? && slash == 0)
    ensures var r := FirstDotSuffix(m, str, slash);
      r.Some? ==> |r.value| > 0 && r.value[0] == '.' && (forall j :: 0 <= j < |r.value| ==> r.value[j] != '/')
                  && exists d :: 0 <= d < |str| && r.value == str[d..]
  {
    var r := FirstDotSuffix(m, str, slash);
    if r.Some? {
      var d: nat :| DotSuffixKey(m, str, slash, d) && r.value == str[d..];
      NoSlashAfter(str, slash, d);
    }
  }

  /** The suffix from a position after the last `/` holds no `/`. */
  lemma NoSlashAfter(str: string, slash: nat, d: nat)
    requires LastSlash(str) == Some(slash) || (LastSlash(str).None? && slash == 0)
    requires slash <= d < |str| && str[d] == '.'
    ensures forall j :: 0 <= j < |str[d..]| ==> str[d..][j] != '/'
  {
    var t := str[d..];
    forall j | 0 <= j < |t|
      ensures t[j] != '/'
    {
      assert t[j] == str[d + j];
    }
  }
}
