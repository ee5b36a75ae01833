/** ASCII character helpers of `util` (src/char_utils.cpp). `tolower`,
    `toupper` and `isalnum` are taken in the "C" locale. */
module CharUtils {

  /** The largest `size_t`; `pos - 1` at `pos == 0` wraps to it. */
  const SIZE_MAX: nat := 0xFFFF_FFFF_FFFF_FFFF

  /** `std::string::npos`. */
  const NPOS: nat := SIZE_MAX

  /** Unsigned decrement as `size_t` computes it. */
  function Dec(n: nat): (r: nat)
    requires n <= SIZE_MAX
    ensures r <= SIZE_MAX
    ensures n > 0 ==> r == n - 1
    ensures n == 0 ==> r == SIZE_MAX
  {
    if n == 0 then SIZE_MAX else n - 1
  }

  predicate IsUpper(c: char) { 'A' <= c <= 'Z' }
  predicate IsLower(c: char) { 'a' <= c <= 'z' }
  predicate IsAlpha(c: char) { IsUpper(c) || IsLower(c) }
  predicate IsDigit(c: char) { '0' <= c <= '9' }
  predicate IsAlnum(c: char) { IsAlpha(c) || IsDigit(c) }

  /** `std::tolower` on one character. */
  function ToLower(c: char): (r: char)
    ensures !IsUpper(r)
    ensures IsUpper(c) ==> IsLower(r) && r as int == c as int + 32
    ensures !IsUpper(c) ==> r == c
  {
    if IsUpper(c) then (c as int + 32) as char else c
  }

  /** `std::toupper` on one character. */
  function ToUpper(c: char): (r: char)
    ensures !IsLower(r)
    ensures IsLower(c) ==> IsUpper(r) && r as int == c as int - 32
    ensures !IsLower(c) ==> r == c
  {
    if IsLower(c) then (c as int - 32) as char else c
  }

  /** The string `lowercase` promises: position-wise `tolower`. */
  function Lower(s: string): (r: string)
  {
    seq(|s|, i requires 0 <= i < |s| => ToLower(s[i]))
  }

  /** The string `uppercase` promises: position-wise `toupper`. */
  function Upper(s: string): (r: string)
  {
    seq(|s|, i requires 0 <= i < |s| => ToUpper(s[i]))
  }

  /** `lowercase`: fills a fresh string of the same length by index. */
  method Lowercase(s: string) returns (r: string)
    ensures r == Lower(s)
    ensures |r| == |s|
    ensures forall i :: 0 <= i < |r| ==> !IsUpper(r[i])
  {
    var lower := new char[|s|](_ => ' ');
    var i := 0;
    while i < |s|
      invariant 0 <= i <= |s|
      invariant forall k :: 0 <= k < i ==> lower[k] == ToLower(s[k])
    {
      lower[i] := ToLower(s[i]);
      i := i + 1;
    }
    r := lower[..];
  }

  /** `uppercase`: fills a fresh string of the same length by index. */
  method Uppercase(s: string) returns (r: string)
    ensures r == Upper(s)
    ensures |r| == |s|
    ensures forall i :: 0 <= i < |r| ==> !IsLower(r[i])
  {
    var upper := new char[|s|](_ => ' ');
    var i := 0;
    while i < |s|
      invariant 0 <= i <= |s|
      invariant forall k :: 0 <= k < i ==> upper[k] == ToUpper(s[k])
    {
      upper[i] := ToUpper(s[i]);
      i := i + 1;
    }
    r := upper[..];
  }

  /** `convert_lowercase`: overwrites its argument in place. */
  method ConvertLowercase(a: array<char>)
    modifies a
    ensures a[..] == Lower(old(a[..]))
  {
    var i := 0;
    while i < a.Length
      invariant 0 <= i <= a.Length
      invariant forall k :: 0 <= k < i ==> a[k] == ToLower(old(a[k]))
      invariant forall k :: i <= k < a.Length ==> a[k] == old(a[k])
    {
      a[i] := ToLower(a[i]);
      i := i + 1;
    }
  }

  /** `convert_uppercase`: overwrites its argument in place. */
  method ConvertUppercase(a: array<char>)
    modifies a
    ensures a[..] == Upper(old(a[..]))
  {
    var i := 0;
    while i < a.Length
      invariant 0 <= i <= a.Length
      invariant forall k :: 0 <= k < i ==> a[k] == ToUpper(old(a[k]))
      invariant forall k :: i <= k < a.Length ==> a[k] == old(a[k])
    {
      a[i] := ToUpper(a[i]);
      i := i + 1;
    }
  }

  /** Lower-casing twice is lower-casing once. */
  lemma LowerIdempotent(s: string)
    ensures Lower(Lower(s)) == Lower(s)
  {
  }

  /** Lower-casing after upper-casing forgets the original case: two strings
      that differ only in the case of their letters have one lowercase form. */
  lemma LowerOfUpper(s: string)
    ensures Lower(Upper(s)) == Lower(s)
  {
  }

  /** `word_char`: true iff `pos` is in range and the character there is
      alphanumeric or `_`. Positions past the end (including `Dec(0)`) are
      not word characters and never fault. */
  function WordChar(s: string, pos: nat): (r: bool)
    ensures pos >= |s| ==> !r
    ensures pos < |s| ==> (r <==> IsAlnum(s[pos]) || s[pos] == '_')
  {
    pos < |s| && (IsAlnum(s[pos]) || s[pos] == '_')
  }

  /** `word_char(str, pos - 1)` at `pos == 0` reads no character. */
  lemma WordCharBeforeStart(s: string)
    requires |s| <= SIZE_MAX
    ensures !WordChar(s, Dec(0))
  {
  }
}
