/** `keyword_set` (keyword_set.hpp): a set of strings bucketed by length, so
    that the longest keyword starting at a given position of a string can be
    found by trying the buckets from the longest feasible length downwards.
    The `std::map<size_t, unordered_set>` ordered by `std::greater` becomes a
    Dafny `map` from a length to the set of keys of that length; `npos` is
    `CharUtils.NPOS`. */
module KeywordSets {
  import opened CharUtils

  /** The largest key length in `keys` (0 for none): what the constructor
      leaves in `max_len`. */
  function MaxLength(keys: seq<string>): (r: nat)
    ensures forall i :: 0 <= i < |keys| ==> |keys[i]| <= r
    ensures |keys| == 0 ==> r == 0
    ensures |keys| > 0 ==> exists i :: 0 <= i < |keys| && |keys[i]| == r
  {
    if |keys| == 0 then 0
    else
      var m := MaxLength(keys[..|keys| - 1]);
      assert forall i :: 0 <= i < |keys| - 1 ==> keys[..|keys| - 1][i] == keys[i];
      if |keys[|keys| - 1]| > m then |keys[|keys| - 1]| else m
  }

  class KeywordSet {
    var maxLen: nat
    var buckets: map<nat, set<string>>

    /** Every key sits in the bucket of its own length, and no bucket is
        longer than `max_len`. */
    ghost predicate Valid()
      reads this
    {
      (forall len | len in buckets :: len <= maxLen) &&
      (forall len, k | len in buckets && k in buckets[len] :: |k| == len)
    }

    /** Membership, through the bucket of the key's length. */
    predicate Contains(key: string)
      reads this
    {
      |key| in buckets && key in buckets[|key|]
    }

    /** `keyword_set(init)`: `max_len` is the longest key and the set holds
        exactly the listed keys (`init == []` is the default constructor). */
    constructor (init: seq<string>)
      ensures Valid()
      ensures maxLen == MaxLength(init)
      ensures forall k :: Contains(k) <==> k in init
    {
      maxLen := 0;
      buckets := map[];
      new;
      for i := 0 to |init|
        invariant Valid()
        invariant maxLen == MaxLength(init[..i])
        invariant forall k :: Contains(k) <==> k in init[..i]
      {
        assert init[..i + 1] == init[..i] + [init[i]];
        assert init[..i + 1][..i] == init[..i];
        var _ := Insert(init[i]);
      }
      assert init[..|init|] == init;
    }

    /** `insert`: stores the key in its length bucket and raises `max_len`
        to the key's length; `inserted` says whether it was new. */
    method Insert(key: string) returns (inserted: bool)
      requires Valid()
      modifies this
      ensures Valid()
      ensures inserted <==> !old(Contains(key))
      ensures forall k :: Contains(k) <==> old(Contains(k)) || k == key
      ensures maxLen == if |key| > old(maxLen) then |key| else old(maxLen)
      ensures |key| in buckets && key in buckets[|key|]
    {
      var len := |key|;
      if len > maxLen {
        maxLen := len;
      }
      var bucket := if len in buckets then buckets[len] else {};
      inserted := key !in bucket;
      buckets := buckets[len := bucket + {key}];
    }

    /** A keyword of length `len` is at `pos` and, with `wholeWord`, it is
        not followed by a word character. */
    predicate IsMatch(str: string, pos: nat, wholeWord: bool, len: nat)
      reads this
    {
      pos + len <= |str| && Contains(str[pos..pos + len]) &&
      !(wholeWord && WordChar(str, pos + len))
    }

    /** The bucket loop of `match`: tries the lengths `len`, `len - 1`, ...,
        0 and returns the first one whose bucket holds the substring. */
    function SearchDown(str: string, pos: nat, wholeWord: bool, len: nat): (r: nat)
      reads this
      requires pos + len <= |str| < NPOS
      ensures r == NPOS || (r <= len && IsMatch(str, pos, wholeWord, r))
      ensures r != NPOS ==> forall l: nat :: r < l <= len ==> !IsMatch(str, pos, wholeWord, l)
      ensures r == NPOS ==> forall l: nat :: l <= len ==> !IsMatch(str, pos, wholeWord, l)
      decreases len
    {
      if len in buckets && !(wholeWord && WordChar(str, pos + len)) && str[pos..pos + len] in buckets[len] then
        len
      else if len == 0 then
        NPOS
      else
        SearchDown(str, pos, wholeWord, len - 1)
    }

    /** `match` as written: the whole-word test on the character before
        `pos` evaluates `std::string::npos;` as a statement and does not
        return it, so that test has no effect. The result is the longest
        keyword at `pos` that is not followed by a word character. */
    function MatchAsWritten(str: string, pos: nat, wholeWord: bool): (r: nat)
      reads this
      requires Valid()
      requires pos <= |str| < NPOS
      ensures r != NPOS ==> IsMatch(str, pos, wholeWord, r)
      ensures r != NPOS ==> forall l: nat :: IsMatch(str, pos, wholeWord, l) ==> l <= r
      ensures r == NPOS <==> forall l: nat :: !IsMatch(str, pos, wholeWord, l)
    {
      var max := if maxLen < |str| - pos then maxLen else |str| - pos;
      var r := SearchDown(str, pos, wholeWord, max);
      assert forall l: nat :: IsMatch(str, pos, wholeWord, l) ==> l <= max by {
        forall l: nat | IsMatch(str, pos, wholeWord, l)
          ensures l <= max
        {
          assert |str[pos..pos + l]| == l;
        }
      }
      r
    }

    /** `match` as evidently intended: with `wholeWord`, a keyword preceded by
        a word character does not match (`pos - 1` wraps to `npos` at 0,
        where `word_char` is false). */
    function Match(str: string, pos: nat, wholeWord: bool): (r: nat)
      reads this
      requires Valid()
      requires pos <= |str| < NPOS
      ensures wholeWord && WordChar(str, Dec(pos)) ==> r == NPOS
      ensures !(wholeWord && WordChar(str, Dec(pos))) ==>
        (r == NPOS <==> forall l: nat :: !IsMatch(str, pos, wholeWord, l))
      ensures r != NPOS ==> IsMatch(str, pos, wholeWord, r)
      ensures r != NPOS ==> forall l: nat :: IsMatch(str, pos, wholeWord, l) ==> l <= r
    {
      if wholeWord && WordChar(str, Dec(pos)) then NPOS
      else MatchAsWritten(str, pos, wholeWord)
    }

    /** `match_whole`: the whole string, looked up in its own length bucket. */
    function MatchWhole(str: string): (r: nat)
      reads this
      requires |str| < NPOS
      ensures r != NPOS <==> Contains(str)
      ensures r != NPOS ==> r == |str|
    {
      if |str| in buckets && str in buckets[|str|] then |str| else NPOS
    }
  }

  /** The input that shows the missing `return`: with the keyword `"ab"`,
      `"xab"` at position 1 matches as a whole word although `'x'` precedes
      it. */
  lemma {:induction false} PreCheckHasNoEffect(ks: KeywordSet)
    requires ks.maxLen == 2 && ks.buckets == map[2 := {"ab"}]
    ensures ks.Valid()
    ensures ks.MatchAsWritten("xab", 1, true) == 2
    ensures ks.Match("xab", 1, true) == NPOS
  {
    var s := "xab";
    assert s[1..3] == "ab";
    assert ks.IsMatch(s, 1, true, 2);
    assert WordChar(s, Dec(1));
  }
}
