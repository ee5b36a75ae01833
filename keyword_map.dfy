/** `keyword_map<T>` (keyword_map.hpp): like `keyword_set`, but every keyword
    carries a value. Buckets map a length to the `unordered_map` of the keys
    of that length; the bucket of length 0 is created by both constructors
    and backs the `sentinel` iterator. `T()` is the constructor argument
    `dflt`. */
module KeywordMaps {
  import opened Wrappers
  import opened CharUtils
  import KeywordSets

  /** The pair `match` returns: the iterator to the matching entry (`None` is
      the sentinel's end iterator of bucket 0) and the match length or
      `npos`. */
  datatype MatchResult<T> = MatchResult(entry: Option<(string, T)>, len: nat)

  /** The keys listed in an initializer list. */
  ghost predicate Listed<T>(init: seq<(string, T)>, key: string)
  {
    exists i :: 0 <= i < |init| && init[i].0 == key
  }

  /** The keys of an initializer list, in order. */
  function Keys<T>(init: seq<(string, T)>): (r: seq<string>)
    ensures |r| == |init| && forall i :: 0 <= i < |init| ==> r[i] == init[i].0
  {
    seq(|init|, i requires 0 <= i < |init| => init[i].0)
  }

  /** The longest key among the first `i + 1` pairs. */
  lemma MaxLengthStep<T>(init: seq<(string, T)>, i: nat)
    requires i < |init|
    ensures var m := KeywordSets.MaxLength(Keys(init[..i]));
      KeywordSets.MaxLength(Keys(init[..i + 1])) == if |init[i].0| > m then |init[i].0| else m
  {
    var k := Keys(init[..i + 1]);
    assert k[..i] == Keys(init[..i]);
    assert k[i] == init[i].0;
  }

  /** `init[i]` is the last pair listed for its key. */
  ghost predicate LastListed<T>(init: seq<(string, T)>, i: int)
  {
    0 <= i < |init| && forall j :: i < j < |init| ==> init[j].0 != init[i].0
  }

  class KeywordMap<T> {
    var maxLen: nat
    var buckets: map<nat, map<string, T>>
    const dflt: T

    /** Every key sits in the bucket of its own length, and bucket 0
        exists. */
    ghost predicate Valid()
      reads this
    {
      0 in buckets &&
      (forall len, k | len in buckets && k in buckets[len] :: |k| == len)
    }

    /** No bucket is longer than `max_len`, so the bucket loop of `match`
        reaches every key. */
    ghost predicate Indexed()
      reads this
    {
      forall len | len in buckets :: len <= maxLen
    }

    predicate Contains(key: string)
      reads this
    {
      |key| in buckets && key in buckets[|key|]
    }

    function Lookup(key: string): T
      reads this
      requires Contains(key)
    {
      buckets[|key|][key]
    }

    /** `keyword_map(init)`: the later of two pairs with the same key wins
        (`map[len][key] = val`); `init == []` is the default constructor. */
    constructor (init: seq<(string, T)>, dflt: T)
      ensures Valid() && Indexed()
      ensures this.dflt == dflt && maxLen == KeywordSets.MaxLength(Keys(init))
      ensures forall k :: Contains(k) <==> Listed(init, k)
      ensures forall i | LastListed(init, i) :: Contains(init[i].0) && Lookup(init[i].0) == init[i].1
    {
      maxLen := 0;
      buckets := map[0 := map[]];
      this.dflt := dflt;
      new;
      assert HoldsListed(init[..0]);
      for i := 0 to |init|
        invariant Valid() && Indexed() && HoldsListed(init[..i])
        invariant maxLen == KeywordSets.MaxLength(Keys(init[..i]))
      {
        AssignListed(init, i);
        MaxLengthStep(init, i);
      }
      assert init[..|init|] == init;
    }

    /** The map holds exactly the keys listed in `init`, each with the
        value of its last listing. */
    ghost predicate HoldsListed(init: seq<(string, T)>)
      reads this
    {
      (forall k :: Contains(k) <==> Listed(init, k)) &&
      (forall j | LastListed(init, j) :: Contains(init[j].0) && Lookup(init[j].0) == init[j].1)
    }

    /** One round of the constructor's loop: `map[len][key] = val` for
        `init[i]` keeps "the keys listed so far, with their last values". */
    method AssignListed(init: seq<(string, T)>, i: nat)
      requires i < |init| && Valid() && Indexed() && HoldsListed(init[..i])
      modifies this
      ensures Valid() && Indexed() && HoldsListed(init[..i + 1])
      ensures maxLen == if |init[i].0| > old(maxLen) then |init[i].0| else old(maxLen)
    {
      var key := init[i].0;
      Assign(key, init[i].1);
      forall k
        ensures Contains(k) <==> Listed(init[..i], k) || k == key
      {
        if k != key {
          assert Contains(k) == old(Contains(k));
        }
      }
      forall j | LastListed(init[..i], j) && init[j].0 != key
        ensures Contains(init[j].0) && Lookup(init[j].0) == init[j].1
      {
        assert old(Contains(init[j].0)) && old(Lookup(init[j].0)) == init[j].1;
      }
      ExtendListed(init, i);
    }

    /** After storing `init[i]`, the invariant holds for `init[..i + 1]`. */
    lemma ExtendListed(init: seq<(string, T)>, i: nat)
      requires i < |init|
      requires Contains(init[i].0) && Lookup(init[i].0) == init[i].1
      requires forall k :: Contains(k) <==> Listed(init[..i], k) || k == init[i].0
      requires forall j | LastListed(init[..i], j) && init[j].0 != init[i].0 ::
        Contains(init[j].0) && Lookup(init[j].0) == init[j].1
      ensures forall k :: Contains(k) <==> Listed(init[..i + 1], k)
      ensures forall j | LastListed(init[..i + 1], j) :: Contains(init[j].0) && Lookup(init[j].0) == init[j].1
    {
      var p := init[..i + 1];
      assert p[i] == init[i];
      forall k
        ensures Contains(k) <==> Listed(p, k)
      {
        if Listed(init[..i], k) {
          var x :| 0 <= x < i && init[..i][x].0 == k;
          assert p[x].0 == k;
        }
        if Listed(p, k) && k != init[i].0 {
          var x :| 0 <= x < |p| && p[x].0 == k;
          assert init[..i][x].0 == k;
        }
      }
      forall j | LastListed(p, j)
        ensures Contains(init[j].0) && Lookup(init[j].0) == init[j].1
      {
        if j < i {
          assert init[j].0 != init[i].0 by { assert p[i].0 != p[j].0; }
          assert LastListed(init[..i], j) by {
            forall x | j < x < i ensures init[..i][x].0 != init[..i][j].0 {
              assert p[x] == init[x];
            }
          }
        }
      }
    }

    /** `sentinel`: the end iterator of bucket 0 with length `npos`. */
    function Sentinel(): (r: MatchResult<T>)
      reads this
      requires Valid()
      ensures r.entry.None? && r.len == NPOS
    {
      MatchResult(None, NPOS)
    }

    /** `operator[]` as written: the value stored under `key`, after
        default-inserting `T()` if the key is absent; `max_len` is left as it
        is, even when the new key is longer. */
    method IndexAsWritten(key: string) returns (v: T)
      requires Valid()
      modifies this
      ensures Valid()
      ensures old(Contains(key)) ==> v == old(Lookup(key)) && buckets == old(buckets)
      ensures !old(Contains(key)) ==> v == dflt
      ensures Contains(key) && Lookup(key) == v
      ensures forall k | k != key :: Contains(k) == old(Contains(k)) && (Contains(k) ==> Lookup(k) == old(Lookup(k)))
      ensures maxLen == old(maxLen)
    {
      var len := |key|;
      var bucket := if len in buckets then buckets[len] else map[];
      if key !in bucket {
        bucket := bucket[key := dflt];
        buckets := buckets[len := bucket];
      } else {
        assert old(Contains(key));
      }
      v := bucket[key];
    }

    /** `operator[]` as evidently intended: as above, and a key longer than
        `max_len` raises it, so that `match` can still find the key. */
    method Index(key: string) returns (v: T)
      requires Valid() && Indexed()
      modifies this
      ensures Valid() && Indexed()
      ensures old(Contains(key)) ==> v == old(Lookup(key)) && buckets == old(buckets)
      ensures !old(Contains(key)) ==> v == dflt
      ensures Contains(key) && Lookup(key) == v
      ensures forall k | k != key :: Contains(k) == old(Contains(k)) && (Contains(k) ==> Lookup(k) == old(Lookup(k)))
      ensures maxLen == if |key| > old(maxLen) then |key| else old(maxLen)
    {
      var len := |key|;
      if len > maxLen {
        maxLen := len;
      }
      var bucket := if len in buckets then buckets[len] else map[];
      if key !in bucket {
        bucket := bucket[key := dflt];
        buckets := buckets[len := bucket];
      } else {
        assert old(Contains(key));
      }
      v := bucket[key];
    }

    /** `operator[]` used as an lvalue, `m[key] = val`, with the corrected
        `max_len` update. */
    method Assign(key: string, val: T)
      requires Valid() && Indexed()
      modifies this
      ensures Valid() && Indexed()
      ensures Contains(key) && Lookup(key) == val
      ensures forall k | k != key :: Contains(k) == old(Contains(k)) && (Contains(k) ==> Lookup(k) == old(Lookup(k)))
      ensures maxLen == if |key| > old(maxLen) then |key| else old(maxLen)
    {
      var len := |key|;
      if len > maxLen {
        maxLen := len;
      }
      var bucket := if len in buckets then buckets[len] else map[];
      buckets := buckets[len := bucket[key := val]];
    }

    /** `insert`: adds the pair unless the key exists, in which case the old
        value stays and is returned with `false`; `max_len` is raised. */
    method Insert(key: string, val: T) returns (stored: T, inserted: bool)
      requires Valid() && Indexed()
      modifies this
      ensures Valid() && Indexed()
      ensures inserted <==> !old(Contains(key))
      ensures old(Contains(key)) ==> stored == old(Lookup(key)) && buckets == old(buckets)
      ensures !old(Contains(key)) ==> stored == val
      ensures Contains(key) && Lookup(key) == stored
      ensures forall k | k != key :: Contains(k) == old(Contains(k)) && (Contains(k) ==> Lookup(k) == old(Lookup(k)))
      ensures maxLen == if |key| > old(maxLen) then |key| else old(maxLen)
    {
      var len := |key|;
      if len > maxLen {
        maxLen := len;
      }
      var bucket := if len in buckets then buckets[len] else map[];
      if key in bucket {
        stored, inserted := bucket[key], false;
        assert old(Contains(key));
      } else {
        stored, inserted := val, true;
        buckets := buckets[len := bucket[key := val]];
      }
    }

    /** A keyword of length `len` is at `pos` and, with `wholeWord`, it is
        not followed by a word character. */
    predicate IsMatch(str: string, pos: nat, wholeWord: bool, len: nat)
      reads this
    {
      pos + len <= |str| && Contains(str[pos..pos + len]) &&
      !(wholeWord && WordChar(str, pos + len))
    }

    /** The bucket loop of `match`, from length `len` downwards: the first
        length whose bucket holds the substring at `pos`, or `npos`. */
    function SearchDown(str: string, pos: nat, wholeWord: bool, len: nat): (r: nat)
      reads this
      requires pos + len <= |str| < NPOS
      ensures r == NPOS || (r <= len && IsMatch(str, pos, wholeWord, r))
      ensures r != NPOS ==> forall l: nat :: r < l <= len ==> !IsMatch(str, pos, wholeWord, l)
      ensures r == NPOS ==> forall l: nat :: l <= len ==> !IsMatch(str, pos, wholeWord, l)
      decreases len
    {
      if len in buckets && !(wholeWord && WordChar(str, pos + len)) && str[pos..pos + len] in buckets[len] then
        len
      else if len == 0 then
        NPOS
      else
        SearchDown(str, pos, wholeWord, len - 1)
    }

    /** `match`: with `wholeWord`, nothing matches after a word character;
        otherwise the longest keyword of length at most `max_len` at `pos`
        that is not followed by a word character, with its entry. */
    function Match(str: string, pos: nat, wholeWord: bool): (r: MatchResult<T>)
      reads this
      requires Valid()
      requires pos <= |str| < NPOS
      ensures r.len == NPOS <==> r.entry.None?
      ensures wholeWord && WordChar(str, Dec(pos)) ==> r.len == NPOS
      ensures !(wholeWord && WordChar(str, Dec(pos))) ==> (r.len == NPOS <==> NoKeywordAt(str, pos, wholeWord))
      ensures r.len != NPOS ==> LongestAt(str, pos, wholeWord, r.len) && r.entry == EntryAt(str, pos, r.len)
    {
      if wholeWord && WordChar(str, Dec(pos)) then Sentinel() else BucketLoop(str, pos, wholeWord)
    }

    /** No keyword of length at most `max_len` matches at `pos`. */
    ghost predicate NoKeywordAt(str: string, pos: nat, wholeWord: bool)
      reads this
    {
      forall l: nat :: l <= maxLen ==> !IsMatch(str, pos, wholeWord, l)
    }

    /** `len` is the longest length at most `max_len` that matches at `pos`. */
    ghost predicate LongestAt(str: string, pos: nat, wholeWord: bool, len: nat)
      reads this
    {
      len <= maxLen && IsMatch(str, pos, wholeWord, len) &&
      forall l: nat :: l <= maxLen && IsMatch(str, pos, wholeWord, l) ==> l <= len
    }

    /** The stored pair of the keyword of length `len` at `pos`, if any. */
    function EntryAt(str: string, pos: nat, len: nat): Option<(string, T)>
      reads this
    {
      if pos + len <= |str| && Contains(str[pos..pos + len]) then
        Some((str[pos..pos + len], Lookup(str[pos..pos + len])))
      else None
    }

    /** The bucket loop of `match` from `min(max_len, size - pos)` down: the
        longest keyword of length at most `max_len` at `pos`, with its
        entry, or the sentinel when there is none. */
    function BucketLoop(str: string, pos: nat, wholeWord: bool): (r: MatchResult<T>)
      reads this
      requires Valid()
      requires pos <= |str| < NPOS
      ensures r.len == NPOS <==> r.entry.None?
      ensures r.len == NPOS <==> NoKeywordAt(str, pos, wholeWord)
      ensures r.len != NPOS ==> LongestAt(str, pos, wholeWord, r.len) && r.entry == EntryAt(str, pos, r.len)
    {
      var max := if maxLen < |str| - pos then maxLen else |str| - pos;
      var len := SearchDown(str, pos, wholeWord, max);
      assert forall l: nat :: max < l <= maxLen ==> !IsMatch(str, pos, wholeWord, l);
      if len == NPOS then Sentinel() else Found(str, pos, len)
    }

    /** The iterator to the entry of the keyword of length `len` at `pos`. */
    function Found(str: string, pos: nat, len: nat): (r: MatchResult<T>)
      reads this
      requires Valid() && pos + len <= |str| && Contains(str[pos..pos + len])
      ensures r.len == len && r.entry == EntryAt(str, pos, len) && r.entry.Some?
    {
      var key := str[pos..pos + len];
      MatchResult(Some((key, buckets[|key|][key])), len)
    }

    /** `match_whole`: the whole string, looked up in its own length bucket. */
    function MatchWhole(str: string): (r: MatchResult<T>)
      reads this
      requires Valid()
      requires |str| < NPOS
      ensures r.len != NPOS <==> Contains(str)
      ensures r.len != NPOS ==> r.len == |str| && r.entry == Some((str, Lookup(str)))
      ensures r.len == NPOS ==> r.entry.None?
    {
      if |str| in buckets && str in buckets[|str|] then
        MatchResult(Some((str, buckets[|str|][str])), |str|)
      else
        Sentinel()
    }

    /** `erase` as written: `false` only when no key of that length is
        stored; a bucket holding a single entry is dropped whole, whatever
        that entry is; otherwise `key` is removed from its bucket. The
        length-0 bucket is never dropped. */
    method EraseAsWritten(key: string) returns (b: bool)
      requires Valid()
      modifies this
      ensures Valid()
      ensures b <==> |key| in old(buckets)
      ensures !b ==> buckets == old(buckets)
      ensures b && |old(buckets)[|key|]| == 1 && |key| > 0 ==> buckets == old(buckets) - {|key|}
      ensures b && !(|old(buckets)[|key|]| == 1 && |key| > 0) ==>
        buckets == old(buckets)[|key| := old(buckets)[|key|] - {key}]
      ensures maxLen == old(maxLen)
    {
      var len := |key|;
      if len !in buckets {
        return false;
      }
      if |buckets[len]| == 1 && len > 0 {
        buckets := buckets - {len};
      } else {
        buckets := buckets[len := buckets[len] - {key}];
      }
      return true;
    }

    /** `erase` as documented: removes exactly `key` and reports whether it
        was stored. */
    method Erase(key: string) returns (b: bool)
      requires Valid() && Indexed()
      modifies this
      ensures Valid() && Indexed()
      ensures b <==> old(Contains(key))
      ensures !Contains(key)
      ensures forall k | k != key :: Contains(k) == old(Contains(k)) && (Contains(k) ==> Lookup(k) == old(Lookup(k)))
      ensures maxLen == old(maxLen)
    {
      var len := |key|;
      if len !in buckets {
        return false;
      }
      b := key in buckets[len];
      buckets := buckets[len := buckets[len] - {key}];
    }
  }

  /** When no bucket is longer than `max_len` (every constructor, `insert`,
      `Index`, `Assign` and `Erase` keep this), `match` finds the longest
      keyword at `pos`, whatever its length. */
  lemma IndexedMatchIsComplete<T>(km: KeywordMap<T>, str: string, pos: nat, wholeWord: bool, l: nat)
    requires km.Valid() && km.Indexed()
    requires pos <= |str| < NPOS
    requires !(wholeWord && WordChar(str, Dec(pos)))
    requires km.IsMatch(str, pos, wholeWord, l)
    ensures km.Match(str, pos, wholeWord).len != NPOS
    ensures l <= km.Match(str, pos, wholeWord).len
  {
    assert |str[pos..pos + l]| == l;
    assert l in km.buckets;
  }

  /** `keyword_map<int>()`, then `m["ab"]` with `operator[]` as written: the
      key is stored but `match` cannot find it, because its bucket is longer
      than `max_len`. */
  method IndexedKeyIsNotMatched() returns (stored: bool, len: nat)
    ensures stored && len == NPOS
  {
    var km := new KeywordMap<int>([], 0);
    var _ := km.IndexAsWritten("ab");
    stored := km.Contains("ab");
    len := km.Match("ab", 0, false).len;
  }

  /** `erase("ab")` on a map whose only key of length 2 is `"cd"`: the
      as-written `erase` drops `"cd"` and reports success. */
  method EraseDropsOtherKey() returns (b: bool, kept: bool)
    ensures b && !kept
  {
    var init := [("cd", 1)];
    assert init[0].0 == "cd";
    var km := new KeywordMap<int>(init, 0);
    assert km.Contains("cd");
    assert km.buckets[2].Keys == {"cd"} by {
      forall k | k in km.buckets[2] ensures k == "cd" {
        assert km.Contains(k);
      }
    }
    assert |km.buckets[2]| == |km.buckets[2].Keys| == 1;
    b := km.EraseAsWritten("ab");
    kept := km.Contains("cd");
  }
}
