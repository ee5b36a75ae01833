/** The repetition and backtracking driver of `regex` (src/regex.cpp) on
    leaf nodes: a `LITERAL` or `CHAR_CLASS` node repeated between `minReps`
    and `maxReps` times, with a backtracking policy. Each node keeps a stack
    of attempts, one per successful single match, recording its length and
    its repetition number; a sentinel attempt of repetition 0 separates the
    attempts of one call of `match` from older ones. The nodes work on a
    `FileParser` from module `FileParsing`. */
module RegexEngine {
  import opened FileParsing

  /** `attempt`: the length of one single match and its repetition number
      (0 for the sentinel `start_attempt` pushes). */
  datatype Attempt = Attempt(len: nat, rep: nat)

  /** The leaf types that have a `match_single`. */
  datatype Kind = Literal(text: string) | CharClass(chars: string)

  /** The `BACKTRACK_MODIFIER` bits. */
  datatype Backtrack = Greedy | Reluctant | Possessive

  /** The total length of some attempts. */
  function SumLen(atts: seq<Attempt>): nat
  {
    if |atts| == 0 then 0 else SumLen(atts[..|atts| - 1]) + atts[|atts| - 1].len
  }

  /** Some attempt in the stack is a sentinel. */
  predicate HasSentinel(atts: seq<Attempt>)
  {
    |atts| > 0 && (atts[|atts| - 1].rep == 0 || HasSentinel(atts[..|atts| - 1]))
  }

  /** The attempts above the topmost sentinel: those of the latest `match`. */
  function SinceSentinel(atts: seq<Attempt>): (r: seq<Attempt>)
    ensures |r| <= |atts|
    ensures HasSentinel(atts) ==> |r| < |atts|
    ensures forall k :: 0 <= k < |r| ==> r[k].rep != 0
  {
    if |atts| == 0 || atts[|atts| - 1].rep == 0 then []
    else SinceSentinel(atts[..|atts| - 1]) + [atts[|atts| - 1]]
  }

  /** Pushing a repetition extends the latest match. */
  lemma SinceSentinelPush(atts: seq<Attempt>, a: Attempt)
    requires a.rep != 0
    ensures SinceSentinel(atts + [a]) == SinceSentinel(atts) + [a]
    ensures HasSentinel(atts + [a]) == HasSentinel(atts)
  {
    assert (atts + [a])[..|atts|] == atts;
  }

  /** After a sentinel, the repetitions pushed are the latest match. */
  lemma {:induction false} SinceFreshSentinel(atts: seq<Attempt>, made: seq<Attempt>)
    requires forall k :: 0 <= k < |made| ==> made[k].rep != 0
    ensures SinceSentinel(atts + [Attempt(0, 0)] + made) == made
    ensures HasSentinel(atts + [Attempt(0, 0)] + made)
  {
    if |made| > 0 {
      var init := made[..|made| - 1];
      SinceFreshSentinel(atts, init);
      assert atts + [Attempt(0, 0)] + made == (atts + [Attempt(0, 0)] + init) + [made[|made| - 1]];
      SinceSentinelPush(atts + [Attempt(0, 0)] + init, made[|made| - 1]);
      assert init + [made[|made| - 1]] == made;
    } else {
      assert (atts + [Attempt(0, 0)])[..|atts|] == atts;
    }
  }

  /** Popping a repetition shortens the latest match by it. */
  lemma SinceSentinelPop(atts: seq<Attempt>)
    requires |atts| > 0 && atts[|atts| - 1].rep != 0
    ensures SinceSentinel(atts[..|atts| - 1]) + [atts[|atts| - 1]] == SinceSentinel(atts)
    ensures SumLen(SinceSentinel(atts[..|atts| - 1])) + atts[|atts| - 1].len == SumLen(SinceSentinel(atts))
    ensures HasSentinel(atts[..|atts| - 1]) == HasSentinel(atts)
  {
    var s := SinceSentinel(atts);
    assert s[..|s| - 1] == SinceSentinel(atts[..|atts| - 1]);
  }

  /** Where the topmost sentinel sits: below the latest match, which is every
      attempt above it. */
  lemma {:induction false} SentinelAt(atts: seq<Attempt>)
    requires HasSentinel(atts)
    ensures var n := |SinceSentinel(atts)|;
      n < |atts| && atts[|atts| - n - 1].rep == 0 &&
      (forall k :: |atts| - n <= k < |atts| ==> atts[k].rep != 0) &&
      SinceSentinel(atts) == atts[|atts| - n..]
  {
    if atts[|atts| - 1].rep != 0 {
      var init := atts[..|atts| - 1];
      SentinelAt(init);
      var n := |SinceSentinel(init)|;
      assert forall k :: 0 <= k < |init| ==> init[k] == atts[k];
      assert atts[|atts| - n - 1..] == init[|init| - n..] + [atts[|atts| - 1]];
    }
  }

  /** Repetition numbers `1, 2, ...` in order. */
  predicate Consecutive(atts: seq<Attempt>)
  {
    forall k :: 0 <= k < |atts| ==> atts[k].rep == k + 1
  }

  /** One more repetition, numbered next, keeps the numbering and adds its
      length. */
  lemma PushRepetition(made: seq<Attempt>, a: Attempt)
    requires Consecutive(made) && a.rep == |made| + 1
    ensures Consecutive(made + [a])
    ensures SumLen(made + [a]) == SumLen(made) + a.len
  {
    assert (made + [a])[..|made|] == made;
  }

  /** `n` marks at the same position. */
  function Copies(m: Mark, n: nat): (r: seq<Mark>)
    ensures |r| == n && forall i :: 0 <= i < n ==> r[i] == m
  {
    if n == 0 then [] else Copies(m, n - 1) + [m]
  }

  /** One more mark at the same position. */
  lemma CopiesPush(base: seq<Mark>, m: Mark, n: nat)
    ensures base + Copies(m, n) + [m] == base + Copies(m, n + 1)
  {
  }

  /** The stack of a `match`: older attempts, a sentinel, the repetitions
      made, which are then the latest match. */
  lemma MatchStack(base: seq<Attempt>, made: seq<Attempt>)
    requires Consecutive(made)
    ensures var s := base + [Attempt(0, 0)] + made;
      |s| == |base| + 1 + |made| && s[..|base|] == base && s[|base|] == Attempt(0, 0) &&
      s[|base| + 1..] == made && SinceSentinel(s) == made && HasSentinel(s)
  {
    SinceFreshSentinel(base, made);
    var s := base + [Attempt(0, 0)] + made;
    assert s[|base| + 1..] == made;
  }

  /** `n` marks pushed at `m` on top of `base`. */
  lemma MarkStack(base: seq<Mark>, m: Mark, n: nat)
    ensures var s := base + Copies(m, n);
      |s| == |base| + n && s[..|base|] == base && (n > 0 ==> s[|s| - n] == m)
  {
    var s := base + Copies(m, n);
    assert s[..|base|] == base;
  }

  /** The sum of a sequence of lengths. */
  function Sum(s: seq<nat>): nat
  {
    if |s| == 0 then 0 else Sum(s[..|s| - 1]) + s[|s| - 1]
  }

  /** What `match_single` tests at the cursor of `p`: the literal matches
      the text ahead, or the character at the cursor is in the class. */
  ghost predicate KindTest(p: FileParser, kind: Kind)
    reads p
    requires p.Valid()
  {
    TestAt(kind, p.File(), p.line, p.col, p.good)
  }

  /** The test at `(l, c)` of `file`, with `good` the state of the stream. */
  ghost predicate TestAt(kind: Kind, file: seq<string>, l: nat, c: nat, good: bool)
    requires l < |file| && c <= |file[l]|
  {
    match kind
    case Literal(text) => MatchesAhead(text, AheadAt(file, l, c, false))
    case CharClass(chars) => good && c < |file[l]| && file[l][c] in chars
  }

  /** The length of one single match of a leaf. */
  function Width(kind: Kind): nat
  {
    match kind
    case Literal(text) => |text|
    case CharClass(_) => 1
  }

  /** Attempts of equal length `w` add up to `w` per attempt. */
  lemma {:induction false} SumLenUniform(atts: seq<Attempt>, w: nat)
    requires forall a :: a in atts ==> a.len == w
    ensures SumLen(atts) == |atts| * w
  {
    if |atts| > 0 {
      var init := atts[..|atts| - 1];
      assert forall a :: a in init ==> a.len == w by {
        assert forall a :: a in init ==> a in atts;
      }
      SumLenUniform(init, w);
      assert atts[|atts| - 1].len == w by {
        assert atts[|atts| - 1] in atts;
      }
      MulStep(|init|, w);
    }
  }

  lemma MulStep(n: nat, w: nat)
    ensures (n + 1) * w == n * w + w
  {
  }

  /** The test of `match_single` at the cursor: `parser.match(string)`,
      which does not consume, or `parser && string.find(*parser) != npos`. */
  method Probe(p: FileParser, kind: Kind) returns (ok: bool, len: nat)
    requires p.Valid()
    modifies p
    ensures p.Valid() && p.Unmoved() && p.ReadsOn() && p.SameFile() && p.marks == old(p.marks)
    ensures kind.CharClass? ==> p.SameText()
    ensures kind.Literal? ==> len == |kind.text| && (ok <==> MatchesAhead(kind.text, old(p.Ahead(false))))
    ensures kind.CharClass? ==> len == 1 && (ok <==> old(p.Good()) && old(p.GetChar(false)) in kind.chars)
    ensures ok <==> old(KindTest(p, kind))
  {
    match kind {
      case Literal(text) =>
        var r := p.MatchImpl(text, Opts(false, false, false, false), "", String);
        ok, len := r.matched, |text|;
      case CharClass(chars) =>
        assert p.File()[p.line] == p.lines[p.line];
        ok, len := p.Good() && p.GetChar(false) in chars, 1;
    }
  }

  /** The first half of `match_single`: a mark at the cursor, then the
      test, which reads the text but leaves the cursor and the test as they
      were. */
  method MarkedProbe(p: FileParser, kind: Kind) returns (ok: bool, len: nat)
    requires p.Valid()
    modifies p
    ensures p.Valid() && p.Unmoved() && p.ReadsOn() && p.SameFile()
    ensures p.marks == old(p.marks) + [Mark(old(p.line), old(p.col))]
    ensures kind.CharClass? ==> p.good == old(p.good)
    ensures KindTest(p, kind) == old(KindTest(p, kind))
    ensures (ok <==> old(KindTest(p, kind))) && (ok ==> len == Width(kind))
  {
    p.SetMark();
    ok, len := Probe(p, kind);
  }

  /** Reverting to a mark set at the cursor, keeping it or not, changes
      nothing else. */
  method Unmark(p: FileParser, kind: Kind, keep: bool)
    requires p.Valid() && |p.marks| > 0 && p.marks[|p.marks| - 1] == Mark(p.line, p.col)
    modifies p
    ensures p.Valid() && p.Unmoved() && p.ReadsOn() && p.SameFile()
    ensures p.marks == if keep then old(p.marks) else old(p.marks)[..|old(p.marks)| - 1]
    ensures p.lines == old(p.lines) && p.input == old(p.input) && p.good == old(p.good)
    ensures KindTest(p, kind) == old(KindTest(p, kind))
  {
    p.RevertToMark(keep);
  }

  /** What `match_single` does to the parser: a mark, the test, then a
      revert to the mark that removes it on a failure and keeps it for a
      matching lookahead. */
  method SingleOn(p: FileParser, kind: Kind, lookahead: bool) returns (ok: bool, len: nat)
    requires p.Valid()
    modifies p
    ensures p.Valid() && p.Unmoved() && p.ReadsOn() && p.SameFile()
    ensures KindTest(p, kind) == old(KindTest(p, kind))
    ensures (ok <==> old(KindTest(p, kind))) && len == (if ok then Width(kind) else 0)
    ensures p.marks == if ok then old(p.marks) + [Mark(old(p.line), old(p.col))] else old(p.marks)
  {
    ok, len := MarkedProbe(p, kind);
    if !ok || lookahead {
      Unmark(p, kind, ok);
    }
    if !ok {
      len := 0;
    }
  }

  class Node {
    const kind: Kind
    const minReps: nat
    const maxReps: nat
    const backtrack: Backtrack
    const lookahead: bool
    var attempts: seq<Attempt>

    constructor (kind: Kind, minReps: nat, maxReps: nat, backtrack: Backtrack, lookahead: bool)
      ensures this.kind == kind && this.minReps == minReps && this.maxReps == maxReps
      ensures this.backtrack == backtrack && this.lookahead == lookahead && attempts == []
    {
      this.kind := kind;
      this.minReps := minReps;
      this.maxReps := maxReps;
      this.backtrack := backtrack;
      this.lookahead := lookahead;
      attempts := [];
    }

    /** The length this node currently contributes to a sequence match: the
        total of its latest match's repetitions. */
    function Contribution(): nat
      reads this
    {
      SumLen(SinceSentinel(attempts))
    }

    /** How many single matches the repetition loop of `match` keeps when
        every one of them matches: up to `maxReps`, or up to `minReps` when
        reluctant; a zero-length match ends the loop after the first. */
    function Reps(): nat
    {
      var cap := if backtrack == Reluctant && minReps < maxReps then minReps else maxReps;
      if Width(kind) == 0 && cap > 1 then 1 else cap
    }

    /** `match_single`: sets a mark on the parser and tests the node once
        (`parser.match(string)`, which does not consume, or the character at
        the cursor against the class). A match pushes an attempt with its
        length and leaves the mark; a failure reverts to the mark and
        removes it. Either way the cursor does not move. */
    method MatchSingle(p: FileParser, rep: nat) returns (ok: bool, len: nat)
      requires p.Valid()
      modifies this, p
      ensures p.Valid() && p.Unmoved() && p.ReadsOn() && p.SameFile()
      ensures KindTest(p, kind) == old(KindTest(p, kind))
      ensures ok <==> old(KindTest(p, kind))
      ensures len == if ok then Width(kind) else 0
      ensures ok ==> attempts == old(attempts) + [Attempt(len, rep)]
      ensures ok ==> p.marks == old(p.marks) + [Mark(old(p.line), old(p.col))]
      ensures !ok ==> attempts == old(attempts) && p.marks == old(p.marks)
    {
      ok, len := SingleOn(p, kind, lookahead);
      if ok {
        attempts := attempts + [Attempt(len, rep)];
      }
    }

    /** `start_attempt`: pushes a sentinel. */
    method StartAttempt()
      modifies this
      ensures attempts == old(attempts) + [Attempt(0, 0)]
    {
      attempts := attempts + [Attempt(0, 0)];
    }

    /** `pop_attempt`: removes the top attempt and says whether it was a
        repetition rather than the sentinel. */
    method PopAttempt() returns (more: bool)
      requires |attempts| > 0
      modifies this
      ensures attempts == old(attempts)[..|old(attempts)| - 1]
      ensures more <==> old(attempts)[|old(attempts)| - 1].rep != 0
    {
      more := attempts[|attempts| - 1].rep != 0;
      attempts := attempts[..|attempts| - 1];
    }

    /** `clear_attempt`: pops the latest match's repetitions and its
        sentinel, reverting the parser to and removing one mark per
        repetition. */
    method ClearAttempt(p: FileParser)
      requires p.Valid() && HasSentinel(attempts) && |SinceSentinel(attempts)| <= |p.marks|
      modifies this, p
      ensures p.Valid() && p.ReadsOn()
      ensures var n := |SinceSentinel(old(attempts))|;
        attempts == old(attempts)[..|old(attempts)| - n - 1] &&
        p.marks == old(p.marks)[..|old(p.marks)| - n]
      ensures var n := |SinceSentinel(old(attempts))|;
        n > 0 ==> p.line == old(p.marks)[|old(p.marks)| - n].line && p.col == old(p.marks)[|old(p.marks)| - n].col
      ensures |SinceSentinel(old(attempts))| == 0 ==> p.Unmoved()
    {
      ghost var a0, m0 := attempts, p.marks;
      SentinelAt(a0);
      ghost var n := |SinceSentinel(a0)|;
      ghost var j := 0;
      var more := PopAttempt();
      while more
        invariant p.Valid() && p.ReadsOn()
        invariant 0 <= j <= n
        invariant more <==> j < n
        invariant |attempts| == |a0| - j - 1 && attempts == a0[..|attempts|]
        invariant |p.marks| == |m0| - j && p.marks == m0[..|p.marks|]
        invariant j > 0 ==> p.line == m0[|m0| - j].line && p.col == m0[|m0| - j].col
        invariant j == 0 ==> p.Unmoved()
        decreases |attempts|
      {
        ghost var l0, i0, mx0, g0 := p.lines, p.input, p.maxLine, p.good;
        p.RevertToMark(false);
        ReadsTrans(old(p.lines), old(p.input), old(p.maxLine), old(p.good), l0, i0, mx0, g0, p.lines, p.input, p.maxLine, p.good);
        j := j + 1;
        more := PopAttempt();
      }
    }

    /** The repetition loop of `match`: single matches until `maxReps` (or,
        when reluctant, `minReps`) repetitions are reached or one fails; a
        zero-length match ends the loop with `rep` raised to `minReps`.
        `made` are the attempts pushed, `tries` counts the single matches. */
    method Repeat(p: FileParser) returns (len: nat, rep: nat, ghost made: seq<Attempt>, ghost tries: nat)
      requires p.Valid()
      modifies this, p
      ensures p.Valid() && p.Unmoved() && p.ReadsOn()
      ensures attempts == old(attempts) + made && Consecutive(made) && len == SumLen(made)
      ensures tries <= maxReps && |made| <= tries
      ensures backtrack == Reluctant ==> |made| <= minReps
      ensures rep < minReps ==> rep == |made|
      ensures rep >= minReps && |made| < minReps ==> |made| > 0 && made[|made| - 1].len == 0
      ensures |made| > 0 && made[|made| - 1].len == 0 ==> rep >= minReps
      ensures p.marks == old(p.marks) + Copies(Mark(old(p.line), old(p.col)), |made|)
      ensures forall a :: a in made ==> a.len == Width(kind)
      ensures |made| == if old(KindTest(p, kind)) then Reps() else 0
    {
      ghost var t := KindTest(p, kind);
      made := [];
      len := 0;
      tries := 0;
      rep := 0;
      var stop := false;
      while !stop
        invariant Looping(p, old(attempts), old(p.marks), Mark(old(p.line), old(p.col)), made, t,
                          old(p.lines), old(p.input), old(p.maxLine), old(p.good), old(p.contChar))
        invariant if stop then Done(len, rep, tries, made, t) else Going(len, rep, tries, made, t)
        decreases if stop then 0 else 1 + maxReps - tries
      {
        stop, len, rep, tries, made := RepeatStep(p, len, rep, tries, old(attempts), old(p.marks), Mark(old(p.line), old(p.col)), made, t,
                                                  old(p.lines), old(p.input), old(p.maxLine), old(p.good), old(p.contChar));
      }
      DoneFacts(len, rep, tries, made, t);
    }

    /** What the end of the repetition loop tells `match`. */
    lemma DoneFacts(len: nat, rep: nat, tries: nat, made: seq<Attempt>, t: bool)
      requires Done(len, rep, tries, made, t)
      ensures len == SumLen(made) && tries <= maxReps && |made| <= tries
      ensures backtrack == Reluctant ==> |made| <= minReps
      ensures rep < minReps ==> rep == |made|
      ensures rep >= minReps && |made| < minReps ==> |made| > 0 && made[|made| - 1].len == 0
      ensures |made| > 0 && made[|made| - 1].len == 0 ==> rep >= minReps
      ensures forall a :: a in made ==> a.len == Width(kind)
      ensures |made| == if t then Reps() else 0
    {
    }

    /** The attempts of the current `match`, `made`, sit on top of `base`,
        numbered `1, 2, ...`, and each left one mark at `at` on top of
        `baseMarks`. */
    ghost predicate Stacked(p: FileParser, base: seq<Attempt>, baseMarks: seq<Mark>, at: Mark, made: seq<Attempt>)
      reads this, p
    {
      attempts == base + made && Consecutive(made) && p.marks == baseMarks + Copies(at, |made|)
    }

    /** What the repetition loop keeps of the parser and the stack: the
        parser is valid, still at `at`, has only read on from the stream
        `lines0`/`input0`, the test still gives `t`, and `made` is stacked. */
    ghost predicate Looping(p: FileParser, base: seq<Attempt>, baseMarks: seq<Mark>, at: Mark, made: seq<Attempt>, t: bool,
                            lines0: seq<string>, input0: seq<string>, maxLine0: nat, good0: bool, cont0: char)
      reads this, p
    {
      p.Valid() && at == Mark(p.line, p.col) && p.contChar == cont0 &&
      Reads(lines0, input0, maxLine0, good0, p.lines, p.input, p.maxLine, p.good) &&
      KindTest(p, kind) == t && Stacked(p, base, baseMarks, at, made)
    }

    /** The repetition loop may go on: every try so far matched with a
        non-zero length, so the test `t` holds, and no bound stopped it yet. */
    ghost predicate Going(len: nat, rep: nat, tries: nat, made: seq<Attempt>, t: bool)
    {
      rep == |made| && tries == |made| && len == SumLen(made) && tries <= maxReps &&
      (backtrack == Reluctant ==> |made| <= minReps) &&
      (forall a :: a in made ==> a.len == Width(kind)) &&
      (made != [] ==> t && Width(kind) > 0)
    }

    /** The repetition loop is over: what `match` is told about it. */
    ghost predicate Done(len: nat, rep: nat, tries: nat, made: seq<Attempt>, t: bool)
    {
      (forall a :: a in made ==> a.len == Width(kind)) &&
      |made| == (if t then Reps() else 0) &&
      len == SumLen(made) && tries <= maxReps && |made| <= tries &&
      (backtrack == Reluctant ==> |made| <= minReps) &&
      (rep < minReps ==> rep == |made|) &&
      (rep >= minReps && |made| < minReps ==> |made| > 0 && made[|made| - 1].len == 0) &&
      (|made| > 0 && made[|made| - 1].len == 0 ==> rep >= minReps)
    }

    /** One round of the repetition loop: the two bounds, then
        `match_single` for repetition `rep + 1`, which on a match stacks one
        more attempt and mark; a zero-length match counts for all the
        repetitions still required. `t` is the node's test at the cursor:
        the loop goes on exactly when no bound is reached and the test
        passes with a non-zero length. */
    method RepeatStep(p: FileParser, len: nat, rep: nat, ghost tries: nat,
                      ghost base: seq<Attempt>, ghost baseMarks: seq<Mark>, ghost at: Mark, ghost made: seq<Attempt>, ghost t: bool,
                      ghost lines0: seq<string>, ghost input0: seq<string>, ghost maxLine0: nat, ghost good0: bool, ghost cont0: char)
      returns (stop: bool, len1: nat, rep1: nat, ghost tries1: nat, ghost made1: seq<Attempt>)
      requires Looping(p, base, baseMarks, at, made, t, lines0, input0, maxLine0, good0, cont0)
      requires Going(len, rep, tries, made, t)
      modifies this, p
      ensures Looping(p, base, baseMarks, at, made1, t, lines0, input0, maxLine0, good0, cont0)
      ensures var go := rep < maxReps && !(rep >= minReps && backtrack == Reluctant);
        tries1 == (if go then tries + 1 else tries) &&
        made1 == (if go && t then made + [Attempt(Width(kind), rep + 1)] else made) &&
        (!stop <==> go && t && Width(kind) > 0)
      ensures if stop then Done(len1, rep1, tries1, made1, t) else Going(len1, rep1, tries1, made1, t)
    {
      stop, len1, rep1, tries1, made1 := true, len, rep, tries, made;
      if rep >= maxReps || (rep >= minReps && backtrack == Reluctant) {
        BoundStop(len, rep, tries, made, t);
      } else {
        ghost var l1, i1, m1, g1 := p.lines, p.input, p.maxLine, p.good;
        stop, len1, rep1, made1 := RepeatOnce(p, len, rep, tries, base, baseMarks, at, made, t);
        tries1 := tries + 1;
        ReadsTrans(lines0, input0, maxLine0, good0, l1, i1, m1, g1, p.lines, p.input, p.maxLine, p.good);
      }
    }

    /** The round of the repetition loop within the bounds: `match_single`
        for repetition `rep + 1`. */
    method RepeatOnce(p: FileParser, len: nat, rep: nat, ghost tries: nat,
                  ghost base: seq<Attempt>, ghost baseMarks: seq<Mark>, ghost at: Mark, ghost made: seq<Attempt>, ghost t: bool)
      returns (stop: bool, len1: nat, rep1: nat, ghost made1: seq<Attempt>)
      requires p.Valid() && at == Mark(p.line, p.col) && Stacked(p, base, baseMarks, at, made) && Going(len, rep, tries, made, t)
      requires KindTest(p, kind) == t
      requires rep < maxReps && !(rep >= minReps && backtrack == Reluctant)
      modifies this, p
      ensures p.Valid() && p.Unmoved() && p.ReadsOn() && p.SameFile() && KindTest(p, kind) == t
      ensures Stacked(p, base, baseMarks, at, made1)
      ensures made1 == (if t then made + [Attempt(Width(kind), rep + 1)] else made)
      ensures !stop <==> t && Width(kind) > 0
      ensures if stop then Done(len1, rep1, tries + 1, made1, t) else Going(len1, rep1, tries + 1, made1, t)
    {
      var hit, repLen := MatchSingle(p, rep + 1);
      stop := !(hit && repLen > 0);
      len1 := len + repLen;
      rep1 := if !hit then rep else if repLen > 0 then rep + 1 else if rep < minReps then minReps else rep;
      made1 := if hit then made + [Attempt(repLen, rep + 1)] else made;
      CopiesPush(baseMarks, at, |made|);
      assert hit ==> attempts == base + made1;
      RoundOutcome(len, rep, tries, made, t, hit, repLen, stop, len1, rep1, made1);
    }

    /** What one round within the bounds makes of the test's outcome: a
        miss or a zero-length match ends the loop, any other match lets it
        go on. */
    lemma RoundOutcome(len: nat, rep: nat, tries: nat, made: seq<Attempt>, t: bool,
                       hit: bool, w: nat, stop: bool, len1: nat, rep1: nat, made1: seq<Attempt>)
      requires Going(len, rep, tries, made, t) && Consecutive(made)
      requires rep < maxReps && !(rep >= minReps && backtrack == Reluctant)
      requires (hit <==> t) && (hit ==> w == Width(kind)) && (!hit ==> w == 0)
      requires stop == !(hit && w > 0) && len1 == len + w
      requires rep1 == if !hit then rep else if w > 0 then rep + 1 else if rep < minReps then minReps else rep
      requires made1 == if hit then made + [Attempt(w, rep + 1)] else made
      ensures Consecutive(made1)
      ensures made1 == (if t then made + [Attempt(Width(kind), rep + 1)] else made)
      ensures !stop <==> t && Width(kind) > 0
      ensures if stop then Done(len1, rep1, tries + 1, made1, t) else Going(len1, rep1, tries + 1, made1, t)
    {
      if !hit {
        MissStop(len, rep, tries, made, t);
      } else {
        PushRepetition(made, Attempt(w, rep + 1));
        if w == 0 {
          EmptyStop(len, rep, tries, made, t);
        } else {
          GoOn(len, rep, tries, made, t);
        }
      }
    }

    /** A bound ends the repetition loop with the attempts made so far. */
    lemma BoundStop(len: nat, rep: nat, tries: nat, made: seq<Attempt>, t: bool)
      requires Going(len, rep, tries, made, t)
      requires rep >= maxReps || (rep >= minReps && backtrack == Reluctant)
      ensures Done(len, rep, tries, made, t)
    {
    }

    /** A match of non-zero length lets the loop go on. */
    lemma GoOn(len: nat, rep: nat, tries: nat, made: seq<Attempt>, t: bool)
      requires Going(len, rep, tries, made, t) && t && Width(kind) > 0
      requires rep < maxReps && !(rep >= minReps && backtrack == Reluctant)
      requires SumLen(made + [Attempt(Width(kind), rep + 1)]) == len + Width(kind)
      ensures Going(len + Width(kind), rep + 1, tries + 1, made + [Attempt(Width(kind), rep + 1)], t)
    {
    }

    /** A failing test ends the loop before any attempt was made. */
    lemma MissStop(len: nat, rep: nat, tries: nat, made: seq<Attempt>, t: bool)
      requires Going(len, rep, tries, made, t) && rep < maxReps && !t
      ensures Done(len, rep, tries + 1, made, t)
    {
    }

    /** A zero-length match is the first and last attempt, and counts for
        every repetition still required. */
    lemma EmptyStop(len: nat, rep: nat, tries: nat, made: seq<Attempt>, t: bool)
      requires Going(len, rep, tries, made, t) && t && Width(kind) == 0
      requires rep < maxReps && !(rep >= minReps && backtrack == Reluctant)
      requires Consecutive(made + [Attempt(0, rep + 1)])
      ensures Done(len, if rep < minReps then minReps else rep, tries + 1, made + [Attempt(0, rep + 1)], t)
    {
    }

    /** `match`: a sentinel, then the repetition loop; with fewer than
        `minReps` repetitions the attempts are cleared and the match fails.
        `tries` counts the single matches, `successes` those that matched. */
    method Match(p: FileParser) returns (ok: bool, len: nat, ghost tries: nat, ghost successes: nat, ghost made: seq<Attempt>)
      requires p.Valid()
      modifies this, p
      ensures p.Valid() && p.Unmoved() && p.ReadsOn()
      ensures tries <= maxReps && successes <= tries
      ensures backtrack == Reluctant ==> successes <= minReps
      ensures !ok ==> successes < minReps && attempts == old(attempts) && p.marks == old(p.marks)
      ensures ok ==>
        |attempts| == |old(attempts)| + 1 + successes && attempts[..|old(attempts)|] == old(attempts) &&
        attempts[|old(attempts)|] == Attempt(0, 0) && Consecutive(attempts[|old(attempts)| + 1..]) &&
        len == SumLen(attempts[|old(attempts)| + 1..]) && len == Contribution() && HasSentinel(attempts)
      ensures ok && successes < minReps ==> successes > 0 && attempts[|attempts| - 1].len == 0
      ensures successes == |made| && (ok ==> attempts[|old(attempts)| + 1..] == made)
      ensures successes > 0 && made[successes - 1].len == 0 ==> ok
      ensures ok ==> |p.marks| == |old(p.marks)| + successes && p.marks[..|old(p.marks)|] == old(p.marks)
      ensures forall a :: a in made ==> a.len == Width(kind)
      ensures successes == if old(KindTest(p, kind)) then Reps() else 0
      ensures ok <==> minReps == 0 || (old(KindTest(p, kind)) && (minReps <= maxReps || (Width(kind) == 0 && maxReps > 0)))
      ensures ok ==> len == successes * Width(kind)
    {
      ghost var t := KindTest(p, kind);
      StartAttempt();
      assert KindTest(p, kind) == t;
      var rep;
      len, rep, made, tries := Repeat(p);
      successes := |made|;
      Enough(rep, made, t);
      SumLenUniform(made, Width(kind));
      MatchStack(old(attempts), made);
      MarkStack(old(p.marks), Mark(old(p.line), old(p.col)), |made|);
      ghost var l0, i0, m0, g0 := p.lines, p.input, p.maxLine, p.good;
      ok := EndMatch(p, rep, old(attempts), old(p.marks), made);
      ReadsTrans(old(p.lines), old(p.input), old(p.maxLine), old(p.good), l0, i0, m0, g0, p.lines, p.input, p.maxLine, p.good);
    }

    /** The end of `match`: at or past `minReps` it succeeds, otherwise its
        attempts and marks are cleared. */
    method EndMatch(p: FileParser, rep: nat, ghost base: seq<Attempt>, ghost baseMarks: seq<Mark>, ghost made: seq<Attempt>)
      returns (ok: bool)
      requires p.Valid() && attempts == base + [Attempt(0, 0)] + made && Consecutive(made)
      requires p.marks == baseMarks + Copies(Mark(p.line, p.col), |made|)
      modifies this, p
      ensures p.Valid() && p.Unmoved() && p.ReadsOn()
      ensures ok == (rep >= minReps)
      ensures ok ==> attempts == old(attempts) && p.marks == old(p.marks)
      ensures !ok ==> attempts == base && p.marks == baseMarks
    {
      ok := rep >= minReps;
      if !ok {
        ClearMade(p, base, baseMarks, made);
      }
    }

    /** When the repetition loop ends at or past `minReps`: with no
        repetition required, or with the test passing and the bounds
        allowing `minReps`, where a zero-length match counts for them all. */
    lemma Enough(rep: nat, made: seq<Attempt>, t: bool)
      requires rep < minReps ==> rep == |made|
      requires rep >= minReps && |made| < minReps ==> |made| > 0 && made[|made| - 1].len == 0
      requires |made| > 0 && made[|made| - 1].len == 0 ==> rep >= minReps
      requires forall a :: a in made ==> a.len == Width(kind)
      requires |made| == if t then Reps() else 0
      ensures rep >= minReps <==> minReps == 0 || (t && (minReps <= maxReps || (Width(kind) == 0 && maxReps > 0)))
    {
      if |made| > 0 {
        assert made[|made| - 1] in made;
      }
    }

    /** `clear_attempt` after a failed `match`: the sentinel and the
        repetitions `made` above it go, and with them their marks, which
        all sit at the current position. */
    method ClearMade(p: FileParser, ghost base: seq<Attempt>, ghost baseMarks: seq<Mark>, ghost made: seq<Attempt>)
      requires p.Valid() && attempts == base + [Attempt(0, 0)] + made && Consecutive(made)
      requires p.marks == baseMarks + Copies(Mark(p.line, p.col), |made|)
      modifies this, p
      ensures p.Valid() && p.Unmoved() && p.ReadsOn()
      ensures attempts == base && p.marks == baseMarks
    {
      SinceFreshSentinel(base, made);
      assert |made| > 0 ==> p.marks[|p.marks| - |made|] == Mark(p.line, p.col);
      assert p.marks[..|baseMarks|] == baseMarks;
      assert attempts[..|base|] == base;
      ClearAttempt(p);
    }

    /** `change_match` on a leaf: a possessive node never changes; a
        reluctant one tries one more repetition unless it is at `maxReps`;
        a greedy one gives up its last repetition unless it is at
        `minReps`. `len` is the caller's running length, which includes this
        node's contribution. */
    method ChangeMatch(p: FileParser, len: nat) returns (ok: bool, newLen: nat)
      requires p.Valid() && |attempts| > 0 && Contribution() <= len
      modifies this, p
      ensures p.Valid() && p.Unmoved() && p.ReadsOn()
      ensures backtrack == Possessive ==> !ok
      ensures backtrack == Reluctant && old(attempts)[|old(attempts)| - 1].rep >= maxReps ==> !ok
      ensures backtrack == Reluctant && old(attempts)[|old(attempts)| - 1].rep < maxReps ==> (ok <==> old(KindTest(p, kind)))
      ensures ok && backtrack == Reluctant ==> newLen == len + Width(kind)
      ensures backtrack == Greedy ==> (ok <==> old(attempts)[|old(attempts)| - 1].rep > minReps)
      ensures !ok ==> attempts == old(attempts) && newLen == len && p.marks == old(p.marks)
      ensures ok && backtrack == Reluctant ==>
        newLen >= len &&
        attempts == old(attempts) + [Attempt(newLen - len, old(attempts)[|old(attempts)| - 1].rep + 1)]
      ensures ok && backtrack == Greedy ==>
        attempts == old(attempts)[..|old(attempts)| - 1] &&
        newLen == len - old(attempts)[|old(attempts)| - 1].len && p.marks == old(p.marks)
      ensures ok ==> newLen + old(Contribution()) == len + Contribution()
      ensures HasSentinel(old(attempts)) ==> HasSentinel(attempts)
    {
      match backtrack {
        case Possessive =>
          return false, len;
        case Reluctant =>
          ok, newLen := ChangeReluctant(p, len);
        case Greedy =>
          ok, newLen := ChangeGreedy(p, len);
      }
    }

    /** The reluctant branch of `change_match`: one more repetition, unless
        `maxReps` is reached. */
    method ChangeReluctant(p: FileParser, len: nat) returns (ok: bool, newLen: nat)
      requires p.Valid() && |attempts| > 0 && Contribution() <= len
      modifies this, p
      ensures p.Valid() && p.Unmoved() && p.ReadsOn()
      ensures old(attempts)[|old(attempts)| - 1].rep >= maxReps ==> !ok
      ensures old(attempts)[|old(attempts)| - 1].rep < maxReps ==> (ok <==> old(KindTest(p, kind)))
      ensures ok ==> newLen == len + Width(kind)
      ensures !ok ==> attempts == old(attempts) && newLen == len && p.marks == old(p.marks)
      ensures ok ==>
        newLen >= len &&
        attempts == old(attempts) + [Attempt(newLen - len, old(attempts)[|old(attempts)| - 1].rep + 1)]
      ensures ok ==> newLen + old(Contribution()) == len + Contribution()
      ensures HasSentinel(old(attempts)) ==> HasSentinel(attempts)
    {
      var att := attempts[|attempts| - 1];
      ok, newLen := false, len;
      if att.rep < maxReps {
        var subLen;
        ok, subLen := MatchSingle(p, att.rep + 1);
        if ok {
          SinceSentinelPush(old(attempts), Attempt(subLen, att.rep + 1));
          newLen := len + subLen;
        }
      }
    }

    /** The greedy branch of `change_match` on a leaf: give up the last
        repetition, unless only `minReps` are left. */
    method ChangeGreedy(p: FileParser, len: nat) returns (ok: bool, newLen: nat)
      requires p.Valid() && |attempts| > 0 && Contribution() <= len
      modifies this
      ensures ok <==> old(attempts)[|old(attempts)| - 1].rep > minReps
      ensures !ok ==> attempts == old(attempts) && newLen == len
      ensures ok ==>
        attempts == old(attempts)[..|old(attempts)| - 1] &&
        newLen == len - old(attempts)[|old(attempts)| - 1].len
      ensures ok ==> newLen + old(Contribution()) == len + Contribution()
      ensures HasSentinel(old(attempts)) ==> HasSentinel(attempts)
    {
      var att := attempts[|attempts| - 1];
      if att.rep <= minReps {
        return false, len;
      }
      SinceSentinelPop(attempts);
      newLen := len - attempts[|attempts| - 1].len;
      var _ := PopAttempt();
      return true, newLen;
    }
  }

  /** No node occurs twice in the sequence. */
  predicate Distinct(list: seq<Node>)
  {
    forall a, b :: 0 <= a < b < |list| ==> list[a] != list[b]
  }

  /** What the nodes of a sequence currently contribute. */
  ghost function Contributions(list: seq<Node>): seq<nat>
    reads set n | n in list
  {
    seq(|list|, k reads set n | n in list requires 0 <= k < |list| => list[k].Contribution())
  }

  /** `cs` are what the first `|cs|` nodes currently contribute, and each of
      them holds a match. */
  ghost predicate Tracked(list: seq<Node>, cs: seq<nat>)
    reads set n | n in list
  {
    |cs| <= |list| &&
    forall j :: 0 <= j < |cs| ==> cs[j] == list[j].Contribution() && HasSentinel(list[j].attempts)
  }

  /** Matching node `i` after the first `i` matched: on success its length
      joins the running total. */
  method ForeStep(p: FileParser, list: seq<Node>, i: nat, len: nat, ghost cs: seq<nat>)
    returns (hit: bool, newLen: nat, ghost cs': seq<nat>)
    requires p.Valid() && Distinct(list) && i < |list| && |cs| == i
    requires Tracked(list, cs) && len == Sum(cs)
    modifies p, list[i]
    ensures p.Valid() && Tracked(list, cs') && newLen == Sum(cs')
    ensures hit ==> |cs'| == i + 1
    ensures !hit ==> cs' == cs
  {
    var subLen;
    ghost var tries, successes, made;
    hit, subLen, tries, successes, made := list[i].Match(p);
    if hit {
      cs' := cs + [subLen];
      assert cs'[..i] == cs;
      newLen := len + subLen;
    } else {
      cs', newLen := cs, len;
    }
  }

  /** Asking node `i` to change its match: on success the total follows its
      new contribution; otherwise its contribution is dropped. */
  method BackStep(p: FileParser, list: seq<Node>, i: nat, len: nat, ghost cs: seq<nat>)
    returns (changed: bool, newLen: nat, ghost cs': seq<nat>)
    requires p.Valid() && Distinct(list) && i < |list| && |cs| == i + 1
    requires Tracked(list, cs) && len == Sum(cs)
    modifies p, list[i]
    ensures p.Valid() && Tracked(list, cs') && newLen == Sum(cs')
    ensures changed ==> |cs'| == i + 1
    ensures !changed ==> |cs'| == i
  {
    assert cs[..i] + [cs[i]] == cs;
    var drop := list[i].Contribution();
    changed, newLen := list[i].ChangeMatch(p, len);
    if changed {
      cs' := cs[..i] + [list[i].Contribution()];
      assert cs'[..i] == cs[..i];
    } else {
      newLen := newLen - drop;
      cs' := cs[..i];
    }
  }

  /** `match_sequence` on a sequence of leaves, with the backtracking
      order evidently intended: each node is matched in turn; when one fails,
      the previous nodes are asked in reverse order to change their match,
      dropping the contribution of each that cannot, and matching resumes
      after the first one that can. It fails when no node before the
      failing one can change. `fuel` bounds the number of node matches. On
      success the length is the sum of what the nodes now contribute. */
  method MatchSequence(p: FileParser, list: seq<Node>, fuel: nat) returns (ok: bool, len: nat)
    requires p.Valid() && Distinct(list)
    modifies p, set n | n in list
    ensures p.Valid()
    ensures ok ==> len == Sum(Contributions(list))
  {
    len := 0;
    var i := 0;
    var f := fuel;
    ghost var contribs: seq<nat> := [];
    while i < |list|
      invariant 0 <= i <= |list| && |contribs| == i
      invariant p.Valid() && Tracked(list, contribs) && len == Sum(contribs)
      decreases f
    {
      if f == 0 {
        return false, len;
      }
      f := f - 1;
      var hit;
      hit, len, contribs := ForeStep(p, list, i, len, contribs);
      if hit {
        i := i + 1;
      } else {
        var changed := false;
        while !changed
          invariant 0 <= i <= |list| && |contribs| == i
          invariant p.Valid() && Tracked(list, contribs) && len == Sum(contribs)
          invariant changed ==> i > 0
          decreases if changed then 0 else 1, i
        {
          if i == 0 {
            return false, len;
          }
          i := i - 1;
          changed, len, contribs := BackStep(p, list, i, len, contribs);
          if changed {
            i := i + 1;
          }
        }
      }
    }
    assert contribs == Contributions(list);
    ok := true;
  }
}
