/** `file_parser` (src/file_parser.cpp): a cursor over a line-buffered text
    input. Lines are read on demand; the newest line is at the front of
    `bufs`, line `n` sits at `bufs[max_line - n]`, and every retained line
    carries the number of marks that point into it. Lines older than the
    current one are dropped as soon as no mark points into them.

    The input stream is the sequence `input` of the lines still to be read
    (`std::getline` pops its head); `good` is the stream's `good()` bit. The
    ghost `lines` holds every line read so far, `lines[n]` being line `n`
    (line 0 is the empty line the default constructor starts on), so that
    positions and the text between them keep their meaning after the
    buffers have been pruned. */
module FileParsing {
  import opened CharUtils

  /** A retained line and the number of marks pointing into it. */
  datatype LineBuf = LineBuf(text: string, marks: nat)

  /** `mark_location`. */
  datatype Mark = Mark(line: nat, col: nat)

  /** The option bits `single_line`, `consume`, `backwards`, `lookahead`. */
  datatype Opts = Opts(singleLine: bool, consume: bool, backwards: bool, lookahead: bool)

  /** `match_style`: which `match_*` / `seek_*` entry point is used. */
  datatype Style = Char | String | Chars | NotChars | WordBoundary

  /** The `substr_flags` bits that `substr` reads (`PARSE` is never read). */
  datatype SubstrFlags = SubstrFlags(keepMark: bool, keepNewline: bool, containsAny: bool, containsNot: bool)

  /** What a `match_*` / `seek_*` call does: returns a verdict, or reports
      its error message and ends the process (`error(err)`). */
  datatype Outcome = Done(matched: bool) | Terminated(message: string)

  /** The UTF-8 byte order mark, the bytes EF BB BF as one character each. */
  const BOM: string := "\U{EF}\U{BB}\U{BF}"

  /** The number of marks on line `ln`. */
  function MarksOn(marks: seq<Mark>, ln: int): (r: nat)
    ensures r <= |marks|
  {
    if |marks| == 0 then 0
    else MarksOn(marks[..|marks| - 1], ln) + (if marks[|marks| - 1].line == ln then 1 else 0)
  }

  /** A line counts no mark exactly when no mark is on it. */
  lemma {:induction false} MarksOnZero(marks: seq<Mark>, ln: int)
    ensures MarksOn(marks, ln) == 0 <==> forall i :: 0 <= i < |marks| ==> marks[i].line != ln
  {
    if |marks| > 0 {
      var rest := marks[..|marks| - 1];
      MarksOnZero(rest, ln);
      assert forall i :: 0 <= i < |marks| - 1 ==> rest[i] == marks[i];
    }
  }

  /** Pushing a mark adds one to its own line's count only. */
  lemma MarksOnPush(marks: seq<Mark>, m: Mark, ln: int)
    ensures MarksOn(marks + [m], ln) == MarksOn(marks, ln) + (if m.line == ln then 1 else 0)
  {
    assert (marks + [m])[..|marks|] == marks;
  }

  /** Retained line `maxLine - k` is `bufs[k]`. */
  ghost predicate Texts(bufs: seq<LineBuf>, lines: seq<string>, maxLine: nat)
  {
    |bufs| <= maxLine + 1 == |lines| &&
    forall k :: 0 <= k < |bufs| ==> bufs[k].text == lines[maxLine - k]
  }

  /** Every mark lies on a line from `minLine` on, within that line. */
  ghost predicate MarksWithin(marks: seq<Mark>, minLine: nat, lines: seq<string>)
  {
    forall i :: 0 <= i < |marks| ==>
      minLine <= marks[i].line < |lines| && marks[i].col <= |lines[marks[i].line]|
  }

  /** Every retained line counts the marks on it. */
  ghost predicate Counted(bufs: seq<LineBuf>, marks: seq<Mark>, maxLine: nat)
  {
    forall k :: 0 <= k < |bufs| ==> bufs[k].marks == MarksOn(marks, maxLine - k)
  }

  /** `++MARK_COUNT` after `marks.push`. */
  lemma CountPush(bufs: seq<LineBuf>, marks: seq<Mark>, maxLine: nat, m: Mark)
    requires Counted(bufs, marks, maxLine) && m.line <= maxLine && maxLine - m.line < |bufs|
    ensures var k := maxLine - m.line;
      Counted(bufs[k := LineBuf(bufs[k].text, bufs[k].marks + 1)], marks + [m], maxLine)
  {
    var k := maxLine - m.line;
    var b := bufs[k := LineBuf(bufs[k].text, bufs[k].marks + 1)];
    forall j | 0 <= j < |b|
      ensures b[j].marks == MarksOn(marks + [m], maxLine - j)
    {
      MarksOnPush(marks, m, maxLine - j);
    }
  }

  /** `--(bufs[max_line - MARK.line].second)` with the pop. */
  lemma CountPop(bufs: seq<LineBuf>, rest: seq<Mark>, maxLine: nat, m: Mark)
    requires Counted(bufs, rest + [m], maxLine) && m.line <= maxLine && maxLine - m.line < |bufs|
    ensures var k := maxLine - m.line;
      bufs[k].marks >= 1 &&
      Counted(bufs[k := LineBuf(bufs[k].text, bufs[k].marks - 1)], rest, maxLine)
  {
    var k := maxLine - m.line;
    MarksOnPush(rest, m, m.line);
    var b := bufs[k := LineBuf(bufs[k].text, bufs[k].marks - 1)];
    forall j | 0 <= j < |b|
      ensures b[j].marks == MarksOn(rest, maxLine - j)
    {
      MarksOnPush(rest, m, maxLine - j);
    }
  }

  /** Changing a count leaves the texts in place. */
  lemma TextsRecount(bufs: seq<LineBuf>, lines: seq<string>, maxLine: nat, k: nat, c: nat)
    requires Texts(bufs, lines, maxLine) && k < |bufs|
    ensures Texts(bufs[k := LineBuf(bufs[k].text, c)], lines, maxLine)
  {
    var b := bufs[k := LineBuf(bufs[k].text, c)];
    forall j | 0 <= j < |b|
      ensures b[j].text == lines[maxLine - j]
    {
      assert b[j].text == bufs[j].text;
    }
  }

  /** `bufs.push_front(tmp_buf)` after `++max_line`: the new line is the
      front, with no marks on it. */
  lemma PushFront(bufs: seq<LineBuf>, lines: seq<string>, marks: seq<Mark>, minLine: nat, maxLine: nat, tmp: string)
    requires |lines| == maxLine + 1
    requires Texts(bufs, lines, maxLine) && Counted(bufs, marks, maxLine) && MarksWithin(marks, minLine, lines)
    ensures Texts([LineBuf(tmp, 0)] + bufs, lines + [tmp], maxLine + 1)
    ensures Counted([LineBuf(tmp, 0)] + bufs, marks, maxLine + 1)
    ensures MarksWithin(marks, minLine, lines + [tmp])
    ensures forall i :: 0 <= i < |marks| ==> marks[i].line < maxLine + 1
  {
    var b := [LineBuf(tmp, 0)] + bufs;
    var l := lines + [tmp];
    MarksOnZero(marks, maxLine + 1);
    forall j | 0 <= j < |b|
      ensures b[j].text == l[maxLine + 1 - j]
      ensures b[j].marks == MarksOn(marks, maxLine + 1 - j)
    {
      if j > 0 {
        assert b[j] == bufs[j - 1];
        assert bufs[j - 1].text == lines[maxLine - (j - 1)];
        assert l[maxLine + 1 - j] == lines[maxLine + 1 - j];
      }
    }
  }

  /** `std::swap(BUF, tmp_buf)` when no mark is set and only the current
      line is retained: the new line replaces it. */
  lemma SwapFront(bufs: seq<LineBuf>, lines: seq<string>, maxLine: nat, tmp: string)
    requires |lines| == maxLine + 1 && |bufs| == 1 && Counted(bufs, [], maxLine)
    ensures Texts(bufs[0 := LineBuf(tmp, bufs[0].marks)], lines + [tmp], maxLine + 1)
    ensures Counted(bufs[0 := LineBuf(tmp, bufs[0].marks)], [], maxLine + 1)
  {
  }

  /** `BUF += tmp_buf` on the newest line, which no mark points into. */
  lemma AppendFront(bufs: seq<LineBuf>, lines: seq<string>, marks: seq<Mark>, minLine: nat, maxLine: nat, more: string)
    requires |lines| == maxLine + 1 && |bufs| > 0
    requires Texts(bufs, lines, maxLine) && Counted(bufs, marks, maxLine) && MarksWithin(marks, minLine, lines)
    requires forall i :: 0 <= i < |marks| ==> marks[i].line < maxLine
    ensures var b := bufs[0 := LineBuf(bufs[0].text + more, bufs[0].marks)];
      Texts(b, lines[maxLine := b[0].text], maxLine) && Counted(b, marks, maxLine) &&
      MarksWithin(marks, minLine, lines[maxLine := b[0].text])
  {
    var b := bufs[0 := LineBuf(bufs[0].text + more, bufs[0].marks)];
    var l := lines[maxLine := b[0].text];
    forall j | 0 <= j < |b|
      ensures b[j].text == l[maxLine - j]
      ensures b[j].marks == MarksOn(marks, maxLine - j)
    {
      if j > 0 {
        assert b[j] == bufs[j];
        assert bufs[j].text == lines[maxLine - j];
        assert l[maxLine - j] == lines[maxLine - j];
      }
    }
    forall i | 0 <= i < |marks|
      ensures minLine <= marks[i].line < |l| && marks[i].col <= |l[marks[i].line]|
    {
      assert l[marks[i].line] == lines[marks[i].line];
    }
  }

  /** `std::getline` strips the line terminator. */
  ghost predicate NoNewlines(ls: seq<string>)
  {
    forall n :: 0 <= n < |ls| ==> '\n' !in ls[n]
  }

  /** Concatenation of a sequence of lines. */
  function Concat(ls: seq<string>): string
  {
    if |ls| == 0 then "" else ls[0] + Concat(ls[1..])
  }

  /** The result of joining continued lines. */
  datatype Joined = Joined(text: string, used: nat, complete: bool)

  /** The continuation loop of `get_line`: while the text ends in the
      continuation character, the next input line is appended (the
      continuation character itself stays). `used` lines of `rest` are
      consumed; `complete` is false when the input ran out first. */
  function JoinLines(text: string, rest: seq<string>, cont: char): (r: Joined)
    ensures r.used <= |rest|
    ensures r.complete ==> |r.text| == 0 || r.text[|r.text| - 1] != cont
    ensures !r.complete ==> r.used == |rest| && |r.text| > 0 && r.text[|r.text| - 1] == cont
    decreases |rest|
  {
    if |text| > 0 && text[|text| - 1] == cont then
      if |rest| == 0 then Joined(text, 0, false)
      else
        var j := JoinLines(text + rest[0], rest[1..], cont);
        Joined(j.text, j.used + 1, j.complete)
    else
      Joined(text, 0, true)
  }

  /** The joined text is the text followed by the lines joined to it. */
  lemma {:induction false} JoinLinesText(text: string, rest: seq<string>, cont: char)
    ensures var r := JoinLines(text, rest, cont);
      r.text == text + Concat(rest[..r.used])
    decreases |rest|
  {
    if |text| > 0 && text[|text| - 1] == cont && |rest| > 0 {
      var j := JoinLines(text + rest[0], rest[1..], cont);
      JoinLinesText(text + rest[0], rest[1..], cont);
      assert rest[..j.used + 1][1..] == rest[1..][..j.used];
      assert (text + rest[0]) + Concat(rest[1..][..j.used]) == text + (rest[0] + Concat(rest[1..][..j.used]));
    }
  }

  /** Joining lines without a newline yields a line without one. */
  lemma {:induction false} JoinNoNewline(text: string, rest: seq<string>, cont: char)
    requires '\n' !in text && NoNewlines(rest)
    ensures '\n' !in JoinLines(text, rest, cont).text
    decreases |rest|
  {
    if |text| > 0 && text[|text| - 1] == cont && |rest| > 0 {
      assert '\n' !in rest[0];
      JoinNoNewline(text + rest[0], rest[1..], cont);
    }
  }

  /** The `while(BUF.back() == cont_char)` loop of `get_line`, on the
      newest line's text and the remaining input: appends one input line per
      round and stops when the text no longer ends in `cont` or the input
      runs out. */
  method JoinLoop(text0: string, input: seq<string>, cont: char) returns (j: Joined)
    ensures j == JoinLines(text0, input, cont)
  {
    var text := text0;
    var rest := input;
    var complete := true;
    while |text| > 0 && text[|text| - 1] == cont
      invariant |rest| <= |input| && rest == input[|input| - |rest|..]
      invariant JoinLines(text, rest, cont).text == JoinLines(text0, input, cont).text
      invariant JoinLines(text, rest, cont).complete == JoinLines(text0, input, cont).complete
      invariant |input| - |rest| + JoinLines(text, rest, cont).used == JoinLines(text0, input, cont).used
      decreases |rest|
    {
      if rest == [] {
        complete := false;
        break;
      }
      text := text + rest[0];
      rest := rest[1..];
    }
    j := Joined(text, |input| - |rest|, complete);
  }

  /** The position `(l0, c0)` is not after `(l1, c1)`. */
  predicate NotAfter(l0: nat, c0: nat, l1: nat, c1: nat)
  {
    l0 < l1 || (l0 == l1 && c0 <= c1)
  }

  /** Both positions lie in `lines`, the first one not after the second. */
  ghost predicate SpanOk(lines: seq<string>, l0: nat, c0: nat, l1: nat, c1: nat)
  {
    NotAfter(l0, c0, l1, c1) && l1 < |lines| && c0 <= |lines[l0]| && c1 <= |lines[l1]|
  }

  /** The text from `(l0, c0)` up to `(l1, c1)` in file order, with a `'\n'`
      at each line break when `nl`. */
  ghost function Span(lines: seq<string>, l0: nat, c0: nat, l1: nat, c1: nat, nl: bool): string
    requires SpanOk(lines, l0, c0, l1, c1)
    decreases l1
  {
    if l0 == l1 then lines[l1][c0..c1]
    else Span(lines, l0, c0, l1 - 1, |lines[l1 - 1]|, nl) + (if nl then "\n" else "") + lines[l1][..c1]
  }

  /** One more character of the same line. */
  lemma SpanNextChar(lines: seq<string>, l0: nat, c0: nat, l1: nat, c1: nat, nl: bool)
    requires SpanOk(lines, l0, c0, l1, c1) && c1 < |lines[l1]|
    ensures SpanOk(lines, l0, c0, l1, c1 + 1)
    ensures Span(lines, l0, c0, l1, c1 + 1, nl) == Span(lines, l0, c0, l1, c1, nl) + [lines[l1][c1]]
  {
    if l0 == l1 {
      assert lines[l1][c0..c1 + 1] == lines[l1][c0..c1] + [lines[l1][c1]];
    } else {
      assert lines[l1][..c1 + 1] == lines[l1][..c1] + [lines[l1][c1]];
    }
  }

  /** The length of the text between two positions: the columns between
      them on one line, more than the rest of the first line otherwise. */
  lemma {:induction false} SpanLength(lines: seq<string>, l0: nat, c0: nat, l1: nat, c1: nat)
    requires SpanOk(lines, l0, c0, l1, c1)
    ensures l0 == l1 ==> |Span(lines, l0, c0, l1, c1, true)| == c1 - c0
    ensures l0 < l1 ==> |Span(lines, l0, c0, l1, c1, true)| > |lines[l0]| - c0
    decreases l1
  {
    if l0 < l1 {
      SpanLength(lines, l0, c0, l1 - 1, |lines[l1 - 1]|);
    }
  }

  /** Across a line break. */
  lemma SpanNextLine(lines: seq<string>, l0: nat, c0: nat, l1: nat, nl: bool)
    requires l1 + 1 < |lines| && SpanOk(lines, l0, c0, l1, |lines[l1]|)
    ensures SpanOk(lines, l0, c0, l1 + 1, 0)
    ensures Span(lines, l0, c0, l1 + 1, 0, nl) == Span(lines, l0, c0, l1, |lines[l1]|, nl) + (if nl then "\n" else "")
  {
    assert lines[l1 + 1][..0] == "";
  }

  /** One more character of the first line, in front. */
  lemma {:induction false} SpanPrevChar(lines: seq<string>, l0: nat, c0: nat, l1: nat, c1: nat, nl: bool)
    requires SpanOk(lines, l0, c0, l1, c1) && c0 > 0
    ensures SpanOk(lines, l0, c0 - 1, l1, c1)
    ensures Span(lines, l0, c0 - 1, l1, c1, nl) == [lines[l0][c0 - 1]] + Span(lines, l0, c0, l1, c1, nl)
    decreases l1
  {
    if l0 == l1 {
      assert lines[l1][c0 - 1..c1] == [lines[l1][c0 - 1]] + lines[l1][c0..c1];
    } else {
      SpanPrevChar(lines, l0, c0, l1 - 1, |lines[l1 - 1]|, nl);
      var front := Span(lines, l0, c0, l1 - 1, |lines[l1 - 1]|, nl);
      var back := (if nl then "\n" else "") + lines[l1][..c1];
      assert Span(lines, l0, c0 - 1, l1, c1, nl) == Span(lines, l0, c0 - 1, l1 - 1, |lines[l1 - 1]|, nl) + back;
      assert Span(lines, l0, c0, l1, c1, nl) == front + back;
      assert [lines[l0][c0 - 1]] + front + back == [lines[l0][c0 - 1]] + (front + back);
    }
  }

  /** Across a line break, in front. */
  lemma {:induction false} SpanPrevLine(lines: seq<string>, l0: nat, l1: nat, c1: nat, nl: bool)
    requires SpanOk(lines, l0, 0, l1, c1) && l0 > 0
    ensures SpanOk(lines, l0 - 1, |lines[l0 - 1]|, l1, c1)
    ensures Span(lines, l0 - 1, |lines[l0 - 1]|, l1, c1, nl) == (if nl then "\n" else "") + Span(lines, l0, 0, l1, c1, nl)
    decreases l1
  {
    var p := lines[l0 - 1];
    assert p[|p|..|p|] == "";
    if l0 == l1 {
      assert lines[l1][0..c1] == lines[l1][..c1];
    } else {
      SpanPrevLine(lines, l0, l1 - 1, |lines[l1 - 1]|, nl);
    }
  }

  /** Reading more lines does not change the text between earlier positions. */
  lemma {:induction false} SpanPrefix(lines: seq<string>, more: seq<string>, l0: nat, c0: nat, l1: nat, c1: nat, nl: bool)
    requires SpanOk(lines, l0, c0, l1, c1) && lines <= more
    ensures SpanOk(more, l0, c0, l1, c1)
    ensures Span(more, l0, c0, l1, c1, nl) == Span(lines, l0, c0, l1, c1, nl)
    decreases l1
  {
    assert more[l1] == lines[l1];
    if l0 != l1 {
      assert more[l1 - 1] == lines[l1 - 1];
      SpanPrefix(lines, more, l0, c0, l1 - 1, |lines[l1 - 1]|, nl);
    }
  }

  /** `(l1, c1)` in `more` is the position one character after `(l, c)`
      in `ls`, which `more` extends. */
  ghost predicate NextPos(ls: seq<string>, l: nat, c: nat, more: seq<string>, l1: nat, c1: nat)
  {
    ls <= more && l < |ls| &&
    ((l1 == l && c1 == c + 1 && c < |ls[l]|) || (l1 == l + 1 && c1 == 0 && c == |ls[l]| && l1 < |more|))
  }

  /** One `advance_char` forwards, reading a line or not: the text passed
      grows by the character `get_char` saw. */
  lemma SpanStep(ls: seq<string>, more: seq<string>, l0: nat, c0: nat, l: nat, c: nat, l1: nat, c1: nat)
    requires SpanOk(ls, l0, c0, l, c) && NextPos(ls, l, c, more, l1, c1)
    ensures SpanOk(more, l0, c0, l1, c1)
    ensures Span(more, l0, c0, l1, c1, true) == Span(ls, l0, c0, l, c, true) + [if c < |ls[l]| then ls[l][c] else '\n']
  {
    SpanPrefix(ls, more, l0, c0, l, c, true);
    if l1 == l {
      SpanNextChar(more, l0, c0, l, c, true);
    } else {
      SpanNextLine(more, l0, c0, l, true);
    }
  }

  /** One `advance_char` backwards: the text passed grows in front by the
      character `get_char(true)` saw. */
  lemma SpanStepBack(lines: seq<string>, l: nat, c: nat, l0: nat, c0: nat, l1: nat, c1: nat)
    requires SpanOk(lines, l, c, l0, c0) && NextPos(lines, l1, c1, lines, l, c)
    ensures SpanOk(lines, l1, c1, l0, c0)
    ensures Span(lines, l1, c1, l0, c0, true) == [if c > 0 then lines[l][c - 1] else '\n'] + Span(lines, l, c, l0, c0, true)
  {
    if l1 == l {
      SpanPrevChar(lines, l, c, l0, c0, true);
    } else {
      SpanPrevLine(lines, l, l0, c0, true);
    }
  }

  /** The lines `get_line` will read from `input`, each joined with its
      continuation lines. */
  function Future(input: seq<string>, cont: char): seq<string>
    decreases |input|
  {
    if input == [] then []
    else
      var j := JoinLines(input[0], input[1..], cont);
      [j.text] + Future(input[1 + j.used..], cont)
  }

  /** `get_line` reading the next line and its continuations leaves the
      file as it was: the joined line moves from the future to the lines
      read. */
  lemma ReadLineFile(ls: seq<string>, input: seq<string>, cont: char)
    requires input != []
    ensures var j := JoinLines(input[0], input[1..], cont);
      (ls + [input[0]])[|ls| := j.text] == ls + [j.text] &&
      input[1..][j.used..] == input[1 + j.used..] &&
      ls + [j.text] + Future(input[1 + j.used..], cont) == ls + Future(input, cont)
  {
    var j := JoinLines(input[0], input[1..], cont);
    FutureHead(input, cont);
    AppendAssoc(ls, [j.text], Future(input[1 + j.used..], cont));
    assert (ls + [input[0]])[|ls| := j.text] == ls + [j.text] by {
      assert |ls + [input[0]]| == |ls| + 1;
    }
    assert input[1..][j.used..] == input[1 + j.used..];
  }

  /** The first of the future lines is the next line joined with its continuations. */
  lemma FutureHead(input: seq<string>, cont: char)
    requires input != []
    ensures var j := JoinLines(input[0], input[1..], cont);
      Future(input, cont) == [j.text] + Future(input[1 + j.used..], cont)
  {
    var j := JoinLines(input[0], input[1..], cont);
    var f := Future(input, cont);
    assert f == [j.text] + Future(input[1 + j.used..], cont);
  }

  lemma AppendAssoc<T>(a: seq<T>, b: seq<T>, c: seq<T>)
    ensures a + b + c == a + (b + c)
  {
  }

  /** Lines, each followed by a line break. */
  function Lines(ls: seq<string>): string
  {
    if ls == [] then "" else ls[0] + "\n" + Lines(ls[1..])
  }

  /** One more line at the end. */
  lemma {:induction false} LinesSnoc(ls: seq<string>, s: string)
    ensures Lines(ls + [s]) == Lines(ls) + s + "\n"
  {
    if ls == [] {
      assert [s][1..] == [];
    } else {
      assert (ls + [s])[1..] == ls[1..] + [s];
      LinesSnoc(ls[1..], s);
    }
  }

  /** The text from `(l, c)` to the end of `file`, a line break after each
      line: what forward reads from there see. */
  function TextFrom(file: seq<string>, l: nat, c: nat): string
    requires l < |file| && c <= |file[l]|
  {
    file[l][c..] + "\n" + Lines(file[l + 1..])
  }

  /** The text from the start of line `first` up to `(l, c)`, after a line
      break standing for what lies before `first`: what backward reads from
      there see, last character first. */
  function TextUpTo(file: seq<string>, first: nat, l: nat, c: nat): string
    requires first <= l < |file| && c <= |file[l]|
  {
    "\n" + Lines(file[first..l]) + file[l][..c]
  }

  /** The text ahead of `(l, c)` after one step forwards. */
  lemma TextFromStep(file: seq<string>, l: nat, c: nat)
    requires l < |file| && c <= |file[l]|
    ensures c < |file[l]| ==> TextFrom(file, l, c) == [file[l][c]] + TextFrom(file, l, c + 1)
    ensures c == |file[l]| && l + 1 < |file| ==> TextFrom(file, l, c) == "\n" + TextFrom(file, l + 1, 0)
    ensures c == |file[l]| && l + 1 == |file| ==> TextFrom(file, l, c) == "\n"
  {
    if c < |file[l]| {
      assert file[l][c..] == [file[l][c]] + file[l][c + 1..];
    } else if l + 1 < |file| {
      assert file[l][c..] == "";
      assert file[l + 1..][1..] == file[l + 2..];
      assert file[l + 1][0..] == file[l + 1];
    } else {
      assert file[l][c..] == "";
      assert file[l + 1..] == [];
    }
  }

  /** The text behind `(l, c)` after one step backwards. */
  lemma TextUpToStep(file: seq<string>, first: nat, l: nat, c: nat)
    requires first <= l < |file| && c <= |file[l]|
    ensures c > 0 ==> TextUpTo(file, first, l, c) == TextUpTo(file, first, l, c - 1) + [file[l][c - 1]]
    ensures c == 0 && l > first ==> TextUpTo(file, first, l, c) == TextUpTo(file, first, l - 1, |file[l - 1]|) + "\n"
    ensures c == 0 && l == first ==> TextUpTo(file, first, l, c) == "\n"
  {
    if c > 0 {
      assert file[l][..c] == file[l][..c - 1] + [file[l][c - 1]];
    } else if l > first {
      assert file[first..l] == file[first..l - 1] + [file[l - 1]];
      LinesSnoc(file[first..l - 1], file[l - 1]);
      assert file[l][..c] == "";
      assert file[l - 1][..|file[l - 1]|] == file[l - 1];
    } else {
      assert file[l][..c] == "";
      assert file[first..l] == [];
    }
  }

  /** The text forward reads see from `(l, c)`: the rest of the line with
      `singleLine`, the rest of the file otherwise. */
  function AheadAt(file: seq<string>, l: nat, c: nat, singleLine: bool): (a: string)
    requires l < |file| && c <= |file[l]|
    ensures |a| > 0 && a[0] == CharAt(file, l, c, false)
  {
    if singleLine then file[l][c..] + "\n"
    else
      TextFromStep(file, l, c);
      TextFrom(file, l, c)
  }

  /** The text backward reads see from `(l, c)`, last character first: the
      line up to there with `singleLine`, the text from line `first` up to
      there otherwise. */
  function BehindAt(file: seq<string>, first: nat, l: nat, c: nat, singleLine: bool): (b: string)
    requires first <= l < |file| && c <= |file[l]|
    ensures |b| > 0 && b[|b| - 1] == CharAt(file, l, c, true)
  {
    if singleLine then "\n" + file[l][..c]
    else
      TextUpToStep(file, first, l, c);
      TextUpTo(file, first, l, c)
  }

  /** One step of `advance_char` forwards reads the first character of the
      text ahead, unless that text is only the final line break, where the
      cursor cannot move. */
  lemma AheadStep(file: seq<string>, first: nat, l: nat, c: nat, singleLine: bool)
    requires first <= l < |file| && c <= |file[l]|
    ensures var a := AheadAt(file, l, c, singleLine);
      var p := StepPos(file, first, l, c, false, singleLine);
      if a == "\n" then p == (l, c) else a == [a[0]] + AheadAt(file, p.0, p.1, singleLine)
  {
    TextFromStep(file, l, c);
    if c < |file[l]| {
      assert file[l][c..] == [file[l][c]] + file[l][c + 1..];
    } else if !singleLine && l + 1 < |file| {
      assert file[l + 1..] == [file[l + 1]] + file[l + 2..];
    }
  }

  /** One step of `advance_char` backwards reads the last character of the
      text behind, unless that text is only the line break before the
      retained start, where the cursor cannot move. */
  lemma BehindStep(file: seq<string>, first: nat, l: nat, c: nat, singleLine: bool)
    requires first <= l < |file| && c <= |file[l]|
    ensures var b := BehindAt(file, first, l, c, singleLine);
      var p := StepPos(file, first, l, c, true, singleLine);
      if b == "\n" then p == (l, c) else b == BehindAt(file, first, p.0, p.1, singleLine) + [b[|b| - 1]]
  {
    TextUpToStep(file, first, l, c);
    if c > 0 {
      assert file[l][..c] == file[l][..c - 1] + [file[l][c - 1]];
    } else if !singleLine && l > first {
      var b := TextUpTo(file, first, l - 1, |file[l - 1]|);
      assert |b| >= 1;
      assert |b + "\n"| >= 2;
    }
  }

  /** The state of the forward `STRING` loop at `(l, c)`, `i` steps into a
      scan from `(l0, c0)`: the text `a0` that was ahead at the start is the
      `k` characters passed followed by the text ahead now; once stuck at
      the end of the text the rest read are line breaks. */
  ghost predicate AheadLoop(str: string, file: seq<string>, first: nat, l0: nat, c0: nat, singleLine: bool,
                            a0: string, l: nat, c: nat, k: nat, i: nat)
  {
    first <= l0 < |file| && c0 <= |file[l0]| && k <= i <= |str| &&
    (l, c) == ScanPos(file, first, l0, c0, false, singleLine, i) &&
    a0 == str[..k] + AheadAt(file, l, c, singleLine) &&
    (k < i ==> AheadAt(file, l, c, singleLine) == "\n" && forall n :: k <= n < i ==> str[n] == '\n')
  }

  /** One step of the forward `STRING` loop from `(l, c)`, after `str[i]`
      was read there: the text `a0` ahead of where the loop started is the
      `k1` characters passed followed by the text ahead of the next
      position, and once stuck at the end the rest read are line breaks. */
  lemma AheadPassed(str: string, file: seq<string>, first: nat, l: nat, c: nat, singleLine: bool,
                    a0: string, k: nat, i: nat) returns (k1: nat)
    requires first <= l < |file| && c <= |file[l]| && k <= i < |str|
    requires str[i] == CharAt(file, l, c, false)
    requires a0 == str[..k] + AheadAt(file, l, c, singleLine)
    requires k < i ==> AheadAt(file, l, c, singleLine) == "\n" && forall n :: k <= n < i ==> str[n] == '\n'
    ensures var p := StepPos(file, first, l, c, false, singleLine);
      k1 <= i + 1 && a0 == str[..k1] + AheadAt(file, p.0, p.1, singleLine) &&
      (k1 < i + 1 ==> AheadAt(file, p.0, p.1, singleLine) == "\n" && forall n :: k1 <= n < i + 1 ==> str[n] == '\n')
  {
    var p := StepPos(file, first, l, c, false, singleLine);
    var a, a1 := AheadAt(file, l, c, singleLine), AheadAt(file, p.0, p.1, singleLine);
    AheadStep(file, first, l, c, singleLine);
    if a == "\n" {
      k1 := k;
    } else {
      assert k == i && a == [str[i]] + a1;
      assert str[..k + 1] == str[..k] + [str[i]];
      k1 := k + 1;
    }
  }

  /** The state of the backward `STRING` loop at `(l, c)`, `|str| - i`
      steps back from `(l0, c0)`: the text `b0` that was behind at the start
      is the text behind now followed by the characters passed, `str[k..]`;
      once stuck at the retained start the rest read are line breaks. */
  ghost predicate BehindLoop(str: string, file: seq<string>, first: nat, l0: nat, c0: nat, singleLine: bool,
                             b0: string, l: nat, c: nat, k: nat, i: nat)
  {
    first <= l0 < |file| && c0 <= |file[l0]| && i <= k <= |str| &&
    (l, c) == ScanPos(file, first, l0, c0, true, singleLine, |str| - i) &&
    b0 == BehindAt(file, first, l, c, singleLine) + str[k..] &&
    (i < k ==> BehindAt(file, first, l, c, singleLine) == "\n" && forall n :: i <= n < k ==> str[n] == '\n')
  }

  /** One step of the backward `STRING` loop from `(l, c)`, after
      `str[i - 1]` was read there: the text `b0` behind where the loop
      started is the text behind the next position followed by `str[k1..]`,
      and once stuck at the retained start the rest read are line breaks. */
  lemma BehindPassed(str: string, file: seq<string>, first: nat, l: nat, c: nat, singleLine: bool,
                     b0: string, k: nat, i: nat) returns (k1: nat)
    requires first <= l < |file| && c <= |file[l]| && 0 < i <= k <= |str|
    requires str[i - 1] == CharAt(file, l, c, true)
    requires b0 == BehindAt(file, first, l, c, singleLine) + str[k..]
    requires i < k ==> BehindAt(file, first, l, c, singleLine) == "\n" && forall n :: i <= n < k ==> str[n] == '\n'
    ensures var p := StepPos(file, first, l, c, true, singleLine);
      i - 1 <= k1 <= |str| && b0 == BehindAt(file, first, p.0, p.1, singleLine) + str[k1..] &&
      (i - 1 < k1 ==> BehindAt(file, first, p.0, p.1, singleLine) == "\n" && forall n :: i - 1 <= n < k1 ==> str[n] == '\n')
  {
    var p := StepPos(file, first, l, c, true, singleLine);
    var b, b1 := BehindAt(file, first, l, c, singleLine), BehindAt(file, first, p.0, p.1, singleLine);
    BehindStep(file, first, l, c, singleLine);
    if b == "\n" {
      k1 := k;
    } else {
      assert k == i && b == b1 + [str[i - 1]];
      assert str[k - 1..] == [str[k - 1]] + str[k..];
      k1 := k - 1;
    }
  }

  /** `str` is what reads forward yield when the text ahead is `a` and
      every read past its end yields `'\n'` (the cursor cannot move on). */
  predicate MatchesAhead(str: string, a: string)
  {
    if |str| <= |a| then str == a[..|str|]
    else a == str[..|a|] && forall n :: |a| <= n < |str| ==> str[n] == '\n'
  }

  /** `str`, read from its end, is what reads backward yield when the text
      behind is `b` and every read before its start yields `'\n'`. */
  predicate MatchesBehind(str: string, b: string)
  {
    if |str| <= |b| then str == b[|b| - |str|..]
    else b == str[|str| - |b|..] && forall n :: 0 <= n < |str| - |b| ==> str[n] == '\n'
  }

  /** The forward comparison loop ran to the end of `str`: the text that
      was ahead, `a0`, starts with the `k` characters passed, and the rest of
      `str` was read as line breaks at the end of the input. */
  lemma AheadDone(str: string, a0: string, a: string, k: nat)
    requires k <= |str| && a0 == str[..k] + a
    requires k < |str| ==> a == "\n" && forall n :: k <= n < |str| ==> str[n] == '\n'
    ensures MatchesAhead(str, a0)
  {
    if k == |str| {
      assert a0[..|str|] == str;
    } else if |str| == k + 1 {
      assert a0 == str;
    } else {
      assert str[..|a0|] == str[..k] + [str[k]];
    }
  }

  /** The forward comparison loop stopped at `str[i]`, which differs from
      the next character read. */
  lemma AheadStop(str: string, a0: string, a: string, k: nat, i: nat)
    requires k <= i < |str| && a0 == str[..k] + a && |a| > 0 && str[i] != a[0]
    requires k < i ==> a == "\n" && forall n :: k <= n < i ==> str[n] == '\n'
    ensures !MatchesAhead(str, a0)
  {
    if k == i {
      assert a0[i] == a[0];
    }
  }

  /** The backward comparison loop ran to the start of `str`: the text that
      was behind, `b0`, ends with the characters passed, `str[k..]`, and the
      rest was read as line breaks at the retained start. */
  lemma BehindDone(str: string, b0: string, b: string, k: nat)
    requires k <= |str| && b0 == b + str[k..]
    requires k > 0 ==> b == "\n" && forall n :: 0 <= n < k ==> str[n] == '\n'
    ensures MatchesBehind(str, b0)
  {
    if k == 0 {
      assert b0[|b0| - |str|..] == str;
    } else if k == 1 {
      assert b0 == [str[0]] + str[1..] == str;
    } else {
      assert str[|str| - |b0|..] == [str[k - 1]] + str[k..];
    }
  }

  /** The backward comparison loop stopped at `str[i - 1]`, which differs
      from the character read before the cursor. */
  lemma BehindStop(str: string, b0: string, b: string, k: nat, i: nat)
    requires 0 < i <= k <= |str| && b0 == b + str[k..] && |b| > 0 && str[i - 1] != b[|b| - 1]
    requires i < k ==> b == "\n" && forall n :: i <= n < k ==> str[n] == '\n'
    ensures !MatchesBehind(str, b0)
  {
    if i == k {
      assert b0[|b| - 1] == b[|b| - 1];
      if |str| <= |b0| {
        assert b0[|b0| - |str|..][i - 1] == b0[|b0| - |str| + i - 1];
      }
    }
  }

  /** The character `get_char` reads at `(l, c)`, forwards or backwards. */
  function CharAt(file: seq<string>, l: nat, c: nat, backwards: bool): char
    requires l < |file| && c <= |file[l]|
  {
    if backwards then (if c > 0 then file[l][c - 1] else '\n')
    else if c < |file[l]| then file[l][c] else '\n'
  }

  /** The test of `match_impl` at `(l, c)` in `file`, the retained text
      starting at line `first`: the one-character styles on the character
      read, `STRING` on the text ahead or behind (the rest of the line only
      with `singleLine`), `WORD_BOUNDARY` on the word characters around the
      cursor, `col - 1` wrapping to `npos` at column 0. */
  ghost predicate HitAt(file: seq<string>, first: nat, l: nat, c: nat, str: string, opts: Opts, style: Style)
    requires first <= l < |file| && c <= |file[l]|
  {
    match style
    case WordBoundary => WordChar(file[l], if c == 0 then SIZE_MAX else c - 1) != WordChar(file[l], c)
    case String =>
      if opts.backwards then MatchesBehind(str, BehindAt(file, first, l, c, opts.singleLine))
      else MatchesAhead(str, AheadAt(file, l, c, opts.singleLine))
    case _ => CharHit(style, str, CharAt(file, l, c, opts.backwards))
  }

  /** Where one `advance_char` goes from `(l, c)` in `file`: one character
      on, across a line break unless `singleLine`, staying put at the end of
      the file (forwards) or at the start of line `first` (backwards). */
  function StepPos(file: seq<string>, first: nat, l: nat, c: nat, backwards: bool, singleLine: bool): (p: (nat, nat))
    requires first <= l < |file| && c <= |file[l]|
    ensures first <= p.0 < |file| && p.1 <= |file[p.0]|
  {
    if backwards then
      if c > 0 then (l, c - 1)
      else if singleLine || l == first then (l, c)
      else (l - 1, |file[l - 1]|)
    else
      if c < |file[l]| then (l, c + 1)
      else if singleLine || l + 1 == |file| then (l, c)
      else (l + 1, 0)
  }

  /** The position `e` steps of `advance_char` away from `(l, c)`. */
  function ScanPos(file: seq<string>, first: nat, l: nat, c: nat, backwards: bool, singleLine: bool, e: nat): (p: (nat, nat))
    requires first <= l < |file| && c <= |file[l]|
    ensures first <= p.0 < |file| && p.1 <= |file[p.0]|
  {
    if e == 0 then (l, c)
    else
      var q := ScanPos(file, first, l, c, backwards, singleLine, e - 1);
      StepPos(file, first, q.0, q.1, backwards, singleLine)
  }

  /** The test passes at the position `e` steps into a scan from `(l, c)`. */
  ghost predicate HitAfter(file: seq<string>, first: nat, l: nat, c: nat, str: string, opts: Opts, style: Style, e: nat)
    requires first <= l < |file| && c <= |file[l]|
  {
    var p := ScanPos(file, first, l, c, opts.backwards, opts.singleLine, e);
    HitAt(file, first, p.0, p.1, str, opts, style)
  }

  /** No position among the first `d` of a scan from `(l, c)` passes the
      test. */
  ghost predicate NoHitBefore(file: seq<string>, first: nat, l: nat, c: nat, str: string, opts: Opts, style: Style, d: nat)
    requires first <= l < |file| && c <= |file[l]|
  {
    forall e :: 0 <= e < d ==> !HitAfter(file, first, l, c, str, opts, style, e)
  }

  /** A scan that reached a position `advance_char` cannot leave stays
      there: every later position is that one. */
  lemma {:induction false} ScanStays(file: seq<string>, first: nat, l: nat, c: nat, backwards: bool, singleLine: bool, d: nat, e: nat)
    requires first <= l < |file| && c <= |file[l]| && d <= e
    requires var p := ScanPos(file, first, l, c, backwards, singleLine, d);
      StepPos(file, first, p.0, p.1, backwards, singleLine) == p
    ensures ScanPos(file, first, l, c, backwards, singleLine, e) == ScanPos(file, first, l, c, backwards, singleLine, d)
    decreases e
  {
    if e > d {
      ScanStays(file, first, l, c, backwards, singleLine, d, e - 1);
    }
  }

  /** A scan that found nothing up to a position it cannot leave finds
      nothing anywhere: no position reachable from `(l, c)` passes. */
  lemma ScanExhausted(file: seq<string>, first: nat, l: nat, c: nat, str: string, opts: Opts, style: Style, d: nat)
    requires first <= l < |file| && c <= |file[l]|
    requires NoHitBefore(file, first, l, c, str, opts, style, d)
    requires var p := ScanPos(file, first, l, c, opts.backwards, opts.singleLine, d);
      StepPos(file, first, p.0, p.1, opts.backwards, opts.singleLine) == p &&
      !HitAt(file, first, p.0, p.1, str, opts, style)
    ensures forall e: nat :: NoHitBefore(file, first, l, c, str, opts, style, e)
  {
    forall e: nat
      ensures NoHitBefore(file, first, l, c, str, opts, style, e)
    {
      forall e' | 0 <= e' < e
        ensures !HitAfter(file, first, l, c, str, opts, style, e')
      {
        if e' >= d {
          ScanStays(file, first, l, c, opts.backwards, opts.singleLine, d, e');
        }
      }
    }
  }

  /** Forwards, where a scan goes does not depend on the retained start. */
  lemma {:induction false} ScanPosFirst(file: seq<string>, f1: nat, f2: nat, l: nat, c: nat, singleLine: bool, e: nat)
    requires f1 <= l && f2 <= l < |file| && c <= |file[l]|
    ensures ScanPos(file, f1, l, c, false, singleLine, e) == ScanPos(file, f2, l, c, false, singleLine, e)
  {
    if e > 0 {
      ScanPosFirst(file, f1, f2, l, c, singleLine, e - 1);
    }
  }

  /** A string without line breaks matches the text ahead of `(l, c)` just
      when it is the text of line `l` from column `c` on. */
  lemma AheadInLine(file: seq<string>, l: nat, c: nat, s: string)
    requires l < |file| && c <= |file[l]| && '\n' !in s
    ensures MatchesAhead(s, TextFrom(file, l, c)) <==> s <= file[l][c..]
  {
    var a := TextFrom(file, l, c);
    var w := file[l][c..];
    assert a[|w|] == '\n';
    if |s| <= |w| {
      assert a[..|s|] == w[..|s|];
    } else if |s| <= |a| {
      assert s[|w|] != a[|w|];
    } else {
      assert s[|w|] != a[|w|];
      assert s[..|a|][|w|] == s[|w|];
    }
  }

  /** Where one step goes depends on the retained start only backwards. */
  lemma StepPosFirst(file: seq<string>, f1: nat, f2: nat, l: nat, c: nat, backwards: bool, singleLine: bool)
    requires f1 <= l && f2 <= l < |file| && c <= |file[l]| && (backwards ==> f1 == f2)
    ensures StepPos(file, f1, l, c, backwards, singleLine) == StepPos(file, f2, l, c, backwards, singleLine)
  {
  }

  /** The line ends in the continuation character: a read that ran out of
      input while joining left it so. */
  predicate Continued(text: string, cont: char)
  {
    |text| > 0 && text[|text| - 1] == cont
  }

  /** A forward, multi-line scan was cut short at `(l, c)`: its own read
      of a new line ran out inside a continuation, so the cursor is at the
      start of the last line, which ends in the continuation character and
      was not among the `known` lines read when the scan began. A scan that
      stops because it cannot move is at the end of the last line instead,
      so at its start only when that line is empty. */
  predicate CutAt(opts: Opts, lines: seq<string>, input: seq<string>, good: bool, maxLine: nat, cont: char,
                 known: nat, l: nat, c: nat)
  {
    !opts.backwards && !opts.singleLine && !good && input == [] && known <= l && l == maxLine && c == 0 &&
    maxLine < |lines| && Continued(lines[maxLine], cont)
  }

  /** A scan that stops because it cannot move is never taken as cut
      short: there the cursor is at the end of the last line, so at its
      start only when that line is empty. */
  lemma FixedPointNotCut(file: seq<string>, first: nat, l: nat, c: nat, opts: Opts,
                         lines: seq<string>, input: seq<string>, good: bool, maxLine: nat, cont: char, known: nat)
    requires first <= l < |file| && c <= |file[l]|
    requires StepPos(file, first, l, c, opts.backwards, opts.singleLine) == (l, c)
    requires |lines| <= |file| && lines == file[..|lines|]
    ensures !CutAt(opts, lines, input, good, maxLine, cont, known, l, c)
  {
  }

  /** An empty last line, as at the end of an empty input or after a
      final line break, ends in no continuation, so a scan that stops at
      its start is not cut short. */
  lemma EmptyLineNotCut(opts: Opts, lines: seq<string>, input: seq<string>, good: bool, maxLine: nat, cont: char,
                        known: nat, l: nat, c: nat)
    requires maxLine < |lines| && lines[maxLine] == ""
    ensures !CutAt(opts, lines, input, good, maxLine, cont, known, l, c)
  {
  }

  /** A line already read when the scan began, such as the one the scan
      starts on or an incomplete last line read before it, is never taken
      as cut short: the scan tests it or moves onto it successfully. */
  lemma KnownLineNotCut(opts: Opts, lines: seq<string>, input: seq<string>, good: bool, maxLine: nat, cont: char,
                        known: nat, l: nat, c: nat)
    requires l < known
    ensures !CutAt(opts, lines, input, good, maxLine, cont, known, l, c)
  {
  }

  /** The state of `seek_impl`'s loop `d` rounds in: the cursor is `d`
      steps from `(l0, c0)` and no position before it passed the test. */
  ghost predicate Scanned(file: seq<string>, first: nat, l0: nat, c0: nat, str: string, opts: Opts, style: Style,
                          l: nat, c: nat, d: nat)
  {
    first <= l0 < |file| && c0 <= |file[l0]| &&
    (l, c) == ScanPos(file, first, l0, c0, opts.backwards, opts.singleLine, d) &&
    NoHitBefore(file, first, l0, c0, str, opts, style, d)
  }

  /** No position a scan from `(l0, c0)` can reach passes the test. */
  ghost predicate Exhausted(file: seq<string>, first: nat, l0: nat, c0: nat, str: string, opts: Opts, style: Style)
    requires first <= l0 < |file| && c0 <= |file[l0]|
  {
    forall e: nat :: NoHitBefore(file, first, l0, c0, str, opts, style, e)
  }

  /** A position `d` rounds into a scan, judged from the retained start
      `mb` (the same start backwards, any start forwards): the test is the
      scan's, one step on is the scan's next position, and `n` steps on are
      where they are from the scan's start. */
  lemma ScanAt(file: seq<string>, first: nat, l0: nat, c0: nat, str: string, opts: Opts, style: Style,
               l: nat, c: nat, d: nat, mb: nat, n: nat)
    requires Scanned(file, first, l0, c0, str, opts, style, l, c, d)
    requires mb <= l && (opts.backwards ==> mb == first)
    ensures HitAt(file, mb, l, c, str, opts, style) == HitAt(file, first, l, c, str, opts, style)
    ensures StepPos(file, mb, l, c, opts.backwards, opts.singleLine) == StepPos(file, first, l, c, opts.backwards, opts.singleLine) ==
      ScanPos(file, first, l0, c0, opts.backwards, opts.singleLine, d + 1)
    ensures ScanPos(file, mb, l, c, opts.backwards, opts.singleLine, n) ==
      ScanPos(file, first, l, c, opts.backwards, opts.singleLine, n)
  {
    if !opts.backwards {
      ScanPosFirst(file, mb, first, l, c, opts.singleLine, n);
    }
  }

  /** A miss at the position `d` rounds into a scan: the scan goes on one
      round further, and where it cannot move it is exhausted. */
  lemma ScanMiss(file: seq<string>, first: nat, l0: nat, c0: nat, str: string, opts: Opts, style: Style,
                 l: nat, c: nat, d: nat)
    requires Scanned(file, first, l0, c0, str, opts, style, l, c, d)
    requires !HitAt(file, first, l, c, str, opts, style)
    ensures var p := StepPos(file, first, l, c, opts.backwards, opts.singleLine);
      Scanned(file, first, l0, c0, str, opts, style, p.0, p.1, d + 1) &&
      (p == (l, c) ==> Exhausted(file, first, l0, c0, str, opts, style))
  {
    var p := StepPos(file, first, l, c, opts.backwards, opts.singleLine);
    assert NoHitBefore(file, first, l0, c0, str, opts, style, d + 1);
    if p == (l, c) {
      ScanExhausted(file, first, l0, c0, str, opts, style, d);
    }
  }

  /** How `seek_impl`'s loop ended, `d` rounds into a scan from `(l0, c0)`,
      leaving the cursor at `(l, c)`: no earlier position passed the test;
      with `found` the `d`th does, and the cursor is there, or past the
      match with `consume`; without, no position the scan can reach passes,
      unless the scan was `cutShort` by a read that ran out inside a
      continuation. */
  ghost predicate SeekEnded(file: seq<string>, first: nat, l0: nat, c0: nat, str: string, opts: Opts, style: Style,
                            found: bool, d: nat, l: nat, c: nat, cutShort: bool)
    requires first <= l0 < |file| && c0 <= |file[l0]|
  {
    NoHitBefore(file, first, l0, c0, str, opts, style, d) &&
    var p := ScanPos(file, first, l0, c0, opts.backwards, opts.singleLine, d);
    (found ==> HitAt(file, first, p.0, p.1, str, opts, style)) &&
    (!found ==> Exhausted(file, first, l0, c0, str, opts, style) || cutShort) &&
    (l, c) == if !(found && opts.consume) then p
      else if style == String then ScanPos(file, first, p.0, p.1, opts.backwards, opts.singleLine, |str|)
      else if OneChar(style) then StepPos(file, first, p.0, p.1, opts.backwards, opts.singleLine)
      else p
  }

  /** What one round of the seek loop did at `(l, c)`, judged with `mb`
      lines buffered: `hit` is the test there; a hit leaves the cursor at
      `(l1, c1)` where the match put it, a miss one step on; `ok` is false
      only where the step could not move or the scan was `cutShort`. */
  ghost predicate StepOutcome(file: seq<string>, mb: nat, l: nat, c: nat, str: string, opts: Opts, style: Style,
                              hit: bool, ok: bool, l1: nat, c1: nat, cutShort: bool)
  {
    mb <= l < |file| && c <= |file[l]| &&
    (hit <==> HitAt(file, mb, l, c, str, opts, style)) &&
    (hit && (!opts.consume || style == WordBoundary) ==> (l1, c1) == (l, c)) &&
    (hit && opts.consume && OneChar(style) ==> (l1, c1) == StepPos(file, mb, l, c, opts.backwards, opts.singleLine)) &&
    (hit && opts.consume && style == String ==>
      (l1, c1) == ScanPos(file, mb, l, c, opts.backwards, opts.singleLine, |str|)) &&
    (!hit ==> (l1, c1) == StepPos(file, mb, l, c, opts.backwards, opts.singleLine)) &&
    (!hit && ok ==> (l1, c1) != (l, c)) &&
    (!hit && !ok && (l1, c1) != (l, c) ==> cutShort)
  }

  /** What one round of the seek loop leaves, `d` rounds into a scan from
      `(l0, c0)`: the round tried the match at `(l, c)` with `mb` lines
      buffered, `hit` is its verdict, and `(l1, c1)` is where the cursor was
      left, by the consuming hit or by `advance_char` reporting `ok`. */
  /** The facts one round of the seek loop establishes, gathered. */
  lemma StepOutcomeIntro(file: seq<string>, mb: nat, l: nat, c: nat, str: string, opts: Opts, style: Style,
                         hit: bool, ok: bool, l1: nat, c1: nat, cutShort: bool)
    requires mb <= l < |file| && c <= |file[l]|
    requires hit <==> HitAt(file, mb, l, c, str, opts, style)
    requires hit && (!opts.consume || style == WordBoundary) ==> (l1, c1) == (l, c)
    requires hit && opts.consume && OneChar(style) ==> (l1, c1) == StepPos(file, mb, l, c, opts.backwards, opts.singleLine)
    requires hit && opts.consume && style == String ==>
      (l1, c1) == ScanPos(file, mb, l, c, opts.backwards, opts.singleLine, |str|)
    requires !hit ==> (l1, c1) == StepPos(file, mb, l, c, opts.backwards, opts.singleLine)
    requires !hit && ok ==> (l1, c1) != (l, c)
    requires !hit && !ok && (l1, c1) != (l, c) ==> cutShort
    ensures StepOutcome(file, mb, l, c, str, opts, style, hit, ok, l1, c1, cutShort) == true
  {
  }

  lemma ScanRoundEnds(file: seq<string>, first: nat, l0: nat, c0: nat, str: string, opts: Opts, style: Style,
                      d: nat, l: nat, c: nat, mb: nat, hit: bool, ok: bool, l1: nat, c1: nat, cutShort: bool)
    requires Scanned(file, first, l0, c0, str, opts, style, l, c, d) == true
    requires opts.backwards ==> mb == first
    requires StepOutcome(file, mb, l, c, str, opts, style, hit, ok, l1, c1, cutShort) == true
    ensures l1 < |file| && c1 <= |file[l1]|
    ensures hit ==> SeekEnded(file, first, l0, c0, str, opts, style, true, d, l1, c1, cutShort) == true
    ensures !hit ==> Scanned(file, first, l0, c0, str, opts, style, l1, c1, d + 1) == true
    ensures !hit && ok && opts.backwards ==> l1 < l || (l1 == l && c1 < c)
    ensures !hit && ok && !opts.backwards ==> l1 > l || (l1 == l && c1 > c)
    ensures !hit && !ok ==> SeekEnded(file, first, l0, c0, str, opts, style, false, d + 1, l1, c1, cutShort) == true
  {
    ScanAt(file, first, l0, c0, str, opts, style, l, c, d, mb, |str|);
    if hit {
      ScanHit(file, first, l0, c0, str, opts, style, d, l, c, mb, l1, c1, cutShort);
    } else {
      ScanMiss(file, first, l0, c0, str, opts, style, l, c, d);
      if !ok {
        ScanEnd(file, first, l0, c0, str, opts, style, d, l, c, l1, c1, cutShort);
      }
    }
  }

  /** A hit at the position `d` rounds into a scan ends it there, the cursor
      left at the hit or past it. */
  lemma ScanHit(file: seq<string>, first: nat, l0: nat, c0: nat, str: string, opts: Opts, style: Style,
                d: nat, l: nat, c: nat, mb: nat, l1: nat, c1: nat, cutShort: bool)
    requires Scanned(file, first, l0, c0, str, opts, style, l, c, d)
    requires mb <= l && (opts.backwards ==> mb == first)
    requires HitAt(file, mb, l, c, str, opts, style)
    requires (l1, c1) == if !opts.consume || style == WordBoundary then (l, c)
      else if style == String then ScanPos(file, mb, l, c, opts.backwards, opts.singleLine, |str|)
      else StepPos(file, mb, l, c, opts.backwards, opts.singleLine)
    ensures SeekEnded(file, first, l0, c0, str, opts, style, true, d, l1, c1, cutShort)
  {
    ScanAt(file, first, l0, c0, str, opts, style, l, c, d, mb, |str|);
  }

  /** A miss at the position `d` rounds into a scan where `advance_char`
      fails ends it: the cursor did not move, so the scan is exhausted, or
      the step was cut short. */
  lemma ScanEnd(file: seq<string>, first: nat, l0: nat, c0: nat, str: string, opts: Opts, style: Style,
                d: nat, l: nat, c: nat, l1: nat, c1: nat, cutShort: bool)
    requires Scanned(file, first, l0, c0, str, opts, style, l, c, d)
    requires !HitAt(file, first, l, c, str, opts, style)
    requires (l1, c1) == StepPos(file, first, l, c, opts.backwards, opts.singleLine)
    requires (l1, c1) == (l, c) || cutShort
    ensures SeekEnded(file, first, l0, c0, str, opts, style, false, d + 1, l1, c1, cutShort)
  {
    ScanMiss(file, first, l0, c0, str, opts, style, l, c, d);
    if (l1, c1) == (l, c) {
      ScanStays(file, first, l0, c0, opts.backwards, opts.singleLine, d, d + 1);
    }
  }

  /** From the stream state `(lines0, input0, maxLine0, good0)` on, the
      text read only grows, input is only consumed, nothing is read without
      consuming input, and a bad stream stays bad. */
  ghost predicate Reads(lines0: seq<string>, input0: seq<string>, maxLine0: nat, good0: bool,
                        lines1: seq<string>, input1: seq<string>, maxLine1: nat, good1: bool)
  {
    |lines0| <= |lines1| && lines1[..|lines0|] == lines0 &&
    |input1| <= |input0| && input1 == input0[|input0| - |input1|..] &&
    (|input1| == |input0| ==> lines1 == lines0 && maxLine1 == maxLine0) &&
    (good1 ==> good0)
  }

  /** Reading on from reading on is reading on. */
  lemma ReadsTrans(l0: seq<string>, i0: seq<string>, m0: nat, g0: bool,
                   l1: seq<string>, i1: seq<string>, m1: nat, g1: bool,
                   l2: seq<string>, i2: seq<string>, m2: nat, g2: bool)
    requires Reads(l0, i0, m0, g0, l1, i1, m1, g1) && Reads(l1, i1, m1, g1, l2, i2, m2, g2)
    ensures Reads(l0, i0, m0, g0, l2, i2, m2, g2)
  {
    assert i2 == i0[|i0| - |i2|..] by {
      forall n | 0 <= n < |i2|
        ensures i2[n] == i0[|i0| - |i2| + n]
      {
        assert i2[n] == i1[|i1| - |i2| + n];
      }
    }
  }

  /** `str[0]`: a `std::string` yields `'\0'` at index `size()`. */
  function CharAt0(str: string): char
  {
    if |str| > 0 then str[0] else '\0'
  }

  /** The styles that test one character. */
  predicate OneChar(style: Style)
  {
    style == Char || style == Chars || style == NotChars
  }

  /** A one-character style's test on the character read: `CHAR` compares
      with `str[0]`, `CHARS` looks for it in `str`, `NOT_CHARS` for its
      absence. */
  predicate CharHit(style: Style, str: string, c: char)
  {
    match style
    case Char => c == CharAt0(str)
    case Chars => c in str
    case NotChars => c !in str
    case _ => false
  }

  /** How `match_impl` ends: `true` on a match, `false` on a failure
      without error message, and `error(err)` otherwise. */
  function Verdict(matched: bool, err: string): (r: Outcome)
    ensures r.Done? <==> matched || err == ""
    ensures r.Done? ==> r.matched == matched
    ensures r.Terminated? ==> r.message == err && err != ""
  {
    if matched then Done(true) else if err == "" then Done(false) else Terminated(err)
  }

  /** The check of `substr`: with `CONTAINS_ANY` some character is in
      `chrs`; otherwise, with `CONTAINS_NOT`, some character is not. */
  predicate Passes(flags: SubstrFlags, chrs: string, s: string)
  {
    if flags.containsAny then exists n :: 0 <= n < |s| && s[n] in chrs
    else if flags.containsNot then exists n :: 0 <= n < |s| && s[n] !in chrs
    else false
  }

  /** The check over one more character. */
  lemma PassesPush(flags: SubstrFlags, chrs: string, s: string, c: char)
    ensures Passes(flags, chrs, s + [c]) <==>
      Passes(flags, chrs, s) || (if flags.containsAny then c in chrs else flags.containsNot && c !in chrs)
  {
    var t := s + [c];
    assert t[|s|] == c;
    assert forall n :: 0 <= n < |s| ==> t[n] == s[n];
  }

  class FileParser {
    var bufs: seq<LineBuf>
    var maxLine: nat
    var minLine: nat
    var line: nat
    var col: nat
    var marks: seq<Mark>
    var contChar: char
    var input: seq<string>
    var good: bool
    ghost var lines: seq<string>

    /** The cursor's invariant: the retained lines are `minLine..maxLine`,
        newest first; the position and every mark lie inside them; each
        retained line counts the marks on it. */
    ghost predicate Valid()
      reads this
    {
      minLine <= line <= maxLine && |lines| == maxLine + 1 &&
      |bufs| == maxLine - minLine + 1 && col <= |lines[line]| &&
      (!good ==> input == []) &&
      NoNewlines(lines) && NoNewlines(input) &&
      Texts(bufs, lines, maxLine) && MarksWithin(marks, minLine, lines) &&
      Counted(bufs, marks, maxLine)
    }

    /** `BUF`: the current line's buffer. */
    function Buf(): (r: string)
      reads this
      requires Valid()
      ensures r == lines[line]
    {
      bufs[maxLine - line].text
    }

    /** `set_mark`: pushes the position and counts it on the current line. */
    method SetMark()
      requires Valid()
      modifies this
      ensures Valid()
      ensures line == old(line) && col == old(col) && minLine == old(minLine) && maxLine == old(maxLine)
      ensures lines == old(lines) && input == old(input) && good == old(good) && contChar == old(contChar)
      ensures marks == old(marks) + [Mark(line, col)]
    {
      var k := maxLine - line;
      var m := Mark(line, col);
      CountPush(bufs, marks, maxLine, m);
      TextsRecount(bufs, lines, maxLine, k, bufs[k].marks + 1);
      assert MarksWithin(marks + [m], minLine, lines);
      marks := marks + [m];
      bufs := bufs[k := LineBuf(bufs[k].text, bufs[k].marks + 1)];
    }

    /** The loop `for(; min_line < line && bufs.back().second == 0;
        ++min_line) bufs.pop_back();`: drops the oldest lines while no mark
        points into them, never the current line. */
    method Prune()
      requires Valid()
      modifies this
      ensures Valid()
      ensures line == old(line) && col == old(col) && maxLine == old(maxLine) && marks == old(marks)
      ensures lines == old(lines) && input == old(input) && good == old(good) && contChar == old(contChar)
      ensures old(minLine) <= minLine <= line
      ensures forall ln :: old(minLine) <= ln < minLine ==> MarksOn(marks, ln) == 0
      ensures minLine == line || MarksOn(marks, minLine) > 0
    {
      while minLine < line && bufs[|bufs| - 1].marks == 0
        invariant Valid()
        invariant line == old(line) && col == old(col) && maxLine == old(maxLine) && marks == old(marks)
        invariant lines == old(lines) && input == old(input) && good == old(good) && contChar == old(contChar)
        invariant old(minLine) <= minLine <= line
        invariant forall ln :: old(minLine) <= ln < minLine ==> MarksOn(marks, ln) == 0
        invariant bufs == old(bufs)[..|old(bufs)| - (minLine - old(minLine))]
        decreases line - minLine
      {
        MarksOnZero(marks, minLine);
        bufs := bufs[..|bufs| - 1];
        minLine := minLine + 1;
      }
    }

    /** `unset_mark`: takes one off the marked line's count, prunes when the
        marked line is the oldest retained one, and pops the mark. (The mark
        is read before the pop; pruning does not look at the stack.) */
    method UnsetMark()
      requires Valid() && |marks| > 0
      modifies this
      ensures Valid()
      ensures marks == old(marks)[..|old(marks)| - 1]
      ensures old(minLine) <= minLine <= line
      ensures forall ln :: old(minLine) <= ln < minLine ==> MarksOn(marks, ln) == 0
      ensures old(marks)[|old(marks)| - 1].line != old(minLine) ==> minLine == old(minLine)
      ensures old(marks)[|old(marks)| - 1].line == old(minLine) ==> minLine == line || MarksOn(marks, minLine) > 0
      ensures line == old(line) && col == old(col) && maxLine == old(maxLine)
      ensures lines == old(lines) && input == old(input) && good == old(good) && contChar == old(contChar)
    {
      var m := marks[|marks| - 1];
      PopMark();
      if m.line == minLine {
        Prune();
      }
    }

    /** The decrement of the marked line's count and `marks.pop()`. */
    method PopMark()
      requires Valid() && |marks| > 0
      modifies this
      ensures Valid()
      ensures marks == old(marks)[..|old(marks)| - 1]
      ensures line == old(line) && col == old(col) && minLine == old(minLine) && maxLine == old(maxLine)
      ensures lines == old(lines) && input == old(input) && good == old(good) && contChar == old(contChar)
    {
      var m := marks[|marks| - 1];
      var rest := marks[..|marks| - 1];
      assert marks == rest + [m];
      var k := maxLine - m.line;
      CountPop(bufs, rest, maxLine, m);
      TextsRecount(bufs, lines, maxLine, k, bufs[k].marks - 1);
      assert MarksWithin(rest, minLine, lines);
      bufs := bufs[k := LineBuf(bufs[k].text, bufs[k].marks - 1)];
      marks := rest;
    }

    /** `reset_mark`: the top mark is replaced by the current position. */
    method ResetMark()
      requires Valid() && |marks| > 0
      modifies this
      ensures Valid()
      ensures marks == old(marks)[..|old(marks)| - 1] + [Mark(line, col)]
      ensures line == old(line) && col == old(col) && maxLine == old(maxLine)
      ensures lines == old(lines) && input == old(input) && good == old(good) && contChar == old(contChar)
    {
      UnsetMark();
      SetMark();
    }

    /** `revert_to_mark(keep_mark)`: the position becomes the top mark's;
        the mark stays when `keepMark` and is unset otherwise. */
    method RevertToMark(keepMark: bool)
      requires Valid() && |marks| > 0
      modifies this
      ensures Valid()
      ensures line == old(marks)[|old(marks)| - 1].line && col == old(marks)[|old(marks)| - 1].col
      ensures keepMark ==> marks == old(marks)
      ensures !keepMark ==> marks == old(marks)[..|old(marks)| - 1]
      ensures minLine == old(minLine) && maxLine == old(maxLine)
      ensures lines == old(lines) && input == old(input) && good == old(good) && contChar == old(contChar)
    {
      var m := marks[|marks| - 1];
      var l := line;
      while l > m.line
        invariant l <= line && (m.line <= l || l == line)
      {
        l := l - 1;
      }
      while l < m.line
        invariant l <= m.line
      {
        l := l + 1;
      }
      line := l;
      col := m.col;
      if !keepMark {
        UnsetMark();
      }
    }

    /** The position is where it was. */
    twostate predicate Unmoved()
      reads this
    {
      line == old(line) && col == old(col)
    }

    /** Nothing was read and no line was dropped. */
    twostate predicate SameText()
      reads this
    {
      lines == old(lines) && input == old(input) && good == old(good) &&
      minLine == old(minLine) && maxLine == old(maxLine)
    }

    /** The stream only moves forward: lines read before stay as they were,
        input is only consumed, and no read means no new line. */
    twostate predicate ReadsOn()
      reads this
    {
      Reads(old(lines), old(input), old(maxLine), old(good), lines, input, maxLine, good) &&
      contChar == old(contChar)
    }

    /** The whole file as the parser will see it: the lines read so far and
        the ones `get_line` will read from the rest of the input. */
    ghost function File(): (f: seq<string>)
      reads this
      ensures |f| >= |lines| && f[..|lines|] == lines
    {
      lines + Future(input, contChar)
    }

    /** No read changed what the file is. */
    twostate predicate SameFile()
      reads this
    {
      File() == old(File())
    }

    /** The text forward reads see from the cursor. */
    ghost function Ahead(singleLine: bool): string
      reads this
      requires Valid()
    {
      AheadAt(File(), line, col, singleLine)
    }

    /** The text backward reads see from the cursor, last character first. */
    ghost function Behind(singleLine: bool): string
      reads this
      requires Valid()
    {
      BehindAt(File(), minLine, line, col, singleLine)
    }

    /** The test of `match_impl(str, opts, err, style)` at the cursor. */
    ghost predicate HitHere(str: string, opts: Opts, style: Style)
      reads this
      requires Valid()
    {
      HitAt(File(), minLine, line, col, str, opts, style)
    }

    /** The current line continues with `s` from the cursor on. */
    ghost predicate TextHere(s: string)
      reads this
      requires Valid()
    {
      s <= lines[line][col..]
    }

    /** `get_char` reads the character `CharAt` names in the file. */
    lemma CharHere(backwards: bool)
      requires Valid()
      ensures GetChar(backwards) == CharAt(File(), line, col, backwards)
    {
      assert File()[line] == lines[line];
    }

    /** `get_line` at the end of the input: the stream goes bad and nothing
        else changes. */
    twostate predicate AtEof(ok: bool)
      reads this
    {
      old(input) == [] && !ok && !good && input == [] && Unmoved() &&
      lines == old(lines) && minLine == old(minLine) && maxLine == old(maxLine)
    }

    /** `get_line` that reads a line: the next line, joined with its
        continuations, becomes the new last line and the current one; lines
        older than the previous current line go while no mark needs them,
        and all of them go when there is no mark. */
    twostate predicate LineRead(ok: bool)
      reads this
    {
      old(input) != [] &&
      var j := JoinLines(old(input)[0], old(input)[1..], old(contChar));
      ok == j.complete && good == j.complete && input == old(input)[1 + j.used..] &&
      lines == old(lines) + [j.text] && line == maxLine == old(maxLine) + 1 && col == 0 &&
      (old(marks) == [] ==> minLine == line && |bufs| == 1) &&
      (old(marks) != [] ==>
        old(minLine) <= minLine <= old(line) &&
        (forall ln :: old(minLine) <= ln < minLine ==> MarksOn(marks, ln) == 0) &&
        (minLine == old(line) || MarksOn(marks, minLine) > 0))
    }

    /** The first half of `get_line` once a line `tmp` was read: old lines
        are pruned, and `tmp` replaces the current line when no mark is set
        and is pushed in front otherwise. */
    method PushLine(tmp: string)
      requires Valid() && line == maxLine && '\n' !in tmp
      modifies this
      ensures Valid()
      ensures marks == old(marks) && contChar == old(contChar) && input == old(input) && good == old(good)
      ensures lines == old(lines) + [tmp] && line == maxLine == old(maxLine) + 1 && col == 0
      ensures forall i :: 0 <= i < |marks| ==> marks[i].line < maxLine
      ensures old(marks) == [] ==> minLine == line && |bufs| == 1
      ensures old(marks) != [] ==>
        old(minLine) <= minLine <= old(line) &&
        (forall ln :: old(minLine) <= ln < minLine ==> MarksOn(marks, ln) == 0) &&
        (minLine == old(line) || MarksOn(marks, minLine) > 0)
    {
      Prune();
      if marks == [] {
        MarksOnZero(marks, minLine);
      }
      PushPruned(tmp);
    }

    /** The second half of `PushLine`, after pruning: with no mark only the
        current line is left and `tmp` is swapped in; otherwise `tmp` is
        pushed in front. */
    method PushPruned(tmp: string)
      requires Valid() && line == maxLine && '\n' !in tmp
      requires marks == [] ==> minLine == line
      modifies this
      ensures Valid()
      ensures marks == old(marks) && contChar == old(contChar) && input == old(input) && good == old(good)
      ensures lines == old(lines) + [tmp] && line == maxLine == old(maxLine) + 1 && col == 0
      ensures forall i :: 0 <= i < |marks| ==> marks[i].line < maxLine
      ensures minLine == if marks == [] then line else old(minLine)
    {
      if marks == [] {
        SwapFront(bufs, lines, maxLine, tmp);
        minLine := minLine + 1;
        bufs := bufs[0 := LineBuf(tmp, bufs[0].marks)];
      } else {
        PushFront(bufs, lines, marks, minLine, maxLine, tmp);
        bufs := [LineBuf(tmp, 0)] + bufs;
      }
      line := line + 1;
      maxLine := maxLine + 1;
      col := 0;
      lines := lines + [tmp];
    }

    /** `get_line`'s continuation step on the newest line: its text grows by
        the joined lines, the stream loses them and goes bad when it ran out
        inside a continuation. */
    method JoinContinuations() returns (ok: bool)
      requires Valid() && line == maxLine && col == 0 && good
      requires forall i :: 0 <= i < |marks| ==> marks[i].line < maxLine
      modifies this
      ensures Valid()
      ensures var j := JoinLines(old(lines)[old(maxLine)], old(input), old(contChar));
        ok == j.complete && good == j.complete && input == old(input)[j.used..] &&
        lines == old(lines)[old(maxLine) := j.text]
      ensures marks == old(marks) && contChar == old(contChar) && Unmoved()
      ensures minLine == old(minLine) && maxLine == old(maxLine) && |bufs| == |old(bufs)|
    {
      var j := JoinLoop(bufs[0].text, input, contChar);
      JoinNoNewline(bufs[0].text, input, contChar);
      JoinLinesText(bufs[0].text, input, contChar);
      AppendFront(bufs, lines, marks, minLine, maxLine, Concat(input[..j.used]));
      bufs := bufs[0 := LineBuf(j.text, bufs[0].marks)];
      lines := lines[maxLine := j.text];
      input := input[j.used..];
      good := j.complete;
      ok := j.complete;
    }

    /** `get_line`, called on the last line read. At the end of the input it
        only reports failure (the source also pushes an empty buffer, see
        `EofBuffersAsWritten`). */
    method GetLine() returns (ok: bool)
      requires Valid() && line == maxLine
      modifies this
      ensures Valid()
      ensures marks == old(marks) && contChar == old(contChar)
      ensures old(input) == [] ==> AtEof(ok)
      ensures old(input) != [] ==> LineRead(ok)
      ensures SameFile()
    {
      if input == [] {
        good := false;
        return false;
      }
      ghost var ls, ins := lines, input;
      var tmp := input[0];
      assert '\n' !in tmp;
      input := input[1..];
      PushLine(tmp);
      ok := JoinContinuations();
      ReadLineFile(ls, ins, contChar);
    }

    /** `get_char`: the character after the cursor, or before it when
        `backwards`; a line boundary reads as `'\n'`. */
    function GetChar(backwards: bool): (c: char)
      reads this
      requires Valid()
      ensures c == '\n' <==> (if backwards then col == 0 else col == |lines[line]|)
      ensures c != '\n' ==> c == (if backwards then lines[line][col - 1] else lines[line][col])
    {
      var buf := Buf();
      if backwards then
        if col > 0 then buf[col - 1] else '\n'
      else
        if col < |buf| then buf[col] else '\n'
    }

    /** `operator bool`: the stream is good and the cursor is not at the end
        of its line. */
    function Good(): (r: bool)
      reads this
      requires Valid()
      ensures r <==> good && GetChar(false) != '\n'
    {
      good && col < |Buf()|
    }

    /** `advance_line`: to the end of the previous retained line, or to the
        start of the next one, reading it when the cursor is on the last. */
    method AdvanceLine(backwards: bool) returns (ok: bool)
      requires Valid()
      modifies this
      ensures Valid() && marks == old(marks) && ReadsOn()
      ensures backwards ==> SameText()
      ensures backwards && old(line) > old(minLine) ==> ok && line == old(line) - 1 && col == |lines[line]|
      ensures backwards && old(line) == old(minLine) ==> !ok && Unmoved()
      ensures !backwards && old(line) < old(maxLine) ==> ok && line == old(line) + 1 && col == 0 && SameText()
      ensures !backwards && old(line) == old(maxLine) ==> AtEof(ok) || LineRead(ok)
      ensures SameFile()
    {
      if backwards {
        if line > minLine {
          line := line - 1;
          col := |bufs[maxLine - line].text|;
          return true;
        }
        return false;
      } else {
        if line < maxLine {
          line := line + 1;
          col := 0;
          return true;
        }
        ok := GetLine();
      }
    }

    /** `advance_char`: one character forwards or backwards; a line boundary
        counts as one character unless `singleLine` stops there. A move in
        one direction passes the character `get_char` saw in that direction. */
    method AdvanceChar(backwards: bool, singleLine: bool) returns (ok: bool)
      requires Valid()
      modifies this
      ensures Valid() && marks == old(marks) && ReadsOn()
      ensures ok ==> GetChar(!backwards) == old(GetChar(backwards))
      ensures backwards ==> SameText()
      ensures backwards && old(col) > 0 ==> ok && line == old(line) && col == old(col) - 1
      ensures backwards && old(col) == 0 && singleLine ==> !ok && Unmoved()
      ensures backwards && old(col) == 0 && !singleLine && old(line) > old(minLine) ==>
        ok && line == old(line) - 1 && col == |lines[line]|
      ensures backwards && old(col) == 0 && !singleLine && old(line) == old(minLine) ==> !ok && Unmoved()
      ensures !backwards && old(col) < |old(lines)[old(line)]| ==>
        ok && line == old(line) && col == old(col) + 1 && SameText()
      ensures !backwards && old(col) == |old(lines)[old(line)]| && singleLine ==> !ok && Unmoved() && SameText()
      ensures !backwards && old(col) == |old(lines)[old(line)]| && !singleLine && old(line) < old(maxLine) ==>
        ok && line == old(line) + 1 && col == 0 && SameText()
      ensures !backwards && old(col) == |old(lines)[old(line)]| && !singleLine && old(line) == old(maxLine) ==>
        AtEof(ok) || LineRead(ok)
      ensures !backwards && !singleLine && !ok ==> !good
      ensures SameFile()
    {
      if backwards {
        if col > 0 {
          col := col - 1;
          return true;
        } else if singleLine {
          return false;
        } else {
          ok := AdvanceLine(true);
        }
      } else {
        if col < |Buf()| {
          col := col + 1;
          return true;
        } else if singleLine {
          return false;
        } else {
          ok := AdvanceLine(false);
        }
      }
    }

    /** The cursor at the end of the exhausted input. */
    ghost predicate AtEnd()
      reads this
    {
      !good && input == [] && line == maxLine && |lines| == maxLine + 1 && col == |lines[line]|
    }

    /** `advance_char()` with the default options: one character forwards,
        across line breaks, reading a line at the end of the last one. It
        moves to the next position unless the input is exhausted there. */
    method Forward() returns (ok: bool)
      requires Valid()
      modifies this
      ensures Valid() && marks == old(marks) && ReadsOn()
      ensures !ok ==> !good
      ensures old(AtEnd()) ==> Unmoved()
      ensures Unmoved() ==> AtEnd() && lines == old(lines)
      ensures !Unmoved() ==> NextPos(old(lines), old(line), old(col), lines, line, col)
      ensures SameFile() && (line, col) == StepPos(File(), old(minLine), old(line), old(col), false, false)
      ensures ok ==> !Unmoved()
      ensures !ok && !Unmoved() ==>
        input == [] && |old(lines)| <= line && line == maxLine && col == 0 && Continued(lines[line], contChar)
    {
      ok := AdvanceChar(false, false);
      if old(col) == |old(lines)[old(line)]| && old(line) == old(maxLine) && old(input) != [] {
        assert |old(Future(input, contChar))| > 0;
      }
    }

    /** `advance_char(single_line)`: one character forwards within the
        line; fails at its end without moving. */
    method ForwardInLine() returns (ok: bool)
      requires Valid()
      modifies this
      ensures Valid() && marks == old(marks) && contChar == old(contChar) && SameText() && line == old(line)
      ensures ok <==> old(col) < |lines[line]|
      ensures col == if ok then old(col) + 1 else old(col)
      ensures SameFile() && (line, col) == StepPos(File(), minLine, old(line), old(col), false, true)
    {
      ok := AdvanceChar(false, true);
    }

    /** The forward `STRING` loop of `match_impl`: each character of `str` is
        compared with `get_char()` and passed with `advance_char`. Where the
        cursor cannot move on (the end of the line with `singleLine`, the end
        of the input otherwise) every further read is `'\n'`, so `str`
        matches exactly when it is what reading the text ahead yields; on a
        match the cursor is `|str|` steps on. */
    method MatchForward(str: string, singleLine: bool) returns (matched: bool)
      requires Valid()
      modifies this
      ensures Valid() && marks == old(marks) && ReadsOn() && SameFile()
      ensures singleLine ==> SameText() && line == old(line)
      ensures matched <==> MatchesAhead(str, old(Ahead(singleLine)))
      ensures matched ==> (line, col) == ScanPos(File(), old(minLine), old(line), old(col), false, singleLine, |str|)
    {
      ghost var f0, a0 := File(), Ahead(singleLine);
      ghost var k := 0;
      matched := true;
      var i := 0;
      while matched && i < |str|
        invariant 0 <= k <= i <= |str|
        invariant Valid() && marks == old(marks) && ReadsOn() && File() == f0
        invariant singleLine ==> SameText() && line == old(line)
        invariant matched ==> AheadLoop(str, f0, old(minLine), old(line), old(col), singleLine, a0, line, col, k, i) == true
        invariant !matched ==> !MatchesAhead(str, a0)
        decreases |str| - i, matched
      {
        ghost var l0, i0, m0, g0 := lines, input, maxLine, good;
        matched, k := CompareAhead(str, singleLine, i, a0, f0, old(minLine), old(line), old(col), k);
        ReadsTrans(old(lines), old(input), old(maxLine), old(good), l0, i0, m0, g0, lines, input, maxLine, good);
        i := i + 1;
      }
      if matched {
        AheadDone(str, a0, AheadAt(f0, line, col, singleLine), k);
      }
    }

    /** One round of the forward `STRING` loop: `str[i]` is compared with
        `get_char()` and passed on a hit. The text `a0` ahead of `(l0, c0)`
        is the `k` characters passed followed by the text now ahead, and
        the cursor is `i` steps on; once stuck at the end, the rest read are
        line breaks. A miss shows that `str` is not what `a0` reads as. */
    method CompareAhead(str: string, singleLine: bool, i: nat, ghost a0: string, ghost f0: seq<string>,
                        ghost m0: nat, ghost l0: nat, ghost c0: nat, ghost k: nat) returns (matched: bool, ghost k1: nat)
      requires Valid() && k <= i < |str| && File() == f0
      requires i < |str| && AheadLoop(str, f0, m0, l0, c0, singleLine, a0, line, col, k, i)
      modifies this
      ensures Valid() && marks == old(marks) && ReadsOn() && File() == f0
      ensures singleLine ==> SameText() && line == old(line)
      ensures k1 <= i + 1
      ensures matched ==> AheadLoop(str, f0, m0, l0, c0, singleLine, a0, line, col, k1, i + 1)
      ensures !matched ==> !MatchesAhead(str, a0)
    {
      ghost var a, l, c := Ahead(singleLine), line, col;
      CharHere(false);
      if str[i] != GetChar(false) {
        AheadStop(str, a0, a, k, i);
        return false, k;
      }
      if singleLine {
        var _ := ForwardInLine();
      } else {
        var _ := Forward();
      }
      matched := true;
      k1 := AheadPassed(str, f0, m0, l, c, singleLine, a0, k, i);
    }

    /** The cursor at the start of the oldest retained line. */
    ghost predicate AtStart()
      reads this
    {
      line == minLine && col == 0
    }

    /** `advance_char(backwards)`: one character backwards, across line
        breaks; it moves to the previous position unless the cursor is at the
        start of the oldest retained line. */
    method Backward() returns (ok: bool)
      requires Valid()
      modifies this
      ensures Valid() && marks == old(marks) && contChar == old(contChar) && SameText()
      ensures ok <==> !Unmoved()
      ensures old(AtStart()) ==> Unmoved()
      ensures Unmoved() ==> AtStart()
      ensures !Unmoved() ==> NextPos(lines, line, col, lines, old(line), old(col))
      ensures SameFile() && (line, col) == StepPos(File(), minLine, old(line), old(col), true, false)
    {
      ok := AdvanceChar(true, false);
    }

    /** `advance_char(backwards | single_line)`: one character backwards
        within the line; fails at its start without moving. */
    method BackwardInLine() returns (ok: bool)
      requires Valid()
      modifies this
      ensures Valid() && marks == old(marks) && contChar == old(contChar) && SameText() && line == old(line)
      ensures ok <==> old(col) > 0
      ensures col == if ok then old(col) - 1 else old(col)
      ensures SameFile() && (line, col) == StepPos(File(), minLine, old(line), old(col), true, true)
    {
      ok := AdvanceChar(true, true);
    }

    /** The backward `STRING` loop of `match_impl`: `str` is compared from
        its last character on with `get_char(true)`, passing each one
        backwards. Where the cursor cannot move back (the start of the line
        with `singleLine`, the start of the oldest retained line otherwise)
        every further read is `'\n'`, so `str` matches exactly when it is
        what reading the text behind from its end yields; on a match the
        cursor is `|str|` steps back. */
    method MatchBackward(str: string, singleLine: bool) returns (matched: bool)
      requires Valid()
      modifies this
      ensures Valid() && marks == old(marks) && contChar == old(contChar) && SameText()
      ensures line <= old(line) && (singleLine ==> line == old(line))
      ensures matched <==> MatchesBehind(str, old(Behind(singleLine)))
      ensures matched ==> (line, col) == ScanPos(File(), minLine, old(line), old(col), true, singleLine, |str|)
    {
      ghost var f0, b0 := File(), Behind(singleLine);
      ghost var k := |str|;
      matched := true;
      var i := |str|;
      while matched && i > 0
        invariant 0 <= i <= k <= |str|
        invariant Valid() && marks == old(marks) && contChar == old(contChar) && SameText() && File() == f0
        invariant line <= old(line) && (singleLine ==> line == old(line))
        invariant matched ==> BehindLoop(str, f0, minLine, old(line), old(col), singleLine, b0, line, col, k, i) == true
        invariant !matched ==> !MatchesBehind(str, b0)
        decreases i, matched
      {
        matched, k := CompareBehind(str, singleLine, i, b0, f0, old(line), old(col), k);
        i := i - 1;
      }
      if matched {
        BehindDone(str, b0, BehindAt(f0, minLine, line, col, singleLine), k);
      }
    }

    /** One round of the backward `STRING` loop: `str[i - 1]` is compared
        with `get_char(true)` and passed backwards on a hit. A miss shows
        that `str` is not what `b0` reads as. */
    method CompareBehind(str: string, singleLine: bool, i: nat, ghost b0: string, ghost f0: seq<string>,
                         ghost l0: nat, ghost c0: nat, ghost k: nat) returns (matched: bool, ghost k1: nat)
      requires Valid() && 0 < i && File() == f0
      requires BehindLoop(str, f0, minLine, l0, c0, singleLine, b0, line, col, k, i)
      modifies this
      ensures Valid() && marks == old(marks) && contChar == old(contChar) && SameText() && File() == f0
      ensures line <= old(line) && (singleLine ==> line == old(line))
      ensures i - 1 <= k1 <= |str|
      ensures matched ==> BehindLoop(str, f0, minLine, l0, c0, singleLine, b0, line, col, k1, i - 1)
      ensures !matched ==> !MatchesBehind(str, b0)
    {
      ghost var l, c := line, col;
      CharHere(true);
      if str[i - 1] != GetChar(true) {
        BehindStop(str, b0, BehindAt(f0, minLine, l, c, singleLine), k, i);
        return false, k;
      }
      if singleLine {
        var _ := BackwardInLine();
      } else {
        var _ := Backward();
      }
      matched := true;
      k1 := BehindPassed(str, f0, minLine, l, c, singleLine, b0, k, i);
    }

    /** The `switch(style)` of `match_impl`: tests the character read, the
        text ahead or behind, or the word characters around the cursor
        (`WORD_BOUNDARY`, whose `col - 1` wraps to `npos` at the start of a
        line), and passes what matched. */
    method TryStyle(str: string, opts: Opts, style: Style) returns (matched: bool)
      requires Valid()
      modifies this
      ensures Valid() && marks == old(marks) && ReadsOn() && SameFile()
      ensures opts.backwards ==> SameText() && line <= old(line)
      ensures matched <==> old(HitHere(str, opts, style))
      ensures OneChar(style) && matched ==>
        (line, col) == StepPos(File(), old(minLine), old(line), old(col), opts.backwards, opts.singleLine)
      ensures style == String && matched ==>
        (line, col) == ScanPos(File(), old(minLine), old(line), old(col), opts.backwards, opts.singleLine, |str|)
      ensures style == WordBoundary ==> Unmoved() && SameText()
    {
      match style {
        case String =>
          if opts.backwards {
            matched := MatchBackward(str, opts.singleLine);
          } else {
            matched := MatchForward(str, opts.singleLine);
          }
        case WordBoundary =>
          var buf := Buf();
          assert File()[line] == buf;
          matched := WordChar(buf, if col == 0 then SIZE_MAX else col - 1) != WordChar(buf, col);
        case _ =>
          matched := TryChar(str, opts, style);
      }
    }

    /** The `CHAR`, `CHARS` and `NOT_CHARS` cases of `match_impl`: the
        character read is compared and, on a hit, passed with
        `advance_char(opts)`. */
    method TryChar(str: string, opts: Opts, style: Style) returns (matched: bool)
      requires Valid() && OneChar(style)
      modifies this
      ensures Valid() && marks == old(marks) && ReadsOn() && SameFile()
      ensures opts.backwards ==> SameText() && line <= old(line)
      ensures matched <==> old(HitHere(str, opts, style))
      ensures matched ==> (line, col) == StepPos(File(), old(minLine), old(line), old(col), opts.backwards, opts.singleLine)
      ensures !matched ==> Unmoved() && SameText()
    {
      CharHere(opts.backwards);
      var c := GetChar(opts.backwards);
      matched := if style == Char then CharAt0(str) == c else if style == Chars then c in str else c !in str;
      if matched {
        var _ := Step(opts);
      }
    }

    /** `match_impl`: sets a mark, runs the style's test and then keeps the
        new position (`consume` on success) or reverts to the mark; either
        way the mark is removed. A failure with an error message ends the
        process instead. The verdict is the test at the cursor. */
    method MatchImpl(str: string, opts: Opts, err: string, style: Style) returns (r: Outcome)
      requires Valid()
      modifies this
      ensures Valid() && ReadsOn() && SameFile()
      ensures r == Verdict(old(HitHere(str, opts, style)), err)
      ensures r.Done? ==> marks == old(marks)
      ensures r.Done? && !(r.matched && opts.consume) ==> Unmoved()
      ensures opts.backwards ==> SameText()
      ensures r == Done(true) && opts.consume && OneChar(style) ==>
        (line, col) == StepPos(File(), old(minLine), old(line), old(col), opts.backwards, opts.singleLine)
      ensures r == Done(true) && opts.consume && style == String ==>
        (line, col) == ScanPos(File(), old(minLine), old(line), old(col), opts.backwards, opts.singleLine, |str|)
      ensures style == WordBoundary && r.Done? ==> Unmoved()
    {
      SetMark();
      var matched := TryStyle(str, opts, style);
      assert marks[|marks| - 1].line == old(line);
      r := Settle(matched, opts.consume, err);
    }

    /** The end of `match_impl`, with the mark it set on top: a consuming
        match drops the mark and keeps the position, any other outcome
        without error message goes back to the mark and drops it. */
    method Settle(matched: bool, consume: bool, err: string) returns (r: Outcome)
      requires Valid() && |marks| > 0
      modifies this
      ensures Valid() && r == Verdict(matched, err)
      ensures lines == old(lines) && input == old(input) && good == old(good) && contChar == old(contChar)
      ensures maxLine == old(maxLine) && old(minLine) <= minLine <= line
      ensures r.Done? ==> marks == old(marks)[..|old(marks)| - 1]
      ensures r.Done? && matched && consume ==> Unmoved()
      ensures r.Done? && !(matched && consume) ==>
        line == old(marks)[|old(marks)| - 1].line && col == old(marks)[|old(marks)| - 1].col
      ensures old(line) <= old(marks)[|old(marks)| - 1].line ==> minLine == old(minLine)
    {
      if matched {
        if consume {
          UnsetMark();
        } else {
          RevertToMark(false);
        }
        return Done(true);
      } else if err == "" {
        RevertToMark(false);
        return Done(false);
      } else {
        return Terminated(err);
      }
    }

    /** `advance_char(opts)` seen as a step of a scan: it goes where
        `StepPos` says; success means it moved, and a failure that moved is
        the read of a new line that ran out inside a continuation, which
        puts the cursor at the start of that line (`CutShort` beyond the
        lines read before the step). */
    method Step(opts: Opts) returns (ok: bool)
      requires Valid()
      modifies this
      ensures Valid() && marks == old(marks) && ReadsOn() && SameFile()
      ensures opts.backwards ==> SameText()
      ensures (line, col) == StepPos(File(), old(minLine), old(line), old(col), opts.backwards, opts.singleLine)
      ensures ok ==> !Unmoved()
      ensures !ok && !Unmoved() ==> CutShort(opts, |old(lines)|)
    {
      if opts.backwards {
        if opts.singleLine {
          ok := BackwardInLine();
        } else {
          ok := Backward();
        }
      } else {
        if opts.singleLine {
          ok := ForwardInLine();
        } else {
          ok := Forward();
        }
      }
    }

    /** `match_impl(str, opts, "", style)` seen as an attempt of a scan: it
        succeeds exactly when the test holds at the cursor; a failed attempt
        leaves the cursor where it was, and so does a match that does not
        consume. */
    method Attempt(str: string, opts: Opts, style: Style) returns (found: bool)
      requires Valid()
      modifies this
      ensures Valid() && marks == old(marks) && ReadsOn() && SameFile()
      ensures opts.backwards ==> SameText()
      ensures found <==> old(HitHere(str, opts, style))
      ensures !(found && opts.consume) || style == WordBoundary ==> Unmoved()
      ensures found && opts.consume && OneChar(style) ==>
        (line, col) == StepPos(File(), old(minLine), old(line), old(col), opts.backwards, opts.singleLine)
      ensures found && opts.consume && style == String ==>
        (line, col) == ScanPos(File(), old(minLine), old(line), old(col), opts.backwards, opts.singleLine, |str|)
    {
      var r := MatchImpl(str, opts, "", style);
      found := r.matched;
    }

    /** One round of `seek_impl`'s loop: an attempt to match at the cursor
        and, when it fails, one `advance_char(opts)`. */
    method SeekStep(str: string, opts: Opts, style: Style) returns (hit: bool, ok: bool)
      requires Valid()
      modifies this
      ensures Valid() && marks == old(marks) && ReadsOn() && SameFile()
      ensures opts.backwards ==> SameText()
      ensures hit <==> HitAt(File(), old(minLine), old(line), old(col), str, opts, style)
      ensures hit && (!opts.consume || style == WordBoundary) ==> Unmoved()
      ensures hit && opts.consume && OneChar(style) ==>
        (line, col) == StepPos(File(), old(minLine), old(line), old(col), opts.backwards, opts.singleLine)
      ensures hit && opts.consume && style == String ==>
        (line, col) == ScanPos(File(), old(minLine), old(line), old(col), opts.backwards, opts.singleLine, |str|)
      ensures !hit ==> (line, col) == StepPos(File(), old(minLine), old(line), old(col), opts.backwards, opts.singleLine)
      ensures !hit && ok ==> !Unmoved()
      ensures !hit && !ok && !Unmoved() ==> CutShort(opts, |old(lines)|)
    {
      ghost var f := File();
      hit := Attempt(str, opts, style);
      assert File() == f;
      if hit {
        return hit, true;
      }
      ghost var l1, i1, m1, g1 := lines, input, maxLine, good;
      ghost var mb := minLine;
      ok := Step(opts);
      assert File() == f;
      StepPosFirst(f, mb, old(minLine), old(line), old(col), opts.backwards, opts.singleLine);
      ReadsTrans(old(lines), old(input), old(maxLine), old(good), l1, i1, m1, g1, lines, input, maxLine, good);
    }

    /** `SeekStep` with its outcome gathered into `StepOutcome`, over the
        file `f` that the scan reads. */
    method SeekOutcome(str: string, opts: Opts, style: Style, ghost f: seq<string>, ghost known: nat)
      returns (hit: bool, ok: bool)
      requires Valid() && File() == f && known <= |lines|
      modifies this
      ensures Valid() && marks == old(marks) && ReadsOn() && File() == f
      ensures opts.backwards ==> SameText()
      ensures StepOutcome(f, old(minLine), old(line), old(col), str, opts, style, hit, ok, line, col, CutShort(opts, known)) == true
    {
      hit, ok := SeekStep(str, opts, style);
      StepOutcomeIntro(File(), old(minLine), old(line), old(col), str, opts, style, hit, ok, line, col, CutShort(opts, known));
    }

    /** The `do ... while(advance_char(opts))` loop of `seek_impl`: tries a
        match without error message at each position of the scan from the
        cursor in turn, `d` rounds in all, and stops at the first hit or
        where `advance_char` fails. */
    method SeekLoop(str: string, opts: Opts, style: Style) returns (found: bool, ghost d: nat)
      requires Valid()
      modifies this
      ensures Valid() && marks == old(marks) && ReadsOn() && SameFile()
      ensures opts.backwards ==> SameText()
      ensures SeekEnded(File(), old(minLine), old(line), old(col), str, opts, style, found, d, line, col,
        CutShort(opts, |old(lines)|))
    {
      if opts.backwards {
        found, d := SeekBack(str, opts, style, File(), minLine, line, col);
      } else {
        found, d := SeekFore(str, opts, style, File(), minLine, line, col);
      }
    }

    /** The seek loop scanning forward, which may read further lines. The
        scan facts are written as equations (`== true`) so that the verifier
        carries each as one fact rather than checking it piece by piece. */
    method SeekFore(str: string, opts: Opts, style: Style, ghost f0: seq<string>, ghost m0: nat, ghost l0: nat, ghost c0: nat)
        returns (found: bool, ghost d: nat)
      requires Valid() && !opts.backwards
      requires File() == f0 && minLine == m0 && line == l0 && col == c0
      modifies this
      ensures SeekEnded(f0, m0, l0, c0, str, opts, style, found, d, line, col, CutShort(opts, |old(lines)|)) == true
      ensures Scanning(f0, old(marks), old(contChar), old(lines), old(input), old(maxLine), old(good)) == true
    {
      d := 0;
      while true
        invariant Scanning(f0, old(marks), old(contChar), old(lines), old(input), old(maxLine), old(good)) == true
        invariant Scanned(f0, m0, l0, c0, str, opts, style, line, col, d) == true
        decreases |f0| - line, |f0[line]| - col
      {
        var hit, ok := ScanRound(str, opts, style, f0, m0, l0, c0, d, old(marks), old(contChar), old(lines), old(input), old(maxLine), old(good));
        if hit {
          found := true;
          break;
        }
        d := d + 1;
        if !ok {
          found := false;
          break;
        }
      }
    }

    /** The seek loop scanning backward, over the lines already read; its
        scan facts are equations for the same reason as in `SeekFore`. */
    method SeekBack(str: string, opts: Opts, style: Style, ghost f0: seq<string>, ghost m0: nat, ghost l0: nat, ghost c0: nat)
        returns (found: bool, ghost d: nat)
      requires Valid() && opts.backwards
      requires File() == f0 && minLine == m0 && line == l0 && col == c0
      modifies this
      ensures SeekEnded(f0, m0, l0, c0, str, opts, style, found, d, line, col, CutShort(opts, |old(lines)|)) == true
      ensures Scanning(f0, old(marks), old(contChar), old(lines), old(input), old(maxLine), old(good)) == true
      ensures SameText()
    {
      d := 0;
      while true
        invariant Scanning(f0, old(marks), old(contChar), old(lines), old(input), old(maxLine), old(good)) == true
        invariant lines == old(lines) && input == old(input) && maxLine == old(maxLine) && good == old(good)
        invariant minLine == m0
        invariant Scanned(f0, m0, l0, c0, str, opts, style, line, col, d) == true
        decreases line, col
      {
        var hit, ok := ScanRound(str, opts, style, f0, m0, l0, c0, d, old(marks), old(contChar), old(lines), old(input), old(maxLine), old(good));
        if hit {
          found := true;
          break;
        }
        d := d + 1;
        if !ok {
          found := false;
          break;
        }
      }
    }

    /** A forward, multi-line scan was cut short at the cursor: its read of
        a line beyond the `known` lines ran out inside a continuation, where
        `advance_char` fails without the scan having reached a fixed point. */
    ghost predicate CutShort(opts: Opts, known: nat)
      reads this
    {
      CutAt(opts, lines, input, good, maxLine, contChar, known, line, col)
    }

    /** What the seek loop keeps: the parser is valid with the marks `mk`
        and the continuation character `cc`, the file is `f0`, the stream has
        only read on from `(ls, ins, ms, gs)`, and the cursor is in the file. */
    ghost predicate Scanning(f0: seq<string>, mk: seq<Mark>, cc: char,
                             ls: seq<string>, ins: seq<string>, ms: nat, gs: bool)
      reads this
    {
      Valid() && marks == mk && contChar == cc && File() == f0 &&
      Reads(ls, ins, ms, gs, lines, input, maxLine, good) && line < |f0| && col <= |f0[line]|
    }

    /** One round of the seek loop, `d` rounds into a scan from `(l0, c0)`:
        a hit at the cursor, or a step to the next position of the scan,
        which `advance_char` reports as failed where the scan cannot go on. */
    method ScanRound(str: string, opts: Opts, style: Style, ghost f0: seq<string>, ghost m0: nat,
                     ghost l0: nat, ghost c0: nat, ghost d: nat, ghost mk: seq<Mark>, ghost cc: char,
                     ghost ls: seq<string>, ghost ins: seq<string>, ghost ms: nat, ghost gs: bool) returns (hit: bool, ok: bool)
      requires Scanning(f0, mk, cc, ls, ins, ms, gs) == true && (opts.backwards ==> m0 == minLine)
      requires Scanned(f0, m0, l0, c0, str, opts, style, line, col, d) == true
      requires opts.backwards ==> lines == ls && input == ins && maxLine == ms && good == gs
      modifies this
      ensures Scanning(f0, mk, cc, ls, ins, ms, gs) == true
      ensures opts.backwards ==> lines == ls && input == ins && maxLine == ms && good == gs && minLine == m0
      ensures hit ==> SeekEnded(f0, m0, l0, c0, str, opts, style, true, d, line, col, CutShort(opts, |ls|)) == true
      ensures !hit ==> Scanned(f0, m0, l0, c0, str, opts, style, line, col, d + 1) == true
      ensures !hit && ok && opts.backwards ==> line < old(line) || (line == old(line) && col < old(col))
      ensures !hit && ok && !opts.backwards ==> line > old(line) || (line == old(line) && col > old(col))
      ensures !hit && !ok ==> SeekEnded(f0, m0, l0, c0, str, opts, style, false, d + 1, line, col, CutShort(opts, |ls|)) == true
    {
      ghost var mb, l, c := minLine, line, col;
      hit, ok := SeekOutcome(str, opts, style, f0, |ls|);
      ScanRoundEnds(f0, m0, l0, c0, str, opts, style, d, l, c, mb, hit, ok, line, col, CutShort(opts, |ls|));
      assert File() == f0;
      assert line < |f0| && col <= |f0[line]| by {
        assert f0[line] == lines[line];
      }
      ReadsTrans(ls, ins, ms, gs, old(lines), old(input), old(maxLine), old(good), lines, input, maxLine, good);
    }

    /** `seek_impl` as written: with `lookahead` it sets a mark and goes back
        to it with `revert_to_mark()`, whose default keeps the mark, so the
        mark is left on the stack. */
    method SeekImplAsWritten(str: string, opts: Opts, err: string, style: Style) returns (r: Outcome)
      requires Valid()
      modifies this
      ensures Valid() && ReadsOn()
      ensures r == Verdict(r.Done? && r.matched, err)
      ensures opts.lookahead ==> Unmoved() && marks == old(marks) + [Mark(old(line), old(col))]
      ensures !opts.lookahead ==> marks == old(marks)
    {
      if opts.lookahead {
        SetMark();
      }
      var found, _ := SeekLoop(str, opts, style);
      if opts.lookahead {
        RevertToMark(true);
      }
      r := Verdict(found, err);
    }

    /** `seek_impl` as evidently intended: the lookahead mark is removed when
        the cursor goes back to it, so the mark stack is as it was. The
        verdict is whether the scan from the cursor found a position passing
        the test, the `d`th, which it left at `(stop.0, stop.1)`; the cursor
        stays there unless `lookahead` takes it back. */
    method SeekImpl(str: string, opts: Opts, err: string, style: Style) returns (r: Outcome, ghost d: nat, ghost stop: (nat, nat))
      requires Valid()
      modifies this
      ensures Valid() && ReadsOn() && SameFile() && marks == old(marks)
      ensures r == Verdict(r == Done(true), err)
      ensures SeekEnded(File(), old(minLine), old(line), old(col), str, opts, style, r == Done(true), d, stop.0, stop.1,
        CutAt(opts, lines, input, good, maxLine, contChar, |old(lines)|, stop.0, stop.1))
      ensures (line, col) == if opts.lookahead then (old(line), old(col)) else stop
    {
      if opts.lookahead {
        SetMark();
      }
      var found;
      found, d := SeekLoop(str, opts, style);
      stop := (line, col);
      if opts.lookahead {
        RevertToMark(false);
      }
      r := Verdict(found, err);
    }

    /** The copy loops of `substr`: every character from `(bl, bc)` up to
        `(el, ec)` in file order, a `'\n'` after each line but the last with
        `keepNewline`, and the `CONTAINS_ANY` / `CONTAINS_NOT` check over the
        characters copied (line breaks are not checked). */
    method Extract(bl: nat, bc: nat, el: nat, ec: nat, flags: SubstrFlags, chrs: string) returns (check: bool, out: string)
      requires Valid() && minLine <= bl && SpanOk(lines, bl, bc, el, ec)
      ensures out == Span(lines, bl, bc, el, ec, flags.keepNewline)
      ensures check == Passes(flags, chrs, Span(lines, bl, bc, el, ec, false))
    {
      check := false;
      out := "";
      ghost var flat := "";
      var tl := bl;
      while tl <= el
        invariant bl <= tl <= el + 1
        invariant tl <= el ==>
          SpanOk(lines, bl, bc, tl, if tl == bl then bc else 0) &&
          out == Span(lines, bl, bc, tl, if tl == bl then bc else 0, flags.keepNewline) &&
          flat == Span(lines, bl, bc, tl, if tl == bl then bc else 0, false)
        invariant tl == el + 1 ==>
          out == Span(lines, bl, bc, el, ec, flags.keepNewline) && flat == Span(lines, bl, bc, el, ec, false)
        invariant check == Passes(flags, chrs, flat)
        decreases el + 1 - tl
      {
        var tc := if tl == bl then bc else 0;
        assert bufs[maxLine - tl].text == lines[tl];
        var end := if tl == el then ec else |bufs[maxLine - tl].text|;
        check, out := CopyLine(bl, bc, tl, tc, end, flags, chrs, check, out, flat);
        flat := Span(lines, bl, bc, tl, end, false);
        if tl < el {
          SpanNextLine(lines, bl, bc, tl, flags.keepNewline);
          SpanNextLine(lines, bl, bc, tl, false);
          if flags.keepNewline {
            out := out + "\n";
          }
        }
        tl := tl + 1;
      }
    }

    /** The inner copy loop of `substr`: the characters `tc..end` of line
        `tl` are appended to `out`, and the check is carried over them. */
    method CopyLine(bl: nat, bc: nat, tl: nat, tc0: nat, end: nat, flags: SubstrFlags, chrs: string,
                    check0: bool, out0: string, ghost flat0: string) returns (check: bool, out: string)
      requires Valid() && minLine <= tl <= maxLine && tc0 <= end <= |lines[tl]|
      requires SpanOk(lines, bl, bc, tl, tc0)
      requires out0 == Span(lines, bl, bc, tl, tc0, flags.keepNewline)
      requires flat0 == Span(lines, bl, bc, tl, tc0, false) && check0 == Passes(flags, chrs, flat0)
      ensures SpanOk(lines, bl, bc, tl, end)
      ensures out == Span(lines, bl, bc, tl, end, flags.keepNewline)
      ensures check == Passes(flags, chrs, Span(lines, bl, bc, tl, end, false))
    {
      var buf := bufs[maxLine - tl].text;
      assert buf == lines[tl];
      check, out := check0, out0;
      ghost var flat := flat0;
      var tc := tc0;
      while tc < end
        invariant tc <= end
        invariant SpanOk(lines, bl, bc, tl, tc)
        invariant out == Span(lines, bl, bc, tl, tc, flags.keepNewline)
        invariant flat == Span(lines, bl, bc, tl, tc, false)
        invariant check == Passes(flags, chrs, flat)
      {
        SpanNextChar(lines, bl, bc, tl, tc, flags.keepNewline);
        SpanNextChar(lines, bl, bc, tl, tc, false);
        PassesPush(flags, chrs, flat, buf[tc]);
        if !check {
          if flags.containsAny {
            check := buf[tc] in chrs;
          } else if flags.containsNot {
            check := buf[tc] !in chrs;
          }
        }
        out := out + [buf[tc]];
        flat := flat + [buf[tc]];
        tc := tc + 1;
      }
    }

    /** `substr(out, flags, chrs)`: without a mark nothing is written and
        the check fails; otherwise the text between the top mark and the
        cursor, whichever comes first, together with the check over it, and
        the mark is removed unless `keepMark`. The cursor does not move. */
    method Substr(flags: SubstrFlags, chrs: string) returns (check: bool, out: string)
      requires Valid()
      modifies this
      ensures Valid() && Unmoved()
      ensures lines == old(lines) && input == old(input) && good == old(good) && contChar == old(contChar)
      ensures old(marks) == [] ==> !check && out == "" && marks == old(marks)
      ensures old(marks) != [] ==>
        var m := old(marks)[|old(marks)| - 1];
        var markFirst := NotAfter(m.line, m.col, line, col);
        var bl := if markFirst then m.line else line;
        var bc := if markFirst then m.col else col;
        var el := if markFirst then line else m.line;
        var ec := if markFirst then col else m.col;
        SpanOk(lines, bl, bc, el, ec) &&
        out == Span(lines, bl, bc, el, ec, flags.keepNewline) &&
        check == Passes(flags, chrs, Span(lines, bl, bc, el, ec, false))
      ensures old(marks) != [] ==>
        marks == if flags.keepMark then old(marks) else old(marks)[..|old(marks)| - 1]
    {
      if marks == [] {
        return false, "";
      }
      var m := marks[|marks| - 1];
      var (bl, bc, el, ec) := Ordered(m, line, col);
      check, out := Extract(bl, bc, el, ec, flags, chrs);
      if !flags.keepMark {
        UnsetMark();
      }
    }

    /** `substr`'s bounds: the smaller line, then the columns by cases, give
        the two positions in file order. */
    static function Ordered(m: Mark, line: nat, col: nat): (r: (nat, nat, nat, nat))
      ensures r == if NotAfter(m.line, m.col, line, col) then (m.line, m.col, line, col) else (line, col, m.line, m.col)
    {
      var bl := if m.line < line then m.line else line;
      var el := if m.line < line then line else m.line;
      if bl == el then
        (bl, if m.col < col then m.col else col, el, if m.col < col then col else m.col)
      else if bl == line then (bl, col, el, m.col)
      else (bl, m.col, el, col)
    }

    /** `substr(flags)`: the text `Substr` writes, without the check. */
    method SubstrText(flags: SubstrFlags) returns (out: string)
      requires Valid()
      modifies this
      ensures Valid() && Unmoved()
      ensures lines == old(lines) && input == old(input) && good == old(good) && contChar == old(contChar)
      ensures old(marks) == [] ==> out == "" && marks == old(marks)
      ensures old(marks) != [] ==>
        var m := old(marks)[|old(marks)| - 1];
        if NotAfter(m.line, m.col, line, col) then
          SpanOk(lines, m.line, m.col, line, col) && out == Span(lines, m.line, m.col, line, col, flags.keepNewline)
        else
          SpanOk(lines, line, col, m.line, m.col) && out == Span(lines, line, col, m.line, m.col, flags.keepNewline)
      ensures old(marks) != [] ==>
        marks == if flags.keepMark then old(marks) else old(marks)[..|old(marks)| - 1]
    {
      var _, o := Substr(flags, "");
      out := o;
    }

    /** `operator+=(incr)`: `incr` times `advance_char()`. It passes `incr`
        characters (a line break counts as one) unless the input runs out,
        where the cursor stays at the end of the last line. */
    method AdvanceBy(incr: nat)
      requires Valid()
      modifies this
      ensures Valid() && marks == old(marks) && ReadsOn()
      ensures SpanOk(lines, old(line), old(col), line, col)
      ensures |Span(lines, old(line), old(col), line, col, true)| <= incr
      ensures |Span(lines, old(line), old(col), line, col, true)| < incr ==> AtEnd()
    {
      ghost var k := 0;
      for n := 0 to incr
        invariant 0 <= k <= n
        invariant Valid() && marks == old(marks) && ReadsOn()
        invariant SpanOk(lines, old(line), old(col), line, col)
        invariant |Span(lines, old(line), old(col), line, col, true)| == k && (k < n ==> AtEnd())
      {
        ghost var l0, i0, m0, g0 := lines, input, maxLine, good;
        k := ForwardCounted(old(line), old(col), k, k < n);
        ReadsTrans(old(lines), old(input), old(maxLine), old(good), l0, i0, m0, g0, lines, input, maxLine, good);
      }
    }

    /** One round of `operator+=`: `k` characters were passed since
        `(l0, c0)`, and once stuck at the end of the input the cursor stays
        there. */
    method ForwardCounted(ghost l0: nat, ghost c0: nat, ghost k: nat, ghost stuck: bool) returns (ghost k1: nat)
      requires Valid() && SpanOk(lines, l0, c0, line, col) && |Span(lines, l0, c0, line, col, true)| == k
      requires stuck ==> AtEnd()
      modifies this
      ensures Valid() && marks == old(marks) && ReadsOn()
      ensures SpanOk(lines, l0, c0, line, col) && |Span(lines, l0, c0, line, col, true)| == k1
      ensures k1 == k ==> AtEnd()
      ensures k1 == k || (k1 == k + 1 && !stuck)
    {
      ghost var l, c, ls := line, col, lines;
      var _ := Forward();
      if !(line == l && col == c) {
        SpanStep(ls, lines, l0, c0, l, c, line, col);
        k1 := k + 1;
      } else {
        SpanPrefix(ls, lines, l0, c0, l, c, true);
        k1 := k;
      }
    }

    /** `operator-=(decr)`: `decr` times `advance_char(backwards)`. It passes
        `decr` characters backwards unless it reaches the start of the
        oldest retained line first, where it stays. */
    method RetreatBy(decr: nat)
      requires Valid()
      modifies this
      ensures Valid() && marks == old(marks) && contChar == old(contChar) && SameText()
      ensures SpanOk(lines, line, col, old(line), old(col))
      ensures |Span(lines, line, col, old(line), old(col), true)| <= decr
      ensures |Span(lines, line, col, old(line), old(col), true)| < decr ==> AtStart()
    {
      ghost var k := 0;
      for n := 0 to decr
        invariant 0 <= k <= n
        invariant Valid() && marks == old(marks) && contChar == old(contChar) && SameText()
        invariant SpanOk(lines, line, col, old(line), old(col))
        invariant |Span(lines, line, col, old(line), old(col), true)| == k && (k < n ==> AtStart())
      {
        ghost var l, c := line, col;
        ghost var wasStuck := k < n;
        var ok := Backward();
        if !wasStuck && ok {
          SpanStepBack(lines, l, c, old(line), old(col), line, col);
          k := k + 1;
        }
      }
    }

    /** `set_cont_char`. */
    method SetContChar(cont: char)
      requires Valid()
      modifies this
      ensures Valid() && contChar == cont
      ensures bufs == old(bufs) && marks == old(marks) && Unmoved() && SameText()
    {
      contChar := cont;
    }

    /** `skip_byte_order_mark`: when the text at the cursor is the UTF-8
        byte order mark (the bytes EF BB BF, one character each), the cursor
        passes it. */
    method SkipByteOrderMark()
      requires Valid()
      modifies this
      ensures Valid() && marks == old(marks) && ReadsOn()
      ensures old(TextHere(BOM)) ==> line == old(line) && col == old(col) + |BOM|
      ensures !old(TextHere(BOM)) ==> Unmoved()
    {
      assert File()[line] == lines[line];
      AheadInLine(File(), line, col, BOM);
      var r := MatchImpl(BOM, Opts(false, false, false, false), "", String);
      if r.matched {
        ghost var l0, i0, m0, g0 := lines, input, maxLine, good;
        ghost var l, c := line, col;
        AdvanceBy(|BOM|);
        ReadsTrans(old(lines), old(input), old(maxLine), old(good), l0, i0, m0, g0, lines, input, maxLine, good);
        assert lines[l] == l0[l];
        SpanLength(lines, l, c, line, col);
      }
    }

    /** `file_parser(std::istream&)` over the lines `input0`: the default
        state (line 0, empty, no marks, no continuation character), then the
        first line is read and a byte order mark skipped. */
    constructor (input0: seq<string>)
      requires NoNewlines(input0)
      ensures Valid() && marks == [] && contChar == '\0'
      ensures input0 == [] ==> !good && lines == [""] && line == 0 && col == 0
      ensures input0 != [] ==>
        var j := JoinLines(input0[0], input0[1..], '\0');
        |lines| >= 2 && lines[0] == "" && lines[1] == j.text && line == 1 &&
        col == if BOM <= j.text then |BOM| else 0
    {
      bufs := [LineBuf("", 0)];
      maxLine, minLine, line, col := 0, 0, 0, 0;
      marks := [];
      contChar := '\0';
      input := input0;
      good := true;
      lines := [""];
      new;
      var _ := GetLine();
      ghost var l1 := lines;
      assert lines[line][col..] == lines[line];
      SkipByteOrderMark();
      assert lines[..|l1|] == l1;
    }

    /** `set_mark`, any forward and backward moves, `revert_to_mark`: the
        cursor is back where the mark was set and the mark is gone. */
    method MarkMoveRevert(forward: nat, back: nat)
      requires Valid()
      modifies this
      ensures Valid() && Unmoved() && marks == old(marks) && ReadsOn()
    {
      SetMark();
      ghost var l0, i0, m0, g0 := lines, input, maxLine, good;
      AdvanceBy(forward);
      ReadsTrans(old(lines), old(input), old(maxLine), old(good), l0, i0, m0, g0, lines, input, maxLine, good);
      RetreatBy(back);
      RevertToMark(false);
    }
  }

  /** `get_line` at the end of the input as written: it pushes an empty
      buffer in front without incrementing `max_line`. */
  function EofBuffersAsWritten(bufs: seq<LineBuf>): (r: seq<LineBuf>)
    ensures |r| == |bufs| + 1 && r[0] == LineBuf("", 0) && r[1..] == bufs
  {
    [LineBuf("", 0)] + bufs
  }

  /** After that push, `bufs[max_line - n]` is no longer line `n`: on the
      last line, `BUF` reads as empty although the line is not, and every
      column after its first is past the end of `BUF`. */
  lemma EofPushDetachesBuffer(bufs: seq<LineBuf>, lines: seq<string>, maxLine: nat)
    requires Texts(bufs, lines, maxLine) && |bufs| > 0 && lines[maxLine] != ""
    ensures EofBuffersAsWritten(bufs)[0].text == "" != lines[maxLine]
    ensures !Texts(EofBuffersAsWritten(bufs), lines, maxLine)
  {
    assert bufs[0].text == lines[maxLine];
  }
}
