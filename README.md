# util: a verified model of the core

`util` is a small C++ utility library. It contains:

- ASCII character helpers;
- path splitting;
- extension lookup in a map;
- keyword sets and maps that find the longest keyword starting at a position of a string;
- `file_parser`, a line-buffered cursor over a text stream with a stack of marks;
- a backtracking regular-expression driver that works on that cursor;
- a DOM whose elements index their children by tag;
- the `dom_query` state machine for walking a DOM;
- the XML string helpers (escaping, entity expansion, name validation).

This project models that core in Dafny and proves what the code promises about it. There is one module per source file:

| module | file | source |
|---|---|---|
| `Wrappers` | `wrappers.dfy` | `Option` and `Result` helper types |
| `CharUtils` | `char_utils.dfy` | `src/char_utils.cpp` |
| `FileUtils` | `file_utils.dfy` | `src/file_utils.cpp`, `file_utils.hpp` |
| `MatchExtension` | `match_extension.dfy` | `match_extension.hpp` |
| `KeywordSets` | `keyword_set.dfy` | `keyword_set.hpp` |
| `KeywordMaps` | `keyword_map.dfy` | `keyword_map.hpp` |
| `FileParsing` | `file_parser.dfy` | `src/file_parser.cpp`, `file_parser.hpp` |
| `RegexEngine` | `regex.dfy` | `src/regex.cpp` |
| `DomElements` | `dom_element.dfy` | `src/dom_element.cpp`, `dom/dom_element.hpp` |
| `DomQueries` | `dom_query.dfy` | `dom/dom_detail.hpp` |

The code keeps its own form.

- Classes whose methods update fields become Dafny classes:
  - `keyword_set` and `keyword_map`;
  - `file_parser`, regex nodes and `dom_element`;
  - `dom_query`.
- Their methods carry `modifies` clauses. State the parser only computes from (the lines read so far) is a ghost field.
- Loops stay loops with invariants. Examples:
  - `lowercase`, the scans of `start_of_extension`;
  - `match_impl`, `substr` and the `get_line` continuation loop;
  - the repetition loop of `regex::match` and `unparse_string`;
  - the index loop of `expand_xml_entities`.
- Read-only searches are functions. Each loop is proved against a function that states its result.

Some behaviours recur across modules:

- **`error()`.** It reports and ends the process. It is modelled as a failure outcome: `Outcome.Terminated`, `Result.Failure`, `Status.Exit`, or `Some(NameError(...))`.
- **The input stream.** It is the sequence of lines still to be read. `std::getline` pops its head.
- **`size_t` wrap-around.** It is written out where the code relies on it: `pos - 1` at 0, `col - 1` at 0, and `--i` in `start_of_extension`.
- **`char` arithmetic.** In character references it is reduced modulo 256.

Where the code and its documentation disagree, the model follows the code and says so below.

- **`validate_xml_name`.** It rejects bad characters as well as the empty name (`src/dom_element.cpp:275-281`). So the model accepts exactly the names of `ValidName`, not every non-empty name.
- **`validate_xml_name` and a leading `:`.** Its comment (`src/dom_element.cpp:267-269`) says a name may not start with a colon. The test at 275 accepts `:` and `_` as the first character. The model accepts a leading `:`, as the code does.
- **The first overload of `match_extension` (`match_extension.hpp:7-14`) does not compile as written.** The return type `Map::iterator` lacks `typename`, `Map_iterator` is undeclared, and `std::string` has no `substring`. The model repairs these as `typename Map::iterator`, the map's iterator type and `substr`.
- **`word_char`.** Its doc comment (`char_utils.hpp:27-29`) says a word character is a letter (as per `std::isalpha`) or an underscore. The code (`src/char_utils.cpp:31-33`) tests `std::isalnum`, so digits count too. `CharUtils.WordChar` follows the code.
- **`dom_query::content`.** Its type error says "requesting attribute from", as written.
- **`src/regex.cpp` does not compile.** Examples: a missing `;` at 34, the unfinished `literal::match_single` and the COMPLEX branches. So `RegexEngine` models the evident intent of the leaf paths:
  - `match` first pushes the sentinel attempt that `start_attempt` creates. Without it, `clear_attempt` would pop past the attempts of the current call.
  - `match_sequence` resumes matching after the node whose match changed. As written it re-matches that node and adds its length twice.
- **Regex nodes never advance the parser.** The comment at `src/regex.cpp:6-15` says that every node type advances the parser when it matches. The code does not: `regex::match_single` calls `parser.match(string)` with the default options, which do not consume, and the character-class test only reads `*parser`. So in the model a node's match leaves the cursor where it was (`RegexEngine.Probe`, `RegexEngine.Node.MatchSingle`), and its length is only counted.
- **`match_sequence` and a node that cannot change.** When `change_match` fails for the node stepped back to (`src/regex.cpp:98-111`), the loop steps back further and `len` still holds that node's contribution. `RegexEngine.BackStep` subtracts that contribution (`drop`), so the running length stays the sum of what the nodes in front of the cursor contribute. This is the evident intent: the node is matched again later, and its new length is added then.
- **`auto& sub = *seq_iter;` (`src/regex.cpp:88`).** `sub` is a reference into the list, so `sub = *seq_iter;` at 108 overwrites the list element it refers to with the pointer of the node stepped back to. The model reads `sub` as the node at `seq_iter`. It does not model the overwrite, which duplicates one node in the list and loses another.

## Model

| member | source | states |
|---|---|---|
| CharUtils.Dec | keyword_set.hpp:86 | `pos - 1` on `size_t`: one less, and 0 wraps to `SIZE_MAX` |
| CharUtils.ToLower | src/char_utils.cpp:6 | `tolower` maps exactly the upper-case letters to lower case, 32 code points down, and leaves everything else |
| CharUtils.ToUpper | src/char_utils.cpp:13 | `toupper` maps exactly the lower-case letters to upper case and leaves everything else |
| CharUtils.Lowercase | src/char_utils.cpp:3-9 | the index loop yields the position-wise `tolower` of the input, of the same length, with no upper-case letter left |
| CharUtils.Uppercase | src/char_utils.cpp:10-16 | the index loop yields the position-wise `toupper` of the input, with no lower-case letter left |
| CharUtils.ConvertLowercase | src/char_utils.cpp:18-23 | the string is overwritten in place with its lower-case form |
| CharUtils.ConvertUppercase | src/char_utils.cpp:24-29 | the string is overwritten in place with its upper-case form |
| CharUtils.LowerIdempotent | src/char_utils.cpp:3-9 | lower-casing twice is lower-casing once |
| CharUtils.LowerOfUpper | src/char_utils.cpp:3-16 | lower-casing an upper-cased string gives the lower-cased original |
| CharUtils.WordChar | src/char_utils.cpp:31-33 | true iff the position is inside the string and holds an alphanumeric character or `_`; never true past the end |
| CharUtils.WordCharBeforeStart | keyword_set.hpp:86 | `word_char(str, pos - 1)` at position 0 reads no character and is false |
| FileUtils.LastSlashUpTo | src/file_utils.cpp:5-11 | the last unescaped `/` at or before a position, or 0, with none between it and the position |
| FileUtils.StartOfFilename | file_utils.hpp:12-14 | the index after the last unescaped `/`, or 0; no unescaped `/` follows it |
| FileUtils.FindStartOfFilename | src/file_utils.cpp:5-11 | the backward index loop returns exactly that index |
| FileUtils.SlashIsLast | src/file_utils.cpp:5-11 | a separator with no separator after it is where the file name starts |
| FileUtils.FirstExtDotAfter | file_utils.hpp:16-19 | the leftmost dot after a position that follows a non-dot character, or the length |
| FileUtils.StartOfExtension | file_utils.hpp:16-19 | the first dot after the file name's start separated from it by a non-dot character, or the length, with no such dot before it |
| FileUtils.ScanStartOfExtension | src/file_utils.cpp:13-31 | the nested backward loops either wrap `--i` past 0, exactly on the inputs `ScanWraps` describes, or return the documented index |
| FileUtils.HiddenFileWraps | src/file_utils.cpp:16-25 | on `.bashrc` the scan wraps, and the documented answer is "no extension" |
| FileUtils.DirPlusFilename | src/file_utils.cpp:36-41 | `get_dir(f) + get_filename(f) == f` |
| FileUtils.ReplaceOwnExtension | src/file_utils.cpp:33-45 | `replace_extension(f, get_extension(f)) == f` |
| FileUtils.ReplaceOwnDir | src/file_utils.cpp:36-48 | `replace_dir(f, get_dir(f)) == f` |
| FileUtils.ExtensionWithinFilename | src/file_utils.cpp:33-41 | the extension starts no earlier than the file name and is a suffix of it |
| FileUtils.HiddenAfterSlash | file_utils.hpp:16-19 | `dir/.hidden` has no extension |
| MatchExtension.FindDot | match_extension.hpp:13 | `find('.', from)`: the first dot at or after `from`, or none |
| MatchExtension.LastSlash | match_extension.hpp:9 | `rfind('/')`: the last `/`, or none |
| MatchExtension.FirstDotSuffix | match_extension.hpp:13-18 | the first dot-suffix from a position that is a key, which is also the longest such key |
| MatchExtension.MatchExtensionAsWritten | match_extension.hpp:7-21 | the loop returns the longest dot-suffix of the whole string that is a key, and nothing exactly when no dot-suffix is a key |
| MatchExtension.SkipToNextDot | match_extension.hpp:13 | no suffix between a position and the next dot is tried |
| MatchExtension.StraySemicolonMatchesDirectoryDot | match_extension.hpp:10-11 | key `.b/c` is matched in `a.b/c` through the directory's dot; from the last `/` nothing matches |
| MatchExtension.MatchExtensionFromSlash | match_extension.hpp:9-20 | the intended lookup returns a key that starts with `.`, contains no `/` and is a suffix of the string |
| MatchExtension.SuffixAfterLastSlash | match_extension.hpp:9-18 | a dot-suffix found from the last `/` on contains no `/` |
| KeywordSets.MaxLength | keyword_set.hpp:39-48 | the constructor's `max_len` is the length of the longest key, 0 for none |
| KeywordSets.KeywordSet.constructor | keyword_set.hpp:31-48 | the set holds exactly the listed keys, each in its length's bucket, and `max_len` is the longest |
| KeywordSets.KeywordSet.Insert | keyword_set.hpp:58-63 | the key joins the set and nothing else does; `max_len` rises to its length; the result says whether it was new |
| KeywordSets.KeywordSet.SearchDown | keyword_set.hpp:91-103 | the bucket loop returns the longest matching length not above its start, or `npos` when none matches |
| KeywordSets.KeywordSet.MatchAsWritten | keyword_set.hpp:85-104 | as written: the longest keyword at `pos` not followed by a word character, or `npos` iff there is none |
| KeywordSets.KeywordSet.Match | keyword_set.hpp:72-104 | as documented: additionally `npos` whenever a word character precedes `pos` in whole-word mode |
| KeywordSets.KeywordSet.MatchWhole | keyword_set.hpp:109-120 | the string's length iff the string is a key, `npos` otherwise |
| KeywordSets.PreCheckHasNoEffect | keyword_set.hpp:86-87 | with key `ab`, as written `xab` at 1 matches as a whole word; the documented match gives `npos` |
| KeywordMaps.KeywordMap.constructor | keyword_map.hpp:36-53 | the map holds exactly the listed keys, each with the value of its last listing; bucket 0 exists; `max_len` is the length of the longest listed key; the default is the given one |
| KeywordMaps.MaxLengthStep | keyword_map.hpp:46-52 | one more listed key raises the running `max_len` to its length when longer |
| KeywordMaps.KeywordMap.AssignListed | keyword_map.hpp:46-52 | one round of the constructor loop keeps the map holding exactly the pairs listed so far, each with its last value |
| KeywordMaps.KeywordMap.ExtendListed | keyword_map.hpp:46-52 | one more pair keeps "holds the listed keys with their last values" |
| KeywordMaps.KeywordMap.Sentinel | keyword_map.hpp:29-31 | the sentinel has no entry and length `npos` |
| KeywordMaps.KeywordMap.IndexAsWritten | keyword_map.hpp:65-67 | `operator[]` returns the stored value, or stores and returns `T()`; other keys are unchanged; `max_len` is not raised |
| KeywordMaps.KeywordMap.Index | keyword_map.hpp:55-67 | as intended: the same, with `max_len` raised to the key's length |
| KeywordMaps.KeywordMap.Assign | keyword_map.hpp:51 | `map[len][key] = val` stores the value under the key and leaves the other keys |
| KeywordMaps.KeywordMap.Insert | keyword_map.hpp:80-93 | adds the pair iff the key is absent, returning the stored value and whether it inserted; raises `max_len` |
| KeywordMaps.KeywordMap.SearchDown | keyword_map.hpp:118-128 | the bucket loop returns the longest matching length not above its start, or `npos` |
| KeywordMaps.KeywordMap.Match | keyword_map.hpp:96-131 | `npos` after a word character in whole-word mode; otherwise `npos` iff no keyword of length at most `max_len` matches at `pos` (`NoKeywordAt`), and else the longest one (`LongestAt`) with its stored pair (`EntryAt`) |
| KeywordMaps.KeywordMap.BucketLoop | keyword_map.hpp:116-131 | from `min(max_len, length - pos)` down: `npos` iff no keyword matches, else the longest with its pair |
| KeywordMaps.KeywordMap.Found | keyword_map.hpp:124-125 | a stored key at `pos` gives its length and its stored pair |
| KeywordMaps.KeywordMap.MatchWhole | keyword_map.hpp:136-148 | the entry and length of the string iff it is a key, else the sentinel |
| KeywordMaps.KeywordMap.EraseAsWritten | keyword_map.hpp:156-168 | as written: `true` iff some key of that length exists; a single-entry bucket is dropped whatever its key |
| KeywordMaps.KeywordMap.Erase | keyword_map.hpp:150-155 | as documented: removes exactly the key, reports whether it was stored, keeps the others |
| KeywordMaps.IndexedMatchIsComplete | keyword_map.hpp:111-131 | while no bucket exceeds `max_len`, `match` finds every keyword at `pos`, and the longest |
| KeywordMaps.IndexedKeyIsNotMatched | keyword_map.hpp:65-67 | runs the as-written `operator[]` on an empty map: `"ab"` is then stored, but `match("ab", 0, false)` gives `npos` |
| KeywordMaps.EraseDropsOtherKey | keyword_map.hpp:162-163 | `erase("ab")` on the map `{cd: 1}` returns `true` and removes `cd` |
| FileParsing.MarksOn | src/file_parser.cpp:359 | the number of marks on a line is at most the number of marks |
| FileParsing.MarksOnZero | src/file_parser.cpp:98 | a line counts no mark iff no mark is on it |
| FileParsing.MarksOnPush | src/file_parser.cpp:357-360 | a new mark adds one to its own line's count only |
| FileParsing.CountPush | src/file_parser.cpp:357-360 | `++MARK_COUNT` keeps every retained line's count equal to its marks |
| FileParsing.CountPop | src/file_parser.cpp:362-374 | the decrement before `marks.pop()` keeps the counts right |
| FileParsing.TextsRecount | src/file_parser.cpp:365 | changing a count keeps the texts |
| FileParsing.PushFront | src/file_parser.cpp:110-111 | the new line goes in front with no marks, and the line at `bufs[max_line - n]` is still line `n` |
| FileParsing.SwapFront | src/file_parser.cpp:105-109 | with no marks, the swapped-in line is the only retained line |
| FileParsing.AppendFront | src/file_parser.cpp:125 | appending to the newest line keeps texts, counts and marks consistent |
| FileParsing.JoinLines | src/file_parser.cpp:114-126 | the continuation loop appends whole input lines while the text ends in the continuation character; incomplete exactly when the input runs out there |
| FileParsing.JoinLinesText | src/file_parser.cpp:114-126 | the joined text is the first line followed by exactly the input lines the loop used |
| FileParsing.JoinNoNewline | src/file_parser.cpp:114-126 | joining lines without a newline gives a line without one |
| FileParsing.JoinLoop | src/file_parser.cpp:114-126 | the `while` loop computes `JoinLines` |
| FileParsing.SpanNextChar | src/file_parser.cpp:424-437 | one more character of a line extends the text between two positions by it |
| FileParsing.SpanNextLine | src/file_parser.cpp:439-440 | a line break extends it by `'\n'` when newlines are kept |
| FileParsing.SpanPrevChar | src/file_parser.cpp:136-138 | one character further back prefixes it |
| FileParsing.SpanPrevLine | src/file_parser.cpp:157-161 | a line break further back prefixes the newline |
| FileParsing.SpanLength | src/file_parser.cpp:424-440 | the text between two positions on one line is as long as their column distance; across lines it holds the whole rest of the first line |
| FileParsing.SpanPrefix | src/file_parser.cpp:88 | reading more lines does not change the text between earlier positions |
| FileParsing.SpanStep | src/file_parser.cpp:134-155 | a forward `advance_char` passes exactly the character `get_char` saw |
| FileParsing.SpanStepBack | src/file_parser.cpp:134-144 | a backward `advance_char` passes exactly the character `get_char(true)` saw |
| FileParsing.ReadsTrans | src/file_parser.cpp:88 | the stream moving forward is transitive |
| FileParsing.ReadLineFile | src/file_parser.cpp:85-126 | reading the next joined line moves it from the lines still to come to the lines read; the file, read and unread, is unchanged |
| FileParsing.AheadInLine | src/file_parser.cpp:50-53 | a string without line breaks matches the text ahead iff the current line continues with it |
| FileParsing.ScanMiss | src/file_parser.cpp:244-251 | a miss at a scan position makes one more position that fails, and where `advance_char` cannot move no reachable position passes |
| FileParsing.ScanHit | src/file_parser.cpp:244-251 | a hit at the `d`th scan position, with none before, ends the seek there, the cursor at it or past it |
| FileParsing.ScanEnd | src/file_parser.cpp:251 | a miss where `advance_char` fails ends the seek unfound, exhausted unless the step was cut short |
| FileParsing.FixedPointNotCut | src/file_parser.cpp:251 | where `advance_char` cannot move, the continuation waiver `CutAt` does not hold, so a scan that stops there is exhausted |
| FileParsing.EmptyLineNotCut | src/file_parser.cpp:114 | an empty last line never ends in the continuation character, so a scan that stops at its start is not cut short |
| FileParsing.KnownLineNotCut | src/file_parser.cpp:244-251 | a line read before the seek began, such as the one it starts on, is never waived as cut short: the loop tests it or moves onto it with success |
| FileParsing.Verdict | src/file_parser.cpp:331-344 | a match returns `true`; a failure returns `false` without an error message and ends with the message otherwise |
| FileParsing.PassesPush | src/file_parser.cpp:429-434 | the `CONTAINS_ANY`/`CONTAINS_NOT` check over one more character |
| FileParsing.FileParser.Buf | src/file_parser.cpp:204 | `BUF` is the current line's text |
| FileParsing.FileParser.SetMark | src/file_parser.cpp:357-360 | pushes the current position; nothing else changes |
| FileParsing.FileParser.Prune | src/file_parser.cpp:98-99 | drops the oldest lines while no mark points into them, never the current line; every dropped line had no mark |
| FileParsing.FileParser.UnsetMark | src/file_parser.cpp:362-374 | pops the top mark, and prunes only when that mark was on the oldest retained line |
| FileParsing.FileParser.PopMark | src/file_parser.cpp:365-373 | the count decrement and `marks.pop()`: the top mark goes, the lines and the position stay |
| FileParsing.FileParser.ResetMark | src/file_parser.cpp:376-379 | replaces the top mark by the current position |
| FileParsing.FileParser.RevertToMark | src/file_parser.cpp:381-391 | moves to the top mark; keeps it or pops it as asked |
| FileParsing.FileParser.PushLine | src/file_parser.cpp:97-111 | a read line becomes the new current and last line at column 0; old lines go as far as marks allow, all of them without marks |
| FileParsing.FileParser.PushPruned | src/file_parser.cpp:105-111 | after pruning, the read line becomes the new current and last line at column 0, above every mark |
| FileParsing.FileParser.JoinContinuations | src/file_parser.cpp:114-126 | the newest line grows by its continuation lines, which leave the input; the stream goes bad when it ran out inside a continuation |
| FileParsing.FileParser.GetLine | src/file_parser.cpp:85-132 | at the end of the input only the stream goes bad; otherwise the next joined line is read as above |
| FileParsing.FileParser.GetChar | src/file_parser.cpp:196-209 | the character after (or before) the cursor, `'\n'` exactly at the line's end (or start) |
| FileParsing.FileParser.Good | src/file_parser.cpp:215-217 | true iff the stream is good and the cursor is not at the end of its line |
| FileParsing.FileParser.AdvanceLine | src/file_parser.cpp:156-175 | to the end of the previous retained line, to the start of the next one, or reading a line at the last one; backwards never reads |
| FileParsing.FileParser.AdvanceChar | src/file_parser.cpp:134-155 | one character or line break in each case of direction, `single_line` and position; a move passes the character `get_char` saw |
| FileParsing.FileParser.Forward | src/file_parser.cpp:177-180 | moves to the next position, or stays exactly at the end of the exhausted input; a failure that moved read a new last line that ends in the continuation character, and the cursor is at its start |
| FileParsing.FileParser.ForwardInLine | src/file_parser.cpp:146-151 | one column forward iff not at the end of the line |
| FileParsing.FileParser.MatchForward | src/file_parser.cpp:302-307 | `true` iff `str` is what the reads from the cursor yield: the text ahead (the rest of the line with `single_line`), then `'\n'` once stuck at its end; on a match the cursor is `\|str\|` steps of `advance_char` on |
| FileParsing.FileParser.CompareAhead | src/file_parser.cpp:303-306 | one round of the loop: `str[i]` against `get_char()`, passed on a hit; the characters compared stay the start of the text that was ahead, and a miss shows that `str` does not match it |
| FileParsing.FileParser.Backward | src/file_parser.cpp:181-184 | moves to the previous position, or stays exactly at the start of the oldest retained line |
| FileParsing.FileParser.BackwardInLine | src/file_parser.cpp:136-141 | one column back iff not at the start of the line |
| FileParsing.FileParser.MatchBackward | src/file_parser.cpp:293-300 | `true` iff `str`, read from its end, is what the reads behind the cursor yield: the text behind (the line up to it with `single_line`, else from the oldest retained line), then `'\n'` once stuck at its start; on a match the cursor is `\|str\|` steps back; nothing is read |
| FileParsing.FileParser.CompareBehind | src/file_parser.cpp:294-299 | one round of the backward loop: `str[i - 1]` against `get_char(true)`, passed backwards on a hit; a miss shows that `str` does not match the text behind |
| FileParsing.FileParser.TryStyle | src/file_parser.cpp:284-328 | the test iff it holds at the cursor (`HitAt`): `CHAR`, `CHARS`, `NOT_CHARS` on the character read, `STRING` on the text ahead or behind, `WORD_BOUNDARY` on the word characters around the cursor; a hit passes one character, `\|str\|` characters, or nothing |
| FileParsing.FileParser.TryChar | src/file_parser.cpp:284-300 | the one-character styles: true iff the character `get_char` reads is `str[0]`, is in `str`, or is not in `str`; a hit is one `advance_char` step, a miss does not move |
| FileParsing.FileParser.MatchImpl | src/file_parser.cpp:278-345 | the verdict is exactly the test at the cursor (`HitAt`), and a failure with an error message ends the process; a consuming match leaves the cursor one step or `\|str\|` steps on, anything else leaves it where it was; marks are restored |
| FileParsing.FileParser.Settle | src/file_parser.cpp:331-344 | a consuming match keeps the position, anything else without error goes back to the mark; the mark is dropped |
| FileParsing.FileParser.Step | src/file_parser.cpp:251 | a successful step moves strictly forward (or reads input) or strictly back; a failed one stops at the line end, the input end or the retained start, or else it read a new line that ran out inside a continuation and is at that line's start (`CutShort` beyond the lines read before the step) |
| FileParsing.FileParser.Attempt | src/file_parser.cpp:245 | `match_impl` without error message: found iff the test holds at the cursor; a consuming hit leaves the cursor one or `\|str\|` steps on, anything else where it was |
| FileParsing.FileParser.SeekStep | src/file_parser.cpp:244-251 | one round of the loop: a hit iff the test holds at the cursor, with the cursor left as `match_impl` leaves it; otherwise the cursor is where one `advance_char` goes, and `advance_char` reports `false` only where it cannot move or where this step's own read of a new line ran out inside a continuation (`CutShort(opts, \|old(lines)\|)`: the cursor at column 0 of a last line not read before the step, which ends in the continuation character, with the input at its end) |
| FileParsing.FileParser.ScanRound | src/file_parser.cpp:244-251 | the same round stated against the scan: a hit ends the scan at its `d`th position; a miss makes that position one more that fails and moves to the next one; a failed step ends the scan, exhausted unless the step read a line beyond those read when the scan began and that read was cut short in a continuation |
| FileParsing.FileParser.SeekLoop | src/file_parser.cpp:244-251 | `found` iff the scan from the cursor reaches a position where the test holds, the `d`th; no earlier position passes; without `found` no reachable position passes, unless the scan's own read of a new line ran out in a continuation and the scan stopped at that line's untested start (`CutShort(opts, \|old(lines)\|)`, never on a line read before the seek); the cursor is at the hit, or past it with `consume` |
| FileParsing.FileParser.SeekFore | src/file_parser.cpp:244-251 | the same for a forward scan, which reads further lines: the stream only moves on, the file read is unchanged, and the continuation waiver is `CutShort` at the stop, on a line beyond those read when the scan began |
| FileParsing.FileParser.SeekBack | src/file_parser.cpp:244-251 | the same for a backward scan, which reads nothing and keeps the text |
| FileParsing.FileParser.SeekImplAsWritten | src/file_parser.cpp:239-261 | as written, a lookahead seek goes back to its start but leaves its mark on the stack |
| FileParsing.FileParser.SeekImpl | src/file_parser.cpp:239-261 | as intended: marks are restored; the verdict is the seek loop's `found`, with its scan facts stated at the stop position `stop`: no earlier position passes, a hit is at the `d`th, and without one no reachable position passes unless the seek's own read of a new line ran out inside a continuation at `stop` (`CutAt` with `stop` beyond the lines read before the seek); the cursor stays at `stop`, or goes back to its start with `lookahead`; a failure with an error message ends the process |
| FileParsing.FileParser.Extract | src/file_parser.cpp:421-441 | the copy loops write the text between the positions, with newlines if asked, and compute the check over it |
| FileParsing.FileParser.CopyLine | src/file_parser.cpp:425-437 | the inner loop over one line extends the text written and the check to the line's end column |
| FileParsing.FileParser.Substr | src/file_parser.cpp:398-447 | no mark: nothing written, check false; otherwise the text between mark and cursor in file order and its check; the mark goes unless `KEEP_MARK` |
| FileParsing.FileParser.Ordered | src/file_parser.cpp:405-420 | the `min`/`max` computation orders mark and cursor in file order |
| FileParsing.FileParser.SubstrText | src/file_parser.cpp:393-397 | the text `substr` writes |
| FileParsing.FileParser.AdvanceBy | src/file_parser.cpp:185-189 | passes `incr` characters, fewer only when stopped at the end of the input |
| FileParsing.FileParser.ForwardCounted | src/file_parser.cpp:186-187 | one `advance_char` adds one character to the text passed, or none exactly at the end of the input |
| FileParsing.FileParser.RetreatBy | src/file_parser.cpp:190-194 | passes `decr` characters back, fewer only when stopped at the retained start |
| FileParsing.FileParser.SetContChar | src/file_parser.cpp:219-221 | sets the continuation character only |
| FileParsing.FileParser.SkipByteOrderMark | src/file_parser.cpp:50-53 | a byte order mark at the cursor is passed: three columns on, on the same line; without one nothing moves; the marks stay |
| FileParsing.FileParser.constructor | src/file_parser.cpp:16-31 | line 0 empty, no marks; with input, line 1 is the first line joined with its continuations and the cursor is at its column 0, or column 3 after a byte order mark |
| FileParsing.FileParser.MarkMoveRevert | src/file_parser.cpp:357-391 | set a mark, move any way, revert: back at the mark, mark stack as before |
| FileParsing.EofBuffersAsWritten | src/file_parser.cpp:88-89 | at the end of the input an empty buffer is pushed in front |
| FileParsing.EofPushDetachesBuffer | src/file_parser.cpp:88-95 | after that push, `BUF` no longer is the current line |
| RegexEngine.SinceSentinel | src/regex.cpp:233-236 | the attempts above the topmost sentinel are all repetitions, fewer than the stack when a sentinel exists |
| RegexEngine.SinceSentinelPush | src/regex.cpp:35 | a pushed repetition extends the latest match |
| RegexEngine.SinceFreshSentinel | src/regex.cpp:237-239 | after `start_attempt`, the repetitions pushed are the latest match |
| RegexEngine.SinceSentinelPop | src/regex.cpp:227-231 | popping a repetition shortens the latest match by it, and by its length |
| RegexEngine.SentinelAt | src/regex.cpp:233-236 | the topmost sentinel lies directly below the latest match |
| RegexEngine.PushRepetition | src/regex.cpp:123-139 | the next repetition number keeps the numbering and adds its length |
| RegexEngine.Copies | src/regex.cpp:24-67 | `n` marks, all at the same position, as the repetitions of one `match` leave them |
| RegexEngine.Probe | src/regex.cpp:31-46 | a literal matches iff its text is what the reads ahead of the cursor yield, with its length; a character class iff the stream is good and the character at the cursor is in it, with length 1; the cursor does not move |
| RegexEngine.SingleOn | src/regex.cpp:24-67 | the parser side of `match_single`: the test decides, the length is the width or 0, the mark stays only on a match, the cursor does not move |
| RegexEngine.Node.MatchSingle | src/regex.cpp:24-67 | matched iff the node's test holds at the cursor (`KindTest`), with length `\|text\|` or 1; on a match an attempt with that length and repetition is pushed and the mark kept; on failure nothing changes; the cursor and the file ahead do not move, so the test stays as it was |
| RegexEngine.Node.StartAttempt | src/regex.cpp:237-239 | pushes the sentinel |
| RegexEngine.Node.PopAttempt | src/regex.cpp:227-231 | pops the top attempt; says whether it was a repetition |
| RegexEngine.Node.ClearAttempt | src/regex.cpp:233-236 | pops the latest match and its sentinel, removing one mark per repetition and going back to the oldest of them |
| RegexEngine.Node.Repeat | src/regex.cpp:123-142 | at most `max_reps` tries, at most `min_reps` repetitions when reluctant, numbered 1, 2, ...; every repetition has the node's width and the length is their sum; none when the test fails at the cursor, otherwise `Reps()`: `min(min_reps, max_reps)` when reluctant, else `max_reps`, and at most 1 for a zero-length node; a zero-length last repetition raises `rep` to `min_reps`, and only that lets `rep` reach `min_reps` with fewer repetitions made |
| RegexEngine.Node.RepeatStep | src/regex.cpp:123-139 | one round of the `for` loop: within the bounds it tries once; the loop goes on iff no bound is reached, the test holds and the width is non-zero; with a try that matches, exactly one repetition `Attempt(width, rep + 1)` and its mark are stacked |
| RegexEngine.Node.RepeatOnce | src/regex.cpp:130-141 | a try within the bounds stacks one repetition iff the test holds, and ends the loop on a miss or a zero-length match |
| RegexEngine.Node.Match | src/regex.cpp:118-152 | success iff `min_reps == 0`, or the test holds at the cursor and the bounds allow `min_reps`, a zero-length repetition counting for all; the repetitions made number `Reps()` when the test holds and none otherwise, and a zero-length one always succeeds; on failure attempts and marks are restored; on success the repetitions made are the node's latest match and its length is repetitions times width |
| RegexEngine.Node.Enough | src/regex.cpp:143-150 | the loop's end reaches `min_reps` exactly when none are required or the test holds and the bounds allow them |
| RegexEngine.Node.EndMatch | src/regex.cpp:143-150 | at or past `min_reps` success leaves everything; below it the attempts and marks of the match go |
| RegexEngine.Node.ClearMade | src/regex.cpp:146-149 | `clear_attempt` after too few repetitions restores the attempts and marks and leaves the cursor where it was |
| RegexEngine.Node.ChangeMatch | src/regex.cpp:182-225 | possessive never changes; reluctant below `max_reps` changes iff the test holds at the cursor, adding one repetition and its width to the running length; greedy drops one above `min_reps`; the running length follows the contribution |
| RegexEngine.Node.ChangeReluctant | src/regex.cpp:193-202 | below `max_reps`, changes iff the test holds at the cursor: one more repetition, its width added to the running length; at `max_reps` or on failure nothing changes |
| RegexEngine.Node.ChangeGreedy | src/regex.cpp:204-221 | above `min_reps` the last repetition and its length go; otherwise nothing changes |
| RegexEngine.ForeStep | src/regex.cpp:91-95 | a matched node's length joins the running total |
| RegexEngine.BackStep | src/regex.cpp:97-111 | a changed node's new contribution replaces its old one in the total |
| RegexEngine.MatchSequence | src/regex.cpp:82-116 | on success the length is the sum of what the nodes contribute |
| DomElements.SelectPush | src/dom_element.cpp:287-288 | a new child extends the bucket of its name and the `""` bucket |
| DomElements.AllEntriesNamed | src/dom_element.cpp:288 | with named children only, the `""` bucket is the child list |
| DomElements.SelectFirst | src/dom_element.cpp:287 | a bucket's first entry is the first child with that name |
| DomElements.SelectNone | src/dom_element.cpp:287 | a bucket is empty iff no child has that name |
| DomElements.Element.constructor | src/dom_element.cpp:292-293 | a new element is empty and its index consistent |
| DomElements.Element.AddElement | src/dom_element.cpp:284-291 | appends the child and files it under its name and `""`; other buckets, attributes and content are unchanged |
| DomElements.Element.AddTag | src/dom_element.cpp:292-297 | appends a fresh empty child with that tag |
| DomElements.AllIndexedInOrder | src/dom_element.cpp:284-291 | with named children only, `elem_map[""]` lists all children in insertion order |
| DomElements.FirstIndexed | src/dom_element.cpp:287 | the first child filed under a tag is the first child with that name |
| DomElements.IndexedIff | src/dom_element.cpp:287 | a tag has an entry iff some child has that name |
| DomElements.EscapeAppend | src/dom_element.cpp:683-692 | escaping distributes over concatenation |
| DomElements.UnparseString | src/dom_element.cpp:682-693 | the loop writes each character's escape in order |
| DomElements.EscapeIsPlain | src/dom_element.cpp:684-690 | escaped text holds no `<`, `>`, `"` or `'` |
| DomElements.FindChar | src/dom_element.cpp:338 | `find(';', pos)`: the first `;` from `pos`, or none |
| DomElements.FindShift | src/dom_element.cpp:338 | searching a suffix finds the same position, shifted |
| DomElements.RefDigits | src/dom_element.cpp:344-371 | a character reference's value fits in a `char`; a non-digit gives the matching error |
| DomElements.CharReference | src/dom_element.cpp:346-371 | the digit loop computes that value or that error |
| DomElements.ExpandReference | src/dom_element.cpp:343-386 | a reference expands as a character reference, an undefined-entity error, `&` for `&amp;`, or the entity's expanded value |
| DomElements.ExpandXmlEntities | src/dom_element.cpp:333-393 | the index loop computes the expansion, or its first error |
| DomElements.EscapeCharShape | src/dom_element.cpp:22-28 | each special character escapes to `&name;` with a default entity naming it |
| DomElements.ExpandPlain | src/dom_element.cpp:388-389 | text without `&` expands to itself |
| DomElements.ExpandEscapedChar | src/dom_element.cpp:333-393 | an escaped character expands back to the character |
| DomElements.ExpandUnparse | src/dom_element.cpp:333-393 | with the default table, `expand_xml_entities(unparse_string(s)) == s` |
| DomElements.FindFrom | src/dom_element.cpp:338 | `find` returns the first `;` from `pos` |
| DomElements.AmpIsNotReexpanded | src/dom_element.cpp:378-384 | `&amp;` followed by any text expands to `&` followed by that text's own expansion, so `&amp;lt;` gives `&lt;`, not `<` |
| DomElements.ValidateXmlName | src/dom_element.cpp:271-282 | accepts iff the name is non-empty, starts with a letter, `:` or `_`, and goes on with letters, digits, `.`, `-`, `:`, `_`; otherwise the error and the first bad index |
| DomQueries.NatToString | dom/dom_detail.hpp:210-211 | `std::to_string` on a count is a non-empty string of digits |
| DomQueries.NatToStringValue | dom/dom_detail.hpp:211 | the count's string reads back, in decimal, as the count |
| DomQueries.DomQuery.constructor | dom/dom_detail.hpp:144-147 | a valid element query on the target, its query the target's name |
| DomQueries.DomQuery.AllElements | dom/dom_detail.hpp:151-169 | a type error off ELEMENT; becomes a list query; a valid one is invalid iff a non-empty tag has no entry; a non-valid one keeps target and query |
| DomQueries.DomQuery.Element | dom/dom_detail.hpp:170-196 | a type error off ELEMENT; a valid query moves to the first child (or the first with the tag) and is invalid iff there is none; a non-valid one changes nothing |
| DomQueries.DomQuery.UniqueElement | dom/dom_detail.hpp:197-234 | as `element`, but more than one candidate (or, for the empty tag, not exactly one child) ends the process with the given message, or by default "Unique first element requested, but N found" (empty tag) or "Unique element with tag <t> requested, but N found", with N the count and "none" for no children |
| DomQueries.DomQuery.Attribute | dom/dom_detail.hpp:235-251 | a type error off ELEMENT; a valid query stays valid iff the attribute exists, and then its value is the attribute's |
| DomQueries.DomQuery.Content | dom/dom_detail.hpp:252-262 | a type error off ELEMENT; a valid query's value becomes the target's content |
| DomQueries.DomQuery.Range | dom/dom_detail.hpp:265-280 | iterating a non-list is an error; a non-valid list is empty; the empty tag gives all children |
| DomQueries.DomQuery.OrError | dom/dom_detail.hpp:282-287 | ends the process iff the query is invalid, with the given or default message |
| DomQueries.DomQuery.OrDefault | dom/dom_detail.hpp:288-309 | error on element queries; a valid value query is unchanged; otherwise it becomes defaulted and its value is the default |
| DomQueries.DomQuery.Nonempty | dom/dom_detail.hpp:310-345 | no effect on invalid queries; an error on valid element queries; for value queries it ends the process iff the value is empty; for lists iff the list is empty |
| DomQueries.DomQuery.Val | dom/dom_detail.hpp:347-369 | a value exactly for non-invalid attribute/content queries: the attribute's value, the content, or the default; the stated errors otherwise |
| DomQueries.DomQuery.BoolVal | dom/dom_detail.hpp:376-390 | `true`/`false` in any letter case, a number when the value starts with a digit, an error otherwise |
| DomQueries.DomQuery.CharVal | dom/dom_detail.hpp:391-398 | the character of a one-character value, an error otherwise |
| DomQueries.DomQuery.Get | dom/dom_detail.hpp:439-446 | the target exactly for a valid element query |
| DomQueries.DomQuery.SetValue | dom/dom_detail.hpp:480-502 | error on element queries; otherwise writes the attribute (whatever the validity) or the content, touches nothing else, and returns to an element query |
| DomQueries.DomQuery.UnsetValue | dom/dom_detail.hpp:558-575 | error on element queries; otherwise removes the attribute or empties the content, and returns to an element query |
| DomQueries.ValidIsFiled | src/dom_element.cpp:284-291 | a consistent element's index has no empty entry, as `element` requires |
| DomQueries.RangeListsFiled | dom/dom_detail.hpp:265-280 | a valid list query iterates exactly the children filed under its tag, in order |
| DomQueries.ValidListIsNonempty | dom/dom_detail.hpp:326-330 | a valid list query on a consistent element is never empty |

## Findings

| source | as written | input that shows it | evidently intended | confidence | as-written member | corrected member |
|---|---|---|---|---|---|---|
| src/file_utils.cpp:16-25 | when a run of dots reaches index 0, the outer `--i` wraps past 0 and `file[i-1]` is read out of bounds | `".bashrc"` | the documented index: here the length, no extension | not executed | FileUtils.ScanStartOfExtension | FileUtils.StartOfExtension |
| keyword_set.hpp:86-87 | `std::string::npos;` is a statement, not a `return`, so the whole-word test before `pos` has no effect | key `"ab"`, `match("xab", 1, true)` gives 2 | `npos` when a word character precedes `pos` | not executed | KeywordSets.KeywordSet.MatchAsWritten | KeywordSets.KeywordSet.Match |
| keyword_map.hpp:65-67 | `operator[]` creates a key without raising `max_len`, so `match` never reaches its bucket | empty map, `m["ab"]`, then `match("ab", 0, false)` gives `npos` | raise `max_len` like `insert` does | not executed | KeywordMaps.KeywordMap.IndexAsWritten | KeywordMaps.KeywordMap.Index |
| keyword_map.hpp:162-163 | a bucket holding one entry is erased whatever that entry is, and `true` is returned for absent keys | map `{cd: 1}`, `erase("ab")` returns `true` and removes `cd` | remove exactly `key`; return whether it was stored | not executed | KeywordMaps.KeywordMap.EraseAsWritten | KeywordMaps.KeywordMap.Erase |
| match_extension.hpp:10-11 | the stray `;` after the `if` makes `slash = 0` unconditional, so directory dots are tried | key `".b/c"`, string `"a.b/c"` matches | search from the last `/` | not executed | MatchExtension.MatchExtensionAsWritten | MatchExtension.MatchExtensionFromSlash |
| src/file_parser.cpp:88-95 | at the end of the input an empty buffer is pushed without `++max_line`, so `BUF` stops being the current line | an exhausted stream whose last line is `"abc"`: `BUF` reads `""` | report failure and leave the buffers | not executed | FileParsing.EofBuffersAsWritten | FileParsing.FileParser.GetLine |
| src/file_parser.cpp:246-254 | `revert_to_mark()` defaults to keeping the mark, so every lookahead seek leaves one mark behind | any `seek` with `lookahead` | remove the mark, `revert_to_mark(remove_mark)` | not executed | FileParsing.FileParser.SeekImplAsWritten | FileParsing.FileParser.SeekImpl |

The members `FileUtils.HiddenFileWraps`, `KeywordSets.PreCheckHasNoEffect`, `KeywordMaps.IndexedKeyIsNotMatched`, `KeywordMaps.EraseDropsOtherKey`, `MatchExtension.StraySemicolonMatchesDirectoryDot` and `FileParsing.EofPushDetachesBuffer` exhibit the inputs above. The rest of the model uses the corrected members: the keyword map's constructor uses `Assign`, and the parser uses `GetLine`.

## Left out

- **I/O.** The file constructors and `ifstream` opening are not modelled (src/file_parser.cpp:33-48). Neither are echoing (61-83), `store_source`/`load_source` (449-469) or the `error` overloads with their context display (471-538). `error` is a failure outcome, and `get_line(err)` with a non-empty `err` is not modelled. `file_exists` and `default_extension_and_dir` call `fopen`.
- **The stream.** It is the list of remaining lines; only its `good()` bit is kept. `std::getline`'s handling of a final line without a newline is not modelled.
- **Byte order mark.** Characters stand for bytes; the mark is the three characters `EF BB BF`, and there is no UTF-8 decoding.
- **Locale.** `tolower`, `toupper`, `isalpha`, `isdigit` and `isalnum` are ASCII.
- **Getters.** `get_buffer`, `get_column`, `get_line_number`, `operator*`, `operator++` and `operator--` are `Buf`, the fields, `GetChar`, `Forward` and `Backward`.
- **`keyword_set::insert` returns nothing (keyword_set.hpp:58-69).** The model returns the evident "was it new" bit.
- **`keyword_set::erase` refers to an undeclared `map` (keyword_set.hpp:128-140).** It does not compile and is not modelled; `keyword_map::erase` is its modelled twin.
- **`match_whole` in keyword_set.hpp:109.** It is declared with the misspelt type `std::strng`; the model takes `std::string`.
- **The second overload of `match_extension` (match_extension.hpp:23-37).** It never performs a lookup and uses an undeclared `iter`.
- **The regex `COMPLEX` type and alternation.** Not modelled: `match_alternative`, `change_submatch`, the COMPLEX branch of greedy `change_match`, `literal::match_single` and `attempt::~attempt` (src/regex.cpp:17-22, 69-80, 154-180, 208-216, 241-247). They use undeclared names and have unbalanced braces, so their meaning cannot be read from the text. `regex.hpp` declares a different class hierarchy without definitions; only its modifier names are used.
- RegexEngine.MatchSequence: termination is bounded by a `fuel` count of node matches. Running out of fuel is a failure. Nothing is stated about a failed match beyond the parser staying consistent.
- RegexEngine.MatchSequence: the `start` parameter is dropped, because the only caller passes `begin()`.
- RegexEngine.Node.ChangeMatch: the greedy case pops the attempt but, as written, leaves the parser mark its `match_single` set. The model keeps that, so marks grow with every greedy change.
- **Error positions.** The `str, pos` arguments of `parser.error` (which character an error points at) are not modelled, except in `ValidateXmlName`.
- DomElements.ExpandXmlEntities: entity values nest at most `fuel` deep. Deeper nesting fails with a message of the model's own; the library recurses without bound.
- **The DOM parsers and printing.** Not modelled: `parse_xml`, `parse_json`, their recursive-descent helpers and `print`. Their I/O, process exits and iterator-indexed trees are out of scope.
- **`dom_iterator` (dom/dom_detail.hpp:8-59).** A wrapper over list iterators; `Range` is the sequence it walks.
- **`int_val`, `uint_val`, `float_val`.** Not modelled, nor `bool_val`'s numeric branch: they rely on `std::stol`, `std::stoul` and `std::stod`. `BoolVal` returns the text as `ByNumber`.
- **Other `dom_query` operations.** `add_element`, `add_element_and_access`, `add_elements`, `remove_element`, `remove_all_elements` and `clear_attributes` are not modelled.
- **`set_value` and `unset_value`.** They write `target->elems` and `target->_content`, which are not members of `dom_element`. The model writes the evident `attrs` and `cont`.
- **Undefined behaviour in the source becomes a precondition:**
  - `front()` of an empty list in `element`;
  - `find(query)->second` on a missing key in `nonempty`, `val` and `begin`.
- **A thrown exception becomes a precondition.** In the `match` of `keyword_set` and `keyword_map` (keyword_set.hpp:89-97, keyword_map.hpp:116-124), `pos > str.length()` makes `str.length() - pos` wrap, so the start length is `max_len`. `str.substr(pos, len)` then throws `std::out_of_range`; when no bucket is tried, `npos` is returned. The model requires `pos <= |str|` and does not model the exception.
- **The `sub` reference in `match_sequence` (src/regex.cpp:88, 108).** Assigning through it overwrites a list element; the model does not capture that aliasing and treats `sub` as the node at the iterator.
- **Character references.** Their `char` value is taken modulo 256 as an unsigned code; the sign of `char` is not modelled.
