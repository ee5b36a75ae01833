/** `dom_element` (src/dom_element.cpp, dom/dom_element.hpp): an element's
    bookkeeping of its sub-elements, and the XML string helpers the XML
    reader and writer use. The `std::list` of owned sub-elements becomes a
    sequence of references, the `unordered_map` from tags to lists of list
    iterators a map from tags to sequences of those references. `error()`,
    which ends the process, becomes a `Failure`. */
module DomElements {
  import opened Wrappers
  import opened CharUtils

  /** The children of `cs` whose name (as recorded in `ns`) is `t`, in
      order. */
  function Select(cs: seq<Element>, ns: seq<string>, t: string): seq<Element>
    requires |cs| == |ns|
  {
    if |cs| == 0 then []
    else Select(cs[..|cs| - 1], ns[..|ns| - 1], t) + (if ns[|ns| - 1] == t then [cs[|cs| - 1]] else [])
  }

  /** What `elem_map[""]` holds: every child in order, and an unnamed child
      twice (it is pushed under its own name, `""`, and then under `""`). */
  function AllEntries(cs: seq<Element>, ns: seq<string>): seq<Element>
    requires |cs| == |ns|
  {
    if |cs| == 0 then []
    else
      var last := if ns[|ns| - 1] == "" then [cs[|cs| - 1], cs[|cs| - 1]] else [cs[|cs| - 1]];
      AllEntries(cs[..|cs| - 1], ns[..|ns| - 1]) + last
  }

  /** One more child extends each selection it belongs to. */
  lemma SelectPush(cs: seq<Element>, ns: seq<string>, c: Element, n: string, t: string)
    requires |cs| == |ns|
    ensures Select(cs + [c], ns + [n], t) == Select(cs, ns, t) + (if n == t then [c] else [])
    ensures AllEntries(cs + [c], ns + [n]) == AllEntries(cs, ns) + (if n == "" then [c, c] else [c])
  {
    assert (cs + [c])[..|cs|] == cs && (ns + [n])[..|ns|] == ns;
  }

  /** With named children only, `AllEntries` is the child list itself. */
  lemma {:induction false} AllEntriesNamed(cs: seq<Element>, ns: seq<string>)
    requires |cs| == |ns| && forall k :: 0 <= k < |ns| ==> ns[k] != ""
    ensures AllEntries(cs, ns) == cs
  {
    if |cs| > 0 {
      AllEntriesNamed(cs[..|cs| - 1], ns[..|ns| - 1]);
      assert cs[..|cs| - 1] + [cs[|cs| - 1]] == cs;
    }
  }

  /** The first entry of a tag's selection is the first child with that
      name. */
  lemma {:induction false} SelectFirst(cs: seq<Element>, ns: seq<string>, t: string)
    requires |cs| == |ns| && |Select(cs, ns, t)| > 0
    ensures exists k :: (0 <= k < |ns| && ns[k] == t && Select(cs, ns, t)[0] == cs[k] &&
      forall j :: 0 <= j < k ==> ns[j] != t)
  {
    var pre := Select(cs[..|cs| - 1], ns[..|ns| - 1], t);
    if |pre| > 0 {
      SelectFirst(cs[..|cs| - 1], ns[..|ns| - 1], t);
      var ns' := ns[..|ns| - 1];
      var k :| 0 <= k < |ns'| && ns'[k] == t && pre[0] == cs[..|cs| - 1][k] &&
        forall j :: 0 <= j < k ==> ns'[j] != t;
      assert forall j :: 0 <= j < k ==> ns[j] != t by {
        forall j | 0 <= j < k ensures ns[j] != t {
          assert ns'[j] == ns[j];
        }
      }
    } else {
      SelectNone(cs[..|cs| - 1], ns[..|ns| - 1], t);
      assert forall j :: 0 <= j < |ns| - 1 ==> ns[j] != t by {
        forall j | 0 <= j < |ns| - 1 ensures ns[j] != t {
          assert ns[..|ns| - 1][j] == ns[j];
        }
      }
    }
  }

  /** An empty selection means no child has that name. */
  lemma {:induction false} SelectNone(cs: seq<Element>, ns: seq<string>, t: string)
    requires |cs| == |ns|
    ensures |Select(cs, ns, t)| == 0 <==> forall k :: 0 <= k < |ns| ==> ns[k] != t
  {
    if |cs| > 0 {
      SelectNone(cs[..|cs| - 1], ns[..|ns| - 1], t);
      assert forall k :: 0 <= k < |ns| - 1 ==> ns[..|ns| - 1][k] == ns[k];
    }
  }

  class Element {
    var name: string
    var cont: string
    var children: seq<Element>
    var index: map<string, seq<Element>>
    var attrs: map<string, string>
    /** The name each child had when it was added: the key it was filed
        under. */
    ghost var names: seq<string>

    /** `elem_map[t]`, empty when the tag has no entry. */
    function Bucket(t: string): seq<Element>
      reads this
    {
      if t in index then index[t] else []
    }

    /** The tag index agrees with the child list: each tag lists the
        children filed under it, in order, `""` lists them all, and no
        entry is empty. */
    ghost predicate Valid()
      reads this
    {
      |names| == |children| &&
      (forall t :: t != "" ==> Bucket(t) == Select(children, names, t)) &&
      Bucket("") == AllEntries(children, names) &&
      (forall t | t in index :: |index[t]| > 0)
    }

    /** `dom_element()`: no name, no content, no children, no attributes. */
    constructor ()
      ensures Valid()
      ensures name == "" && cont == "" && children == [] && index == map[] && attrs == map[]
    {
      name, cont := "", "";
      children, index, attrs := [], map[], map[];
      names := [];
    }

    /** `add_element(ptr_type&&)`: appends the child to `elem_list` and files
        it under its own name and under `""`. */
    method AddElement(child: Element) returns (r: Element)
      requires Valid()
      modifies this
      ensures Valid()
      ensures r == child
      ensures children == old(children) + [child] && names == old(names) + [child.name]
      ensures name == old(name) && cont == old(cont) && attrs == old(attrs)
      ensures forall t :: t != child.name && t != "" ==> Bucket(t) == old(Bucket(t))
    {
      var tag := child.name;
      index := index[tag := Bucket(tag) + [child]];
      index := index["" := Bucket("") + [child]];
      children := children + [child];
      names := names + [tag];
      forall t | t != ""
        ensures Bucket(t) == Select(children, names, t)
      {
        SelectPush(old(children), old(names), child, tag, t);
      }
      SelectPush(old(children), old(names), child, tag, "");
      r := child;
    }

    /** `add_element(tag)`: a fresh child with that name. */
    method AddTag(tag: string) returns (r: Element)
      requires Valid()
      modifies this
      ensures Valid() && fresh(r)
      ensures r.name == tag && r.cont == "" && r.children == [] && r.attrs == map[]
      ensures children == old(children) + [r] && names == old(names) + [tag]
      ensures name == old(name) && cont == old(cont) && attrs == old(attrs)
    {
      var child := new Element();
      child.name := tag;
      r := AddElement(child);
    }
  }

  /** With named children only, `elem_map[""]` is the child list. */
  lemma AllIndexedInOrder(e: Element)
    requires e.Valid() && forall k :: 0 <= k < |e.names| ==> e.names[k] != ""
    ensures e.Bucket("") == e.children
  {
    AllEntriesNamed(e.children, e.names);
  }

  /** The first child filed under a tag is the first child with that name. */
  lemma FirstIndexed(e: Element, t: string)
    requires e.Valid() && t != "" && t in e.index
    ensures exists k :: (0 <= k < |e.names| && e.names[k] == t && e.index[t][0] == e.children[k] &&
      forall j :: 0 <= j < k ==> e.names[j] != t)
  {
    assert e.Bucket(t) == e.index[t];
    SelectFirst(e.children, e.names, t);
  }

  /** A tag has an entry exactly when some child was filed under it. */
  lemma IndexedIff(e: Element, t: string)
    requires e.Valid() && t != ""
    ensures t in e.index <==> exists k :: 0 <= k < |e.names| && e.names[k] == t
  {
    SelectNone(e.children, e.names, t);
    assert e.Bucket(t) == Select(e.children, e.names, t);
  }

  // ----- unparse_string -----

  /** What `unparse_string` writes for one character: the five XML special
      characters become entity references, every other character is copied. */
  function EscapeChar(c: char): string
  {
    match c
    case '<' => "&lt;"
    case '>' => "&gt;"
    case '&' => "&amp;"
    case '"' => "&quot;"
    case '\'' => "&apos;"
    case _ => [c]
  }

  /** The escaped form of a whole string. */
  function Escape(s: string): string
  {
    if |s| == 0 then "" else EscapeChar(s[0]) + Escape(s[1..])
  }

  /** Escaping distributes over concatenation. */
  lemma {:induction false} EscapeAppend(a: string, b: string)
    ensures Escape(a + b) == Escape(a) + Escape(b)
  {
    if |a| > 0 {
      assert (a + b)[1..] == a[1..] + b;
      EscapeAppend(a[1..], b);
    } else {
      assert a + b == b;
    }
  }

  /** `unparse_string`: writes each character's escape in turn. */
  method UnparseString(str: string) returns (out: string)
    ensures out == Escape(str)
  {
    out := "";
    var i := 0;
    while i < |str|
      invariant 0 <= i <= |str|
      invariant out == Escape(str[..i])
    {
      EscapeAppend(str[..i], [str[i]]);
      assert str[..i + 1] == str[..i] + [str[i]];
      match str[i] {
        case '<' => out := out + "&lt;";
        case '>' => out := out + "&gt;";
        case '&' => out := out + "&amp;";
        case '"' => out := out + "&quot;";
        case '\'' => out := out + "&apos;";
        case _ => out := out + [str[i]];
      }
      i := i + 1;
    }
    assert str[..|str|] == str;
  }

  /** An escaped string holds no `<`, `>`, `"` or `'`. */
  lemma {:induction false} EscapeIsPlain(s: string)
    ensures forall k :: 0 <= k < |Escape(s)| ==> Escape(s)[k] !in "<>\"'"
  {
    if |s| > 0 {
      EscapeIsPlain(s[1..]);
      var e := EscapeChar(s[0]);
      assert forall k :: 0 <= k < |e| ==> e[k] !in "<>\"'";
      assert forall k :: |e| <= k < |Escape(s)| ==> Escape(s)[k] == Escape(s[1..])[k - |e|];
    }
  }

  // ----- expand_xml_entities -----

  /** The entity table `parse_xml` starts with (XML 1.0 section 4.6). */
  const DefaultEntities: map<string, string> :=
    map["gt" := ">", "lt" := "<", "amp" := "&", "apos" := "'", "quot" := "\""]

  const UnterminatedEntity := "Unterminated entity (or rogue '&'), ';' expected"
  const InvalidHexDigit := "Invalid hexadecimal digit in character reference"
  const InvalidDigit := "Invalid digit in character reference"
  const UndefinedEntity := "Undefined entity"
  /** Not a message of the library: the model's bound on nested entities. */
  const NestingTooDeep := "Entity nesting deeper than the fuel"

  /** `str.find(c, from)`. */
  function FindChar(str: string, c: char, from: nat): (r: Option<nat>)
    ensures r.Some? ==> from <= r.value < |str| && str[r.value] == c
    ensures r.Some? ==> forall j :: from <= j < r.value ==> str[j] != c
    ensures r.None? ==> forall j :: from <= j < |str| ==> str[j] != c
    decreases |str| - from
  {
    if from >= |str| then None
    else if str[from] == c then Some(from)
    else FindChar(str, c, from + 1)
  }

  /** Searching a suffix finds the same character, shifted. */
  lemma FindShift(str: string, c: char, from: nat)
    requires from <= |str|
    ensures FindChar(str[from..], c, 0).Some? <==> FindChar(str, c, from).Some?
    ensures FindChar(str, c, from).Some? ==> FindChar(str[from..], c, 0).value == FindChar(str, c, from).value - from
  {
    var a, b := FindChar(str[from..], c, 0), FindChar(str, c, from);
    if a.Some? {
      assert str[from + a.value] == c;
    }
    if b.Some? {
      assert str[from..][b.value - from] == c;
    }
  }

  /** The value of a digit of a character reference, if it is one. */
  function DigitValue(c: char, hex: bool): Option<nat>
  {
    if '0' <= c <= '9' then Some(c as nat - '0' as nat)
    else if hex && 'a' <= c <= 'f' then Some(10 + c as nat - 'a' as nat)
    else if hex && 'A' <= c <= 'F' then Some(10 + c as nat - 'A' as nat)
    else None
  }

  /** The digits of a character reference folded into a `char`: each step
      is `val = base*val + digit`, kept to the 8 bits of a `char`. */
  function RefDigits(digits: string, hex: bool, acc: nat): (r: Result<nat>)
    ensures r.Success? ==> r.value < 256
    ensures r.Failure? ==> r.message == (if hex then InvalidHexDigit else InvalidDigit)
    decreases |digits|
  {
    if |digits| == 0 then Success(acc % 256)
    else match DigitValue(digits[0], hex)
      case None => Failure(if hex then InvalidHexDigit else InvalidDigit)
      case Some(d) => RefDigits(digits[1..], hex, ((if hex then 16 else 10) * acc + d) % 256)
  }

  /** Prefixes successful output; a failure stays as it is. */
  function Prepend(o: string, r: Result<string>): Result<string>
  {
    if r.Success? then Success(o + r.value) else r
  }

  /** Prefixing nothing changes nothing. */
  lemma PrependEmpty(r: Result<string>)
    ensures Prepend("", r) == r
  {
    if r.Success? {
      assert "" + r.value == r.value;
    }
  }

  /** Prefixing twice is prefixing with both. */
  lemma PrependTwice(a: string, b: string, r: Result<string>)
    ensures Prepend(a, Prepend(b, r)) == Prepend(a + b, r)
  {
    if r.Success? {
      assert a + (b + r.value) == (a + b) + r.value;
    }
  }

  /** What one reference `&name;` expands to: a character reference
      (`#` then decimal digits, `#x` then hexadecimal ones), `&` for an
      entity whose value is `&`, and otherwise the entity's value, itself
      expanded. */
  function Reference(name: string, ents: map<string, string>, fuel: nat): Result<string>
    decreases fuel, |name|, 0
  {
    if |name| > 0 && name[0] == '#' then
      var hex := |name| > 1 && name[1] == 'x';
      match RefDigits(if hex then name[2..] else name[1..], hex, 0)
      case Failure(m) => Failure(m)
      case Success(v) => Success([v as char])
    else if name !in ents then Failure(UndefinedEntity)
    else if ents[name] == "&" then Success("&")
    else if fuel == 0 then Failure(NestingTooDeep)
    else Expand(ents[name], ents, fuel - 1)
  }

  /** The expansion of a string: characters other than `&` are copied; an
      `&` needs a later `;` and the text between them is a reference. */
  function Expand(s: string, ents: map<string, string>, fuel: nat): Result<string>
    decreases fuel, |s|, 1
  {
    if |s| == 0 then Success("")
    else if s[0] != '&' then Prepend([s[0]], Expand(s[1..], ents, fuel))
    else match FindChar(s, ';', 0)
      case None => Failure(UnterminatedEntity)
      case Some(sc) =>
        match Reference(s[1..sc], ents, fuel)
        case Failure(m) => Failure(m)
        case Success(v) => Prepend(v, Expand(s[sc + 1..], ents, fuel))
  }

  /** The digit loop of a character reference over `str[from..sc]`. */
  method CharReference(str: string, from: nat, sc: nat, hex: bool) returns (r: Result<char>)
    requires from <= sc <= |str|
    ensures r.Success? <==> RefDigits(str[from..sc], hex, 0).Success?
    ensures r.Success? ==> r.value == RefDigits(str[from..sc], hex, 0).value as char
    ensures r.Failure? ==> r.message == RefDigits(str[from..sc], hex, 0).message
  {
    var val: nat := 0;
    var i := from;
    while i < sc
      invariant from <= i <= sc && val < 256
      invariant RefDigits(str[from..sc], hex, 0) == RefDigits(str[i..sc], hex, val)
    {
      assert str[i..sc][1..] == str[i + 1..sc];
      if '0' <= str[i] <= '9' {
        val := ((if hex then 16 else 10) * val + (str[i] as nat - '0' as nat)) % 256;
      } else if hex && 'a' <= str[i] <= 'f' {
        val := (16 * val + 10 + (str[i] as nat - 'a' as nat)) % 256;
      } else if hex && 'A' <= str[i] <= 'F' {
        val := (16 * val + 10 + (str[i] as nat - 'A' as nat)) % 256;
      } else {
        return Failure(if hex then InvalidHexDigit else InvalidDigit);
      }
      i := i + 1;
    }
    return Success(val as char);
  }

  /** The body of the `&` branch of `expand_xml_entities` for the reference
      `str[pos..sc]`. */
  method ExpandReference(str: string, pos: nat, sc: nat, ents: map<string, string>, fuel: nat)
    returns (r: Result<string>)
    requires pos <= sc < |str| && str[sc] == ';'
    ensures r == Reference(str[pos..sc], ents, fuel)
    decreases fuel, 0
  {
    var name := str[pos..sc];
    if str[pos] == '#' {
      var p := pos + 1;
      var hex := str[p] == 'x';
      assert hex <==> |name| > 1 && name[1] == 'x';
      var c;
      if hex {
        assert name[2..] == str[p + 1..sc];
        c := CharReference(str, p + 1, sc, true);
      } else {
        assert name[1..] == str[p..sc];
        c := CharReference(str, p, sc, false);
      }
      if c.Failure? {
        return Failure(c.message);
      }
      return Success([c.value]);
    }
    assert !(|name| > 0 && name[0] == '#');
    if name !in ents {
      return Failure(UndefinedEntity);
    }
    var value := ents[name];
    if value != "&" {
      if fuel == 0 {
        return Failure(NestingTooDeep);
      }
      r := ExpandXmlEntities(value, ents, fuel - 1);
    } else {
      r := Success("&");
    }
  }

  /** `expand_xml_entities`: an index loop that copies characters and, at an
      `&`, writes the expansion of the reference up to the next `;` and
      jumps past it. `fuel` bounds how deep entity values nest. */
  method ExpandXmlEntities(str: string, ents: map<string, string>, fuel: nat) returns (r: Result<string>)
    ensures r == Expand(str, ents, fuel)
    decreases fuel, 1
  {
    var out := "";
    var pos := 0;
    assert str[0..] == str;
    PrependEmpty(Expand(str, ents, fuel));
    while pos < |str|
      invariant 0 <= pos <= |str|
      invariant Expand(str, ents, fuel) == Prepend(out, Expand(str[pos..], ents, fuel))
    {
      var rest := str[pos..];
      if str[pos] == '&' {
        var sc := FindChar(str, ';', pos);
        FindShift(str, ';', pos);
        if sc.None? {
          return Failure(UnterminatedEntity);
        }
        var end := sc.value;
        assert rest[1..end - pos] == str[pos + 1..end];
        assert rest[end - pos + 1..] == str[end + 1..];
        var piece := ExpandReference(str, pos + 1, end, ents, fuel);
        if piece.Failure? {
          return Failure(piece.message);
        }
        PrependTwice(out, piece.value, Expand(str[end + 1..], ents, fuel));
        out := out + piece.value;
        pos := end + 1;
      } else {
        assert rest[1..] == str[pos + 1..];
        PrependTwice(out, [str[pos]], Expand(str[pos + 1..], ents, fuel));
        out := out + [str[pos]];
        pos := pos + 1;
      }
    }
    assert str[pos..] == "" && out + "" == out;
    return Success(out);
  }

  /** The entity name `unparse_string` writes for a special character. */
  function EntityName(c: char): string
  {
    match c
    case '<' => "lt"
    case '>' => "gt"
    case '&' => "amp"
    case '"' => "quot"
    case _ => "apos"
  }

  /** A special character's escape is `&name;` with a name of the default
      table that maps back to the character. */
  lemma EscapeCharShape(c: char)
    requires c in "<>&\"'"
    ensures EscapeChar(c) == "&" + EntityName(c) + ";"
    ensures EntityName(c) in DefaultEntities && DefaultEntities[EntityName(c)] == [c]
    ensures |EntityName(c)| > 0 && EntityName(c)[0] != '#'
    ensures forall j :: 0 <= j < |EntityName(c)| ==> EntityName(c)[j] != ';'
  {
  }

  /** A string without `&` expands to itself. */
  lemma {:induction false} ExpandPlain(s: string, ents: map<string, string>, fuel: nat)
    requires forall k :: 0 <= k < |s| ==> s[k] != '&'
    ensures Expand(s, ents, fuel) == Success(s)
  {
    if |s| > 0 {
      ExpandPlain(s[1..], ents, fuel);
      assert [s[0]] + s[1..] == s;
    }
  }

  /** Expanding one escaped character and what follows it. */
  lemma ExpandEscapedChar(c: char, rest: string, fuel: nat)
    requires fuel >= 1
    ensures Expand(EscapeChar(c) + rest, DefaultEntities, fuel) == Prepend([c], Expand(rest, DefaultEntities, fuel))
  {
    var t := EscapeChar(c) + rest;
    if c in "<>&\"'" {
      EscapeCharShape(c);
      var n := EntityName(c);
      assert t == "&" + n + ";" + rest;
      FindFrom(t, ';', 0, |n| + 1);
      assert t[1..|n| + 1] == n;
      assert t[|n| + 2..] == rest;
      if c != '&' {
        ExpandPlain([c], DefaultEntities, fuel - 1);
      }
      assert Reference(n, DefaultEntities, fuel) == Success([c]);
    } else {
      assert t[0] == c && t[1..] == rest;
    }
  }

  /** With the default table, expanding an escaped string gives it back. */
  lemma {:induction false} ExpandUnparse(s: string, fuel: nat)
    requires fuel >= 1
    ensures Expand(Escape(s), DefaultEntities, fuel) == Success(s)
  {
    if |s| > 0 {
      ExpandUnparse(s[1..], fuel);
      ExpandEscapedChar(s[0], Escape(s[1..]), fuel);
      assert [s[0]] + s[1..] == s;
    }
  }

  /** `find` returns the first position from `from` that holds `c`. */
  lemma {:induction false} FindFrom(str: string, c: char, from: nat, at: nat)
    requires from <= at < |str| && str[at] == c && forall j :: from <= j < at ==> str[j] != c
    ensures FindChar(str, c, from) == Some(at)
    decreases at - from
  {
    if from < at {
      FindFrom(str, c, from + 1, at);
    }
  }

  /** `&amp;` expands to `&` without being expanded again: whatever follows
      is expanded on its own, so `&amp;lt;` is `&lt;`, not `<`. */
  lemma AmpIsNotReexpanded(rest: string, fuel: nat)
    ensures Expand("&amp;" + rest, DefaultEntities, fuel) == Prepend("&", Expand(rest, DefaultEntities, fuel))
  {
    var s := "&amp;" + rest;
    FindFrom(s, ';', 0, 4);
    assert s[1..4] == "amp";
    assert s[5..] == rest;
    assert Reference("amp", DefaultEntities, fuel) == Success("&");
  }

  // ----- validate_xml_name -----

  /** The characters a name may start with. */
  predicate NameStart(c: char)
  {
    IsAlpha(c) || c == ':' || c == '_'
  }

  /** The characters a name may continue with. */
  predicate NameChar(c: char)
  {
    IsAlpha(c) || IsDigit(c) || c == '.' || c == '-' || c == ':' || c == '_'
  }

  /** A name `validate_xml_name` accepts: non-empty, a start character, then
      name characters (a simplified ASCII form of the Name production of
      XML 1.0 section 2.3). */
  predicate ValidName(name: string)
  {
    |name| > 0 && NameStart(name[0]) && forall i :: 1 <= i < |name| ==> NameChar(name[i])
  }

  /** The error `validate_xml_name` reports and the index it points at. */
  datatype NameError = NameError(message: string, at: nat)

  /** `validate_xml_name`: rejects an empty name, then a bad first
      character, then the first bad character after it. */
  method ValidateXmlName(name: string) returns (err: Option<NameError>)
    ensures err.None? <==> ValidName(name)
    ensures |name| == 0 ==> err == Some(NameError("Empty name", 0))
    ensures err.Some? && |name| > 0 ==>
      err.value.message == "Invalid character in name" && err.value.at < |name| &&
      (err.value.at == 0 <==> !NameStart(name[0])) &&
      (err.value.at > 0 ==> !NameChar(name[err.value.at])) &&
      forall i :: 1 <= i < err.value.at ==> NameChar(name[i])
  {
    if |name| == 0 {
      return Some(NameError("Empty name", 0));
    }
    if !NameStart(name[0]) {
      return Some(NameError("Invalid character in name", 0));
    }
    for i := 1 to |name|
      invariant forall j :: 1 <= j < i ==> NameChar(name[j])
    {
      if !NameChar(name[i]) {
        return Some(NameError("Invalid character in name", i));
      }
    }
    return None;
  }
}
