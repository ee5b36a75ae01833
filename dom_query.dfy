/** `dom_query` (dom/dom_detail.hpp): a query over a DOM that moves step by
    step from an element to a sub-element, a list of sub-elements, an
    attribute or the content, remembering whether every step so far found
    what it asked for. Its `type` and `validity` change at run time; a step
    on a query that already failed changes nothing, so that one `or_error`
    at the end reports the first failed step. An `error()` call, which ends
    the process, is the `Exit` status. */
module DomQueries {
  import opened Wrappers
  import opened CharUtils
  import opened DomElements

  /** What the query currently denotes. */
  datatype QueryType = ElementType | ElementListType | AttributeType | ContentType

  /** Whether the steps so far found their targets, or a default replaced
      the value. */
  datatype Validity = Valid | Invalid | Defaulted

  /** A step either returns the query or ends the process with a message. */
  datatype Status = Continue | Exit(message: string)

  /** `bool_val`'s reading of a value: a literal `true`/`false` in any case,
      or, for a value starting with a digit, the number `int_val` reads
      (`std::stol` is not part of this model). */
  datatype Truth = Literal(b: bool) | ByNumber(text: string)

  /** `std::to_string` on a count. */
  function NatToString(n: nat): (r: string)
    ensures |r| > 0 && forall k :: 0 <= k < |r| ==> IsDigit(r[k])
  {
    if n < 10 then [('0' as nat + n) as char]
    else NatToString(n / 10) + [('0' as nat + n % 10) as char]
  }

  /** The number a string of decimal digits denotes. */
  function DecimalValue(s: string): nat
    requires forall k :: 0 <= k < |s| ==> IsDigit(s[k])
  {
    if |s| == 0 then 0
    else
      assert IsDigit(s[|s| - 1]);
      DecimalValue(s[..|s| - 1]) * 10 + (s[|s| - 1] as int - '0' as int)
  }

  /** `NatToString` writes the count in decimal: reading it back gives the
      count. */
  lemma {:induction false} NatToStringValue(n: nat)
    ensures DecimalValue(NatToString(n)) == n
  {
    if n >= 10 {
      NatToStringValue(n / 10);
      var s := NatToString(n);
      assert s[..|s| - 1] == NatToString(n / 10);
    }
  }

  /** The index has no empty entry (every entry was created by a push). */
  predicate Filed(e: Element)
    reads e
  {
    forall t | t in e.index :: |e.index[t]| > 0
  }

  class DomQuery {
    var target: Element
    var query: string
    var qtype: QueryType
    var validity: Validity

    /** `dom_query(target)`: a valid element query on `target`. */
    constructor (target: Element)
      ensures this.target == target && query == target.name
      ensures qtype == ElementType && validity == Valid
    {
      this.target := target;
      query := target.name;
      qtype := ElementType;
      validity := Valid;
    }

    /** `type_descr`. */
    function TypeDescr(): string
      reads this
    {
      match qtype
      case ElementType => "element"
      case ElementListType => "list of elements"
      case AttributeType => "attribute"
      case ContentType => "tag content"
    }

    /** `what`. */
    function What(): string
      reads this
    {
      match qtype
      case ElementType => if query == "" then "first element" else "element with tag <" + query + ">"
      case ElementListType => if query == "" then "all elements" else "all elements with tag <" + query + ">"
      case AttributeType => "attribute \"" + query + "\""
      case ContentType => "tag content"
    }

    /** `all_elements(tag)`: becomes a list query; while valid, it is
        invalid when a non-empty tag has no entry. */
    method AllElements(tag: string) returns (s: Status)
      modifies this
      ensures old(qtype) != ElementType ==>
        s == Exit("Invalid operation: requesting element list from " + old(TypeDescr()))
      ensures s.Continue? <==> old(qtype) == ElementType
      ensures s.Continue? ==> qtype == ElementListType && target == old(target)
      ensures s.Continue? && old(validity) != Valid ==> query == old(query) && validity == old(validity)
      ensures s.Continue? && old(validity) == Valid ==>
        query == tag && validity != Defaulted &&
        (validity == Invalid <==> tag != "" && tag !in target.index)
    {
      if qtype != ElementType {
        return Exit("Invalid operation: requesting element list from " + TypeDescr());
      }
      qtype := ElementListType;
      if validity == Valid {
        query := tag;
        if tag != "" && tag !in target.index {
          validity := Invalid;
        }
      }
      return Continue;
    }

    /** `element(tag)`: while valid, moves to the first child (empty tag)
        or the first child filed under the tag, and is invalid when there
        is none. */
    method Element(tag: string) returns (s: Status)
      requires Filed(target)
      modifies this
      ensures old(qtype) != ElementType ==>
        s == Exit("Invalid operation: requesting element from " + old(TypeDescr()))
      ensures s.Continue? <==> old(qtype) == ElementType
      ensures s.Continue? ==> qtype == ElementType
      ensures s.Continue? && old(validity) != Valid ==>
        target == old(target) && query == old(query) && validity == old(validity)
      ensures s.Continue? && old(validity) == Valid ==> query == tag && validity != Defaulted
      ensures s.Continue? && old(validity) == Valid && tag == "" ==>
        (validity == Invalid <==> old(target.children) == []) &&
        (validity == Valid ==> target == old(target.children)[0]) &&
        (validity == Invalid ==> target == old(target))
      ensures s.Continue? && old(validity) == Valid && tag != "" ==>
        (validity == Invalid <==> tag !in old(target.index)) &&
        (validity == Valid ==> target == old(target.index)[tag][0]) &&
        (validity == Invalid ==> target == old(target))
    {
      if qtype != ElementType {
        return Exit("Invalid operation: requesting element from " + TypeDescr());
      }
      qtype := ElementType;
      if validity == Valid {
        query := tag;
        if tag == "" {
          if target.children == [] {
            validity := Invalid;
          } else {
            target := target.children[0];
          }
        } else if tag !in target.index {
          validity := Invalid;
        } else {
          target := target.index[tag][0];
        }
      }
      return Continue;
    }

    /** `unique_element(tag, err)`: like `element`, but more than one
        candidate (or, for the empty tag, anything but exactly one child)
        ends the process. */
    method UniqueElement(tag: string, err: string) returns (s: Status)
      requires Filed(target)
      modifies this
      ensures old(qtype) != ElementType ==>
        s == Exit("Invalid operation: requesting element from " + old(TypeDescr()))
      ensures old(qtype) == ElementType && old(validity) != Valid ==>
        s == Continue && target == old(target) && query == old(query) && validity == old(validity)
      ensures old(qtype) == ElementType && old(validity) == Valid && tag == "" ==>
        (s.Continue? <==> |old(target.children)| == 1) &&
        (s.Continue? ==> target == old(target.children)[0] && validity == Valid) &&
        (s.Exit? && err != "" ==> s.message == err) &&
        (s.Exit? && err == "" ==>
          var n := |old(target.children)|;
          s.message == "Unique " + What() + " requested, but " + (if n == 0 then "none" else NatToString(n)) + " found")
      ensures old(qtype) == ElementType && old(validity) == Valid && tag != "" ==>
        (s.Exit? <==> tag in old(target.index) && |old(target.index)[tag]| != 1) &&
        (s.Continue? ==> (validity == Invalid <==> tag !in old(target.index))) &&
        (s.Continue? && validity == Valid ==> target == old(target.index)[tag][0]) &&
        (s.Exit? && err != "" ==> s.message == err) &&
        (s.Exit? && err == "" ==>
          s.message == "Unique " + What() + " requested, but " + NatToString(|old(target.index)[tag]|) + " found")
      ensures s.Continue? ==> qtype == ElementType
      ensures s.Continue? && old(validity) == Valid ==> validity != Defaulted
    {
      if qtype != ElementType {
        return Exit("Invalid operation: requesting element from " + TypeDescr());
      }
      qtype := ElementType;
      if validity == Valid {
        query := tag;
        if tag == "" {
          var n := |target.children|;
          if n != 1 {
            var found := if n == 0 then "none" else NatToString(n);
            return Exit(if err == "" then "Unique " + What() + " requested, but " + found + " found" else err);
          }
          target := target.children[0];
        } else if tag !in target.index {
          validity := Invalid;
        } else if |target.index[tag]| != 1 {
          validity := Invalid;
          var found := NatToString(|target.index[tag]|);
          return Exit(if err == "" then "Unique " + What() + " requested, but " + found + " found" else err);
        } else {
          target := target.index[tag][0];
        }
      }
      return Continue;
    }

    /** `attribute(name)`: becomes an attribute query; while valid, it is
        invalid when the target has no such attribute. */
    method Attribute(name: string) returns (s: Status)
      modifies this
      ensures old(qtype) != ElementType ==>
        s == Exit("Invalid operation: requesting attribute from " + old(TypeDescr()))
      ensures s.Continue? <==> old(qtype) == ElementType
      ensures s.Continue? ==> qtype == AttributeType && target == old(target)
      ensures s.Continue? && old(validity) != Valid ==> query == old(query) && validity == old(validity)
      ensures s.Continue? && old(validity) == Valid ==>
        query == name && validity != Defaulted && (validity == Valid <==> name in target.attrs)
      ensures s.Continue? && old(validity) == Valid && validity == Valid ==> Val() == Success(target.attrs[name])
    {
      if qtype != ElementType {
        return Exit("Invalid operation: requesting attribute from " + TypeDescr());
      }
      qtype := AttributeType;
      if validity == Valid {
        query := name;
        if name !in target.attrs {
          validity := Invalid;
        }
      }
      return Continue;
    }

    /** `content()`: becomes a content query; while valid, it holds the
        target's content. (Its type error says "attribute", as written.) */
    method Content() returns (s: Status)
      modifies this
      ensures old(qtype) != ElementType ==>
        s == Exit("Invalid operation: requesting attribute from " + old(TypeDescr()))
      ensures s.Continue? <==> old(qtype) == ElementType
      ensures s.Continue? ==> qtype == ContentType && target == old(target) && validity == old(validity)
      ensures s.Continue? && old(validity) != Valid ==> query == old(query)
      ensures s.Continue? && old(validity) == Valid ==> Val() == Success(target.cont)
    {
      if qtype != ElementType {
        return Exit("Invalid operation: requesting attribute from " + TypeDescr());
      }
      qtype := ContentType;
      if validity == Valid {
        query := target.cont;
      }
      return Continue;
    }

    /** The elements between `begin()` and `end()`: none unless the query is
        valid, else the children (empty tag) or the tag's entry. */
    function Range(): (r: Result<seq<Element>>)
      reads this, target
      requires qtype == ElementListType && validity == Valid && query != "" ==> query in target.index
      ensures r.Failure? <==> qtype != ElementListType
      ensures r.Failure? ==> r.message == "Invalid operation: iterating over " + TypeDescr()
      ensures r.Success? && validity != Valid ==> r.value == []
      ensures r.Success? && validity == Valid && query == "" ==> r.value == target.children
    {
      if qtype != ElementListType then Failure("Invalid operation: iterating over " + TypeDescr())
      else if validity != Valid then Success([])
      else if query == "" then Success(target.children)
      else Success(target.index[query])
    }

    /** `or_error(err)`: ends the process exactly when the query is
        invalid. */
    function OrError(err: string): (s: Status)
      reads this
      ensures s.Exit? <==> validity == Invalid
      ensures s.Exit? && err != "" ==> s.message == err
      ensures s.Exit? && err == "" ==> s.message == What() + " requested but not found"
    {
      if validity == Invalid then Exit(if err == "" then What() + " requested but not found" else err)
      else Continue
    }

    /** `or_default(deflt)`: a value query that is not valid becomes
        defaulted to `deflt`; a valid one is left alone. */
    method OrDefault(deflt: string) returns (s: Status)
      modifies this
      ensures s.Exit? <==> old(qtype) == ElementType || old(qtype) == ElementListType
      ensures s.Exit? ==> s.message == "Invalid operation: defaulting value of " + old(TypeDescr())
      ensures s.Continue? ==> qtype == old(qtype) && target == old(target)
      ensures s.Continue? && old(validity) == Valid ==> query == old(query) && validity == Valid
      ensures s.Continue? && old(validity) != Valid ==> query == deflt && validity == Defaulted
      ensures s.Continue? && old(validity) != Valid ==> Val() == Success(deflt)
    {
      match qtype {
        case ElementType =>
          return Exit("Invalid operation: defaulting value of " + TypeDescr());
        case ElementListType =>
          return Exit("Invalid operation: defaulting value of " + TypeDescr());
        case _ =>
          if validity != Valid {
            query := deflt;
            validity := Defaulted;
          }
          return Continue;
      }
    }

    /** `nonempty(err)`: ends the process when what a valid or defaulted
        query denotes is empty (and for any valid element query). */
    function Nonempty(err: string): (s: Status)
      reads this, target
      requires validity == Valid && qtype == ElementListType ==> query in target.index
      requires validity == Valid && qtype == AttributeType ==> query in target.attrs
      ensures validity == Invalid ==> s == Continue
      ensures validity == Valid && qtype == ElementType ==>
        s == Exit("Invalid operation: checking if element is empty")
      ensures (qtype == AttributeType || qtype == ContentType) && validity != Invalid ==>
        (s.Exit? <==> Val() == Success(""))
      ensures validity == Valid && qtype == ElementListType ==> (s.Exit? <==> target.index[query] == [])
      ensures s.Exit? && err != "" && !(validity == Valid && qtype == ElementType) ==> s.message == err
    {
      var error := if err == "" then "Nonempty " + TypeDescr() + " required" else err;
      match validity
      case Invalid => Continue
      case Defaulted => if query == "" then Exit(error) else Continue
      case Valid =>
        match qtype
        case ElementType => Exit("Invalid operation: checking if element is empty")
        case ElementListType => if target.index[query] == [] then Exit(error) else Continue
        case AttributeType => if target.attrs[query] == "" then Exit(error) else Continue
        case ContentType => if query == "" then Exit(error) else Continue
    }

    /** `val()`: the value of a value query: the attribute's value or the
        content while valid, the default once defaulted. */
    function Val(): (r: Result<string>)
      reads this, target
      requires qtype == AttributeType && validity == Valid ==> query in target.attrs
      ensures r.Success? <==> (qtype == AttributeType || qtype == ContentType) && validity != Invalid
      ensures r.Success? && validity == Defaulted ==> r.value == query
      ensures r.Success? && validity == Valid && qtype == AttributeType ==> r.value == target.attrs[query]
      ensures (qtype == ElementType || qtype == ElementListType) ==>
        r == Failure("Invalid operation: dereferencing " + TypeDescr() + " as value")
      ensures (qtype == AttributeType || qtype == ContentType) && validity == Invalid ==>
        r == Failure("Invalid operation: dereferencing invalid query")
    {
      if qtype == ElementType || qtype == ElementListType then
        Failure("Invalid operation: dereferencing " + TypeDescr() + " as value")
      else if validity == Invalid then Failure("Invalid operation: dereferencing invalid query")
      else if validity == Valid && qtype == AttributeType then Success(target.attrs[query])
      else Success(query)
    }

    /** `bool_val()`: `true` or `false` in any letter case; a value starting
        with a digit is read as a number. */
    function BoolVal(): (r: Result<Truth>)
      reads this, target
      requires qtype == AttributeType && validity == Valid ==> query in target.attrs
      ensures Val().Failure? ==> r == Failure(Val().message)
      ensures Val().Success? ==>
        var v := Val().value;
        (r.Success? <==> (|v| > 0 && IsDigit(v[0])) || Lower(v) == "true" || Lower(v) == "false") &&
        (r == Success(Literal(true)) <==> !(|v| > 0 && IsDigit(v[0])) && Lower(v) == "true") &&
        (r == Success(Literal(false)) <==> !(|v| > 0 && IsDigit(v[0])) && Lower(v) == "false") &&
        (r.Success? && r.value.ByNumber? ==> r.value.text == v)
    {
      match Val()
      case Failure(m) => Failure(m)
      case Success(str) =>
        if |str| > 0 && IsDigit(str[0]) then Success(ByNumber(str))
        else if Lower(str) == "true" then Success(Literal(true))
        else if Lower(str) == "false" then Success(Literal(false))
        else Failure(What() + " has value \"" + str + "\", true/false (or number) expected")
    }

    /** `char_val()`: the single character of a one-character value. */
    function CharVal(): (r: Result<char>)
      reads this, target
      requires qtype == AttributeType && validity == Valid ==> query in target.attrs
      ensures r.Success? <==> Val().Success? && |Val().value| == 1
      ensures r.Success? ==> r.value == Val().value[0]
    {
      match Val()
      case Failure(m) => Failure(m)
      case Success(str) =>
        if |str| != 1 then Failure(What() + " has value \"" + str + "\", single character expected")
        else Success(str[0])
    }

    /** `get()`: the element of a valid element query. */
    function Get(): (r: Result<Element>)
      reads this
      ensures r.Success? <==> qtype == ElementType && validity == Valid
      ensures r.Success? ==> r.value == target
    {
      if qtype != ElementType then Failure("Invalid operation: dereferencing " + TypeDescr() + " as element")
      else if validity != Valid then Failure("Invalid operation: dereferencing non-existent " + What())
      else Success(target)
    }

    /** `set_value(val)`: writes the attribute (creating it whatever the
        validity) or the content, and turns the query back into an element
        query. */
    method SetValue(val: string) returns (s: Status)
      modifies this, target
      ensures s.Exit? <==> old(qtype) == ElementType || old(qtype) == ElementListType
      ensures s.Exit? ==> s.message == "Invalid operation: setting value of " + old(TypeDescr())
      ensures s.Continue? ==>
        qtype == ElementType && target == old(target) && query == old(query) && validity == old(validity)
      ensures s.Continue? && old(qtype) == AttributeType ==>
        target.attrs == old(target.attrs)[query := val] && target.cont == old(target.cont)
      ensures s.Continue? && old(qtype) == ContentType ==>
        target.cont == val && target.attrs == old(target.attrs)
      ensures target.name == old(target.name) && target.children == old(target.children)
      ensures target.index == old(target.index) && target.names == old(target.names)
    {
      match qtype {
        case ElementType =>
          return Exit("Invalid operation: setting value of " + TypeDescr());
        case ElementListType =>
          return Exit("Invalid operation: setting value of " + TypeDescr());
        case AttributeType =>
          target.attrs := target.attrs[query := val];
        case ContentType =>
          target.cont := val;
      }
      qtype := ElementType;
      return Continue;
    }

    /** `unset_value()`: removes the attribute or empties the content, and
        turns the query back into an element query. */
    method UnsetValue() returns (s: Status)
      modifies this, target
      ensures s.Exit? <==> old(qtype) == ElementType || old(qtype) == ElementListType
      ensures s.Exit? ==> s.message == "Invalid operation: unsetting value of " + old(TypeDescr())
      ensures s.Continue? ==>
        qtype == ElementType && target == old(target) && query == old(query) && validity == old(validity)
      ensures s.Continue? && old(qtype) == AttributeType ==>
        target.attrs == old(target.attrs) - {query} && target.cont == old(target.cont)
      ensures s.Continue? && old(qtype) == ContentType ==>
        target.cont == "" && target.attrs == old(target.attrs)
      ensures target.name == old(target.name) && target.children == old(target.children)
      ensures target.index == old(target.index) && target.names == old(target.names)
    {
      match qtype {
        case ElementType =>
          return Exit("Invalid operation: unsetting value of " + TypeDescr());
        case ElementListType =>
          return Exit("Invalid operation: unsetting value of " + TypeDescr());
        case AttributeType =>
          target.attrs := target.attrs - {query};
        case ContentType =>
          target.cont := "";
      }
      qtype := ElementType;
      return Continue;
    }
  }

  /** A valid element's index has no empty entry, as `element` needs. */
  lemma ValidIsFiled(e: Element)
    requires e.Valid()
    ensures Filed(e)
  {
  }

  /** Iterating a valid list query over a valid element visits the children
      filed under the tag, in order (all children for the empty tag, which
      then also lists unnamed children once). */
  lemma RangeListsFiled(q: DomQuery)
    requires q.target.Valid() && q.qtype == ElementListType && q.validity == Valid
    requires q.query != "" ==> q.query in q.target.index
    ensures q.query != "" ==> q.Range() == Success(Select(q.target.children, q.target.names, q.query))
    ensures q.query == "" ==> q.Range() == Success(q.target.children)
  {
    if q.query != "" {
      assert q.target.Bucket(q.query) == q.target.index[q.query];
    }
  }

  /** A list query on a valid element never finds its list empty. */
  lemma ValidListIsNonempty(q: DomQuery, err: string)
    requires q.target.Valid() && q.qtype == ElementListType && q.validity == Valid
    requires q.query in q.target.index
    ensures q.Nonempty(err) == Continue
  {
  }
}
