/**
 * The earliest value type, `json::Value` of include/JSON++.h. Key and index access, assignment,
 * clear and equality behave as in include/jsonpp/value.h (module JsonValue); what differs is
 * modelled here: the copy constructor leaves the children out, so every by-value copy (the
 * const accessors, push) is childless; an Array is falsy; and serialize is compact only and
 * escapes nothing but the double quote.
 */
module EarlyValue {
  import opened JsonValue
  import Unicode

  /** The copy constructor: tag, string and number, but no children. */
  function Copy(v: Value): (r: Value)
    ensures r.tag == v.tag && r.str == v.str && r.num == v.num && r.children == []
  {
    v.(children := [])
  }

  /** A copy equals its original exactly when the original has no children. */
  lemma CopyEqualsOriginal(v: Value)
    ensures Equals(Copy(v), v) <==> v.children == []
  {
    EqualsIsSameness(Copy(v), v);
  }

  /** operator bool: Null, Undefined and Array are false, Object true. */
  predicate IsTrue(v: Value)
  {
    match v.tag
    case Null => false
    case Undefined => false
    case Array => false
    case Object => true
    case String => v.str != []
    case _ => v.num.Finite? && v.num.r != 0.0
  }

  /** The earliest truthiness differs from the later one on Arrays only. */
  lemma TruthyDiffersOnArrays(v: Value)
    ensures IsTrue(v) <==> JsonValue.Truthy(v) && v.tag != Array
  {
  }

  /** const operator[](key): a childless copy of the first child with the key, or a fresh Undefined. */
  function ConstKey(v: Value, key: string): (r: Value)
    ensures !HasKey(v.children, key) ==> r == Fresh(Undefined)
    ensures HasKey(v.children, key) ==>
      r.children == [] && exists j | 0 <= j < |v.children| ::
        v.children[j].key == key && Copy(v.children[j].value) == r && forall k | 0 <= k < j :: !MatchesKey(v.children[k], key)
  {
    var i := KeyIndex(v.children, key);
    if i < |v.children| then Copy(v.children[i].value) else Fresh(Undefined)
  }

  /** const operator[](index): a childless copy of the element, or a fresh Undefined when out of range. */
  function ConstIndex(v: Value, index: nat): (r: Value)
    ensures index >= |v.children| ==> r == Fresh(Undefined)
    ensures index < |v.children| ==> r == Copy(v.children[index].value)
  {
    if index < |v.children| then Copy(v.children[index].value) else Fresh(Undefined)
  }

  /** push: as in the later versions, but the element appended is a childless copy. */
  function PushedCopy(v: Value, x: Value): (r: Value)
    ensures r.tag == Array && r.str == v.str && r.num == v.num
    ensures r.children == Kept(v, Array) + [Member([], Copy(x))]
  {
    JsonValue.Pushed(v, Copy(x))
  }

  /** For a value without children, push is the same as in the later versions. */
  lemma PushedChildless(v: Value, x: Value)
    requires x.children == []
    ensures PushedCopy(v, x) == JsonValue.Pushed(v, x)
  {
    assert Copy(x) == x;
  }

  /** The earliest value as the object its mutators update in place. */
  class Early {
    var tag: Tag
    var str: string
    var num: Numeric
    var children: seq<Member>

    function Snapshot(): Value
      reads this
    {
      Value(tag, str, num, children)
    }

    /** Value(const Value &): copies tag, string and number; the children are left empty. */
    constructor CopyOf(rhs: Value)
      ensures Snapshot() == Copy(rhs)
    {
      tag, str, num, children := rhs.tag, rhs.str, rhs.num, [];
    }

    /** push: a non-Array becomes an empty Array; KeyValue(item) copy-constructs the element. */
    method Push(x: Value)
      modifies this
      ensures Snapshot() == PushedCopy(old(Snapshot()), x)
    {
      if tag != Array {
        tag := Array;
        children := [];
      }
      children := children + [Member([], Value(x.tag, x.str, x.num, []))];
    }
  }

  // ---------------------------------------------------------------------------------------
  // serialize

  /** A string with a backslash inserted before every double quote, and nothing else changed. */
  function QuoteEscaped(s: string): (r: string)
    ensures |r| >= |s|
  {
    if s == [] then []
    else QuoteEscaped(s[..|s| - 1]) + (if s[|s| - 1] == '"' then ['\\', '"'] else [s[|s| - 1]])
  }

  /** Reading back: a backslash right before a double quote is dropped. */
  function QuoteUnescaped(t: string): string
  {
    if t == [] then []
    else if |t| >= 2 && t[|t| - 1] == '"' && t[|t| - 2] == '\\' then QuoteUnescaped(t[..|t| - 2]) + ['"']
    else QuoteUnescaped(t[..|t| - 1]) + [t[|t| - 1]]
  }

  /** The inserted backslashes are the only change: dropping them gives the string back. */
  lemma {:induction false} QuoteEscapedReadsBack(s: string)
    ensures QuoteUnescaped(QuoteEscaped(s)) == s
  {
    if s != [] {
      var u, c := s[..|s| - 1], s[|s| - 1];
      QuoteEscapedReadsBack(u);
      var e := QuoteEscaped(s);
      if c == '"' {
        assert e[..|e| - 2] == QuoteEscaped(u);
      } else {
        assert e[..|e| - 1] == QuoteEscaped(u);
      }
      assert s == u + [c];
    }
  }

  /** Without double quotes, nothing is inserted. */
  lemma {:induction false} QuoteEscapedKeepsQuoteFree(s: string)
    requires forall i | 0 <= i < |s| :: s[i] != '"'
    ensures QuoteEscaped(s) == s
  {
    if s != [] {
      QuoteEscapedKeepsQuoteFree(s[..|s| - 1]);
    }
  }

  /** QuoteEscaped on one more unit of s. */
  lemma QuoteEscapedStep(s: string, k: nat)
    requires k < |s|
    ensures QuoteEscaped(s[..k + 1]) == QuoteEscaped(s[..k]) + (if s[k] == '"' then ['\\', '"'] else [s[k]])
  {
    assert s[..k + 1][..k] == s[..k];
  }

  lemma InsertBefore(done: string, c: char, mark: char, rest: string)
    ensures done + [mark] + ([c] + rest) == done + [mark, c] + rest
    ensures done + ([c] + rest) == done + [c] + rest
  {
  }

  /** The insertion loop over a copy of the string: insert a backslash before each quote and step over both. */
  method EscapeQuotes(s: string) returns (str: string)
    ensures str == QuoteEscaped(s)
  {
    str := s;
    var p := 0;
    ghost var k, done := 0, [];
    while p != |str|
      invariant k <= |s| && done == QuoteEscaped(s[..k])
      invariant str == done + s[k..] && p == |done|
      decreases |s| - k
    {
      ghost var rest := s[k + 1..];
      assert s[k..] == [s[k]] + rest;
      QuoteEscapedStep(s, k);
      InsertBefore(done, s[k], '\\', rest);
      if str[p] == '"' {
        var before, after := str[..p], str[p..];
        assert before == done && after == [s[k]] + rest;
        str := before + ['\\'] + after;
        p := p + 1;
        done := done + ['\\', '"'];
      } else {
        done := done + [s[k]];
      }
      p := p + 1;
      k := k + 1;
    }
    assert s[..k] == s;
  }

  /** What serialize returns: compact text; strings get quote escaping only and keys none. */
  function Serialized(v: Value, show: NumberShow): string
    decreases v, 1
  {
    match v.tag
    case Null => "null"
    case Undefined => "null"
    case Number => ToText(v, show)
    case Bool => ToText(v, show)
    case String => "\"" + QuoteEscaped(v.str) + "\""
    case Array => "[" + Items(v, show, 0) + "]"
    case Object => "{" + Items(v, show, 0) + "}"
  }

  /** What the loop writes for children i, i+1, ...: a comma before every child but the first, and `"key":` in an Object. */
  function Items(v: Value, show: NumberShow, i: nat): string
    decreases v, 0, |v.children| - i
  {
    if i >= |v.children| then []
    else
      assert v.children[i] in v.children;
      (if i > 0 then "," else []) + (if v.tag == Object then "\"" + v.children[i].key + "\":" else []) +
        Serialized(v.children[i].value, show) + Items(v, show, i + 1)
  }

  /** serialize: a switch on the tag, then for containers a loop over the children. */
  method Serialize(v: Value, show: NumberShow) returns (result: string)
    ensures result == Serialized(v, show)
    decreases v, 1
  {
    if v.tag == String {
      var str := EscapeQuotes(v.str);
      return "\"" + str + "\"";
    } else if !IsContainer(v) {
      return if v.tag == Number || v.tag == Bool then ToText(v, show) else "null";
    }
    var open, close := if v.tag == Array then "[" else "{", if v.tag == Array then "]" else "}";
    result := open;
    var i := 0;
    while i != |v.children|
      invariant i <= |v.children|
      invariant result + Items(v, show, i) == open + Items(v, show, 0)
    {
      assert v.children[i] in v.children;
      var separator: string := if i > 0 then "," else [];
      var key: string := if v.tag == Object then "\"" + v.children[i].key + "\":" else [];
      var child := Serialize(v.children[i].value, show);
      var piece := separator + key + child;
      assert Items(v, show, i) == piece + Items(v, show, i + 1);
      Unicode.AppendAssociative(result, piece, Items(v, show, i + 1));
      result := result + piece;
      i := i + 1;
    }
    result := result + close;
    if v.tag == Array {
      assert result == Serialized(v, show);
    } else {
      assert result == Serialized(v, show);
    }
  }
}
