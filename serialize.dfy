/**
 * `serialize(markup, level)` of include/jsonpp/value.h and include/jsonpp/var.h: compact or
 * human-readable JSON text. Strings and object keys go through utf8Decode, the escaper of
 * include/jsonpp/unicode.h; numbers go through the number formatting parameter.
 */
module Serializer {
  import opened JsonValue
  import opened Unicode

  /**
   * The flags of the `markup` bit set that serialize reads: HumanReadable (2),
   * CountArrayValues (4) and IndentFirstItem (8). Compact (1) selects no branch of its own.
   */
  datatype Markup = Markup(humanReadable: bool, countArrayValues: bool, indentFirstItem: bool)

  const Compact: Markup := Markup(false, false, false)

  /** The markup passed to children: markup & ~IndentFirstItem. */
  function ForChildren(m: Markup): Markup
  {
    m.(indentFirstItem := false)
  }

  /** The decoding of a markup bit set. */
  function MarkupOf(bits: bv32): Markup
  {
    Markup(bits & 2 != 0, bits & 4 != 0, bits & 8 != 0)
  }

  /** `std::string tabs(level, '\t')`. */
  function Tabs(level: nat): (r: string)
    ensures |r| == level && forall i | 0 <= i < level :: r[i] == '\t'
  {
    if level == 0 then [] else Tabs(level - 1) + ['\t']
  }

  /** The number a run of decimal digits denotes, read from the left. */
  function DigitsValue(s: string): int
  {
    if s == [] then 0 else DigitsValue(s[..|s| - 1]) * 10 + (s[|s| - 1] as int - '0' as int)
  }

  /** A non-negative integer in decimal, as a stream writes the position of an array element. */
  function Decimal(n: nat): (r: string)
    ensures |r| > 0 && forall i | 0 <= i < |r| :: '0' <= r[i] <= '9'
    ensures DigitsValue(r) == n && (|r| > 1 ==> r[0] != '0')
  {
    if n < 10 then [('0' as int + n) as char] else Decimal(n / 10) + [('0' as int + n % 10) as char]
  }

  /** Every string serialize escapes (String payloads, Object keys) lets utf8Decode terminate. */
  predicate Escapable(v: Value, signedUnits: bool)
    decreases v, 1
  {
    (v.tag == String ==> EscapeTerminates(v.str, signedUnits)) &&
    (IsContainer(v) ==> ChildrenEscapable(v, signedUnits, 0))
  }

  predicate ChildrenEscapable(v: Value, signedUnits: bool, i: nat)
    decreases v, 0, |v.children| - i
  {
    i >= |v.children| ||
      (assert v.children[i] in v.children;
       (v.tag == Object ==> EscapeTerminates(v.children[i].key, signedUnits)) &&
       Escapable(v.children[i].value, signedUnits) && ChildrenEscapable(v, signedUnits, i + 1))
  }

  /** The tabs written before a value that is asked to indent its first line. */
  function Lead(m: Markup, level: nat): string
  {
    if m.humanReadable && m.indentFirstItem then Tabs(level) else []
  }

  /** The line break and tabs before a closing bracket. */
  function Closing(m: Markup, level: nat): string
  {
    if m.humanReadable then "\n" + Tabs(level) else []
  }

  /** `"` + utf8Decode(s) + `"`. */
  function Quoted(s: string, signedUnits: bool): string
    requires EscapeTerminates(s, signedUnits)
  {
    "\"" + Escaped(s, signedUnits) + "\""
  }

  /** What serialize(markup, level) returns for v: the optional indentation, then the text proper. */
  function Serialized(v: Value, m: Markup, level: nat, show: NumberShow, signedUnits: bool): string
    requires Escapable(v, signedUnits)
    decreases v, 2
  {
    Lead(m, level) + Body(v, m, level, show, signedUnits)
  }

  /** The text of v after any indentation: `null`, the number or bool text, the quoted string, or a bracketed list. */
  function Body(v: Value, m: Markup, level: nat, show: NumberShow, signedUnits: bool): string
    requires Escapable(v, signedUnits)
    decreases v, 1
  {
    match v.tag
    case Null => "null"
    case Undefined => "null"
    case Number => ToText(v, show)
    case Bool => ToText(v, show)
    case String => Quoted(v.str, signedUnits)
    case Array => "[" + Items(v, m, level, show, signedUnits, 0) + Closing(m, level) + "]"
    case Object => "{" + Items(v, m, level, show, signedUnits, 0) + Closing(m, level) + "}"
  }

  /** What the loop over the children writes for children i, i+1, ...: separators, prefixes and the children. */
  function Items(v: Value, m: Markup, level: nat, show: NumberShow, signedUnits: bool, i: nat): string
    requires IsContainer(v) && ChildrenEscapable(v, signedUnits, i)
    decreases v, 0, |v.children| - i
  {
    if i >= |v.children| then []
    else
      assert v.children[i] in v.children;
      Item(v, m, level, show, signedUnits, i) + Items(v, m, level, show, signedUnits, i + 1)
  }

  /** The text the loop writes for child i. */
  function Item(v: Value, m: Markup, level: nat, show: NumberShow, signedUnits: bool, i: nat): string
    requires IsContainer(v) && i < |v.children| && ChildrenEscapable(v, signedUnits, i)
    decreases v, 0, 0
  {
    assert v.children[i] in v.children;
    (if i > 0 then "," else []) + ItemPrefix(v, m, level, signedUnits, i) +
      Serialized(v.children[i].value, ForChildren(m), level + 1, show, signedUnits)
  }

  /** Before an Array element: a new line, tabs and optionally `i => `; before an Object member: that and the quoted key. */
  function ItemPrefix(v: Value, m: Markup, level: nat, signedUnits: bool, i: nat): string
    requires IsContainer(v) && i < |v.children| && ChildrenEscapable(v, signedUnits, i)
  {
    var line := if m.humanReadable then "\n\t" + Tabs(level) else [];
    if v.tag == Array then
      line + (if m.humanReadable && m.countArrayValues then Decimal(i) + " => " else [])
    else
      line + Quoted(v.children[i].key, signedUnits) + ":"
  }

  lemma ChildrenEscapableFrom(v: Value, signedUnits: bool, i: nat, j: nat)
    requires i <= j && ChildrenEscapable(v, signedUnits, i)
    ensures ChildrenEscapable(v, signedUnits, j)
    decreases j - i
  {
    if i < j && i < |v.children| {
      ChildrenEscapableFrom(v, signedUnits, i + 1, j);
    }
  }

  /** serialize for a value that is not a container: its text, after the tabs when asked to indent. */
  method SerializeScalar(v: Value, m: Markup, level: nat, show: NumberShow, signedUnits: bool) returns (text: string)
    requires Escapable(v, signedUnits) && !IsContainer(v)
    ensures text == Serialized(v, m, level, show, signedUnits)
  {
    if v.tag == String {
      var escaped := Utf8Decode(v.str, signedUnits);
      text := "\"" + escaped + "\"";
    } else if v.tag == Number || v.tag == Bool {
      text := ToText(v, show);
    } else {
      text := "null";
    }
    if m.humanReadable && m.indentFirstItem {
      text := Tabs(level) + text;
    }
  }

  /** serialize: a switch on the tag, then for containers a loop over the children. */
  method Serialize(v: Value, m: Markup, level: nat, show: NumberShow, signedUnits: bool) returns (text: string)
    requires Escapable(v, signedUnits)
    ensures text == Serialized(v, m, level, show, signedUnits)
    decreases v, 1
  {
    if !IsContainer(v) {
      text := SerializeScalar(v, m, level, show, signedUnits);
      return;
    }
    var items := SerializeItems(v, m, level, show, signedUnits);
    ContainerBody(v, m, level, show, signedUnits);
    text := Lead(m, level) + (Brackets(v).0 + items + Closing(m, level) + Brackets(v).1);
  }

  /** The loop over the children of a container. */
  method SerializeItems(v: Value, m: Markup, level: nat, show: NumberShow, signedUnits: bool) returns (items: string)
    requires IsContainer(v) && ChildrenEscapable(v, signedUnits, 0)
    ensures items == Items(v, m, level, show, signedUnits, 0)
    decreases v, 0, 1
  {
    items := [];
    var i := 0;
    while i < |v.children|
      invariant i <= |v.children| && ChildrenEscapable(v, signedUnits, i)
      invariant items + Items(v, m, level, show, signedUnits, i) == Items(v, m, level, show, signedUnits, 0)
    {
      var piece := SerializeItem(v, m, level, show, signedUnits, i);
      AppendAssociative(items, piece, Items(v, m, level, show, signedUnits, i + 1));
      items := items + piece;
      i := i + 1;
    }
    assert items + [] == items;
  }

  /** The opening and closing bracket of a container. */
  function Brackets(v: Value): (string, string)
  {
    if v.tag == Array then ("[", "]") else ("{", "}")
  }

  /** A container's text is its items between its brackets, with the closing line before the last one. */
  lemma ContainerBody(v: Value, m: Markup, level: nat, show: NumberShow, signedUnits: bool)
    requires Escapable(v, signedUnits) && IsContainer(v)
    ensures Body(v, m, level, show, signedUnits) ==
      Brackets(v).0 + Items(v, m, level, show, signedUnits, 0) + Closing(m, level) + Brackets(v).1
  {
  }

  /** One turn of the loop over the children: separator, prefix, then the child serialized one level deeper. */
  method SerializeItem(v: Value, m: Markup, level: nat, show: NumberShow, signedUnits: bool, i: nat) returns (piece: string)
    requires IsContainer(v) && i < |v.children| && ChildrenEscapable(v, signedUnits, i)
    ensures piece == Item(v, m, level, show, signedUnits, i)
    decreases v, 0, 0
  {
    assert v.children[i] in v.children;
    var separator: string := if i > 0 then "," else [];
    var line: string := if m.humanReadable then "\n\t" + Tabs(level) else [];
    var prefix: string;
    if v.tag == Array {
      prefix := line + (if m.humanReadable && m.countArrayValues then Decimal(i) + " => " else []);
    } else {
      var key := Utf8Decode(v.children[i].key, signedUnits);
      prefix := line + ("\"" + key + "\"") + ":";
    }
    assert prefix == ItemPrefix(v, m, level, signedUnits, i);
    var child := Serialize(v.children[i].value, ForChildren(m), level + 1, show, signedUnits);
    piece := separator + prefix + child;
  }

  /** Compact output does not depend on the level. */
  lemma {:induction false} CompactIgnoresLevel(v: Value, l1: nat, l2: nat, show: NumberShow, signedUnits: bool)
    requires Escapable(v, signedUnits)
    ensures Serialized(v, Compact, l1, show, signedUnits) == Serialized(v, Compact, l2, show, signedUnits)
    decreases v, 1
  {
    if IsContainer(v) {
      CompactItemsIgnoreLevel(v, l1, l2, show, signedUnits, 0);
    }
  }

  lemma {:induction false} CompactItemsIgnoreLevel(v: Value, l1: nat, l2: nat, show: NumberShow, signedUnits: bool, i: nat)
    requires IsContainer(v) && ChildrenEscapable(v, signedUnits, i)
    ensures Items(v, Compact, l1, show, signedUnits, i) == Items(v, Compact, l2, show, signedUnits, i)
    decreases v, 0, |v.children| - i
  {
    if i < |v.children| {
      assert v.children[i] in v.children;
      CompactIgnoresLevel(v.children[i].value, l1 + 1, l2 + 1, show, signedUnits);
      CompactItemsIgnoreLevel(v, l1, l2, show, signedUnits, i + 1);
    }
  }

  /** IndentFirstItem only adds the tabs in front of the first line (and only when human-readable). */
  lemma IndentFirstItemOnlyLeads(v: Value, m: Markup, level: nat, show: NumberShow, signedUnits: bool)
    requires Escapable(v, signedUnits)
    ensures Serialized(v, m.(indentFirstItem := true), level, show, signedUnits) ==
      (if m.humanReadable then Tabs(level) else []) + Serialized(v, m.(indentFirstItem := false), level, show, signedUnits)
  {
    var on, off := m.(indentFirstItem := true), m.(indentFirstItem := false);
    if IsContainer(v) {
      ItemsIgnoreIndentFirstItem(v, m, level, show, signedUnits, 0);
    }
    assert Body(v, on, level, show, signedUnits) == Body(v, off, level, show, signedUnits);
  }

  lemma {:induction false} ItemsIgnoreIndentFirstItem(v: Value, m: Markup, level: nat, show: NumberShow, signedUnits: bool, i: nat)
    requires IsContainer(v) && ChildrenEscapable(v, signedUnits, i)
    ensures Items(v, m.(indentFirstItem := true), level, show, signedUnits, i) ==
      Items(v, m.(indentFirstItem := false), level, show, signedUnits, i)
    decreases |v.children| - i
  {
    if i < |v.children| {
      assert ForChildren(m.(indentFirstItem := true)) == ForChildren(m.(indentFirstItem := false));
      ItemsIgnoreIndentFirstItem(v, m, level, show, signedUnits, i + 1);
    }
  }

  /** A String serializes compactly to its quoted escape, at any level. */
  lemma StringText(str: string, level: nat, show: NumberShow, signedUnits: bool)
    requires EscapeTerminates(str, signedUnits)
    ensures Escapable(OfString(str), signedUnits)
    ensures Serialized(OfString(str), Compact, level, show, signedUnits) == Quoted(str, signedUnits)
  {
  }

  /** An Object of one String member serializes compactly to `{"key":"value"}`, both escaped. */
  lemma MemberText(key: string, value: string, show: NumberShow, signedUnits: bool)
    requires EscapeTerminates(key, signedUnits) && EscapeTerminates(value, signedUnits)
    ensures var v := Value(Object, [], NaN, [Member(key, OfString(value))]);
      Escapable(v, signedUnits) &&
      Serialized(v, Compact, 0, show, signedUnits) == "{" + Quoted(key, signedUnits) + ":" + Quoted(value, signedUnits) + "}"
  {
    var v := Value(Object, [], NaN, [Member(key, OfString(value))]);
    var k, x := Quoted(key, signedUnits), Quoted(value, signedUnits);
    MemberItems(key, value, show, signedUnits);
    var items := Items(v, Compact, 0, show, signedUnits, 0);
    CompactText(v, show, signedUnits);
    Enclosed("{", k, ":", x, "}");
  }

  /** Writing a bracket around three pieces is writing the five pieces in turn. */
  lemma Enclosed(open: string, a: string, b: string, c: string, close: string)
    ensures open + (a + b + c) + close == open + a + b + c + close
  {
    assert a + b + c == a + (b + c);
    assert open + (a + (b + c)) == open + a + (b + c) == open + a + b + c;
  }

  /** A container serializes compactly to its items between its brackets. */
  lemma CompactText(v: Value, show: NumberShow, signedUnits: bool)
    requires Escapable(v, signedUnits) && IsContainer(v)
    ensures Serialized(v, Compact, 0, show, signedUnits) == Brackets(v).0 + Items(v, Compact, 0, show, signedUnits, 0) + Brackets(v).1
  {
    ContainerBody(v, Compact, 0, show, signedUnits);
  }

  lemma MemberItems(key: string, value: string, show: NumberShow, signedUnits: bool)
    requires EscapeTerminates(key, signedUnits) && EscapeTerminates(value, signedUnits)
    ensures var v := Value(Object, [], NaN, [Member(key, OfString(value))]);
      Escapable(v, signedUnits) &&
      Items(v, Compact, 0, show, signedUnits, 0) == Quoted(key, signedUnits) + ":" + Quoted(value, signedUnits)
  {
    var v := Value(Object, [], NaN, [Member(key, OfString(value))]);
    MemberEscapable(key, value, signedUnits);
    StringText(value, 1, show, signedUnits);
    LastItem(v, Compact, 0, show, signedUnits, 0);
    FirstMemberText(v, show, signedUnits);
  }

  lemma MemberEscapable(key: string, value: string, signedUnits: bool)
    requires EscapeTerminates(key, signedUnits) && EscapeTerminates(value, signedUnits)
    ensures var v := Value(Object, [], NaN, [Member(key, OfString(value))]);
      Escapable(v, signedUnits) && ChildrenEscapable(v, signedUnits, 0)
  {
    var v := Value(Object, [], NaN, [Member(key, OfString(value))]);
    assert Escapable(OfString(value), signedUnits);
    assert ChildrenEscapable(v, signedUnits, 1);
  }

  /** The last child's item is all the loop writes from it on. */
  lemma LastItem(v: Value, m: Markup, level: nat, show: NumberShow, signedUnits: bool, i: nat)
    requires IsContainer(v) && i + 1 == |v.children| && ChildrenEscapable(v, signedUnits, i)
    ensures Items(v, m, level, show, signedUnits, i) == Item(v, m, level, show, signedUnits, i)
  {
    assert Items(v, m, level, show, signedUnits, i + 1) == [];
  }

  /** In compact form, the first member of an Object is written as its quoted key, `:` and its compact serialization. */
  lemma FirstMemberText(v: Value, show: NumberShow, signedUnits: bool)
    requires v.tag == Object && 0 < |v.children| && ChildrenEscapable(v, signedUnits, 0)
    ensures Escapable(v.children[0].value, signedUnits) && EscapeTerminates(v.children[0].key, signedUnits)
    ensures Item(v, Compact, 0, show, signedUnits, 0) ==
      Quoted(v.children[0].key, signedUnits) + ":" + Serialized(v.children[0].value, Compact, 1, show, signedUnits)
  {
    assert ForChildren(Compact) == Compact;
  }

  /** In compact form, Array element i is written as its separator, then its compact serialization. */
  lemma ElementText(v: Value, show: NumberShow, signedUnits: bool, i: nat)
    requires v.tag == Array && i < |v.children| && ChildrenEscapable(v, signedUnits, i)
    ensures Escapable(v.children[i].value, signedUnits)
    ensures Item(v, Compact, 0, show, signedUnits, i) ==
      (if i > 0 then "," else []) + Serialized(v.children[i].value, Compact, 1, show, signedUnits)
  {
    assert ForChildren(Compact) == Compact;
    assert ItemPrefix(v, Compact, 0, signedUnits, i) == [];
  }

  /** An Array of two Strings serializes compactly to `["first","second"]`, both escaped. */
  lemma PairText(first: string, second: string, show: NumberShow, signedUnits: bool)
    requires EscapeTerminates(first, signedUnits) && EscapeTerminates(second, signedUnits)
    ensures var v := Value(Array, [], NaN, [Member([], OfString(first)), Member([], OfString(second))]);
      Escapable(v, signedUnits) &&
      Serialized(v, Compact, 0, show, signedUnits) == "[" + Quoted(first, signedUnits) + "," + Quoted(second, signedUnits) + "]"
  {
    var v := Value(Array, [], NaN, [Member([], OfString(first)), Member([], OfString(second))]);
    var a, b := Quoted(first, signedUnits), Quoted(second, signedUnits);
    PairItems(first, second, show, signedUnits);
    var items := Items(v, Compact, 0, show, signedUnits, 0);
    CompactText(v, show, signedUnits);
    Enclosed("[", a, ",", b, "]");
  }

  lemma PairItems(first: string, second: string, show: NumberShow, signedUnits: bool)
    requires EscapeTerminates(first, signedUnits) && EscapeTerminates(second, signedUnits)
    ensures var v := Value(Array, [], NaN, [Member([], OfString(first)), Member([], OfString(second))]);
      Escapable(v, signedUnits) &&
      Items(v, Compact, 0, show, signedUnits, 0) == Quoted(first, signedUnits) + "," + Quoted(second, signedUnits)
  {
    var v := Value(Array, [], NaN, [Member([], OfString(first)), Member([], OfString(second))]);
    PairEscapable(first, second, signedUnits);
    StringText(first, 1, show, signedUnits);
    StringText(second, 1, show, signedUnits);
    ArrayOfTwoText(v, show, signedUnits);
  }

  /** In compact form, an Array of two elements writes the first, `,` and the second. */
  lemma ArrayOfTwoText(v: Value, show: NumberShow, signedUnits: bool)
    requires v.tag == Array && |v.children| == 2 && ChildrenEscapable(v, signedUnits, 0)
    ensures ChildrenEscapable(v, signedUnits, 1) && Escapable(v.children[0].value, signedUnits) && Escapable(v.children[1].value, signedUnits)
    ensures Items(v, Compact, 0, show, signedUnits, 0) ==
      Serialized(v.children[0].value, Compact, 1, show, signedUnits) + "," + Serialized(v.children[1].value, Compact, 1, show, signedUnits)
  {
    TwoItems(v, Compact, 0, show, signedUnits);
    ElementText(v, show, signedUnits, 0);
    ElementText(v, show, signedUnits, 1);
  }

  /** The loop over two children writes the first child's item, then the second's. */
  lemma TwoItems(v: Value, m: Markup, level: nat, show: NumberShow, signedUnits: bool)
    requires IsContainer(v) && |v.children| == 2 && ChildrenEscapable(v, signedUnits, 0)
    ensures ChildrenEscapable(v, signedUnits, 1)
    ensures Items(v, m, level, show, signedUnits, 0) == Item(v, m, level, show, signedUnits, 0) + Item(v, m, level, show, signedUnits, 1)
  {
    LastItem(v, m, level, show, signedUnits, 1);
  }

  lemma PairEscapable(first: string, second: string, signedUnits: bool)
    requires EscapeTerminates(first, signedUnits) && EscapeTerminates(second, signedUnits)
    ensures var v := Value(Array, [], NaN, [Member([], OfString(first)), Member([], OfString(second))]);
      Escapable(v, signedUnits) && ChildrenEscapable(v, signedUnits, 1)
  {
    var v := Value(Array, [], NaN, [Member([], OfString(first)), Member([], OfString(second))]);
    assert Escapable(OfString(first), signedUnits) && Escapable(OfString(second), signedUnits);
    assert ChildrenEscapable(v, signedUnits, 2);
    assert ChildrenEscapable(v, signedUnits, 1);
  }

  /** An empty Object serializes compactly to `{}`. */
  lemma EmptyObjectText(show: NumberShow, signedUnits: bool)
    ensures Escapable(Fresh(Object), signedUnits) && Serialized(Fresh(Object), Compact, 0, show, signedUnits) == "{}"
  {
  }
}
