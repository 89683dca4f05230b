/**
 * What the current parser builds from small documents, for every choice of the tokens in them
 * and whatever the number, key and hexadecimal conversions are. The inputs of the test driver
 * src/main.cpp that have these shapes follow as instances.
 */
module ParserScenarios {
  import opened Outcomes
  import opened JsonValue
  import opened Literal
  import opened Parser

  // ---------------------------------------------------------------------------------------
  // Tokens

  /**
   * The text between two structural characters: bare text, a quoted string with whitespace
   * around it, or a double-quoted string whose body holds backslash escapes.
   */
  datatype Token = Bare(text: string) | Quoted(before: string, quote: char, body: string, after: string)
    | Escaping(escaped: string)

  function TextOf(t: Token): string
  {
    match t
    case Bare(text) => text
    case Quoted(before, q, body, after) => before + [q] + body + [q] + after
    case Escaping(escaped) => "\"" + escaped + "\""
  }

  predicate AllSpaces(s: string)
  {
    forall i | 0 <= i < |s| :: IsSpace(s[i])
  }

  /**
   * A token the loop only saves: bare text of ordinary units that is not blank and classifies,
   * a quoted body without its own quote or a backslash, with whitespace around it, or a
   * double-quoted body made of escape pairs and units other than the quote and the backslash.
   */
  predicate WellFormed(t: Token, conv: Conversions)
  {
    match t
    case Bare(text) =>
      (forall i | 0 <= i < |text| :: IsOrdinary(text[i], false)) && Trim(text) != [] && Classify(Current, Trim(text), conv).Ok?
    case Quoted(before, q, body, after) =>
      AllSpaces(before) && AllSpaces(after) && IsQuote(q) && InsideQuotes(body, q)
    case Escaping(escaped) => EscapedBody(escaped)
  }

  /**
   * Text that stays inside a double-quoted string and leaves no escape pending: a backslash
   * and the unit after it, or any unit but the double quote and the backslash, repeated.
   */
  predicate EscapedBody(t: string)
    decreases |t|
  {
    t == [] ||
    (t[0] == '\\' && |t| >= 2 && EscapedBody(t[2..])) ||
    (t[0] != '\\' && t[0] != '"' && EscapedBody(t[1..]))
  }

  /** Text that stays inside a string opened by q: neither q nor a backslash. */
  predicate InsideQuotes(body: string, q: char)
  {
    forall i | 0 <= i < |body| :: body[i] != q && body[i] != '\\'
  }

  /** The value a well-formed token stands for. */
  function ValueOf(t: Token, conv: Conversions): Value
    requires WellFormed(t, conv)
  {
    match t
    case Bare(text) => Classify(Current, Trim(text), conv).value
    case Quoted(_, _, body, _) => OfString(body)
    case Escaping(escaped) => OfString(Unescape(escaped, conv.hexRead))
  }

  /** Feeding a well-formed token outside quotes saves it whole and leaves the flags as they were. */
  lemma TokenIsSaved(scan: Scan, t: Token, conv: Conversions)
    requires WellFormed(t, conv) && !scan.doubleString && !scan.singleString && scan.escape == 0
    ensures Feed(Current, scan, TextOf(t), conv) == Ok(scan.(literal := scan.literal + TextOf(t)))
  {
    match t
    case Bare(text) =>
      FeedOrdinary(Current, scan, text, conv);
    case Quoted(before, q, body, after) =>
      var lit := scan.literal;
      var front := before + [q] + body;
      FeedAppend(Current, scan, front + [q], after, conv);
      FeedAppend(Current, scan, front, [q], conv);
      QuoteOpened(scan, before, q, body, conv);
      var s3 := (if q == '"' then scan.(doubleString := true) else scan.(singleString := true)).(literal := lit + front);
      QuoteToggles(Current, s3, q, conv);
      FeedUnit(s3, q, conv);
      var s4 := scan.(literal := lit + front + [q]);
      FeedOrdinary(Current, s4, after, conv);
      assert s4.literal + after == lit + TextOf(t);
    case Escaping(escaped) =>
      EscapingIsSaved(scan, escaped, conv);
  }

  /** Inside a double-quoted string, escape pairs and other units are saved and the string stays open. */
  lemma {:induction false} FeedEscapedBody(scan: Scan, t: string, conv: Conversions)
    requires scan.doubleString && !scan.singleString && scan.escape == 0 && EscapedBody(t)
    ensures Feed(Current, scan, t, conv) == Ok(scan.(literal := scan.literal + t))
    decreases |t|
  {
    if t == [] {
      assert scan.literal + t == scan.literal;
    } else if t[0] == '\\' {
      var armed := scan.(literal := scan.literal + [t[0]], escape := 1);
      assert Step(Current, scan, t[0], conv) == Ok(armed);
      var next := scan.(literal := scan.literal + t[..2]);
      assert armed.literal + [t[1]] == next.literal;
      assert Step(Current, armed, t[1], conv) == Ok(next);
      assert t[1..][0] == t[1] && t[1..][1..] == t[2..];
      FeedEscapedBody(next, t[2..], conv);
      assert next.literal + t[2..] == scan.literal + t;
    } else {
      var next := scan.(literal := scan.literal + [t[0]]);
      assert Step(Current, scan, t[0], conv) == Ok(next);
      FeedEscapedBody(next, t[1..], conv);
      assert next.literal + t[1..] == scan.literal + t;
    }
  }

  /** A double-quoted escaped token outside quotes is saved whole and closes its string again. */
  lemma EscapingIsSaved(scan: Scan, escaped: string, conv: Conversions)
    requires EscapedBody(escaped) && !scan.doubleString && !scan.singleString && scan.escape == 0
    ensures Feed(Current, scan, TextOf(Escaping(escaped)), conv) == Ok(scan.(literal := scan.literal + TextOf(Escaping(escaped))))
  {
    var lit := scan.literal;
    var open := scan.(literal := lit + "\"", doubleString := true);
    FeedAppend(Current, scan, "\"" + escaped, "\"", conv);
    FeedAppend(Current, scan, "\"", escaped, conv);
    QuoteToggles(Current, scan, '"', conv);
    FeedUnit(scan, '"', conv);
    FeedEscapedBody(open, escaped, conv);
    var inside := open.(literal := lit + "\"" + escaped);
    assert open.literal + escaped == inside.literal;
    QuoteToggles(Current, inside, '"', conv);
    FeedUnit(inside, '"', conv);
    assert inside.literal + "\"" == lit + TextOf(Escaping(escaped));
  }

  /** Whitespace, an opening quote and a body without quotes leave that quote's string open with all of it saved. */
  lemma QuoteOpened(scan: Scan, before: string, q: char, body: string, conv: Conversions)
    requires !scan.doubleString && !scan.singleString && scan.escape == 0
    requires AllSpaces(before) && IsQuote(q) && InsideQuotes(body, q)
    ensures Feed(Current, scan, before + [q] + body, conv) ==
      Ok((if q == '"' then scan.(doubleString := true) else scan.(singleString := true)).(literal := scan.literal + (before + [q] + body)))
  {
    var lit := scan.literal;
    FeedAppend(Current, scan, before + [q], body, conv);
    FeedAppend(Current, scan, before, [q], conv);
    FeedOrdinary(Current, scan, before, conv);
    var s1 := scan.(literal := lit + before);
    QuoteToggles(Current, s1, q, conv);
    FeedUnit(s1, q, conv);
    var s2 := (if q == '"' then scan.(doubleString := true) else scan.(singleString := true)).(literal := lit + before + [q]);
    FeedInsideString(Current, s2, body, conv);
    assert s2.literal + body == lit + (before + [q] + body);
  }

  /** A quoted token's trimmed text is the quoted body. */
  lemma QuotedTrims(before: string, q: char, body: string, after: string)
    requires AllSpaces(before) && AllSpaces(after) && IsQuote(q)
    ensures Trim(before + [q] + body + [q] + after) == [q] + body + [q]
  {
    var core := [q] + body + [q];
    assert before + [q] + body + [q] + after == before + core + after;
    TrimPadded(before, core, after);
  }

  /** A quoted token's trimmed text is the quoted body, which classifies as that String. */
  lemma QuotedClassifies(before: string, q: char, body: string, after: string, conv: Conversions)
    requires AllSpaces(before) && AllSpaces(after) && IsQuote(q) && InsideQuotes(body, q)
    ensures var core := [q] + body + [q];
      Trim(before + [q] + body + [q] + after) == core && Classify(Current, core, conv) == Ok(OfString(body))
  {
    QuotedTrims(before, q, body, after);
    var core := [q] + body + [q];
    assert NumberStateAfter(core, 1) == 0;
    RejectionIsFinal(core, 1, |core|);
    assert core[0] == q && core[1..|core| - 1] == body;
    UnescapePlain(body, conv.hexRead, |body|);
    assert body[..|body|] == body;
  }

  /** The trimmed text of a well-formed token is not blank and classifies as the token's value. */
  lemma TokenClassifies(t: Token, conv: Conversions)
    requires WellFormed(t, conv)
    ensures TextOf(t) != [] && Trim(TextOf(t)) != [] && Classify(Current, Trim(TextOf(t)), conv) == Ok(ValueOf(t, conv))
  {
    if t.Quoted? {
      QuotedClassifies(t.before, t.quote, t.body, t.after, conv);
    } else if t.Escaping? {
      EscapingClassifies(t.escaped, conv);
    }
  }

  /** A double-quoted escaped token is its own trimmed text and classifies as the String its escapes decode to. */
  lemma EscapingClassifies(escaped: string, conv: Conversions)
    ensures var core := TextOf(Escaping(escaped));
      Trim(core) == core && Classify(Current, core, conv) == Ok(OfString(Unescape(escaped, conv.hexRead)))
  {
    var core := TextOf(Escaping(escaped));
    assert core[0] == '"' && core[|core| - 1] == '"';
    TrimKeeps(core);
    assert NumberStateAfter(core, 1) == 0;
    RejectionIsFinal(core, 1, |core|);
    assert core[1..|core| - 1] == escaped;
  }

  /** A structural character after a saved token adds the token's value; a closing bracket then pops. */
  lemma FlushToken(tree: Tree, t: Token, c: char, conv: Conversions)
    requires WellFormed(t, conv) && tree.stack != [] && (c == ',' || c == ':' || c == '}' || c == ']')
    ensures var added := AddItem(Current, tree, ValueOf(t, conv), conv.show).value;
      Step(Current, Scan(tree, TextOf(t), false, false, 0), c, conv) ==
        if c == ',' || c == ':' then Ok(Scan(added, [], false, false, 0))
        else if added.stack == [] then Err(EmptyArray)
        else Ok(Scan(added.(stack := added.stack[..|added.stack| - 1]), [], false, false, 0))
  {
    TokenClassifies(t, conv);
    StepFlush(tree, TextOf(t), c, conv);
    assert AddLiteral(Current, tree, TextOf(t), conv) == AddItem(Current, tree, ValueOf(t, conv), conv.show);
  }

  /** A separator or closing bracket outside quotes flushes the pending literal, then pops on a closing bracket. */
  lemma StepFlush(tree: Tree, literal: string, c: char, conv: Conversions)
    requires literal != [] && (c == ',' || c == ':' || c == '}' || c == ']')
    ensures Step(Current, Scan(tree, literal, false, false, 0), c, conv) ==
      var flushed :- AddLiteral(Current, tree, literal, conv);
      if c == ',' || c == ':' then Ok(Scan(flushed, [], false, false, 0))
      else if flushed.stack == [] then Err(EmptyArray)
      else Ok(Scan(flushed.(stack := flushed.stack[..|flushed.stack| - 1]), [], false, false, 0))
  {
  }

  /** The first `{` or `[` turns the Undefined root into an empty container. */
  lemma OpenRoot(c: char, conv: Conversions)
    requires c == '{' || c == '['
    ensures Feed(Current, Initial, [c], conv) == Ok(Scan(Tree(Fresh(if c == '{' then Object else Array), [[]]), [], false, false, 0))
  {
  }

  /** A closing bracket with nothing pending pops the top destination. */
  lemma CloseEmpty(tree: Tree, c: char, conv: Conversions)
    requires (c == '}' || c == ']') && tree.stack != []
    ensures Feed(Current, Scan(tree, [], false, false, 0), [c], conv) ==
      Ok(Scan(tree.(stack := tree.stack[..|tree.stack| - 1]), [], false, false, 0))
  {
  }

  // ---------------------------------------------------------------------------------------
  // Documents

  function Obj(key: string, value: Value): Value
  {
    Value(Object, [], NaN, [Member(key, value)])
  }

  /** Feeding one unit is one Step. */
  lemma FeedUnit(scan: Scan, c: char, conv: Conversions)
    ensures Feed(Current, scan, [c], conv) == Step(Current, scan, c, conv)
  {
    var r := Step(Current, scan, c, conv);
    if r.Ok? {
      assert Feed(Current, r.value, [c][1..], conv) == Ok(r.value);
    }
  }

  /** A key item on a fresh Object root: the member is created with an Undefined value and becomes the top. */
  lemma AddKey(x: Value, show: NumberShow)
    ensures AddItem(Current, Tree(Fresh(Object), [[]]), x, show) == Ok(Tree(Obj(ToText(x, show), Fresh(Undefined)), [[], [0]]))
  {
    var access := KeyAccess(Fresh(Object), ToText(x, show));
    assert access.0 == Obj(ToText(x, show), Fresh(Undefined)) && access.1 == 0;
    assert [] + [0] == [0];
    assert [[]] + [[0]] == [[], [0]];
  }

  /** A scalar item on the member's Undefined value replaces it and pops back to the Object. */
  lemma AddMemberValue(name: string, x: Value, show: NumberShow)
    requires !IsContainer(x)
    ensures AddItem(Current, Tree(Obj(name, Fresh(Undefined)), [[], [0]]), x, show) == Ok(Tree(Obj(name, x), [[]]))
  {
    assert At(Obj(name, Fresh(Undefined)), [0]) == Fresh(Undefined);
    assert ReplaceAt(Obj(name, Fresh(Undefined)), [0], x) == Obj(name, x);
    assert [[], [0]][..1] == [[]];
  }

  /** A scalar item on an Array root is appended. */
  lemma AddElement(elements: seq<Member>, x: Value, show: NumberShow)
    requires !IsContainer(x)
    ensures AddItem(Current, Tree(Value(Array, [], NaN, elements), [[]]), x, show) ==
      Ok(Tree(Value(Array, [], NaN, elements + [Member([], x)]), [[]]))
  {
  }

  /** `{key:` leaves the key's member, holding Undefined, as the top destination. */
  lemma KeyRead(key: Token, conv: Conversions)
    requires WellFormed(key, conv)
    ensures Feed(Current, Initial, "{" + TextOf(key) + ":", conv) ==
      Ok(Scan(Tree(Obj(ToText(ValueOf(key, conv), conv.show), Fresh(Undefined)), [[], [0]]), [], false, false, 0))
  {
    var k := TextOf(key);
    FeedAppend(Current, Initial, "{" + k, ":", conv);
    FeedAppend(Current, Initial, "{", k, conv);
    OpenRoot('{', conv);
    var s1 := Scan(Tree(Fresh(Object), [[]]), [], false, false, 0);
    TokenIsSaved(s1, key, conv);
    assert [] + k == k;
    FlushToken(s1.tree, key, ':', conv);
    AddKey(ValueOf(key, conv), conv.show);
    FeedUnit(s1.(literal := k), ':', conv);
  }

  /** After `{key:`, a value token and `}` complete the member and close the Object. */
  lemma MemberValueRead(name: string, value: Token, conv: Conversions)
    requires WellFormed(value, conv)
    ensures Feed(Current, Scan(Tree(Obj(name, Fresh(Undefined)), [[], [0]]), [], false, false, 0), TextOf(value) + "}", conv) ==
      Ok(Scan(Tree(Obj(name, ValueOf(value, conv)), []), [], false, false, 0))
  {
    var v := TextOf(value);
    var s2 := Scan(Tree(Obj(name, Fresh(Undefined)), [[], [0]]), [], false, false, 0);
    FeedAppend(Current, s2, v, "}", conv);
    TokenIsSaved(s2, value, conv);
    assert [] + v == v;
    FlushToken(s2.tree, value, '}', conv);
    TokenClassifies(value, conv);
    AddMemberValue(name, ValueOf(value, conv), conv.show);
    FeedUnit(s2.(literal := v), '}', conv);
  }

  /** `{key:value}`: an Object of one member, keyed by the key token's text. */
  lemma OneMember(key: Token, value: Token, conv: Conversions)
    requires WellFormed(key, conv) && WellFormed(value, conv)
    ensures var text := "{" + TextOf(key) + ":" + TextOf(value) + "}";
      var result := Obj(ToText(ValueOf(key, conv), conv.show), ValueOf(value, conv));
      Feed(Current, Initial, text, conv) == Ok(Scan(Tree(result, []), [], false, false, 0)) &&
      ParseText(Current, text, conv) == Ok(result)
  {
    var k, v := TextOf(key), TextOf(value);
    var text := "{" + k + ":" + v + "}";
    assert text == ("{" + k + ":") + (v + "}");
    FeedAppend(Current, Initial, "{" + k + ":", v + "}", conv);
    KeyRead(key, conv);
    MemberValueRead(ToText(ValueOf(key, conv), conv.show), value, conv);
    ParseTextFeeds(Current, text, conv);
  }

  // ---------------------------------------------------------------------------------------
  // Truncated documents

  /** A string left open at the end of the text: a body not ending in a quote or whitespace. */
  predicate OpenBody(q: char, body: string)
  {
    IsQuote(q) && InsideQuotes(body, q) && body != [] && !IsQuote(body[|body| - 1]) && !IsSpace(body[|body| - 1])
  }

  /** The literal of an open string is already trimmed, and classifies as a String of its body. */
  lemma OpenQuoteClassifies(q: char, body: string, conv: Conversions)
    requires OpenBody(q, body)
    ensures Trim([q] + body) == [q] + body && Classify(Current, [q] + body, conv) == Ok(OfString(body))
  {
    var core := [q] + body;
    assert core[0] == q && core[|core| - 1] == body[|body| - 1] && core[1..] == body;
    TrimKeeps(core);
    assert NumberStateAfter(core, 1) == 0;
    RejectionIsFinal(core, 1, |core|);
    UnescapePlain(body, conv.hexRead, |body|);
    assert body[..|body|] == body;
  }

  /** The flush at the end of the input adds a literal still inside its quotes as a String. */
  lemma FinishOpenQuote(scan: Scan, q: char, body: string, conv: Conversions)
    requires scan.tree.stack != [] && scan.literal == [q] + body && OpenBody(q, body)
    ensures Finish(Current, scan, conv) == (var t :- AddItem(Current, scan.tree, OfString(body), conv.show); Ok(t.root))
  {
    OpenQuoteClassifies(q, body, conv);
  }

  /** An opening quote and a body without quotes, right at the scan position, leave that quote's string open. */
  lemma QuoteOpensHere(scan: Scan, q: char, body: string, conv: Conversions)
    requires !scan.doubleString && !scan.singleString && scan.escape == 0 && IsQuote(q) && InsideQuotes(body, q)
    ensures Feed(Current, scan, [q] + body, conv) ==
      Ok(scan.(literal := scan.literal + ([q] + body), doubleString := q == '"', singleString := q == '\''))
  {
    QuoteOpened(scan, [], q, body, conv);
    assert [] + [q] + body == [q] + body;
  }

  /** `{` and a key cut off inside its quotes: the key's member is created and left Undefined. */
  lemma TruncatedKey(q: char, body: string, conv: Conversions)
    requires OpenBody(q, body)
    ensures ParseText(Current, "{" + [q] + body, conv) == Ok(Obj(body, Fresh(Undefined)))
  {
    KeyOpened(q, body, conv);
    var s2 := Scan(Tree(Fresh(Object), [[]]), [q] + body, q == '"', q == '\'', 0);
    FinishOpenQuote(s2, q, body, conv);
    AddKey(OfString(body), conv.show);
    ParseTextFeeds(Current, "{" + [q] + body, conv);
  }

  /** After `{` an opening quote and its body leave the key's string open. */
  lemma KeyOpened(q: char, body: string, conv: Conversions)
    requires OpenBody(q, body)
    ensures Feed(Current, Initial, "{" + [q] + body, conv) ==
      Ok(Scan(Tree(Fresh(Object), [[]]), [q] + body, q == '"', q == '\'', 0))
  {
    assert "{" + [q] + body == "{" + ([q] + body);
    FeedAppend(Current, Initial, "{", [q] + body, conv);
    OpenRoot('{', conv);
    QuoteOpensHere(Scan(Tree(Fresh(Object), [[]]), [], false, false, 0), q, body, conv);
    assert [] + ([q] + body) == [q] + body;
  }

  /** `{key:` and a value cut off inside its quotes: the member gets the String read so far. */
  lemma TruncatedValue(key: Token, q: char, body: string, conv: Conversions)
    requires WellFormed(key, conv) && OpenBody(q, body)
    ensures ParseText(Current, "{" + TextOf(key) + ":" + [q] + body, conv) ==
      Ok(Obj(ToText(ValueOf(key, conv), conv.show), OfString(body)))
  {
    var text := "{" + TextOf(key) + ":" + [q] + body;
    var name := ToText(ValueOf(key, conv), conv.show);
    ValueOpened(key, q, body, conv);
    var s3 := Scan(Tree(Obj(name, Fresh(Undefined)), [[], [0]]), [q] + body, q == '"', q == '\'', 0);
    FinishOpenQuote(s3, q, body, conv);
    AddMemberValue(name, OfString(body), conv.show);
    ParseTextFeeds(Current, text, conv);
  }

  /** After `{key:` an opening quote and its body leave the member's string open. */
  lemma ValueOpened(key: Token, q: char, body: string, conv: Conversions)
    requires WellFormed(key, conv) && OpenBody(q, body)
    ensures Feed(Current, Initial, "{" + TextOf(key) + ":" + [q] + body, conv) ==
      Ok(Scan(Tree(Obj(ToText(ValueOf(key, conv), conv.show), Fresh(Undefined)), [[], [0]]), [q] + body, q == '"', q == '\'', 0))
  {
    var prefix := "{" + TextOf(key) + ":";
    assert prefix + [q] + body == prefix + ([q] + body);
    FeedAppend(Current, Initial, prefix, [q] + body, conv);
    KeyRead(key, conv);
    var s2 := Scan(Tree(Obj(ToText(ValueOf(key, conv), conv.show), Fresh(Undefined)), [[], [0]]), [], false, false, 0);
    QuoteOpensHere(s2, q, body, conv);
    assert [] + ([q] + body) == [q] + body;
  }

  // ---------------------------------------------------------------------------------------
  // Text after the document

  predicate NoClosers(rest: string)
  {
    forall i | 0 <= i < |rest| :: rest[i] != '}' && rest[i] != ']'
  }

  /** Once the root is closed, text without closing brackets leaves the tree as it is. */
  lemma {:induction false} FeedAfterEnd(scan: Scan, rest: string, conv: Conversions)
    requires scan.tree.stack == [] && NoClosers(rest)
    ensures Feed(Current, scan, rest, conv).Ok? && Feed(Current, scan, rest, conv).value.tree == scan.tree
    decreases |rest|
  {
    if rest != [] {
      FinishedDocumentIgnoresText(Current, scan, rest[0], conv);
      FeedAfterEnd(Step(Current, scan, rest[0], conv).value, rest[1..], conv);
    }
  }

  /** A document whose root is closed, followed by any text without closing brackets, parses to that root. */
  lemma TrailingTextIgnored(s: string, rest: string, conv: Conversions)
    requires Feed(Current, Initial, s, conv).Ok? && Feed(Current, Initial, s, conv).value.tree.stack == []
    requires NoClosers(rest)
    ensures ParseText(Current, s + rest, conv) == Ok(Feed(Current, Initial, s, conv).value.tree.root)
  {
    var scan := Feed(Current, Initial, s, conv).value;
    FeedAppend(Current, Initial, s, rest, conv);
    FeedAfterEnd(scan, rest, conv);
    var last := Feed(Current, scan, rest, conv).value;
    FinishedDocumentIgnoresText(Current, last, ',', conv);
    ParseTextFeeds(Current, s + rest, conv);
  }

  function Pair(first: Value, second: Value): Value
  {
    Value(Array, [], NaN, [Member([], first), Member([], second)])
  }

  /** `[first,` leaves an Array holding the first value as the only destination. */
  lemma FirstElement(first: Token, conv: Conversions)
    requires WellFormed(first, conv)
    ensures Feed(Current, Initial, "[" + TextOf(first) + ",", conv) ==
      Ok(Scan(Tree(Value(Array, [], NaN, [Member([], ValueOf(first, conv))]), [[]]), [], false, false, 0))
  {
    var a := TextOf(first);
    FeedAppend(Current, Initial, "[" + a, ",", conv);
    FeedAppend(Current, Initial, "[", a, conv);
    OpenRoot('[', conv);
    var s1 := Scan(Tree(Fresh(Array), [[]]), [], false, false, 0);
    TokenIsSaved(s1, first, conv);
    assert [] + a == a;
    FirstElementAdded(first, conv);
  }

  lemma FirstElementAdded(first: Token, conv: Conversions)
    requires WellFormed(first, conv)
    ensures Feed(Current, Scan(Tree(Fresh(Array), [[]]), TextOf(first), false, false, 0), ",", conv) ==
      Ok(Scan(Tree(Value(Array, [], NaN, [Member([], ValueOf(first, conv))]), [[]]), [], false, false, 0))
  {
    var tree := Tree(Fresh(Array), [[]]);
    FlushToken(tree, first, ',', conv);
    TokenClassifies(first, conv);
    AddElement([], ValueOf(first, conv), conv.show);
    FeedUnit(Scan(tree, TextOf(first), false, false, 0), ',', conv);
  }

  /** `second]` after that appends the second value and closes the Array. */
  lemma SecondElement(x: Value, second: Token, conv: Conversions)
    requires WellFormed(second, conv)
    ensures Feed(Current, Scan(Tree(Value(Array, [], NaN, [Member([], x)]), [[]]), [], false, false, 0), TextOf(second) + "]", conv) ==
      Ok(Scan(Tree(Pair(x, ValueOf(second, conv)), []), [], false, false, 0))
  {
    var b := TextOf(second);
    var s2 := Scan(Tree(Value(Array, [], NaN, [Member([], x)]), [[]]), [], false, false, 0);
    FeedAppend(Current, s2, b, "]", conv);
    TokenIsSaved(s2, second, conv);
    assert [] + b == b;
    SecondElementAdded(x, second, conv);
  }

  lemma SecondElementAdded(x: Value, second: Token, conv: Conversions)
    requires WellFormed(second, conv)
    ensures Feed(Current, Scan(Tree(Value(Array, [], NaN, [Member([], x)]), [[]]), TextOf(second), false, false, 0), "]", conv) ==
      Ok(Scan(Tree(Pair(x, ValueOf(second, conv)), []), [], false, false, 0))
  {
    var tree := Tree(Value(Array, [], NaN, [Member([], x)]), [[]]);
    FlushToken(tree, second, ']', conv);
    TokenClassifies(second, conv);
    AddElement([Member([], x)], ValueOf(second, conv), conv.show);
    assert [Member([], x)] + [Member([], ValueOf(second, conv))] == Pair(x, ValueOf(second, conv)).children;
    FeedUnit(Scan(tree, TextOf(second), false, false, 0), ']', conv);
  }

  /** `[first,second]`: an Array of the two values. */
  lemma TwoElements(first: Token, second: Token, conv: Conversions)
    requires WellFormed(first, conv) && WellFormed(second, conv)
    ensures var text := "[" + TextOf(first) + "," + TextOf(second) + "]";
      var result := Pair(ValueOf(first, conv), ValueOf(second, conv));
      Feed(Current, Initial, text, conv) == Ok(Scan(Tree(result, []), [], false, false, 0)) &&
      ParseText(Current, text, conv) == Ok(result)
  {
    var a, b := TextOf(first), TextOf(second);
    var text := "[" + a + "," + b + "]";
    assert text == ("[" + a + ",") + (b + "]");
    FeedAppend(Current, Initial, "[" + a + ",", b + "]", conv);
    FirstElement(first, conv);
    SecondElement(ValueOf(first, conv), second, conv);
    ParseTextFeeds(Current, text, conv);
  }

  // ---------------------------------------------------------------------------------------
  // Inputs of the test driver

  /** Bare text of ordinary units with whitespace around it trims to the text. */
  lemma BareText(before: string, w: string, after: string)
    requires AllSpaces(before) && AllSpaces(after) && w != [] && !IsSpace(w[0]) && !IsSpace(w[|w| - 1])
    requires forall i | 0 <= i < |w| :: IsOrdinary(w[i], false)
    ensures var text := before + w + after;
      (forall i | 0 <= i < |text| :: IsOrdinary(text[i], false)) && Trim(text) == w
  {
    TrimPadded(before, w, after);
    var text := before + w + after;
    forall i | 0 <= i < |text|
      ensures IsOrdinary(text[i], false)
    {
      if i < |before| {
        assert text[i] == before[i];
      } else if i < |before| + |w| {
        assert text[i] == w[i - |before|];
      } else {
        assert text[i] == after[i - |before| - |w|];
      }
    }
  }

  /** Bare text that is neither a number nor a keyword is a String of the trimmed text (the NON RFC 4627 inputs). */
  lemma BareWord(before: string, w: string, after: string, conv: Conversions)
    requires AllSpaces(before) && AllSpaces(after) && w != [] && !IsSpace(w[0]) && !IsSpace(w[|w| - 1])
    requires forall i | 0 <= i < |w| :: IsOrdinary(w[i], false)
    requires !IsNumberToken(w) && KeywordSwitch(w).None?
    ensures WellFormed(Bare(before + w + after), conv) && ValueOf(Bare(before + w + after), conv) == OfString(w)
  {
    BareText(before, w, after);
    assert IsOrdinary(w[0], false) && IsOrdinary(w[|w| - 1], false);
    UnescapePlain(w, conv.hexRead, |w|);
    assert w[..|w|] == w;
  }

  /** A word whose first unit already rejects the number recogniser. */
  lemma LetterWord(before: string, w: string, after: string, conv: Conversions)
    requires AllSpaces(before) && AllSpaces(after) && w != [] && !IsSpace(w[0]) && !IsSpace(w[|w| - 1])
    requires forall i | 0 <= i < |w| :: IsOrdinary(w[i], false)
    requires NumberStep(1, w[0]) == 0 && KeywordSwitch(w).None?
    ensures WellFormed(Bare(before + w + after), conv) && ValueOf(Bare(before + w + after), conv) == OfString(w)
  {
    RejectionIsFinal(w, 1, |w|);
    BareWord(before, w, after, conv);
  }

  /** `{}`: an empty Object. */
  lemma EmptyObject(conv: Conversions)
    ensures ParseText(Current, "{}", conv) == Ok(Fresh(Object))
  {
    assert "{}" == "{" + "}";
    FeedAppend(Current, Initial, "{", "}", conv);
    OpenRoot('{', conv);
    CloseEmpty(Tree(Fresh(Object), [[]]), '}', conv);
    ParseTextFeeds(Current, "{}", conv);
  }

  /** `[ a,bc]`: unquoted array elements are Strings. */
  lemma UnquotedElements(conv: Conversions)
    ensures ParseText(Current, "[ a,bc]", conv) == Ok(Pair(OfString("a"), OfString("bc")))
  {
    UnquotedElementsTokens(conv);
    UnquotedElementsText();
    TwoElements(Bare(" a"), Bare("bc"), conv);
  }

  lemma UnquotedElementsTokens(conv: Conversions)
    ensures WellFormed(Bare(" a"), conv) && ValueOf(Bare(" a"), conv) == OfString("a")
    ensures WellFormed(Bare("bc"), conv) && ValueOf(Bare("bc"), conv) == OfString("bc")
  {
    WordA(conv);
    LetterWord([], "bc", [], conv);
    assert [] + "bc" + [] == "bc";
  }

  lemma WordA(conv: Conversions)
    ensures WellFormed(Bare(" a"), conv) && ValueOf(Bare(" a"), conv) == OfString("a")
  {
    LetterWord(" ", "a", [], conv);
    assert " " + "a" + [] == " a";
  }

  lemma UnquotedElementsText()
    ensures "[" + TextOf(Bare(" a")) + "," + TextOf(Bare("bc")) + "]" == "[ a,bc]"
  {
    assert "[" + " a" == "[ a";
    assert "[ a" + "," == "[ a,";
    assert "[ a," + "bc" == "[ a,bc";
  }

  /** `{ "v":s1 s2}`: whitespace inside an unquoted value is kept. */
  lemma UnquotedValueWithSpace(conv: Conversions)
    ensures ParseText(Current, "{ \"v\":s1 s2}", conv) == Ok(Obj("v", OfString("s1 s2")))
  {
    UnquotedValueWithSpaceTokens(conv);
    UnquotedValueWithSpaceText();
    OneMember(Quoted(" ", '"', "v", []), Bare("s1 s2"), conv);
  }

  lemma UnquotedValueWithSpaceTokens(conv: Conversions)
    ensures WellFormed(Bare("s1 s2"), conv) && ValueOf(Bare("s1 s2"), conv) == OfString("s1 s2")
    ensures WellFormed(Quoted(" ", '"', "v", []), conv) && ValueOf(Quoted(" ", '"', "v", []), conv) == OfString("v")
  {
    LetterWord([], "s1 s2", [], conv);
    assert [] + "s1 s2" + [] == "s1 s2";
    KeyV(conv);
  }

  lemma KeyV(conv: Conversions)
    ensures WellFormed(Quoted(" ", '"', "v", []), conv) && ValueOf(Quoted(" ", '"', "v", []), conv) == OfString("v")
  {
  }

  lemma UnquotedValueWithSpaceText()
    ensures "{" + TextOf(Quoted(" ", '"', "v", [])) + ":" + TextOf(Bare("s1 s2")) + "}" == "{ \"v\":s1 s2}"
  {
    assert " " + "\"" + "v" + "\"" + [] == " \"v\"";
    assert "{" + " \"v\"" == "{ \"v\"";
    assert "{ \"v\"" + ":" == "{ \"v\":";
    assert "{ \"v\":" + "s1 s2" == "{ \"v\":s1 s2";
  }

  /** `{ "a" : false }`: a keyword value with whitespace around the key and the value. */
  lemma UntrimmedKeyword(conv: Conversions)
    ensures ParseText(Current, "{ \"a\" : false }", conv) == Ok(Obj("a", OfBool(false)))
  {
    UntrimmedKeywordTokens(conv);
    UntrimmedKeywordText();
    OneMember(Quoted(" ", '"', "a", " "), Bare(" false "), conv);
  }

  lemma UntrimmedKeywordTokens(conv: Conversions)
    ensures WellFormed(Bare(" false "), conv) && ValueOf(Bare(" false "), conv) == OfBool(false)
    ensures WellFormed(Quoted(" ", '"', "a", " "), conv) && ValueOf(Quoted(" ", '"', "a", " "), conv) == OfString("a")
  {
    WordFalse(conv);
    KeyA(conv);
  }

  lemma WordFalse(conv: Conversions)
    ensures WellFormed(Bare(" false "), conv) && ValueOf(Bare(" false "), conv) == OfBool(false)
  {
    BareText(" ", "false", " ");
    assert " " + "false" + " " == " false ";
    RejectionIsFinal("false", 1, 5);
    assert !IsNumberToken("false") && KeywordSwitch("false") == Some(OfBool(false));
    assert Classify(Current, "false", conv) == Ok(OfBool(false));
  }

  lemma KeyA(conv: Conversions)
    ensures WellFormed(Quoted(" ", '"', "a", " "), conv) && ValueOf(Quoted(" ", '"', "a", " "), conv) == OfString("a")
  {
  }

  lemma UntrimmedKeywordText()
    ensures "{" + TextOf(Quoted(" ", '"', "a", " ")) + ":" + TextOf(Bare(" false ")) + "}" == "{ \"a\" : false }"
  {
    assert " " + "\"" + "a" + "\"" + " " == " \"a\" ";
    assert "{" + " \"a\" " == "{ \"a\" ";
    assert "{ \"a\" " + ":" == "{ \"a\" :";
    assert "{ \"a\" :" + " false " == "{ \"a\" : false ";
  }

  /** `{ 'value':'string'}`: single-quoted key and value. */
  lemma SingleQuotedMember(conv: Conversions)
    ensures ParseText(Current, "{ 'value':'string'}", conv) == Ok(Obj("value", OfString("string")))
  {
    var key, value := Quoted(" ", '\'', "value", []), Quoted([], '\'', "string", []);
    SingleQuotedMemberText();
    OneMember(key, value, conv);
  }

  lemma SingleQuotedMemberText()
    ensures "{" + TextOf(Quoted(" ", '\'', "value", [])) + ":" + TextOf(Quoted([], '\'', "string", [])) + "}" == "{ 'value':'string'}"
  {
    assert " " + "'" + "value" + "'" + [] == " 'value'";
    assert [] + "'" + "string" + "'" + [] == "'string'";
    assert "{" + " 'value'" == "{ 'value'";
    assert "{ 'value'" + ":" == "{ 'value':";
    assert "{ 'value':" + "'string'" == "{ 'value':'string'";
  }

  /** `{ "v":'ab"c'}`: a double quote inside a single-quoted string is text. */
  lemma DoubleQuoteInSingleQuotes(conv: Conversions)
    ensures ParseText(Current, "{ \"v\":'ab\"c'}", conv) == Ok(Obj("v", OfString("ab\"c")))
  {
    var key, value := Quoted(" ", '"', "v", []), Quoted([], '\'', "ab\"c", []);
    DoubleQuoteInSingleQuotesText();
    OneMember(key, value, conv);
  }

  lemma DoubleQuoteInSingleQuotesText()
    ensures "{" + TextOf(Quoted(" ", '"', "v", [])) + ":" + TextOf(Quoted([], '\'', "ab\"c", [])) + "}" == "{ \"v\":'ab\"c'}"
  {
    assert " " + "\"" + "v" + "\"" + [] == " \"v\"";
    assert [] + "'" + "ab\"c" + "'" + [] == "'ab\"c'";
    assert "{" + " \"v\"" == "{ \"v\"";
    assert "{ \"v\"" + ":" == "{ \"v\":";
    assert "{ \"v\":" + "'ab\"c'" == "{ \"v\":'ab\"c'";
  }

  /** `{'X':'s`: a value cut off inside its quotes is kept. */
  lemma TruncatedValueInput(conv: Conversions)
    ensures ParseText(Current, "{'X':'s", conv) == Ok(Obj("X", OfString("s")))
  {
    var key := Quoted([], '\'', "X", []);
    assert TextOf(key) == "'X'";
    assert "{" + "'X'" + ":" + ['\''] + "s" == "{'X':'s";
    TruncatedValue(key, '\'', "s", conv);
  }

  /** `{'X`: a key cut off inside its quotes gets an Undefined member. */
  lemma TruncatedKeyInput(conv: Conversions)
    ensures ParseText(Current, "{'X", conv) == Ok(Obj("X", Fresh(Undefined)))
  {
    assert "{" + ['\''] + "X" == "{'X";
    TruncatedKey('\'', "X", conv);
  }

  /** `{ "a":"foo.bar"}#toto`: the text after the closed root is ignored. */
  lemma TrailingCommentInput(conv: Conversions)
    ensures ParseText(Current, "{ \"a\":\"foo.bar\"}#toto", conv) == Ok(Obj("a", OfString("foo.bar")))
  {
    var key, value := Quoted(" ", '"', "a", []), Quoted([], '"', "foo.bar", []);
    var document := "{" + TextOf(key) + ":" + TextOf(value) + "}";
    OneMember(key, value, conv);
    TrailingCommentText();
    TrailingTextIgnored(document, "#toto", conv);
  }

  lemma TrailingCommentText()
    ensures "{" + TextOf(Quoted(" ", '"', "a", [])) + ":" + TextOf(Quoted([], '"', "foo.bar", [])) + "}" + "#toto" == "{ \"a\":\"foo.bar\"}#toto"
    ensures NoClosers("#toto")
  {
    assert " " + "\"" + "a" + "\"" + [] == " \"a\"";
    assert [] + "\"" + "foo.bar" + "\"" + [] == "\"foo.bar\"";
    assert "{" + " \"a\"" == "{ \"a\"";
    assert "{ \"a\"" + ":" == "{ \"a\":";
    assert "{ \"a\":" + "\"foo.bar\"" == "{ \"a\":\"foo.bar\"";
    assert "{ \"a\":\"foo.bar\"" + "}" == "{ \"a\":\"foo.bar\"}";
  }

  /** `{ "v":1}`: a numeric value is the number read from its text. */
  lemma IntValue(conv: Conversions)
    ensures ParseText(Current, "{ \"v\":1}", conv) == Ok(Obj("v", OfNumber(conv.read("1"))))
  {
    KeyV(conv);
    DigitOne(conv);
    IntValueText();
    OneMember(Quoted(" ", '"', "v", []), Bare("1"), conv);
  }

  lemma DigitOne(conv: Conversions)
    ensures WellFormed(Bare("1"), conv) && ValueOf(Bare("1"), conv) == OfNumber(conv.read("1"))
  {
    BareText([], "1", []);
    assert [] + "1" + [] == "1";
    assert IsNumberToken("1");
  }

  lemma IntValueText()
    ensures "{" + TextOf(Quoted(" ", '"', "v", [])) + ":" + TextOf(Bare("1")) + "}" == "{ \"v\":1}"
  {
    assert " " + "\"" + "v" + "\"" + [] == " \"v\"";
    assert "{" + " \"v\"" == "{ \"v\"";
    assert "{ \"v\"" + ":" == "{ \"v\":";
    assert "{ \"v\":" + "1" == "{ \"v\":1";
  }

  /** `{ "v":"1"}`: a quoted number is a String. */
  lemma QuotedNumberValue(conv: Conversions)
    ensures ParseText(Current, "{ \"v\":\"1\"}", conv) == Ok(Obj("v", OfString("1")))
  {
    KeyV(conv);
    assert WellFormed(Quoted([], '"', "1", []), conv);
    QuotedNumberValueText();
    OneMember(Quoted(" ", '"', "v", []), Quoted([], '"', "1", []), conv);
  }

  lemma QuotedNumberValueText()
    ensures "{" + TextOf(Quoted(" ", '"', "v", [])) + ":" + TextOf(Quoted([], '"', "1", [])) + "}" == "{ \"v\":\"1\"}"
  {
    assert " " + "\"" + "v" + "\"" + [] == " \"v\"";
    assert [] + "\"" + "1" + "\"" + [] == "\"1\"";
    assert "{" + " \"v\"" == "{ \"v\"";
    assert "{ \"v\"" + ":" == "{ \"v\":";
    assert "{ \"v\":" + "\"1\"" == "{ \"v\":\"1\"";
  }

  /** `{ "a":null}`: the keyword null. */
  lemma NullValue(conv: Conversions)
    ensures ParseText(Current, "{ \"a\":null}", conv) == Ok(Obj("a", Fresh(Null)))
  {
    KeyANoSpace(conv);
    WordNull(conv);
    NullValueText();
    OneMember(Quoted(" ", '"', "a", []), Bare("null"), conv);
  }

  lemma KeyANoSpace(conv: Conversions)
    ensures WellFormed(Quoted(" ", '"', "a", []), conv) && ValueOf(Quoted(" ", '"', "a", []), conv) == OfString("a")
  {
  }

  lemma WordNull(conv: Conversions)
    ensures WellFormed(Bare("null"), conv) && ValueOf(Bare("null"), conv) == Fresh(Null)
  {
    BareText([], "null", []);
    assert [] + "null" + [] == "null";
    RejectionIsFinal("null", 1, 4);
    assert !IsNumberToken("null") && KeywordSwitch("null") == Some(Fresh(Null));
    assert Classify(Current, "null", conv) == Ok(Fresh(Null));
  }

  lemma NullValueText()
    ensures "{" + TextOf(Quoted(" ", '"', "a", [])) + ":" + TextOf(Bare("null")) + "}" == "{ \"a\":null}"
  {
    assert " " + "\"" + "a" + "\"" + [] == " \"a\"";
    assert "{" + " \"a\"" == "{ \"a\"";
    assert "{ \"a\"" + ":" == "{ \"a\":";
    assert "{ \"a\":" + "null" == "{ \"a\":null";
  }

  /** `{ "a":true}`: the keyword true. */
  lemma TrueValue(conv: Conversions)
    ensures ParseText(Current, "{ \"a\":true}", conv) == Ok(Obj("a", OfBool(true)))
  {
    KeyANoSpace(conv);
    WordTrue(conv);
    TrueValueText();
    OneMember(Quoted(" ", '"', "a", []), Bare("true"), conv);
  }

  lemma WordTrue(conv: Conversions)
    ensures WellFormed(Bare("true"), conv) && ValueOf(Bare("true"), conv) == OfBool(true)
  {
    BareText([], "true", []);
    assert [] + "true" + [] == "true";
    RejectionIsFinal("true", 1, 4);
    assert !IsNumberToken("true") && KeywordSwitch("true") == Some(OfBool(true));
    assert Classify(Current, "true", conv) == Ok(OfBool(true));
  }

  lemma TrueValueText()
    ensures "{" + TextOf(Quoted(" ", '"', "a", [])) + ":" + TextOf(Bare("true")) + "}" == "{ \"a\":true}"
  {
    assert " " + "\"" + "a" + "\"" + [] == " \"a\"";
    assert "{" + " \"a\"" == "{ \"a\"";
    assert "{ \"a\"" + ":" == "{ \"a\":";
    assert "{ \"a\":" + "true" == "{ \"a\":true";
  }

  /** `{ "v":str}`: an unquoted value is a String. */
  lemma UnquotedValue(conv: Conversions)
    ensures ParseText(Current, "{ \"v\":str}", conv) == Ok(Obj("v", OfString("str")))
  {
    KeyV(conv);
    LetterWord([], "str", [], conv);
    assert [] + "str" + [] == "str";
    UnquotedValueText();
    OneMember(Quoted(" ", '"', "v", []), Bare("str"), conv);
  }

  lemma UnquotedValueText()
    ensures "{" + TextOf(Quoted(" ", '"', "v", [])) + ":" + TextOf(Bare("str")) + "}" == "{ \"v\":str}"
  {
    assert " " + "\"" + "v" + "\"" + [] == " \"v\"";
    assert "{" + " \"v\"" == "{ \"v\"";
    assert "{ \"v\"" + ":" == "{ \"v\":";
    assert "{ \"v\":" + "str" == "{ \"v\":str";
  }

  /** `{v:15-55}`: an unquoted key, and a value that starts like a number but is not one, is a String. */
  lemma NumberLikeValue(conv: Conversions)
    ensures ParseText(Current, "{v:15-55}", conv) == Ok(Obj("v", OfString("15-55")))
  {
    LetterWord([], "v", [], conv);
    assert [] + "v" + [] == "v";
    WordNumberLike(conv);
    NumberLikeValueText();
    OneMember(Bare("v"), Bare("15-55"), conv);
  }

  lemma NumberLikeValueText()
    ensures "{" + TextOf(Bare("v")) + ":" + TextOf(Bare("15-55")) + "}" == "{v:15-55}"
  {
    assert "{" + "v" == "{v";
    assert "{v" + ":" == "{v:";
    assert "{v:" + "15-55" == "{v:15-55";
  }

  lemma WordNumberLike(conv: Conversions)
    ensures WellFormed(Bare("15-55"), conv) && ValueOf(Bare("15-55"), conv) == OfString("15-55")
  {
    assert NumberStateAfter("15-55", 3) == 0;
    RejectionIsFinal("15-55", 3, 5);
    BareWord([], "15-55", [], conv);
    assert [] + "15-55" + [] == "15-55";
  }
}
