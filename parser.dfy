/**
 * The single-pass parsers: `parser::parse` of include/jsonpp/parser.h (Current), the same loop
 * in include/json++/parser.h (Earlier) and `Parse::operator()` of include/JSON++.h (Earliest).
 *
 * The source builds the tree through a stack of pointers to the values still being filled in.
 * Here the tree is a Value and each destination is a path: the child positions leading from
 * the root to it. StackValid states why this is faithful: the destinations always form a chain
 * from the root, each the one below it plus one child, and each exists in the tree; only the
 * top one is ever changed.
 */
module Parser {
  import opened Outcomes
  import opened JsonValue
  import opened Literal
  import EarlyValue

  datatype Version = Current | Earlier | Earliest

  type Path = seq<nat>

  /**
   * The conversions the parsers leave to the C++ library: number to text (a key made from a
   * Number), text to number (`stream >> v`) and the hexadecimal read of a `\u` window.
   */
  datatype Conversions = Conversions(show: NumberShow, read: string -> Numeric, hexRead: HexRead)

  /** The tree under construction and the destinations stack. */
  datatype Tree = Tree(root: Value, stack: seq<Path>)

  /** Everything the scanning loop keeps: the tree and stack, the literal, the quote flags and the escape counter. */
  datatype Scan = Scan(tree: Tree, literal: string, doubleString: bool, singleString: bool, escape: nat)

  // ---------------------------------------------------------------------------------------
  // Paths

  /** Every position on the path exists. */
  predicate ValidPath(v: Value, p: Path)
    decreases |p|
  {
    p == [] || (p[0] < |v.children| && ValidPath(v.children[p[0]].value, p[1..]))
  }

  /** The value a path leads to (a fresh Undefined when it leads nowhere). */
  function At(v: Value, p: Path): Value
    decreases |p|
  {
    if p == [] then v
    else if p[0] < |v.children| then At(v.children[p[0]].value, p[1..])
    else Fresh(Undefined)
  }

  /** The tree with the value at the path replaced by x (unchanged when the path leads nowhere). */
  function ReplaceAt(v: Value, p: Path, x: Value): Value
    decreases |p|
  {
    if p == [] then x
    else if p[0] < |v.children| then
      v.(children := v.children[p[0] := Member(v.children[p[0]].key, ReplaceAt(v.children[p[0]].value, p[1..], x))])
    else v
  }

  /** Writing through a valid path, then reading it, gives what was written. */
  lemma {:induction false} AtReplaceAt(v: Value, p: Path, x: Value)
    requires ValidPath(v, p)
    ensures At(ReplaceAt(v, p, x), p) == x
    decreases |p|
  {
    if p != [] {
      AtReplaceAt(v.children[p[0]].value, p[1..], x);
    }
  }

  /** Writing through a path keeps every prefix of it valid. */
  lemma {:induction false} ReplaceAtKeepsPrefixes(v: Value, p: Path, x: Value, n: nat)
    requires ValidPath(v, p) && n <= |p|
    ensures ValidPath(ReplaceAt(v, p, x), p[..n])
    decreases |p|
  {
    if n > 0 {
      ReplaceAtKeepsPrefixes(v.children[p[0]].value, p[1..], x, n - 1);
      assert p[..n][1..] == p[1..][..n - 1];
    }
  }

  /** A valid path extended by a position below the value it leads to is valid. */
  lemma {:induction false} ValidPathExtends(v: Value, p: Path, i: nat)
    requires ValidPath(v, p) && i < |At(v, p).children|
    ensures ValidPath(v, p + [i]) && At(v, p + [i]) == At(v, p).children[i].value
    decreases |p|
  {
    if p != [] {
      ValidPathExtends(v.children[p[0]].value, p[1..], i);
      assert (p + [i])[1..] == p[1..] + [i];
    }
  }

  /**
   * The destinations form a chain from the root: the k-th is a path of length k and a prefix
   * of the top one, and the top one exists in the tree.
   */
  predicate StackValid(t: Tree)
  {
    (forall k | 0 <= k < |t.stack| :: |t.stack[k]| == k && t.stack[k] <= t.stack[|t.stack| - 1]) &&
    (t.stack != [] ==> ValidPath(t.root, t.stack[|t.stack| - 1]))
  }

  /** Dropping the top of a chain leaves a chain. */
  lemma PopKeepsStackValid(t: Tree)
    requires StackValid(t) && t.stack != []
    ensures StackValid(t.(stack := t.stack[..|t.stack| - 1]))
  {
    var n := |t.stack|;
    if n > 1 {
      var top := t.stack[n - 1];
      assert t.stack[n - 2] == top[..n - 2];
      PathPrefixValid(t.root, top, n - 2);
      forall k | 0 <= k < n - 1
        ensures t.stack[k] <= t.stack[n - 2]
      {
        assert t.stack[k] == top[..k];
      }
    }
  }

  /** Prefixes of a valid path are valid. */
  lemma {:induction false} PathPrefixValid(v: Value, p: Path, n: nat)
    requires ValidPath(v, p) && n <= |p|
    ensures ValidPath(v, p[..n])
    decreases |p|
  {
    if n > 0 {
      PathPrefixValid(v.children[p[0]].value, p[1..], n - 1);
      assert p[..n][1..] == p[1..][..n - 1];
    }
  }

  // ---------------------------------------------------------------------------------------
  // add(destinations, item)

  /**
   * add(destinations, item). An empty stack: no effect (a bare `throw;` in the earliest
   * version). A scalar top is replaced by item and popped unless item is a container; an Object
   * top gets the slot keyed by item's text pushed; an Array top gets item appended, pushed when
   * it is a container.
   */
  function AddItem(version: Version, tree: Tree, item: Value, show: NumberShow): (r: Result<Tree, ParseError>)
    ensures tree.stack == [] ==> r == if version == Earliest then Err(Terminate) else Ok(tree)
    ensures tree.stack != [] ==> r.Ok?
  {
    if tree.stack == [] then (if version == Earliest then Err(Terminate) else Ok(tree))
    else
      var top := tree.stack[|tree.stack| - 1];
      var dest := At(tree.root, top);
      if dest.tag == Object then
        var access := KeyAccess(dest, ToText(item, show));
        Ok(Tree(ReplaceAt(tree.root, top, access.0), tree.stack + [top + [access.1]]))
      else if dest.tag == Array then
        var grown := if version == Earliest then EarlyValue.PushedCopy(dest, item) else Pushed(dest, item);
        var stack := if IsContainer(item) then tree.stack + [top + [|grown.children| - 1]] else tree.stack;
        Ok(Tree(ReplaceAt(tree.root, top, grown), stack))
      else
        Ok(Tree(ReplaceAt(tree.root, top, item), if IsContainer(item) then tree.stack else tree.stack[..|tree.stack| - 1]))
  }

  /** The top of a valid stack stays a valid path when the value it leads to is replaced. */
  lemma ReplaceTop(tree: Tree, x: Value)
    requires StackValid(tree) && tree.stack != []
    ensures var top := tree.stack[|tree.stack| - 1];
      ValidPath(ReplaceAt(tree.root, top, x), top) && At(ReplaceAt(tree.root, top, x), top) == x &&
      StackValid(Tree(ReplaceAt(tree.root, top, x), tree.stack))
  {
    var top := tree.stack[|tree.stack| - 1];
    AtReplaceAt(tree.root, top, x);
    ReplaceAtKeepsPrefixes(tree.root, top, x, |top|);
    assert top[..|top|] == top;
  }

  /** add(item) on a scalar top: the item takes its place, and the top is popped unless the item is a container. */
  lemma AddItemToScalar(version: Version, tree: Tree, item: Value, show: NumberShow)
    requires StackValid(tree) && tree.stack != [] && !IsContainer(At(tree.root, tree.stack[|tree.stack| - 1]))
    ensures var top := tree.stack[|tree.stack| - 1];
      var r := AddItem(version, tree, item, show).value;
      StackValid(r) && At(r.root, top) == item &&
      r.stack == if IsContainer(item) then tree.stack else tree.stack[..|tree.stack| - 1]
  {
    var top := tree.stack[|tree.stack| - 1];
    ReplaceTop(tree, item);
    if !IsContainer(item) {
      PopKeepsStackValid(Tree(ReplaceAt(tree.root, top, item), tree.stack));
    }
  }

  /** add(item) on an Object top: the slot keyed by the item's text is created if missing and becomes the new top. */
  lemma AddItemToObject(version: Version, tree: Tree, item: Value, show: NumberShow)
    requires StackValid(tree) && tree.stack != [] && At(tree.root, tree.stack[|tree.stack| - 1]).tag == Object
    ensures var top := tree.stack[|tree.stack| - 1];
      var access := KeyAccess(At(tree.root, top), ToText(item, show));
      var r := AddItem(version, tree, item, show).value;
      StackValid(r) && At(r.root, top) == access.0 && r.stack == tree.stack + [top + [access.1]] &&
      At(r.root, top + [access.1]) == access.0.children[access.1].value
  {
    var top := tree.stack[|tree.stack| - 1];
    var access := KeyAccess(At(tree.root, top), ToText(item, show));
    var r := AddItem(version, tree, item, show).value;
    ReplaceTop(tree, access.0);
    ValidPathExtends(r.root, top, access.1);
    StackGrows(tree, r, access.1);
  }

  /** add(item) on an Array top: the item is appended, and becomes the new top when it is a container. */
  lemma AddItemToArray(version: Version, tree: Tree, item: Value, show: NumberShow)
    requires StackValid(tree) && tree.stack != [] && version != Earliest
    requires At(tree.root, tree.stack[|tree.stack| - 1]).tag == Array
    ensures var top := tree.stack[|tree.stack| - 1];
      var dest := At(tree.root, top);
      var r := AddItem(version, tree, item, show).value;
      StackValid(r) && At(r.root, top) == Pushed(dest, item) &&
      r.stack == (if IsContainer(item) then tree.stack + [top + [|dest.children|]] else tree.stack) &&
      At(r.root, top + [|dest.children|]) == item
  {
    var top := tree.stack[|tree.stack| - 1];
    var dest := At(tree.root, top);
    var r := AddItem(version, tree, item, show).value;
    ReplaceTop(tree, Pushed(dest, item));
    ValidPathExtends(r.root, top, |dest.children|);
    if IsContainer(item) {
      StackGrows(tree, r, |dest.children|);
    }
  }

  /** add(item) keeps the destinations a chain of existing values (in every version). */
  lemma AddItemKeepsStackValid(version: Version, tree: Tree, item: Value, show: NumberShow)
    requires StackValid(tree)
    ensures AddItem(version, tree, item, show).Ok? ==> StackValid(AddItem(version, tree, item, show).value)
  {
    if tree.stack != [] {
      var top := tree.stack[|tree.stack| - 1];
      var dest := At(tree.root, top);
      if dest.tag == Object {
        AddItemToObject(version, tree, item, show);
      } else if dest.tag == Array {
        var grown := if version == Earliest then EarlyValue.PushedCopy(dest, item) else Pushed(dest, item);
        var r := AddItem(version, tree, item, show).value;
        ReplaceTop(tree, grown);
        if IsContainer(item) {
          ValidPathExtends(r.root, top, |grown.children| - 1);
          StackGrows(tree, r, |grown.children| - 1);
        }
      } else {
        AddItemToScalar(version, tree, item, show);
      }
    }
  }

  /** Pushing the top's child position i onto a chain gives a chain. */
  lemma StackGrows(tree: Tree, r: Tree, i: nat)
    requires StackValid(tree) && tree.stack != []
    requires var top := tree.stack[|tree.stack| - 1]; r.stack == tree.stack + [top + [i]] && ValidPath(r.root, top + [i])
    ensures StackValid(r)
  {
    var top := tree.stack[|tree.stack| - 1];
    var n := |tree.stack|;
    forall k | 0 <= k < |r.stack|
      ensures |r.stack[k]| == k && r.stack[k] == r.stack[n][..k]
    {
      if k < n {
        assert r.stack[n][..k] == top[..k];
      }
    }
  }

  // ---------------------------------------------------------------------------------------
  // add(destinations, string)

  /**
   * The value a trimmed, non-empty literal stands for: a number if the recogniser accepts it,
   * then a keyword, otherwise a String of the quote-stripped text, decoded except in the earliest
   * version.
   */
  function Classify(version: Version, t: string, conv: Conversions): (r: Result<Value, ParseError>)
    requires t != []
    ensures IsNumberToken(t) ==> r == Ok(OfNumber(conv.read(t)))
    ensures r.Err? <==> !IsNumberToken(t) && Keyword(version, t).None? && |t| == 1 && IsQuote(t[0])
    ensures r.Ok? ==> r.value.children == [] && !IsContainer(r.value)
  {
    if IsNumberToken(t) then Ok(OfNumber(conv.read(t)))
    else
      var keyword := Keyword(version, t);
      if keyword.Some? then Ok(keyword.value)
      else
        var stripped :- StripQuotes(t);
        Ok(OfString(if version == Earliest then stripped else Unescape(stripped, conv.hexRead)))
  }

  /** The keyword test of each version: the length switch, or whole-token equality. */
  function Keyword(version: Version, t: string): (r: Option<Value>)
    ensures r.Some? ==> r.value.children == [] && !IsContainer(r.value)
  {
    if version == Current then KeywordSwitch(t) else KeywordExact(t)
  }

  /**
   * add(destinations, string): on an empty stack nothing (a bare `throw;` in the earliest
   * version); an all-whitespace literal adds nothing; otherwise the classified value is routed.
   */
  function AddLiteral(version: Version, tree: Tree, literal: string, conv: Conversions): (r: Result<Tree, ParseError>)
    ensures tree.stack == [] ==> r == if version == Earliest then Err(Terminate) else Ok(tree)
    ensures tree.stack != [] && Trim(literal) == [] ==> r == Ok(tree)
  {
    if tree.stack == [] then (if version == Earliest then Err(Terminate) else Ok(tree))
    else
      var t := Trim(literal);
      if t == [] then Ok(tree)
      else
        var item :- Classify(version, t, conv);
        AddItem(version, tree, item, conv.show)
  }

  /** add(string) keeps the destinations a chain of existing values. */
  lemma AddLiteralKeepsStackValid(version: Version, tree: Tree, literal: string, conv: Conversions)
    requires StackValid(tree) && AddLiteral(version, tree, literal, conv).Ok?
    ensures StackValid(AddLiteral(version, tree, literal, conv).value)
  {
    if tree.stack != [] && Trim(literal) != [] {
      var item := Classify(version, Trim(literal), conv).value;
      AddItemKeepsStackValid(version, tree, item, conv.show);
    }
  }

  /** add(string) as the source writes it: trimming loop, recogniser loop, keyword tests, quote skipping, decoding loop. */
  method AddString(version: Version, tree: Tree, literal: string, conv: Conversions) returns (r: Result<Tree, ParseError>)
    ensures r == AddLiteral(version, tree, literal, conv)
  {
    if tree.stack == [] {
      return if version == Earliest then Err(Terminate) else Ok(tree);
    }
    var start, end := TrimBounds(literal);
    if start == end {
      return Ok(tree);
    }
    var item :- ClassifyToken(version, literal[start..end], conv);
    r := AddItem(version, tree, item, conv.show);
  }

  /** The classification of a trimmed token: the recogniser loop, the keyword tests, quote skipping and the decoding loop. */
  method ClassifyToken(version: Version, token: string, conv: Conversions) returns (r: Result<Value, ParseError>)
    requires token != []
    ensures r == Classify(version, token, conv)
  {
    var state := RecogniseNumber(token);
    if state != 0 {
      return Ok(OfNumber(conv.read(token)));
    }
    var keyword := Keyword(version, token);
    if keyword.Some? {
      return Ok(keyword.value);
    }
    var from := if IsQuote(token[0]) then 1 else 0;
    var to := if IsQuote(token[|token| - 1]) then |token| - 1 else |token|;
    if to < from {
      return Err(LengthError);
    }
    var text := token[from..to];
    if version != Earliest {
      text := DecodeEscapes(text, conv.hexRead);
    }
    r := Ok(OfString(text));
  }

  // ---------------------------------------------------------------------------------------
  // The scanning loop

  /** The characters with a structural meaning outside quotes. */
  predicate IsStructural(c: char)
  {
    c == '{' || c == '}' || c == '[' || c == ']' || c == ':' || c == ','
  }

  /** One tick of the escape window at the end of each turn. */
  function Tick(escape: nat): nat
  {
    if escape > 0 then escape - 1 else 0
  }

  /**
   * What a structural character does outside quotes: `{`/`[` add a fresh container; `}`/`]`
   * flush a pending literal, then pop (an error on an empty stack); `:` adds the literal even
   * when it is empty; `,` flushes a pending literal.
   */
  function Structural(version: Version, tree: Tree, literal: string, c: char, conv: Conversions): Result<Tree, ParseError>
    requires IsStructural(c)
  {
    if c == '{' || c == '[' then AddItem(version, tree, Fresh(if c == '{' then Object else Array), conv.show)
    else if c == '}' || c == ']' then
      var flushed :- if literal != [] then AddLiteral(version, tree, literal, conv) else Ok(tree);
      if flushed.stack == [] then Err(if version == Earliest then Terminate else EmptyArray)
      else Ok(flushed.(stack := flushed.stack[..|flushed.stack| - 1]))
    else if c == ':' then AddLiteral(version, tree, literal, conv)
    else if literal != [] then AddLiteral(version, tree, literal, conv)
    else Ok(tree)
  }

  /** The size of the earliest version's literal buffer. */
  const LiteralCapacity: nat := 1024

  /**
   * One turn of the scanning loop. A structural character outside quotes acts and clears the
   * literal; every other character is saved into it. A double quote toggles its flag unless an
   * escape is pending or a single-quoted string is open, and symmetrically; a backslash opens a
   * two-turn escape window (not in the earliest version).
   */
  function Step(version: Version, s: Scan, c: char, conv: Conversions): Result<Scan, ParseError>
  {
    if IsStructural(c) && !s.doubleString && !s.singleString then
      var tree :- Structural(version, s.tree, s.literal, c, conv);
      Ok(Scan(tree, [], s.doubleString, s.singleString, Tick(s.escape)))
    else
      var doubleString := if c == '"' && s.escape == 0 && !s.singleString then !s.doubleString else s.doubleString;
      var singleString := if c == '\'' && s.escape == 0 && !s.doubleString then !s.singleString else s.singleString;
      var escape := if c == '\\' && s.escape == 0 && version != Earliest then 2 else s.escape;
      if version == Earliest && |s.literal| >= LiteralCapacity then Err(LiteralOverrun)
      else Ok(Scan(s.tree, s.literal + [c], doubleString, singleString, Tick(escape)))
  }

  /** The state before the first character: an Undefined root as the only destination. */
  const Initial: Scan := Scan(Tree(Fresh(Undefined), [[]]), [], false, false, 0)

  /** The state after the first n characters. */
  function Run(version: Version, s: string, conv: Conversions, n: nat): Result<Scan, ParseError>
    requires n <= |s|
  {
    if n == 0 then Ok(Initial)
    else
      var prev :- Run(version, s, conv, n - 1);
      Step(version, prev, s[n - 1], conv)
  }

  /** After the loop: a pending literal is flushed (the earliest version skips it on an empty stack) and the root returned. */
  function Finish(version: Version, scan: Scan, conv: Conversions): Result<Value, ParseError>
  {
    var tree :- if scan.literal != [] && (version != Earliest || scan.tree.stack != [])
      then AddLiteral(version, scan.tree, scan.literal, conv)
      else Ok(scan.tree);
    Ok(tree.root)
  }

  /** The parse of a whole text. */
  function ParseText(version: Version, s: string, conv: Conversions): Result<Value, ParseError>
  {
    var scan :- Run(version, s, conv, |s|);
    Finish(version, scan, conv)
  }

  /** One more character: the state after i + 1 characters is one Step from the state after i. */
  lemma RunNext(version: Version, s: string, conv: Conversions, i: nat, scan: Scan)
    requires i < |s| && Run(version, s, conv, i) == Ok(scan)
    ensures Run(version, s, conv, i + 1) == Step(version, scan, s[i], conv)
  {
  }

  /** An error ends the parse: later characters cannot undo it. */
  lemma {:induction false} ErrorIsFinal(version: Version, s: string, conv: Conversions, m: nat, n: nat)
    requires m <= n <= |s| && Run(version, s, conv, m).Err?
    ensures Run(version, s, conv, n) == Run(version, s, conv, m)
    decreases n - m
  {
    if m < n {
      ErrorIsFinal(version, s, conv, m, n - 1);
    }
  }

  /** The state reached by feeding the characters of t to the loop, one Step each, starting from scan. */
  function Feed(version: Version, scan: Scan, t: string, conv: Conversions): Result<Scan, ParseError>
    decreases |t|
  {
    if t == [] then Ok(scan)
    else
      var next :- Step(version, scan, t[0], conv);
      Feed(version, next, t[1..], conv)
  }

  /** The rest of the text continues the run from any point it reached. */
  lemma {:induction false} RunThenFeed(version: Version, s: string, conv: Conversions, n: nat)
    requires n <= |s| && Run(version, s, conv, n).Ok?
    ensures Run(version, s, conv, |s|) == Feed(version, Run(version, s, conv, n).value, s[n..], conv)
    decreases |s| - n
  {
    if n < |s| {
      var scan := Run(version, s, conv, n).value;
      assert s[n..][0] == s[n] && s[n..][1..] == s[n + 1..];
      RunNext(version, s, conv, n, scan);
      var step := Step(version, scan, s[n], conv);
      assert Feed(version, scan, s[n..], conv) == (var next :- step; Feed(version, next, s[n + 1..], conv));
      if step.Ok? {
        RunThenFeed(version, s, conv, n + 1);
        assert Feed(version, scan, s[n..], conv) == Feed(version, step.value, s[n + 1..], conv);
      } else {
        ErrorIsFinal(version, s, conv, n + 1, |s|);
        assert Feed(version, scan, s[n..], conv) == Err(step.error);
      }
    } else {
      assert s[n..] == [];
    }
  }

  /** The parse of a text is its characters fed to the loop from the initial state, then the final flush. */
  lemma ParseTextFeeds(version: Version, s: string, conv: Conversions)
    ensures ParseText(version, s, conv) == (var scan :- Feed(version, Initial, s, conv); Finish(version, scan, conv))
  {
    RunThenFeed(version, s, conv, 0);
    assert s[0..] == s;
  }

  /** Every turn keeps the destinations a chain of existing values. */
  lemma StepKeepsStackValid(version: Version, s: Scan, c: char, conv: Conversions)
    requires StackValid(s.tree) && Step(version, s, c, conv).Ok?
    ensures StackValid(Step(version, s, c, conv).value.tree)
  {
    if IsStructural(c) && !s.doubleString && !s.singleString {
      var tree := s.tree;
      if c == '{' || c == '[' {
        if tree.stack != [] {
          AddItemKeepsStackValid(version, tree, Fresh(if c == '{' then Object else Array), conv.show);
        }
      } else if c == '}' || c == ']' {
        if s.literal != [] {
          AddLiteralKeepsStackValid(version, tree, s.literal, conv);
          tree := AddLiteral(version, tree, s.literal, conv).value;
        }
        PopKeepsStackValid(tree);
      } else if c == ':' || s.literal != [] {
        AddLiteralKeepsStackValid(version, tree, s.literal, conv);
      }
    }
  }

  /** Throughout the parse the destinations are a chain of values that exist in the tree. */
  lemma {:induction false} RunKeepsStackValid(version: Version, s: string, conv: Conversions, n: nat)
    requires n <= |s| && Run(version, s, conv, n).Ok?
    ensures StackValid(Run(version, s, conv, n).value.tree)
  {
    if n > 0 {
      RunKeepsStackValid(version, s, conv, n - 1);
      StepKeepsStackValid(version, Run(version, s, conv, n - 1).value, s[n - 1], conv);
    }
  }

  // ---------------------------------------------------------------------------------------
  // What the scanning loop promises

  /** A unit that is neither a quote nor a backslash, and not structural unless inside quotes, is saved into the literal and nothing else changes. */
  lemma OrdinaryUnitIsSaved(version: Version, s: Scan, c: char, conv: Conversions)
    requires !IsQuote(c) && c != '\\' && (!IsStructural(c) || s.doubleString || s.singleString)
    ensures Step(version, s, c, conv) ==
      if version == Earliest && |s.literal| >= LiteralCapacity then Err(LiteralOverrun)
      else Ok(s.(literal := s.literal + [c], escape := Tick(s.escape)))
  {
  }

  /** A unit the loop only saves: no quote, no backslash, and not structural unless a string is open. */
  predicate IsOrdinary(c: char, quoted: bool)
  {
    !IsQuote(c) && c != '\\' && (!IsStructural(c) || quoted)
  }

  /** A run of ordinary units (no escape pending) only grows the literal by exactly those units. */
  lemma {:induction false} FeedOrdinary(version: Version, scan: Scan, p: string, conv: Conversions)
    requires version != Earliest && scan.escape == 0
    requires forall i | 0 <= i < |p| :: IsOrdinary(p[i], scan.doubleString || scan.singleString)
    ensures Feed(version, scan, p, conv) == Ok(scan.(literal := scan.literal + p))
    decreases |p|
  {
    if p == [] {
      assert scan.literal + p == scan.literal;
    } else {
      OrdinaryUnitIsSaved(version, scan, p[0], conv);
      var next := scan.(literal := scan.literal + [p[0]]);
      FeedOrdinary(version, next, p[1..], conv);
      assert next.literal + p[1..] == scan.literal + p;
    }
  }

  /** Inside an open string, every unit but its own quote and the backslash is saved, structural or not. */
  lemma {:induction false} FeedInsideString(version: Version, scan: Scan, p: string, conv: Conversions)
    requires version != Earliest && scan.escape == 0 && scan.doubleString != scan.singleString
    requires forall i | 0 <= i < |p| :: p[i] != '\\' && p[i] != (if scan.doubleString then '"' else '\'')
    ensures Feed(version, scan, p, conv) == Ok(scan.(literal := scan.literal + p))
    decreases |p|
  {
    if p == [] {
      assert scan.literal + p == scan.literal;
    } else {
      var next := scan.(literal := scan.literal + [p[0]]);
      assert Step(version, scan, p[0], conv) == Ok(next);
      FeedInsideString(version, next, p[1..], conv);
      assert next.literal + p[1..] == scan.literal + p;
    }
  }

  /** Feeding two pieces one after the other is feeding them together. */
  lemma {:induction false} FeedAppend(version: Version, scan: Scan, a: string, b: string, conv: Conversions)
    ensures Feed(version, scan, a + b, conv) == (var middle :- Feed(version, scan, a, conv); Feed(version, middle, b, conv))
    decreases |a|
  {
    if a == [] {
      assert a + b == b;
    } else {
      assert (a + b)[0] == a[0] && (a + b)[1..] == a[1..] + b;
      var next := Step(version, scan, a[0], conv);
      if next.Ok? {
        FeedAppend(version, next.value, a[1..], b, conv);
      }
    }
  }

  /** Inside a double-quoted string, a backslash followed by a double quote does not close it (except in the earliest version, which has no escape handling). */
  lemma EscapedQuoteStaysOpen(version: Version, s: Scan, conv: Conversions)
    requires s.doubleString && !s.singleString && s.escape == 0
    requires version == Earliest ==> |s.literal| + 2 <= LiteralCapacity
    ensures var first := Step(version, s, '\\', conv);
      first.Ok? && Step(version, first.value, '"', conv) ==
        Ok(s.(literal := s.literal + ['\\', '"'], doubleString := version != Earliest))
  {
    var first := Step(version, s, '\\', conv).value;
    assert first == s.(literal := s.literal + ['\\'], escape := if version == Earliest then 0 else 1);
    assert s.literal + ['\\'] + ['"'] == s.literal + ['\\', '"'];
  }

  /** The other kind of quote inside a quoted string is plain text: it is saved and no flag changes. */
  lemma OtherQuoteIsText(version: Version, s: Scan, c: char, conv: Conversions)
    requires (c == '\'' && s.doubleString) || (c == '"' && s.singleString)
    ensures Step(version, s, c, conv) ==
      if version == Earliest && |s.literal| >= LiteralCapacity then Err(LiteralOverrun)
      else Ok(s.(literal := s.literal + [c], escape := Tick(s.escape)))
  {
  }

  /** A quote of either kind opens or closes its string when no escape is pending and the other kind is not open; it is kept in the literal. */
  lemma QuoteToggles(version: Version, s: Scan, c: char, conv: Conversions)
    requires IsQuote(c) && s.escape == 0 && (if c == '"' then !s.singleString else !s.doubleString)
    requires version == Earliest ==> |s.literal| < LiteralCapacity
    ensures Step(version, s, c, conv) == Ok(if c == '"' then s.(literal := s.literal + [c], doubleString := !s.doubleString)
      else s.(literal := s.literal + [c], singleString := !s.singleString))
  {
  }

  /** A closing bracket outside quotes with no destination left is an error ("empty array"; a bare rethrow in the earliest version). */
  lemma CloseWithoutDestination(version: Version, s: Scan, c: char, conv: Conversions)
    requires (c == '}' || c == ']') && !s.doubleString && !s.singleString && s.tree.stack == []
    ensures Step(version, s, c, conv) == Err(if version == Earliest then Terminate else EmptyArray)
  {
  }

  /** Once the stack is empty, anything but a closing bracket outside quotes leaves the tree alone (later versions). */
  lemma FinishedDocumentIgnoresText(version: Version, s: Scan, c: char, conv: Conversions)
    requires version != Earliest && s.tree.stack == []
    requires !(c == '}' || c == ']') || s.doubleString || s.singleString
    ensures Step(version, s, c, conv).Ok? && Step(version, s, c, conv).value.tree == s.tree
    ensures Finish(version, s, conv) == Ok(s.tree.root)
  {
  }

  /** A literal that is only whitespace adds nothing, not even at `:`. */
  lemma BlankLiteralAddsNothing(version: Version, tree: Tree, literal: string, conv: Conversions)
    requires tree.stack != [] && forall i | 0 <= i < |literal| :: IsSpace(literal[i])
    ensures AddLiteral(version, tree, literal, conv) == Ok(tree)
  {
  }

  // ---------------------------------------------------------------------------------------
  // The loops

  /** The structural branches of the loop's switch, as the source writes them. */
  method StructuralStep(version: Version, tree: Tree, literal: string, c: char, conv: Conversions) returns (next: Result<Tree, ParseError>)
    requires IsStructural(c)
    ensures next == Structural(version, tree, literal, c, conv)
  {
    if c == '{' || c == '[' {
      next := AddItem(version, tree, Fresh(if c == '{' then Object else Array), conv.show);
    } else if c == '}' || c == ']' {
      next := Ok(tree);
      if literal != [] {
        next := AddString(version, tree, literal, conv);
      }
      if next.Ok? {
        if next.value.stack == [] {
          next := Err(if version == Earliest then Terminate else EmptyArray);
        } else {
          next := Ok(next.value.(stack := next.value.stack[..|next.value.stack| - 1]));
        }
      }
    } else if c == ':' || literal != [] {
      next := AddString(version, tree, literal, conv);
    } else {
      next := Ok(tree);
    }
  }

  /** parser::parse of include/jsonpp/parser.h and include/json++/parser.h. */
  method Parse(version: Version, s: string, conv: Conversions) returns (r: Result<Value, ParseError>)
    requires version != Earliest
    ensures r == ParseText(version, s, conv)
  {
    var tree := Initial.tree;
    var literal: string := [];
    var doubleString, singleString := false, false;
    var escape: nat := 0;
    var i := 0;
    while i != |s|
      invariant i <= |s|
      invariant Run(version, s, conv, i) == Ok(Scan(tree, literal, doubleString, singleString, escape))
      decreases |s| - i
    {
      var c := s[i];
      RunNext(version, s, conv, i, Scan(tree, literal, doubleString, singleString, escape));
      if IsStructural(c) && !doubleString && !singleString {
        var next := StructuralStep(version, tree, literal, c, conv);
        if next.Err? {
          ErrorIsFinal(version, s, conv, i + 1, |s|);
          return Err(next.error);
        }
        tree, literal := next.value, [];
      } else {
        if c == '"' {
          if escape == 0 && !singleString {
            doubleString := !doubleString;
          }
        } else if c == '\'' {
          if escape == 0 && !doubleString {
            singleString := !singleString;
          }
        } else if c == '\\' {
          if escape == 0 {
            escape := 2;
          }
        }
        literal := literal + [c];
      }
      if escape > 0 {
        escape := escape - 1;
      }
      i := i + 1;
    }
    if literal != [] {
      var flushed := AddString(version, tree, literal, conv);
      if flushed.Err? {
        return Err(flushed.error);
      }
      tree := flushed.value;
    }
    r := Ok(tree.root);
  }

  /** Parse::operator() of include/JSON++.h: the literal lives in a fixed buffer of 1024 units. */
  method ParseEarliest(s: string, conv: Conversions) returns (r: Result<Value, ParseError>)
    ensures r == ParseText(Earliest, s, conv)
  {
    var tree := Initial.tree;
    var literal := new char[LiteralCapacity];
    var literalEnd := 0;
    var doubleString, singleString := false, false;
    var i := 0;
    while i != |s|
      invariant i <= |s| && literalEnd <= LiteralCapacity
      invariant Run(Earliest, s, conv, i) == Ok(Scan(tree, literal[..literalEnd], doubleString, singleString, 0))
      decreases |s| - i
    {
      var c := s[i];
      RunNext(Earliest, s, conv, i, Scan(tree, literal[..literalEnd], doubleString, singleString, 0));
      if IsStructural(c) && !doubleString && !singleString {
        var next := StructuralStep(Earliest, tree, literal[..literalEnd], c, conv);
        if next.Err? {
          ErrorIsFinal(Earliest, s, conv, i + 1, |s|);
          return Err(next.error);
        }
        tree, literalEnd := next.value, 0;
      } else {
        if c == '"' && !singleString {
          doubleString := !doubleString;
        } else if c == '\'' && !doubleString {
          singleString := !singleString;
        }
        if literalEnd == LiteralCapacity {
          ErrorIsFinal(Earliest, s, conv, i + 1, |s|);
          return Err(LiteralOverrun);
        }
        ghost var before := literal[..literalEnd];
        literal[literalEnd] := c;
        literalEnd := literalEnd + 1;
        assert literal[..literalEnd] == before + [c];
      }
      i := i + 1;
    }
    if literalEnd != 0 && tree.stack != [] {
      var flushed := AddString(Earliest, tree, literal[..literalEnd], conv);
      if flushed.Err? {
        return Err(flushed.error);
      }
      tree := flushed.value;
    }
    r := Ok(tree.root);
  }
}
