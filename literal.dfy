/**
 * What `add(destinations, string)` of the parsers does with one literal before it routes the
 * value (include/jsonpp/parser.h, include/json++/parser.h and `Parse` in include/JSON++.h):
 * whitespace trimming, the six-state number recogniser, the keywords, quote stripping and the
 * escape decoder with its `\uXXXX` re-encoding.
 */
module Literal {
  import opened Outcomes
  import opened Unicode
  import opened JsonValue

  /** The ways a parse ends without a value. */
  datatype ParseError =
    | EmptyArray      // `throw "empty array"`: a closing bracket with no destination left
    | Terminate       // a bare `throw;` outside any handler (include/JSON++.h): the program ends
    | LengthError     // `reserve(end - start)` with end before start: std::length_error
    | LiteralOverrun  // a write past the fixed 1024-unit literal of include/JSON++.h

  // ---------------------------------------------------------------------------------------
  // Trimming

  predicate IsSpace(c: char)
  {
    c == ' ' || c == '\t' || c == '\r' || c == '\n'
  }

  /**
   * The bounds the trimming loop leaves of the range [lo, hi) of s: it drops a leading
   * whitespace unit, otherwise a trailing one, until neither end is whitespace or nothing is left.
   */
  function TrimWindow(s: string, lo: nat, hi: nat): (r: (nat, nat))
    requires lo <= hi <= |s|
    ensures lo <= r.0 <= r.1 <= hi
    ensures forall i | lo <= i < r.0 :: IsSpace(s[i])
    ensures forall i | r.1 <= i < hi :: IsSpace(s[i])
    ensures r.0 < r.1 ==> !IsSpace(s[r.0]) && !IsSpace(s[r.1 - 1])
    decreases hi - lo
  {
    if lo == hi then (lo, hi)
    else if IsSpace(s[lo]) then TrimWindow(s, lo + 1, hi)
    else if IsSpace(s[hi - 1]) then TrimWindow(s, lo, hi - 1)
    else (lo, hi)
  }

  /** The trimming loop stops at the first and last non-whitespace units. */
  lemma {:induction false} TrimWindowStops(s: string, lo: nat, hi: nat, first: nat, last: nat)
    requires lo <= first < last <= hi <= |s|
    requires (forall i | lo <= i < first :: IsSpace(s[i])) && (forall i | last <= i < hi :: IsSpace(s[i]))
    requires !IsSpace(s[first]) && !IsSpace(s[last - 1])
    ensures TrimWindow(s, lo, hi) == (first, last)
    decreases hi - lo
  {
    if lo < first {
      TrimWindowStops(s, lo + 1, hi, first, last);
    } else if last < hi {
      TrimWindowStops(s, lo, hi - 1, first, last);
    }
  }

  /** Trimming a core that starts and ends with non-whitespace, padded by whitespace on both sides, gives the core. */
  lemma TrimPadded(before: string, core: string, after: string)
    requires core != [] && !IsSpace(core[0]) && !IsSpace(core[|core| - 1])
    requires (forall i | 0 <= i < |before| :: IsSpace(before[i])) && (forall i | 0 <= i < |after| :: IsSpace(after[i]))
    ensures Trim(before + core + after) == core
  {
    var s := before + core + after;
    TrimWindowStops(s, 0, |s|, |before|, |before| + |core|);
    assert s[|before|..|before| + |core|] == core;
  }

  /**
   * The trimmed literal: what is left after dropping whitespace at both ends. It is empty exactly
   * when the literal is all whitespace, and otherwise starts and ends with a non-whitespace unit.
   */
  function Trim(s: string): (r: string)
    ensures r == [] <==> forall i | 0 <= i < |s| :: IsSpace(s[i])
    ensures r != [] ==> !IsSpace(r[0]) && !IsSpace(r[|r| - 1])
    ensures |r| <= |s|
  {
    var w := TrimWindow(s, 0, |s|);
    s[w.0..w.1]
  }

  /** A literal without whitespace at its ends is left as it is. */
  lemma TrimKeeps(s: string)
    requires s == [] || (!IsSpace(s[0]) && !IsSpace(s[|s| - 1]))
    ensures Trim(s) == s
  {
    assert s[0..|s|] == s;
  }

  /** The trimming loop of add(string), over the iterators start and end. */
  method TrimBounds(s: string) returns (start: nat, end: nat)
    ensures (start, end) == TrimWindow(s, 0, |s|)
  {
    start, end := 0, |s|;
    while start != end
      invariant start <= end <= |s|
      invariant TrimWindow(s, start, end) == TrimWindow(s, 0, |s|)
      decreases end - start
    {
      if IsSpace(s[start]) {
        start := start + 1;
        continue;
      }
      if IsSpace(s[end - 1]) {
        end := end - 1;
        continue;
      }
      break;
    }
  }

  // ---------------------------------------------------------------------------------------
  // The number recogniser

  predicate IsDigit(c: char)
  {
    '0' <= c <= '9'
  }

  predicate IsExponentMark(c: char)
  {
    c == 'e' || c == 'E'
  }

  predicate IsSignOrDigit(c: char)
  {
    c == '+' || c == '-' || IsDigit(c)
  }

  /**
   * One transition of `validNumber`: 1 expects `-` or a digit, 2 is the integer part, 3 the
   * fraction, 4 follows the exponent mark, 5 the exponent digits. 0 rejects and is never left.
   */
  function NumberStep(state: nat, c: char): nat
  {
    match state
    case 1 => if c == '-' || IsDigit(c) then 2 else 0
    case 2 => if c == '.' then 3 else if IsExponentMark(c) then 4 else if IsDigit(c) then 2 else 0
    case 3 => if IsExponentMark(c) then 4 else if IsDigit(c) then 3 else 0
    case 4 => if IsSignOrDigit(c) then 5 else 0
    case 5 => if IsDigit(c) then 5 else 0
    case _ => 0
  }

  /** The state after the first n units of t, starting from 1. */
  function NumberStateAfter(t: string, n: nat): (r: nat)
    requires n <= |t|
    ensures r <= 5
  {
    if n == 0 then 1 else NumberStep(NumberStateAfter(t, n - 1), t[n - 1])
  }

  /** A trimmed token is numeric when the recogniser does not end in 0. */
  predicate IsNumberToken(t: string)
  {
    NumberStateAfter(t, |t|) != 0
  }

  /** Once rejected, a token stays rejected whatever follows. */
  lemma {:induction false} RejectionIsFinal(t: string, m: nat, n: nat)
    requires m <= n <= |t| && NumberStateAfter(t, m) == 0
    ensures NumberStateAfter(t, n) == 0
    decreases n - m
  {
    if m < n {
      RejectionIsFinal(t, m, n - 1);
    }
  }

  /** The classification loop over a token; it jumps to the end once the state is 0. */
  method RecogniseNumber(t: string) returns (state: nat)
    ensures state == NumberStateAfter(t, |t|)
  {
    state := 1;
    var i := 0;
    while i != |t|
      invariant i <= |t|
      invariant state == NumberStateAfter(t, i)
      decreases |t| - i
    {
      if state == 0 {
        RejectionIsFinal(t, i, |t|);
        i := |t|;
        continue;
      }
      state := NumberStep(state, t[i]);
      i := i + 1;
    }
  }

  // The shapes of the accepted prefixes t[..n], stated without the automaton.

  predicate DigitsBetween(t: string, lo: nat, hi: nat)
    requires lo <= hi <= |t|
  {
    forall i | lo <= i < hi :: IsDigit(t[i])
  }

  /** `-` or a digit, then digits. */
  predicate IntegerPart(t: string, n: nat)
    requires n <= |t|
  {
    0 < n && (t[0] == '-' || IsDigit(t[0])) && DigitsBetween(t, 1, n)
  }

  /** An integer part, a point, then digits (possibly none). */
  predicate FractionPart(t: string, n: nat)
    requires n <= |t|
  {
    exists p | 0 < p < n :: IntegerPart(t, p) && t[p] == '.' && DigitsBetween(t, p + 1, n)
  }

  predicate Mantissa(t: string, n: nat)
    requires n <= |t|
  {
    IntegerPart(t, n) || FractionPart(t, n)
  }

  /** A mantissa and an exponent mark with nothing after it. */
  predicate BareExponent(t: string, n: nat)
    requires n <= |t|
  {
    1 < n && Mantissa(t, n - 1) && IsExponentMark(t[n - 1])
  }

  /** A mantissa, an exponent mark, a sign or a digit, then digits. */
  predicate FullExponent(t: string, n: nat)
    requires n <= |t|
  {
    exists q | 0 < q && q + 1 < n ::
      Mantissa(t, q) && IsExponentMark(t[q]) && IsSignOrDigit(t[q + 1]) && DigitsBetween(t, q + 2, n)
  }

  /** The tokens the recogniser accepts: a mantissa, optionally an exponent mark, then optionally a signed exponent. */
  predicate NumberShape(t: string)
  {
    Mantissa(t, |t|) || BareExponent(t, |t|) || FullExponent(t, |t|)
  }

  lemma IntegerPartAppend(t: string, n: nat)
    requires n < |t|
    ensures IntegerPart(t, n + 1) <==>
      (n == 0 && (t[0] == '-' || IsDigit(t[0]))) || (IntegerPart(t, n) && IsDigit(t[n]))
  {
  }

  lemma FractionPartAppend(t: string, n: nat)
    requires n < |t|
    ensures FractionPart(t, n + 1) <==>
      (IntegerPart(t, n) && t[n] == '.') || (FractionPart(t, n) && IsDigit(t[n]))
  {
    if FractionPart(t, n + 1) {
      var p :| 0 < p < n + 1 && IntegerPart(t, p) && t[p] == '.' && DigitsBetween(t, p + 1, n + 1);
      if p < n {
        assert FractionPart(t, n);
      }
    }
    if FractionPart(t, n) && IsDigit(t[n]) {
      var p :| 0 < p < n && IntegerPart(t, p) && t[p] == '.' && DigitsBetween(t, p + 1, n);
      assert DigitsBetween(t, p + 1, n + 1);
    }
    if IntegerPart(t, n) && t[n] == '.' {
      assert DigitsBetween(t, n + 1, n + 1);
    }
  }

  lemma FullExponentAppend(t: string, n: nat)
    requires n < |t|
    ensures FullExponent(t, n + 1) <==>
      (BareExponent(t, n) && IsSignOrDigit(t[n])) || (FullExponent(t, n) && IsDigit(t[n]))
  {
    if FullExponent(t, n + 1) {
      FullExponentShrinks(t, n);
    }
    if FullExponent(t, n) && IsDigit(t[n]) {
      FullExponentGrows(t, n);
    }
    if BareExponent(t, n) && IsSignOrDigit(t[n]) {
      assert DigitsBetween(t, n + 1, n + 1);
      assert Mantissa(t, n - 1) && IsExponentMark(t[n - 1]);
    }
  }

  lemma FullExponentShrinks(t: string, n: nat)
    requires n < |t| && FullExponent(t, n + 1)
    ensures (BareExponent(t, n) && IsSignOrDigit(t[n])) || (FullExponent(t, n) && IsDigit(t[n]))
  {
    var q :| 0 < q && q + 1 < n + 1 && Mantissa(t, q) && IsExponentMark(t[q]) && IsSignOrDigit(t[q + 1]) && DigitsBetween(t, q + 2, n + 1);
    if q + 1 < n {
      assert DigitsBetween(t, q + 2, n);
      assert FullExponent(t, n);
    } else {
      assert q == n - 1;
    }
  }

  lemma FullExponentGrows(t: string, n: nat)
    requires n < |t| && FullExponent(t, n) && IsDigit(t[n])
    ensures FullExponent(t, n + 1)
  {
    var q :| 0 < q && q + 1 < n && Mantissa(t, q) && IsExponentMark(t[q]) && IsSignOrDigit(t[q + 1]) && DigitsBetween(t, q + 2, n);
    assert DigitsBetween(t, q + 2, n + 1);
  }

  /** Which prefixes each state stands for: the recogniser and the shapes above agree. */
  lemma {:induction false} NumberStateMeaning(t: string, n: nat)
    requires n <= |t|
    ensures NumberStateAfter(t, n) == 1 <==> n == 0
    ensures NumberStateAfter(t, n) == 2 <==> IntegerPart(t, n)
    ensures NumberStateAfter(t, n) == 3 <==> FractionPart(t, n)
    ensures NumberStateAfter(t, n) == 4 <==> BareExponent(t, n)
    ensures NumberStateAfter(t, n) == 5 <==> FullExponent(t, n)
  {
    if n > 0 {
      var m := n - 1;
      NumberStateMeaning(t, m);
      IntegerPartAppend(t, m);
      FractionPartAppend(t, m);
      FullExponentAppend(t, m);
      assert BareExponent(t, n) <==> Mantissa(t, m) && IsExponentMark(t[m]);
    } else {
      assert !FractionPart(t, 0) && !FullExponent(t, 0);
    }
  }

  /**
   * A non-empty token is numeric exactly when it has the shape above; in particular `-`, `1.`
   * and `1e` are numeric.
   */
  lemma NumberTokenIsNumberShape(t: string)
    requires t != []
    ensures IsNumberToken(t) <==> NumberShape(t)
  {
    NumberStateMeaning(t, |t|);
  }

  /** A numeric token holds only `-`, `+`, `.`, `e`, `E` and digits, so it has no structural or quote character. */
  lemma {:induction false} NumberTokenUnits(t: string, n: nat)
    requires n <= |t| && NumberStateAfter(t, n) != 0
    ensures forall i | 0 <= i < n :: IsSignOrDigit(t[i]) || t[i] == '.' || IsExponentMark(t[i])
  {
    if n > 0 {
      NumberTokenUnits(t, n - 1);
    }
  }

  // ---------------------------------------------------------------------------------------
  // Keywords

  /**
   * The keyword switch of include/jsonpp/parser.h, on the token's length. The case for a
   * four-unit token starting with `n` falls through into the case for `t` when the rest is not
   * `ull`, so `nrue` reads as true too.
   */
  function KeywordSwitch(t: string): Option<Value>
  {
    if |t| == 3 && t == "NaN" then Some(OfNumber(NaN))
    else if |t| == 4 && t[0] == 'n' && t[1..] == "ull" then Some(Fresh(Null))
    else if |t| == 4 && (t[0] == 'n' || t[0] == 't') && t[1..] == "rue" then Some(OfBool(true))
    else if |t| == 5 && t == "false" then Some(OfBool(false))
    else None
  }

  /** The keyword tests of include/json++/parser.h and include/JSON++.h: whole-token equality. */
  function KeywordExact(t: string): Option<Value>
  {
    if t == "null" then Some(Fresh(Null))
    else if t == "true" then Some(OfBool(true))
    else if t == "false" then Some(OfBool(false))
    else if t == "NaN" then Some(OfNumber(NaN))
    else None
  }

  /** The two keyword tests agree on every token except `nrue`, which only the switch accepts. */
  lemma KeywordsDifferOnlyOnNrue(t: string)
    ensures t != "nrue" ==> KeywordSwitch(t) == KeywordExact(t)
    ensures KeywordSwitch("nrue") == Some(OfBool(true)) && KeywordExact("nrue") == None
  {
    if |t| == 4 && t[0] == 'n' && t[1..] == "ull" {
      assert t == "null";
    } else if |t| == 4 && (t[0] == 'n' || t[0] == 't') && t[1..] == "rue" {
      assert t == [t[0]] + t[1..];
    }
  }

  // ---------------------------------------------------------------------------------------
  // Quote stripping

  predicate IsQuote(c: char)
  {
    c == '"' || c == '\''
  }

  /**
   * The two quote-skipping steps on a non-empty token: one leading and one trailing quote of
   * either kind are dropped, each on its own. For a token that is a single quote both steps fire
   * and the range would end before it starts; `reserve` then throws.
   */
  function StripQuotes(t: string): (r: Result<string, ParseError>)
    requires t != []
    ensures r.Err? <==> |t| == 1 && IsQuote(t[0])
    ensures r.Ok? && IsQuote(t[0]) && IsQuote(t[|t| - 1]) ==> r.value == t[1..|t| - 1]
    ensures r.Ok? && IsQuote(t[0]) && !IsQuote(t[|t| - 1]) ==> r.value == t[1..]
    ensures r.Ok? && !IsQuote(t[0]) && IsQuote(t[|t| - 1]) ==> r.value == t[..|t| - 1]
    ensures r.Ok? && !IsQuote(t[0]) && !IsQuote(t[|t| - 1]) ==> r.value == t
  {
    var start := if IsQuote(t[0]) then 1 else 0;
    var end := if IsQuote(t[|t| - 1]) then |t| - 1 else |t|;
    if end < start then Err(LengthError) else Ok(t[start..end])
  }

  // ---------------------------------------------------------------------------------------
  // The escape decoder

  /** The letters with a meaning of their own after a backslash (`u` aside). */
  predicate IsEscapeLetter(c: char)
  {
    c == '"' || c == '\'' || c == '\\' || c == '/' || c == 'b' || c == 'f' || c == 'n' || c == 'r' || c == 't'
  }

  /** The unit an escape letter stands for. */
  function EscapeMeaning(c: char): char
    requires IsEscapeLetter(c)
  {
    if c == 'b' then Backspace
    else if c == 'f' then FormFeed
    else if c == 'n' then '\n'
    else if c == 'r' then '\r'
    else if c == 't' then '\t'
    else c
  }

  /** The decoder reads back each letter the serializer's escaper writes. */
  lemma EscapeLetterMeans(c: char)
    requires IsSpecial(c)
    ensures IsEscapeLetter(EscapeLetter(c)) && EscapeMeaning(EscapeLetter(c)) == c
  {
  }

  /** `stream >> std::hex >> value` on the four-unit window, left open except for four hex digits. */
  type HexRead = string -> int

  predicate AllHexDigits(w: string)
  {
    forall k | 0 <= k < |w| :: IsHexDigit(w[k])
  }

  /** The value read from the window: four hex digits give their value, anything else the parameter's answer. */
  function WindowValue(w: string, hexRead: HexRead): int
  {
    if |w| == 4 && AllHexDigits(w) then HexValue(w) else hexRead(w)
  }

  /**
   * The decoder's state: `mode` 0 copies, 1 follows a backslash, 2 to 5 count the hex digits
   * after `\u`; and the text decoded so far.
   */
  datatype Decoding = Decoding(mode: nat, out: string)

  /**
   * One turn of the decoding loop at position i. After a backslash an unknown unit is copied and
   * the decoder stays after the backslash; between the hex digits a non-hex unit is copied and
   * the count kept. The fourth hex digit re-encodes the window of the last four units ending there
   * (which may hold such copied units).
   */
  function DecodeStep(s: string, i: nat, d: Decoding, hexRead: HexRead): (r: Decoding)
    requires i < |s| && d.mode <= i && d.mode <= 5
    ensures r.mode <= i + 1 && r.mode <= 5
  {
    var c := s[i];
    if d.mode == 0 then
      if c == '\\' then Decoding(1, d.out) else Decoding(0, d.out + [c])
    else if d.mode == 1 then
      if IsEscapeLetter(c) then Decoding(0, d.out + [EscapeMeaning(c)])
      else if c == 'u' then Decoding(2, d.out)
      else Decoding(1, d.out + [c])
    else if !IsHexDigit(c) then Decoding(d.mode, d.out + [c])
    else if d.mode < 5 then Decoding(d.mode + 1, d.out)
    else Decoding(0, d.out + Utf8Encode(WindowValue(s[i - 3..i + 1], hexRead)))
  }

  /** The decoder's state after the first n units. */
  function DecodeUpTo(s: string, n: nat, hexRead: HexRead): (r: Decoding)
    requires n <= |s|
    ensures r.mode <= n && r.mode <= 5
  {
    if n == 0 then Decoding(0, []) else DecodeStep(s, n - 1, DecodeUpTo(s, n - 1, hexRead), hexRead)
  }

  /** The decoded text of a stripped token. */
  function Unescape(s: string, hexRead: HexRead): string
  {
    DecodeUpTo(s, |s|, hexRead).out
  }

  /** The decoding loop, over `mode` and the iterator `start`, building `result`. */
  method DecodeEscapes(s: string, hexRead: HexRead) returns (result: string)
    ensures result == Unescape(s, hexRead)
  {
    result := [];
    var mode := 0;
    var i := 0;
    while i != |s|
      invariant i <= |s|
      invariant DecodeUpTo(s, i, hexRead) == Decoding(mode, result)
      decreases |s| - i
    {
      var c := s[i];
      if mode == 0 {
        if c == '\\' {
          mode := 1;
          i := i + 1;
          continue;
        }
      } else if mode == 1 {
        if IsEscapeLetter(c) {
          result := result + [EscapeMeaning(c)];
          mode := 0;
          i := i + 1;
          continue;
        } else if c == 'u' {
          mode := 2;
          i := i + 1;
          continue;
        }
      } else if IsHexDigit(c) {
        mode := mode + 1;
        if mode > 5 {
          result := result + Utf8Encode(WindowValue(s[i - 3..i + 1], hexRead));
          mode := 0;
        }
        i := i + 1;
        continue;
      }
      result := result + [c];
      i := i + 1;
    }
  }

  /** The decoder's state after n units depends on those n units only. */
  lemma {:induction false} DecodeUpToPrefix(a: string, b: string, n: nat, hexRead: HexRead)
    requires n <= |a| && n <= |b| && a[..n] == b[..n]
    ensures DecodeUpTo(a, n, hexRead) == DecodeUpTo(b, n, hexRead)
  {
    if n > 0 {
      assert a[..n - 1] == a[..n][..n - 1] && b[..n - 1] == b[..n][..n - 1];
      DecodeUpToPrefix(a, b, n - 1, hexRead);
      assert a[n - 1] == a[..n][n - 1];
      var d := DecodeUpTo(a, n - 1, hexRead);
      if d.mode == 5 {
        assert a[n - 4..n] == a[..n][n - 4..n];
        assert b[n - 4..n] == b[..n][n - 4..n];
      }
    }
  }

  /** `\u` followed by four hex digits decodes to utf8Encode of their value. */
  lemma UnescapeUnicode(h: string, hexRead: HexRead)
    requires |h| == 4 && AllHexDigits(h)
    ensures Unescape("\\u" + h, hexRead) == Utf8Encode(HexValue(h))
  {
    var s := "\\u" + h;
    assert s[0] == '\\' && s[1] == 'u' && s[2..6] == h;
    assert DecodeUpTo(s, 1, hexRead) == Decoding(1, []);
    assert DecodeUpTo(s, 2, hexRead) == Decoding(2, []);
    assert IsHexDigit(s[2]) && IsHexDigit(s[3]) && IsHexDigit(s[4]) && IsHexDigit(s[5]);
    assert DecodeUpTo(s, 3, hexRead) == Decoding(3, []);
    assert DecodeUpTo(s, 4, hexRead) == Decoding(4, []);
    assert DecodeUpTo(s, 5, hexRead) == Decoding(5, []);
  }

  /** Units a std::string can hold: bytes. */
  predicate ByteUnits(s: string)
  {
    forall i | 0 <= i < |s| :: s[i] as int < 0x100
  }

  /** With signed units, utf8Decode sends every byte through its ASCII branch, one unit at a time. */
  lemma {:induction false} EscapedBytes(s: string, c: char)
    requires ByteUnits(s) && c as int < 0x100
    ensures EscapeTerminates(s, true) && EscapeTerminates(s + [c], true)
    ensures Escaped(s + [c], true) == Escaped(s, true) + EscapeAscii(c)
    decreases |s|
  {
    if s == [] {
      assert [c][1..] == [];
    } else {
      assert (s + [c])[1..] == s[1..] + [c];
      EscapedBytes(s[1..], c);
    }
  }

  /** Decoding one more piece the escaper wrote for c, from outside any escape, appends c. */
  lemma DecodeEscapedPiece(e: string, n: nat, c: char, prior: string, hexRead: HexRead)
    requires n + |EscapeAscii(c)| == |e| && e[n..] == EscapeAscii(c)
    requires DecodeUpTo(e, n, hexRead) == Decoding(0, prior)
    ensures DecodeUpTo(e, |e|, hexRead) == Decoding(0, prior + [c])
  {
    if IsSpecial(c) {
      EscapeLetterMeans(c);
      assert e[n] == '\\' && e[n + 1] == EscapeLetter(c);
      assert DecodeUpTo(e, n + 1, hexRead) == Decoding(1, prior);
    } else {
      assert e[n] == c;
    }
  }

  /**
   * The decoder inverts the serializer's escaper: decoding utf8Decode's output (signed units)
   * gives the bytes back, and the decoder ends outside any escape.
   */
  lemma {:induction false} UnescapeInvertsEscaped(s: string, hexRead: HexRead)
    requires ByteUnits(s)
    ensures EscapeTerminates(s, true)
    ensures DecodeUpTo(Escaped(s, true), |Escaped(s, true)|, hexRead) == Decoding(0, s)
    decreases |s|
  {
    if s == [] {
    } else {
      var u, c := s[..|s| - 1], s[|s| - 1];
      assert s == u + [c];
      UnescapeInvertsEscaped(u, hexRead);
      EscapedBytes(u, c);
      var eu, e := Escaped(u, true), Escaped(s, true);
      assert e == eu + EscapeAscii(c);
      assert e[..|eu|] == eu[..|eu|];
      DecodeUpToPrefix(eu, e, |eu|, hexRead);
      assert e[|eu|..] == EscapeAscii(c);
      DecodeEscapedPiece(e, |eu|, c, u, hexRead);
    }
  }

  /** Decoding the escaper's output gives the text back. */
  lemma UnescapeEscaped(s: string, hexRead: HexRead)
    requires ByteUnits(s)
    ensures EscapeTerminates(s, true) && Unescape(Escaped(s, true), hexRead) == s
  {
    UnescapeInvertsEscaped(s, hexRead);
  }

  /** A text without backslashes decodes to itself. */
  lemma {:induction false} UnescapePlain(s: string, hexRead: HexRead, n: nat)
    requires n <= |s| && forall i | 0 <= i < |s| :: s[i] != '\\'
    ensures DecodeUpTo(s, n, hexRead) == Decoding(0, s[..n])
  {
    if n > 0 {
      UnescapePlain(s, hexRead, n - 1);
      assert s[..n] == s[..n - 1] + [s[n - 1]];
    }
  }
}
