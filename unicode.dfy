/**
 * The UTF-8 helpers of jsonpp (include/jsonpp/unicode.h): `utf8Encode`, which turns a code
 * point decoded from a `\uXXXX` escape into code units, and `utf8Decode`, which despite its
 * name is the string escaper `serialize` uses.
 *
 * A code unit is a `char` whose value is the unit's byte (0..255 for `char`).
 */
module Unicode {
  import opened Outcomes

  /** The unit a `static_cast<char>` of n stores: the low eight bits of n. */
  function Unit(n: int): (c: char)
    ensures c as int == n % 256
  {
    (n % 256) as char
  }

  /** A continuation unit `10xxxxxx` carrying the six bits of cp at weight `scale`. */
  function Continuation(cp: int, scale: nat): (c: char)
    requires scale > 0
    ensures c as int == 0x80 + cp / scale % 0x40
  {
    Unit(0x80 + cp / scale % 0x40)
  }

  /**
   * utf8Encode. The lead unit ORs a marker with the high bits of cp; the marker's low bits and
   * the shifted value never overlap, so the OR is written as a sum. The 6-unit class emits
   * only five units: the bits at weight 2^24 are never written.
   */
  function Utf8Encode(cp: int): (r: string)
    ensures cp < 0x80 ==> |r| == 1
    ensures 0x80 <= cp < 0x800 ==> |r| == 2
    ensures 0x800 <= cp < 0x10000 ==> |r| == 3
    ensures 0x10000 <= cp < 0x200000 ==> |r| == 4
    ensures 0x200000 <= cp < 0x8000000 ==> |r| == 5
    ensures 0x8000000 <= cp ==> r == []
    ensures 0 <= cp < 0x80 ==> r == [cp as char]
    ensures forall i | 0 <= i < |r| :: r[i] as int < 256
  {
    if cp < 0x80 then [Unit(cp)]
    else if cp < 0x800 then TwoUnits(cp)
    else if cp < 0x10000 then ThreeUnits(cp)
    else if cp < 0x200000 then FourUnits(cp)
    else if cp < 0x4000000 then FiveUnits(cp, 0xF8 + cp / 0x1000000)
    else if cp < 0x8000000 then FiveUnits(cp, 0xFC + cp / 0x40000000)
    else []
  }

  function TwoUnits(cp: int): (r: string)
    ensures |r| == 2
  {
    [Unit(0xC0 + cp / 0x40), Continuation(cp, 1)]
  }

  function ThreeUnits(cp: int): (r: string)
    ensures |r| == 3
  {
    [Unit(0xE0 + cp / 0x1000), Continuation(cp, 0x40), Continuation(cp, 1)]
  }

  function FourUnits(cp: int): (r: string)
    ensures |r| == 4
  {
    [Unit(0xF0 + cp / 0x40000), Continuation(cp, 0x1000), Continuation(cp, 0x40), Continuation(cp, 1)]
  }

  /** The five units of the two longest classes: a lead, then the bits at weights 2^18 down to 2^0. */
  function FiveUnits(cp: int, lead: int): (r: string)
    ensures |r| == 5
  {
    [Unit(lead), Continuation(cp, 0x40000), Continuation(cp, 0x1000), Continuation(cp, 0x40), Continuation(cp, 1)]
  }

  // ---------------------------------------------------------------------------------------
  // The original UTF-8 scheme (one to six units, RFC 2279; RFC 3629 keeps the forms up to
  // four units), decoded independently of the encoder above.

  /** Number of units a lead unit announces in the original scheme; 0 for a unit that cannot lead. */
  function LeadWidth(lead: int): nat
  {
    if lead < 0x80 then 1
    else if lead < 0xC0 then 0
    else if lead < 0xE0 then 2
    else if lead < 0xF0 then 3
    else if lead < 0xF8 then 4
    else if lead < 0xFC then 5
    else if lead < 0xFE then 6
    else 0
  }

  /** The payload bits of a lead unit of the given width. */
  function LeadPayload(lead: int, width: nat): int
  {
    match width
    case 1 => lead
    case 2 => lead - 0xC0
    case 3 => lead - 0xE0
    case 4 => lead - 0xF0
    case 5 => lead - 0xF8
    case _ => lead - 0xFC
  }

  /** The smallest code point that needs the given number of units (shorter forms are overlong). */
  function MinimalValue(width: nat): int
  {
    match width
    case 1 => 0
    case 2 => 0x80
    case 3 => 0x800
    case 4 => 0x10000
    case 5 => 0x200000
    case _ => 0x4000000
  }

  /** Every unit after the lead is a continuation unit `10xxxxxx`. */
  predicate AllContinuations(u: string)
  {
    forall i | 1 <= i < |u| :: 0x80 <= u[i] as int < 0xC0
  }

  /** Appends the six payload bits of the units from position i on to acc. */
  function Accumulate(acc: int, u: string, i: nat): int
    decreases |u| - i
  {
    if i >= |u| then acc else Accumulate(acc * 0x40 + (u[i] as int - 0x80), u, i + 1)
  }

  /** Decodes exactly one complete, non-overlong sequence of the original UTF-8 scheme. */
  function ClassicDecode(u: string): Option<int>
  {
    if |u| == 0 then None
    else
      var lead := u[0] as int;
      var width := LeadWidth(lead);
      if width == 0 || |u| != width || !AllContinuations(u) then None
      else
        var cp := Accumulate(LeadPayload(lead, width), u, 1);
        if cp < MinimalValue(width) then None else Some(cp)
  }

  lemma SplitSixBits(n: nat, scale: nat)
    requires scale in {1, 0x40, 0x1000, 0x40000}
    ensures n / (scale * 0x40) * 0x40 + n / scale % 0x40 == n / scale
  {
  }

  /** Reading the continuation unit at position k that carries cp's bits at `scale` moves the accumulator one digit down. */
  lemma AccumulateStep(cp: nat, scale: nat, u: string, k: nat)
    requires scale in {1, 0x40, 0x1000, 0x40000}
    requires k < |u| && u[k] as int == 0x80 + cp / scale % 0x40
    ensures Accumulate(cp / (scale * 0x40), u, k) == Accumulate(cp / scale, u, k + 1)
  {
    SplitSixBits(cp, scale);
  }

  /** A lead unit: the marker plus the high bits of cp, which stay below k and so within the unit. */
  lemma LeadUnit(cp: nat, marker: nat, scale: nat, k: nat)
    requires scale in {0x40, 0x1000, 0x40000, 0x1000000} && cp < k * scale && marker + k <= 0x100
    ensures cp / scale < k
    ensures Unit(marker + cp / scale) as int == marker + cp / scale
  {
  }

  lemma TwoUnitsDecode(cp: int)
    requires 0x80 <= cp < 0x800
    ensures ClassicDecode(Utf8Encode(cp)) == Some(cp)
  {
    var r := Utf8Encode(cp);
    LeadUnit(cp, 0xC0, 0x40, 0x20);
    AccumulateStep(cp, 1, r, 1);
  }

  lemma ThreeUnitsDecode(cp: int)
    requires 0x800 <= cp < 0x10000
    ensures ClassicDecode(Utf8Encode(cp)) == Some(cp)
  {
    var r := Utf8Encode(cp);
    LeadUnit(cp, 0xE0, 0x1000, 0x10);
    AccumulateStep(cp, 0x40, r, 1);
    AccumulateStep(cp, 1, r, 2);
  }

  lemma FourUnitsDecode(cp: int)
    requires 0x10000 <= cp < 0x200000
    ensures ClassicDecode(Utf8Encode(cp)) == Some(cp)
  {
    var r := Utf8Encode(cp);
    LeadUnit(cp, 0xF0, 0x40000, 8);
    AccumulateStep(cp, 0x1000, r, 1);
    AccumulateStep(cp, 0x40, r, 2);
    AccumulateStep(cp, 1, r, 3);
  }

  lemma FiveUnitsDecode(cp: int)
    requires 0x200000 <= cp < 0x4000000
    ensures ClassicDecode(Utf8Encode(cp)) == Some(cp)
  {
    var r := Utf8Encode(cp);
    LeadUnit(cp, 0xF8, 0x1000000, 4);
    AccumulateStep(cp, 0x40000, r, 1);
    AccumulateStep(cp, 0x1000, r, 2);
    AccumulateStep(cp, 0x40, r, 3);
    AccumulateStep(cp, 1, r, 4);
  }

  /** utf8Encode inverts the original UTF-8 scheme for every code point it encodes in up to five units. */
  lemma Utf8EncodeDecodes(cp: int)
    requires 0 <= cp < 0x4000000
    ensures ClassicDecode(Utf8Encode(cp)) == Some(cp)
  {
    if cp < 0x80 {
    } else if cp < 0x800 {
      TwoUnitsDecode(cp);
    } else if cp < 0x10000 {
      ThreeUnitsDecode(cp);
    } else if cp < 0x200000 {
      FourUnitsDecode(cp);
    } else {
      FiveUnitsDecode(cp);
    }
  }

  /** Code points in [0x4000000, 0x8000000) get a 6-unit lead but only five units: no valid sequence. */
  lemma Utf8EncodeSixUnitClassIsShort(cp: int)
    requires 0x4000000 <= cp < 0x8000000
    ensures |Utf8Encode(cp)| == 5 && Utf8Encode(cp)[0] as int == 0xFC
    ensures ClassicDecode(Utf8Encode(cp)) == None
  {
  }

  // ---------------------------------------------------------------------------------------
  // utf8Decode: the string escaper.

  const Backspace: char := 8 as char
  const FormFeed: char := 12 as char

  /** The eight ASCII characters that utf8Decode writes as a backslash pair. */
  predicate IsSpecial(c: char)
  {
    c == '"' || c == '\\' || c == '/' || c == Backspace || c == FormFeed || c == '\n' || c == '\r' || c == '\t'
  }

  /** The letter written after the backslash for a special character. */
  function EscapeLetter(c: char): (l: char)
    requires IsSpecial(c)
  {
    if c == Backspace then 'b'
    else if c == FormFeed then 'f'
    else if c == '\n' then 'n'
    else if c == '\r' then 'r'
    else if c == '\t' then 't'
    else c
  }

  /** What utf8Decode writes for a unit whose value is below 0x80 (or a negative signed char). */
  function EscapeAscii(c: char): (r: string)
    ensures IsSpecial(c) ==> r == ['\\', EscapeLetter(c)]
    ensures !IsSpecial(c) ==> r == [c]
  {
    if IsSpecial(c) then ['\\', EscapeLetter(c)] else [c]
  }

  /**
   * The int utf8Decode reads from a unit: with a signed `char`, bytes 0x80..0xFF are negative
   * and so take the ASCII branch; with an unsigned `char` they keep their value.
   */
  function UnitValue(c: char, signedUnits: bool): int
  {
    if signedUnits && 0x80 <= c as int < 0x100 then c as int - 0x100 else c as int
  }

  /** Units of the sequence a unit >= 0x80 starts, in utf8Decode's classes; 0 for >= 0xFC (no branch). */
  function EscapeWidth(value: int): nat
  {
    if value < 0xC0 then 2
    else if value < 0xE0 then 3
    else if value < 0xF0 then 4
    else if value < 0xF8 then 5
    else if value < 0xFC then 6
    else 0
  }

  /** The modulus of the mask utf8Decode applies to a lead unit of the given width. */
  function LeadModulus(width: nat): nat
  {
    match width
    case 2 => 0x20
    case 3 => 0x10
    case 4 => 0x08
    case 5 => 0x04
    case _ => 0x02
  }

  /** Appends the low six bits of each unit to acc (the masked, shifted ORs of utf8Decode). */
  function LowBits(acc: int, u: string): int
    decreases |u|
  {
    if u == [] then acc else LowBits(acc * 0x40 + u[0] as int % 0x40, u[1..])
  }

  /** The code point utf8Decode assembles from a sequence of the given width. */
  function SequenceValue(u: string, width: nat): nat
    requires 2 <= width <= |u|
  {
    var v := LowBits(u[0] as int % LeadModulus(width), u[1..width]);
    LowBitsNonNegative(u[0] as int % LeadModulus(width), u[1..width]);
    v
  }

  lemma LowBitsNonNegative(acc: int, u: string)
    requires acc >= 0
    ensures LowBits(acc, u) >= 0
    decreases |u|
  {
  }

  const HexDigits: string := "0123456789abcdef"

  /** `stream << std::hex << n` for a non-negative n: lower-case digits, no padding. */
  function HexLower(n: nat): (r: string)
    ensures |r| > 0
    ensures forall i | 0 <= i < |r| :: r[i] in HexDigits
  {
    if n < 16 then [HexDigits[n]] else HexLower(n / 16) + [HexDigits[n % 16]]
  }

  /** The value of a hexadecimal digit (either case), -1 for any other character. */
  function HexDigitValue(c: char): int
  {
    if '0' <= c <= '9' then c as int - '0' as int
    else if 'a' <= c <= 'f' then c as int - 'a' as int + 10
    else if 'A' <= c <= 'F' then c as int - 'A' as int + 10
    else -1
  }

  predicate IsHexDigit(c: char)
  {
    HexDigitValue(c) >= 0
  }

  /** The value of a string of hexadecimal digits, most significant first. */
  function HexValue(s: string): int
  {
    if s == [] then 0 else HexValue(s[..|s| - 1]) * 16 + HexDigitValue(s[|s| - 1])
  }

  /** The `\\u` escape utf8Decode writes for a code point. */
  function UnicodeEscape(cp: nat): (r: string)
    ensures |r| >= 3 && r[0] == '\\' && r[1] == 'u'
    ensures forall i | 0 <= i < |r| :: r[i] as int < 0x80
  {
    "\\u" + HexLower(cp)
  }

  /** Reading back what HexLower writes gives the number. */
  lemma {:induction false} HexLowerReadsBack(n: nat)
    ensures HexValue(HexLower(n)) == n
  {
    if n < 16 {
      assert HexDigitValue(HexDigits[n]) == n;
    } else {
      HexLowerReadsBack(n / 16);
      var r := HexLower(n);
      assert r[..|r| - 1] == HexLower(n / 16);
      assert HexDigitValue(HexDigits[n % 16]) == n % 16;
    }
  }

  /**
   * Whether utf8Decode's loop ends on s: it makes no progress on a unit whose value is 0xFC or
   * more (no class matches, the input iterator does not move and `\u` is written forever).
   */
  predicate EscapeTerminates(s: string, signedUnits: bool)
    decreases |s|
  {
    if s == [] then true
    else
      var value := UnitValue(s[0], signedUnits);
      if value < 0x80 then EscapeTerminates(s[1..], signedUnits)
      else
        var width := EscapeWidth(value);
        if width == 0 then false
        else if |s| < width then true
        else EscapeTerminates(s[width..], signedUnits)
  }

  /** What utf8Decode returns for s; a truncated sequence at the end stops the output there. */
  function Escaped(s: string, signedUnits: bool): string
    requires EscapeTerminates(s, signedUnits)
    decreases |s|
  {
    if s == [] then []
    else
      var value := UnitValue(s[0], signedUnits);
      if value < 0x80 then EscapeAscii(s[0]) + Escaped(s[1..], signedUnits)
      else
        var width := EscapeWidth(value);
        if |s| < width then []
        else UnicodeEscape(SequenceValue(s, width)) + Escaped(s[width..], signedUnits)
  }

  /** Escaped on the suffix s[i..] when its first unit takes the ASCII branch. */
  lemma EscapedAsciiStep(s: string, i: nat, signedUnits: bool)
    requires i < |s| && EscapeTerminates(s[i..], signedUnits) && UnitValue(s[i], signedUnits) < 0x80
    ensures EscapeTerminates(s[i + 1..], signedUnits)
    ensures Escaped(s[i..], signedUnits) == EscapeAscii(s[i]) + Escaped(s[i + 1..], signedUnits)
  {
    assert s[i..][1..] == s[i + 1..];
  }

  /** Escaped on the suffix s[i..] when it starts with a complete multi-unit sequence. */
  lemma EscapedSequenceStep(s: string, i: nat, signedUnits: bool, width: nat)
    requires i < |s| && EscapeTerminates(s[i..], signedUnits)
    requires UnitValue(s[i], signedUnits) >= 0x80 && width == EscapeWidth(UnitValue(s[i], signedUnits))
    requires i + width <= |s|
    ensures width >= 2
    ensures EscapeTerminates(s[i + width..], signedUnits)
    ensures Escaped(s[i..], signedUnits) ==
      UnicodeEscape(SequenceValue(s[i..], width)) + Escaped(s[i + width..], signedUnits)
  {
    assert s[i..][width..] == s[i + width..];
  }

  lemma AppendAssociative<T>(a: seq<T>, b: seq<T>, c: seq<T>)
    ensures a + b + c == a + (b + c)
  {
  }

  /** utf8Decode: the escaping loop over the units of s. */
  method Utf8Decode(s: string, signedUnits: bool) returns (r: string)
    requires EscapeTerminates(s, signedUnits)
    ensures r == Escaped(s, signedUnits)
  {
    if s == [] {
      return s;
    }
    r := [];
    var i := 0;
    while i < |s|
      invariant 0 <= i <= |s|
      invariant EscapeTerminates(s[i..], signedUnits)
      invariant r + Escaped(s[i..], signedUnits) == Escaped(s, signedUnits)
      decreases |s| - i
    {
      var value := UnitValue(s[i], signedUnits);
      if value < 0x80 {
        EscapedAsciiStep(s, i, signedUnits);
        AppendAssociative(r, EscapeAscii(s[i]), Escaped(s[i + 1..], signedUnits));
        r := r + EscapeAscii(s[i]);
        i := i + 1;
      } else {
        var width := EscapeWidth(value);
        if |s| - i < width {
          break;
        }
        EscapedSequenceStep(s, i, signedUnits, width);
        var piece := UnicodeEscape(SequenceValue(s[i..], width));
        AppendAssociative(r, piece, Escaped(s[i + width..], signedUnits));
        r := r + piece;
        i := i + width;
      }
    }
  }

  /** With unsigned units every non-ASCII sequence is escaped, so the output is pure ASCII. */
  lemma {:induction false} EscapedUnsignedIsAscii(s: string)
    requires EscapeTerminates(s, false)
    ensures forall i | 0 <= i < |Escaped(s, false)| :: Escaped(s, false)[i] as int < 0x80
  {
    if s != [] {
      var value := UnitValue(s[0], false);
      if value < 0x80 {
        EscapedUnsignedIsAscii(s[1..]);
      } else {
        var width := EscapeWidth(value);
        if |s| >= width {
          EscapedUnsignedIsAscii(s[width..]);
        }
      }
    }
  }

  /** With signed units, utf8Decode only rewrites the eight special characters; everything else is kept. */
  lemma {:induction false} EscapedSignedKeepsOtherUnits(s: string)
    requires forall i | 0 <= i < |s| :: !IsSpecial(s[i]) && s[i] as int < 0x100
    ensures EscapeTerminates(s, true)
    ensures Escaped(s, true) == s
  {
    if s != [] {
      EscapedSignedKeepsOtherUnits(s[1..]);
    }
  }

  /**
   * With unsigned units the classes are one step early: the UTF-8 encoding of U+00E9 is a
   * 2-unit sequence, which utf8Decode reads as the start of a 3-unit one and drops.
   */
  lemma EscapedUnsignedDropsTwoUnitSequence()
    ensures Utf8Encode(0xE9) == [0xC3 as char, 0xA9 as char]
    ensures Escaped(Utf8Encode(0xE9), false) == []
  {
  }
}
