/**
 * The round trip the test driver src/main.cpp checks for its inputs: parsing the compact
 * serialization of what was parsed gives the same value back. It is proved for every value of
 * the shapes the number-free inputs have (an empty Object, an Object of one String member, an
 * Array of two Strings), for all byte strings, with the signed units of the serializer.
 */
module RoundTrip {
  import opened Outcomes
  import opened JsonValue
  import opened Unicode
  import opened Literal
  import opened Parser
  import Serializer
  import opened ParserScenarios

  /** What utf8Decode writes for a byte string is a body the scanner keeps inside its double quotes. */
  lemma {:induction false} EscapedIsEscapedBody(s: string)
    requires ByteUnits(s)
    ensures EscapeTerminates(s, true) && EscapedBody(Escaped(s, true))
    decreases |s|
  {
    if s != [] {
      var rest := s[1..];
      assert ByteUnits(rest) by {
        forall i | 0 <= i < |rest|
          ensures rest[i] as int < 0x100
        {
          assert rest[i] == s[i + 1];
        }
      }
      EscapedIsEscapedBody(rest);
      assert UnitValue(s[0], true) < 0x80;
      var piece := EscapeAscii(s[0]);
      var t := Escaped(s, true);
      assert t == piece + Escaped(rest, true);
      if IsSpecial(s[0]) {
        assert t[0] == '\\' && t[2..] == Escaped(rest, true);
      } else {
        assert t[0] == s[0] && t[1..] == Escaped(rest, true);
      }
    }
  }

  /** The escaped token of a byte string is well formed, reads back as that String, and is what serialize writes. */
  lemma EscapedToken(s: string, conv: Conversions)
    requires ByteUnits(s)
    ensures EscapeTerminates(s, true)
    ensures var token := Escaping(Escaped(s, true));
      WellFormed(token, conv) && ValueOf(token, conv) == OfString(s) && TextOf(token) == Serializer.Quoted(s, true)
  {
    EscapedIsEscapedBody(s);
    UnescapeEscaped(s, conv.hexRead);
  }

  /** `{}` serializes to `{}`, which parses back to an empty Object. */
  lemma EmptyObjectRoundTrip(conv: Conversions)
    ensures Serializer.Escapable(Fresh(Object), true)
    ensures ParseText(Current, Serializer.Serialized(Fresh(Object), Serializer.Compact, 0, conv.show, true), conv) == Ok(Fresh(Object))
  {
    Serializer.EmptyObjectText(conv.show, true);
    EmptyObject(conv);
  }

  /** An Object of one String member: `{"key":"value"}`, escaped, parses back to the same Object. */
  lemma StringMemberRoundTrip(key: string, value: string, conv: Conversions)
    requires ByteUnits(key) && ByteUnits(value)
    ensures Serializer.Escapable(Obj(key, OfString(value)), true)
    ensures ParseText(Current, Serializer.Serialized(Obj(key, OfString(value)), Serializer.Compact, 0, conv.show, true), conv) ==
      Ok(Obj(key, OfString(value)))
  {
    EscapedToken(key, conv);
    EscapedToken(value, conv);
    Serializer.MemberText(key, value, conv.show, true);
    OneMember(Escaping(Escaped(key, true)), Escaping(Escaped(value, true)), conv);
  }

  /** An Array of two Strings: `["first","second"]`, escaped, parses back to the same Array. */
  lemma StringPairRoundTrip(first: string, second: string, conv: Conversions)
    requires ByteUnits(first) && ByteUnits(second)
    ensures Serializer.Escapable(Pair(OfString(first), OfString(second)), true)
    ensures ParseText(Current, Serializer.Serialized(Pair(OfString(first), OfString(second)), Serializer.Compact, 0, conv.show, true), conv) ==
      Ok(Pair(OfString(first), OfString(second)))
  {
    EscapedToken(first, conv);
    EscapedToken(second, conv);
    Serializer.PairText(first, second, conv.show, true);
    TwoElements(Escaping(Escaped(first, true)), Escaping(Escaped(second, true)), conv);
  }

  // ---------------------------------------------------------------------------------------
  // The driver's check on its number-free inputs

  /** `{}` parses to a value whose serialization parses back to it. */
  lemma EmptyObjectInputRoundTrips(conv: Conversions)
    ensures ParseText(Current, "{}", conv) == Ok(Fresh(Object))
    ensures ParseText(Current, Serializer.Serialized(Fresh(Object), Serializer.Compact, 0, conv.show, true), conv) == Ok(Fresh(Object))
  {
    EmptyObject(conv);
    EmptyObjectRoundTrip(conv);
  }

  /** `{ "v":"1"}` parses to {v: "1"}, whose serialization parses back to it. */
  lemma QuotedNumberInputRoundTrips(conv: Conversions)
    ensures ParseText(Current, "{ \"v\":\"1\"}", conv) == Ok(Obj("v", OfString("1")))
    ensures ParseText(Current, Serializer.Serialized(Obj("v", OfString("1")), Serializer.Compact, 0, conv.show, true), conv) ==
      Ok(Obj("v", OfString("1")))
  {
    QuotedNumberValue(conv);
    StringMemberRoundTrip("v", "1", conv);
  }

  /** `{ 'value':'string'}` parses to {value: "string"}, whose serialization parses back to it. */
  lemma SingleQuotedInputRoundTrips(conv: Conversions)
    ensures ParseText(Current, "{ 'value':'string'}", conv) == Ok(Obj("value", OfString("string")))
    ensures ParseText(Current, Serializer.Serialized(Obj("value", OfString("string")), Serializer.Compact, 0, conv.show, true), conv) ==
      Ok(Obj("value", OfString("string")))
  {
    SingleQuotedMember(conv);
    StringMemberRoundTrip("value", "string", conv);
  }

  /** `{ "v":str}` parses to {v: "str"}, whose serialization parses back to it. */
  lemma UnquotedInputRoundTrips(conv: Conversions)
    ensures ParseText(Current, "{ \"v\":str}", conv) == Ok(Obj("v", OfString("str")))
    ensures ParseText(Current, Serializer.Serialized(Obj("v", OfString("str")), Serializer.Compact, 0, conv.show, true), conv) ==
      Ok(Obj("v", OfString("str")))
  {
    UnquotedValue(conv);
    StringMemberRoundTrip("v", "str", conv);
  }

  /** `[ a,bc]` parses to ["a", "bc"], whose serialization parses back to it. */
  lemma UnquotedElementsInputRoundTrips(conv: Conversions)
    ensures ParseText(Current, "[ a,bc]", conv) == Ok(Pair(OfString("a"), OfString("bc")))
    ensures ParseText(Current, Serializer.Serialized(Pair(OfString("a"), OfString("bc")), Serializer.Compact, 0, conv.show, true), conv) ==
      Ok(Pair(OfString("a"), OfString("bc")))
  {
    UnquotedElements(conv);
    StringPairRoundTrip("a", "bc", conv);
  }
}
