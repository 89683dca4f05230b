/**
 * The base64 codec of jsonpp (include/jsonpp/base64.h): `encode` turns bytes into the
 * 64-character alphabet with `=` padding, `decode_raw` turns text back into bytes.
 *
 * Bytes are integers 0..255; text is a sequence of `char` units (a `char` or `wchar_t` string).
 */
module Base64 {
  import opened Outcomes

  type Byte = b: int | 0 <= b < 256

  /** A six-bit value: one character's worth of a group. */
  type Sextet = d: int | 0 <= d < 64

  datatype Base64Error =
    | SizeMismatch   // typed decode: the decoded size differs from the requested size
    | TailOverread   // decode_raw would read past the bytes decoded from the tail

  /** The characters of the alphabet, by range. */
  predicate InAlphabet(ch: char)
  {
    'A' <= ch <= 'Z' || 'a' <= ch <= 'z' || '0' <= ch <= '9' || ch == '+' || ch == '/'
  }

  /** b64e's table entry for a six-bit value: A-Z, a-z, 0-9, then `+` and `/`. */
  function AlphabetChar(c: int): char
    requires 0 <= c < 64
  {
    if c < 26 then ('A' as int + c) as char
    else if c < 52 then ('a' as int + c - 26) as char
    else if c < 62 then ('0' as int + c - 52) as char
    else if c == 62 then '+'
    else '/'
  }

  /** b64d: the six-bit value of a character's low eight bits; 0 for anything outside the alphabet, `=` included. */
  function B64d(c: char): (r: Sextet)
    ensures c as int < 0x100 && !InAlphabet(c) ==> r == 0
  {
    var u := c as int % 256;
    if 'A' as int <= u <= 'Z' as int then u - 'A' as int
    else if 'a' as int <= u <= 'z' as int then u - 'a' as int + 26
    else if '0' as int <= u <= '9' as int then u - '0' as int + 52
    else if u == '+' as int then 62
    else if u == '/' as int then 63
    else 0
  }

  /** b64e: the alphabet character for a six-bit value. */
  function B64e(c: int): (r: char)
    requires 0 <= c < 64
  {
    AlphabetChar(c)
  }

  /** Every b64e character is in the alphabet, and b64d reads it back. */
  lemma B64eDecodes(c: int)
    requires 0 <= c < 64
    ensures InAlphabet(B64e(c)) && B64e(c) != '='
    ensures B64d(B64e(c)) == c
  {
    var ch := B64e(c);
    if c < 26 {
      assert ch as int == 'A' as int + c && ch as int % 256 == ch as int;
    } else if c < 52 {
      assert ch as int == 'a' as int + c - 26 && ch as int % 256 == ch as int;
    } else if c < 62 {
      assert ch as int == '0' as int + c - 52 && ch as int % 256 == ch as int;
    } else if c == 62 {
      assert ch == '+';
    } else {
      assert ch == '/';
    }
  }

  /** n copies of x. */
  function Repeat<T>(x: T, n: nat): (r: seq<T>)
    ensures |r| == n
    ensures forall i | 0 <= i < n :: r[i] == x
  {
    if n == 0 then [] else [x] + Repeat(x, n - 1)
  }

  // ---------------------------------------------------------------------------------------
  // Encoding

  /** The four characters block_encode writes for three bytes (six bits each, high bits first). */
  function EncodeGroup(b0: Byte, b1: Byte, b2: Byte): (r: string)
    ensures |r| == 4
  {
    [B64e(b0 / 4), B64e(b0 % 4 * 16 + b1 / 16), B64e(b1 % 16 * 4 + b2 / 64), B64e(b2 % 64)]
  }

  lemma EncodeGroupInAlphabet(b0: Byte, b1: Byte, b2: Byte)
    ensures forall i | 0 <= i < 4 :: InAlphabet(EncodeGroup(b0, b1, b2)[i])
  {
    B64eDecodes(b0 / 4);
    B64eDecodes(b0 % 4 * 16 + b1 / 16);
    B64eDecodes(b1 % 16 * 4 + b2 / 64);
    B64eDecodes(b2 % 64);
  }

  /** What block_encode writes: one group per complete triple; a shorter tail is not consumed. */
  function BlockEncoded(data: seq<Byte>): (r: string)
  {
    if |data| < 3 then [] else EncodeGroup(data[0], data[1], data[2]) + BlockEncoded(data[3..])
  }

  lemma AppendAssociative<T>(a: seq<T>, b: seq<T>, c: seq<T>)
    ensures a + b + c == a + (b + c)
  {
  }

  lemma BlockEncodedStep(data: seq<Byte>, start: nat)
    requires start + 3 <= |data|
    ensures BlockEncoded(data[start..]) ==
      EncodeGroup(data[start], data[start + 1], data[start + 2]) + BlockEncoded(data[start + 3..])
  {
    assert data[start..][3..] == data[start + 3..];
  }

  lemma EncodedFitsAt(n: nat, k: nat)
    requires 3 * k + 3 <= n
    ensures 4 * k + 4 <= n * 4 / 3
  {
  }

  lemma WholeTriplesConsumed(n: nat, k: nat)
    requires 3 * k <= n < 3 * k + 3
    ensures 3 * k == n - n % 3
  {
  }

  /** The four writes of one block_encode iteration at output position o. */
  method WriteGroup(output: array<char>, o: nat, b0: Byte, b1: Byte, b2: Byte)
    requires o + 4 <= output.Length
    modifies output
    ensures output[..o + 4] == old(output[..o]) + EncodeGroup(b0, b1, b2)
  {
    output[o] := B64e(b0 / 4);
    output[o + 1] := B64e(b0 % 4 * 16 + b1 / 16);
    output[o + 2] := B64e(b1 % 16 * 4 + b2 / 64);
    output[o + 3] := B64e(b2 % 64);
  }

  /**
   * block_encode: writes into a text pre-sized to count*4/3 units and cuts it at the output
   * position, so the units it starts with never reach the result; `consumed` is how far the caller's start pointer has advanced.
   */
  method BlockEncode(data: seq<Byte>) returns (r: string, consumed: nat)
    ensures r == BlockEncoded(data)
    ensures consumed == |data| - |data| % 3
  {
    var output := new char[|data| * 4 / 3];
    var start, count, o := 0, |data|, 0;
    ghost var k: nat := 0;
    while count > 2
      invariant start + count == |data| && start == 3 * k && o == 4 * k
      invariant o <= output.Length
      invariant output[..o] + BlockEncoded(data[start..]) == BlockEncoded(data)
      decreases count
    {
      EncodedFitsAt(|data|, k);
      BlockEncodedStep(data, start);
      AppendAssociative(output[..o], EncodeGroup(data[start], data[start + 1], data[start + 2]), BlockEncoded(data[start + 3..]));
      WriteGroup(output, o, data[start], data[start + 1], data[start + 2]);
      start, count, o, k := start + 3, count - 3, o + 4, k + 1;
    }
    WholeTriplesConsumed(|data|, k);
    assert BlockEncoded(data[start..]) == [];
    r := output[..o];
    consumed := start;
  }

  /** The last group of encode for a tail of one or two bytes: zero-filled, then `=` over the unused characters. */
  function PaddedGroup(tail: seq<Byte>): (r: string)
    requires 1 <= |tail| <= 2
    ensures |r| == 4 && r[..|tail| + 1] == EncodeGroup(tail[0], if |tail| == 2 then tail[1] else 0, 0)[..|tail| + 1]
    ensures forall i | |tail| + 1 <= i < 4 :: r[i] == '='
  {
    var group := EncodeGroup(tail[0], if |tail| == 2 then tail[1] else 0, 0);
    if |tail| == 1 then group[..2] + "==" else group[..3] + "="
  }

  /** What encode returns for `data`. */
  function Encoded(data: seq<Byte>): string
  {
    BlockEncoded(data) + FinalGroup(data[|data| - |data| % 3..])
  }

  /** What encode appends for the bytes block_encode left: nothing, or one padded group. */
  function FinalGroup(tail: seq<Byte>): string
    requires |tail| < 3
  {
    if |tail| == 0 then [] else PaddedGroup(tail)
  }

  /** encode: the whole triples, then the zero-filled tail with its padding written over it. */
  method Encode(data: seq<Byte>) returns (r: string)
    ensures r == Encoded(data)
  {
    var start;
    r, start := BlockEncode(data);
    var count := |data| % 3;
    if count != 0 {
      var buf := ZeroFilled(data[start..]);
      var group, _ := BlockEncode(buf);
      assert group == EncodeGroup(buf[0], buf[1], buf[2]) by {
        assert buf[3..] == [];
      }
      r := Overwrite(r + group, 3 - count);
      assert r == BlockEncoded(data) + PaddedGroup(data[start..]);
    }
  }

  /** encode's three-byte buffer: the tail, then zeros. */
  method ZeroFilled(tail: seq<Byte>) returns (buf: seq<Byte>)
    requires |tail| < 3
    ensures buf == tail + Repeat(0, 3 - |tail|)
  {
    var a := new Byte[] [0, 0, 0];
    for i := 0 to |tail|
      invariant a[..] == tail[..i] + Repeat(0, 3 - i)
    {
      a[i] := tail[i];
    }
    assert tail[..|tail|] == tail;
    buf := a[..];
  }

  /** encode's padding loop: the last n characters become `=`. */
  method Overwrite(text: string, n: nat) returns (r: string)
    requires n <= |text|
    ensures r == text[..|text| - n] + Repeat('=', n)
  {
    r := text;
    var count: nat := n;
    while count > 0
      invariant count <= n && |r| == |text|
      invariant r == text[..|text| - n] + Repeat('=', n - count) + text[|text| - count..]
      decreases count
    {
      r := r[|r| - count := '='];
      count := count - 1;
    }
  }

  /** Encoded text has four characters for every started triple. */
  lemma EncodedLength(data: seq<Byte>)
    ensures |Encoded(data)| == (|data| + 2) / 3 * 4
  {
    BlockEncodedLength(data);
    StartedTriples(|data|);
  }

  /** block_encode writes four characters per whole triple. */
  lemma {:induction false} BlockEncodedLength(data: seq<Byte>)
    ensures |BlockEncoded(data)| == |data| / 3 * 4
  {
    if |data| >= 3 {
      BlockEncodedLength(data[3..]);
      OneTripleLess(|data|);
    }
  }

  lemma StartedTriples(n: nat)
    ensures n / 3 * 4 + (if n % 3 == 0 then 0 else 4) == (n + 2) / 3 * 4
  {
  }

  lemma OneTripleLess(n: nat)
    requires n >= 3
    ensures (n - 3) / 3 * 4 + 4 == n / 3 * 4
    ensures (n - 3) - (n - 3) % 3 == n - n % 3 - 3
  {
  }

  // ---------------------------------------------------------------------------------------
  // Decoding

  /** The three bytes of a group of four characters (the shifts of block_decode, within eight bits). */
  function DecodeGroup(c0: char, c1: char, c2: char, c3: char): (r: seq<Byte>)
    ensures |r| == 3
  {
    SextetBytes(B64d(c0), B64d(c1), B64d(c2), B64d(c3))
  }

  /** Four six-bit values joined into three bytes. */
  function SextetBytes(d0: Sextet, d1: Sextet, d2: Sextet, d3: Sextet): (r: seq<Byte>)
    ensures |r| == 3
  {
    [d0 * 4 + d1 / 16, d1 % 16 * 16 + d2 / 4, d2 % 4 * 64 + d3]
  }

  /**
   * What block_decode produces for s: one group of bytes per four characters while more than
   * three remain; a `=` in the second, third or fourth character of a group ends decoding with
   * 0, 1 or 2 bytes of that group. `stop` is how far the caller's start iterator has advanced.
   */
  function BlockDecoded(s: string): (r: (seq<Byte>, nat))
    ensures r.1 <= |s|
    ensures r.1 == 0 ==> |s| <= 3 && r.0 == []
  {
    if |s| <= 3 then ([], 0)
    else
      var group := DecodeGroup(s[0], s[1], s[2], s[3]);
      if s[1] == '=' then ([], 4)
      else if s[2] == '=' then (group[..1], 4)
      else if s[3] == '=' then (group[..2], 4)
      else
        var rest := BlockDecoded(s[4..]);
        (group + rest.0, rest.1 + 4)
  }

  /**
   * block_decode: writes into a byte vector pre-sized to (end-start)*3/4 and cuts it at the
   * output position.
   */
  method BlockDecode(s: string) returns (bytes: seq<Byte>, stop: nat)
    ensures bytes == BlockDecoded(s).0 && stop == BlockDecoded(s).1
  {
    var output := new Byte[|s| * 3 / 4];
    var start, o := 0, 0;
    ghost var k: nat := 0;
    ghost var done: seq<Byte> := [];
    assert s[start..] == s;
    while |s| - start > 3
      invariant start <= |s| && start == 4 * k && o == 3 * k && o <= output.Length
      invariant output[..o] == done
      invariant done + BlockDecoded(s[start..]).0 == BlockDecoded(s).0
      invariant start + BlockDecoded(s[start..]).1 == BlockDecoded(s).1
      decreases |s| - start
    {
      DecodedFitsAt(|s|, k);
      var written := DecodeGroupAt(output, o, s, start);
      ghost var group := DecodeGroup(s[start], s[start + 1], s[start + 2], s[start + 3]);
      assert output[..o + written] == done + group[..written];
      if written < 3 {
        GroupEnds(s, start);
        return output[..o + written], start + 4;
      }
      GroupContinues(s, start);
      AppendAssociative(done, group, BlockDecoded(s[start + 4..]).0);
      assert group[..3] == group;
      assert output[..o + 3] == done + group;
      done := done + group;
      start, o, k := start + 4, o + 3, k + 1;
    }
    assert BlockDecoded(s[start..]) == ([], 0);
    bytes, stop := output[..o], start;
  }

  /** How many bytes the group whose last three characters are c1, c2, c3 yields: up to the first `=`. */
  function GroupWidth(c1: char, c2: char, c3: char): (r: nat)
    ensures r <= 3
    ensures r == 3 <==> c1 != '=' && c2 != '=' && c3 != '='
  {
    if c1 == '=' then 0 else if c2 == '=' then 1 else if c3 == '=' then 2 else 3
  }

  /** A group with a `=` ends block_decode after its leading bytes. */
  lemma GroupEnds(s: string, start: nat)
    requires start + 3 < |s| && GroupWidth(s[start + 1], s[start + 2], s[start + 3]) < 3
    ensures BlockDecoded(s[start..]).0 == DecodeGroup(s[start], s[start + 1], s[start + 2], s[start + 3])[..GroupWidth(s[start + 1], s[start + 2], s[start + 3])]
    ensures BlockDecoded(s[start..]).1 == 4
  {
  }

  /** A group without `=` yields its three bytes, and block_decode goes on after it. */
  lemma GroupContinues(s: string, start: nat)
    requires start + 3 < |s| && GroupWidth(s[start + 1], s[start + 2], s[start + 3]) == 3
    ensures BlockDecoded(s[start..]).0 == DecodeGroup(s[start], s[start + 1], s[start + 2], s[start + 3]) + BlockDecoded(s[start + 4..]).0
    ensures BlockDecoded(s[start..]).1 == BlockDecoded(s[start + 4..]).1 + 4
  {
    assert s[start..][4..] == s[start + 4..];
  }

  lemma DecodedFitsAt(n: nat, k: nat)
    requires 4 * k + 4 <= n
    ensures 3 * k + 3 <= n * 3 / 4
  {
  }

  /**
   * One iteration of block_decode's loop: the bytes of the group at `start`, written at `o`
   * up to the first `=` after the group's first character.
   */
  method DecodeGroupAt(output: array<Byte>, o: nat, s: string, start: nat) returns (written: nat)
    requires start + 3 < |s| && o + 3 <= output.Length
    modifies output
    ensures written == GroupWidth(s[start + 1], s[start + 2], s[start + 3])
    ensures output[..o + written] == old(output[..o]) + DecodeGroup(s[start], s[start + 1], s[start + 2], s[start + 3])[..written]
  {
    ghost var group := DecodeGroup(s[start], s[start + 1], s[start + 2], s[start + 3]);
    var i: Sextet := B64d(s[start]);
    var buf: Byte := i * 4;
    i := B64d(s[start + 1]);
    if s[start + 1] == '=' {
      return 0;
    }
    buf := buf + i / 16;
    assert buf == group[0];
    output[o] := buf;
    buf := i % 16 * 16;
    i := B64d(s[start + 2]);
    if s[start + 2] == '=' {
      return 1;
    }
    buf := buf + i / 4;
    assert buf == group[1];
    output[o + 1] := buf;
    buf := i % 4 * 64;
    i := B64d(s[start + 3]);
    if s[start + 3] == '=' {
      return 2;
    }
    buf := buf + i;
    assert buf == group[2];
    output[o + 2] := buf;
    return 3;
  }

  /** Each unit of `s` cut to its low eight bits. */
  function TruncatedUnits(s: string): (r: string)
    ensures |r| == |s|
    ensures forall i | 0 <= i < |s| :: r[i] == Truncated(s[i])
  {
    if s == [] then [] else TruncatedUnits(s[..|s| - 1]) + [Truncated(s[|s| - 1])]
  }

  /** The low eight bits of a unit, as decode_raw copies the tail through an unsigned char buffer. */
  function Truncated(c: char): char
  {
    (c as int % 256) as char
  }

  /**
   * What decode_raw returns: the block-decoded bytes, then for a tail of (end - start) % 4
   * characters that many bytes of the decoded zero-filled tail group. Where that group yields
   * fewer bytes (a `=` second, or third of three), the source reads past them: an error here.
   */
  function DecodedRaw(s: string): Result<seq<Byte>, Base64Error>
  {
    var block := BlockDecoded(s);
    DecodedTail(block.0, s[block.1..])
  }

  /** The second half of decode_raw: the block-decoded bytes, then the tail's bytes. */
  function DecodedTail(bytes: seq<Byte>, rest: string): Result<seq<Byte>, Base64Error>
  {
    var count := |rest| % 4;
    if count == 0 then Ok(bytes)
    else
      var extra := BlockDecoded(TailGroup(rest[..count])).0;
      if |extra| < count then Err(TailOverread) else Ok(bytes + extra[..count])
  }

  /** decode_raw's four-unit tail buffer: the low eight bits of the tail, then zeros. */
  function TailGroup(tail: string): (r: string)
    requires |tail| < 4
    ensures |r| == 4
  {
    TruncatedUnits(tail) + Repeat(0 as char, 4 - |tail|)
  }

  /** When block decoding leaves no tail, decode_raw returns what it decoded. */
  lemma DecodedRawWhole(s: string)
    requires BlockDecoded(s).1 == |s|
    ensures DecodedRaw(s) == Ok(BlockDecoded(s).0)
  {
    assert s[|s|..] == [];
  }

  /** decode_raw: block_decode, then the tail through a four-unit buffer. */
  method DecodeRaw(s: string) returns (r: Result<seq<Byte>, Base64Error>)
    ensures r == DecodedRaw(s)
  {
    var bytes, start := BlockDecode(s);
    r := DecodeTail(bytes, s[start..]);
  }

  /** The second half of decode_raw, on the characters block_decode left. */
  method DecodeTail(bytes: seq<Byte>, rest: string) returns (r: Result<seq<Byte>, Base64Error>)
    ensures r == DecodedTail(bytes, rest)
  {
    var count := |rest| % 4;
    RemainderBound(|rest|);
    if count != 0 {
      var temp := TailBuffer(rest[..count]);
      var extra, _ := BlockDecode(temp);
      r := PushTail(bytes, extra, count);
    } else {
      r := Ok(bytes);
    }
  }

  /** decode_raw's last loop: push `count` bytes of `extra`, failing where it would read past them. */
  method PushTail(bytes: seq<Byte>, extra: seq<Byte>, count: nat) returns (r: Result<seq<Byte>, Base64Error>)
    ensures r == if |extra| < count then Err(TailOverread) else Ok(bytes + extra[..count])
  {
    var result, c := bytes, 0;
    while c < count
      invariant 0 <= c <= count && c <= |extra|
      invariant result == bytes + extra[..c]
      decreases count - c
    {
      if c == |extra| {
        return Err(TailOverread);
      }
      result := result + [extra[c]];
      c := c + 1;
    }
    r := Ok(result);
  }

  /** decode_raw's copy of the tail into a zeroed four-unit buffer. */
  method TailBuffer(tail: string) returns (temp: string)
    requires |tail| < 4
    ensures temp == TailGroup(tail)
  {
    var buf := new char[] [0 as char, 0 as char, 0 as char, 0 as char];
    for i := 0 to |tail|
      invariant buf[..] == TailGroup(tail[..i])
    {
      buf[i] := Truncated(tail[i]);
    }
    assert tail[..|tail|] == tail;
    temp := buf[..];
  }

  /** The typed decode: the raw bytes, which must be exactly `size` of them. */
  function DecodedSized(s: string, size: nat): (r: Result<seq<Byte>, Base64Error>)
    ensures r.Ok? <==> DecodedRaw(s).Ok? && |DecodedRaw(s).value| == size
    ensures r.Ok? ==> r.value == DecodedRaw(s).value
    ensures DecodedRaw(s).Ok? && |DecodedRaw(s).value| != size ==> r == Err(SizeMismatch)
  {
    var bytes :- DecodedRaw(s);
    if |bytes| != size then Err(SizeMismatch) else Ok(bytes)
  }

  // ---------------------------------------------------------------------------------------
  // Properties

  /** Decoding the group of three bytes gives them back. */
  lemma GroupRoundTrip(b0: Byte, b1: Byte, b2: Byte)
    ensures var g := EncodeGroup(b0, b1, b2); DecodeGroup(g[0], g[1], g[2], g[3]) == [b0, b1, b2]
  {
    B64eDecodes(b0 / 4);
    B64eDecodes(b0 % 4 * 16 + b1 / 16);
    B64eDecodes(b1 % 16 * 4 + b2 / 64);
    B64eDecodes(b2 % 64);
    SextetsJoin(b0, b1, b2);
  }

  /** The six-bit values of three bytes join back into them. */
  lemma SextetsJoin(b0: Byte, b1: Byte, b2: Byte)
    ensures SextetBytes(b0 / 4, b0 % 4 * 16 + b1 / 16, b1 % 16 * 4 + b2 / 64, b2 % 64) == [b0, b1, b2]
  {
  }

  /**
   * block_decode reads back the groups block_encode writes, consuming all of them, and then
   * goes on with whatever text follows.
   */
  lemma {:induction false} BlockRoundTrip(data: seq<Byte>, after: string)
    requires |data| % 3 == 0
    ensures BlockDecoded(BlockEncoded(data) + after).0 == data + BlockDecoded(after).0
    ensures BlockDecoded(BlockEncoded(data) + after).1 == |BlockEncoded(data)| + BlockDecoded(after).1
  {
    if |data| >= 3 {
      var rest := BlockEncoded(data[3..]);
      BlockEncodedFirst(data, after);
      GroupThenRest(data[0], data[1], data[2], rest + after);
      LessThree(|data|);
      BlockRoundTrip(data[3..], after);
      FirstThree(data, BlockDecoded(after).0);
    } else {
      assert BlockEncoded(data) + after == after;
    }
  }

  lemma WholeTriples(n: nat)
    ensures (n - n % 3) % 3 == 0
  {
  }

  lemma LessThree(n: int)
    requires n % 3 == 0 && n >= 3
    ensures (n - 3) % 3 == 0
  {
  }

  lemma BlockEncodedFirst(data: seq<Byte>, after: string)
    requires |data| >= 3
    ensures BlockEncoded(data) + after == EncodeGroup(data[0], data[1], data[2]) + (BlockEncoded(data[3..]) + after)
    ensures |BlockEncoded(data)| == 4 + |BlockEncoded(data[3..])|
  {
    AppendAssociative(EncodeGroup(data[0], data[1], data[2]), BlockEncoded(data[3..]), after);
  }

  lemma FirstThree<T>(s: seq<T>, x: seq<T>)
    requires |s| >= 3
    ensures [s[0], s[1], s[2]] + (s[3..] + x) == s + x
  {
    assert s == [s[0], s[1], s[2]] + s[3..];
  }

  /** A group block_encode writes, followed by any text, block-decodes to its three bytes and then that text. */
  lemma GroupThenRest(b0: Byte, b1: Byte, b2: Byte, rest: string)
    ensures BlockDecoded(EncodeGroup(b0, b1, b2) + rest).0 == [b0, b1, b2] + BlockDecoded(rest).0
    ensures BlockDecoded(EncodeGroup(b0, b1, b2) + rest).1 == 4 + BlockDecoded(rest).1
  {
    var g := EncodeGroup(b0, b1, b2);
    var e := g + rest;
    assert e[..4] == g && e[4..] == rest;
    EncodeGroupInAlphabet(b0, b1, b2);
    assert InAlphabet(e[1]) && InAlphabet(e[2]) && InAlphabet(e[3]);
    BlockDecodedFirst(e);
    GroupRoundTrip(b0, b1, b2);
  }

  /** A first group without padding gives its three bytes and block decoding goes on after it. */
  lemma BlockDecodedFirst(s: string)
    requires |s| > 3 && s[1] != '=' && s[2] != '=' && s[3] != '='
    ensures BlockDecoded(s).0 == DecodeGroup(s[0], s[1], s[2], s[3]) + BlockDecoded(s[4..]).0
    ensures BlockDecoded(s).1 == BlockDecoded(s[4..]).1 + 4
  {
  }

  /** Every character block_encode writes is in the alphabet, so never `=`. */
  lemma {:induction false} BlockEncodedNoPadding(data: seq<Byte>)
    ensures forall i | 0 <= i < |BlockEncoded(data)| :: InAlphabet(BlockEncoded(data)[i]) && BlockEncoded(data)[i] != '='
  {
    if |data| >= 3 {
      EncodeGroupInAlphabet(data[0], data[1], data[2]);
      BlockEncodedNoPadding(data[3..]);
    }
  }

  /** The final group decodes to the bytes it was made from, consuming all of it. */
  lemma FinalGroupDecodes(tail: seq<Byte>)
    requires |tail| < 3
    ensures BlockDecoded(FinalGroup(tail)).0 == tail
    ensures BlockDecoded(FinalGroup(tail)).1 == |FinalGroup(tail)|
  {
    if |tail| == 1 {
      PaddedOneDecodes(tail[0]);
      assert tail == [tail[0]];
    } else if |tail| == 2 {
      PaddedTwoDecodes(tail[0], tail[1]);
      assert tail == [tail[0], tail[1]];
    }
  }

  lemma PaddedOneDecodes(b0: Byte)
    ensures BlockDecoded(PaddedGroup([b0])).0 == [b0]
    ensures BlockDecoded(PaddedGroup([b0])).1 == 4
  {
    var g := EncodeGroup(b0, 0, 0);
    var p := PaddedGroup([b0]);
    assert p == [g[0], g[1], '=', '='];
    EncodeGroupInAlphabet(b0, 0, 0);
    GroupEndsAt(p, 1);
    GroupRoundTrip(b0, 0, 0);
    LastTwoIgnored(g[0], g[1], g[2], g[3], '=', '=');
  }

  lemma PaddedTwoDecodes(b0: Byte, b1: Byte)
    ensures BlockDecoded(PaddedGroup([b0, b1])).0 == [b0, b1]
    ensures BlockDecoded(PaddedGroup([b0, b1])).1 == 4
  {
    var g := EncodeGroup(b0, b1, 0);
    var p := PaddedGroup([b0, b1]);
    assert p == [g[0], g[1], g[2], '='];
    EncodeGroupInAlphabet(b0, b1, 0);
    GroupEndsAt(p, 2);
    GroupRoundTrip(b0, b1, 0);
    LastIgnored(g[0], g[1], g[2], g[3], '=');
  }

  /** A group of four whose first `=` after its first character is at position n + 1: n bytes, then the end. */
  lemma GroupEndsAt(p: string, n: nat)
    requires |p| == 4 && 1 <= n <= 2 && p[n + 1] == '='
    requires forall i | 1 <= i <= n :: p[i] != '='
    ensures BlockDecoded(p).0 == DecodeGroup(p[0], p[1], p[2], p[3])[..n]
    ensures BlockDecoded(p).1 == 4
  {
  }

  lemma LastIgnored(c0: char, c1: char, c2: char, c3: char, x: char)
    ensures DecodeGroup(c0, c1, c2, c3)[..2] == DecodeGroup(c0, c1, c2, x)[..2]
  {
  }

  lemma LastTwoIgnored(c0: char, c1: char, c2: char, c3: char, x: char, y: char)
    ensures DecodeGroup(c0, c1, c2, c3)[..1] == DecodeGroup(c0, c1, x, y)[..1]
  {
  }

  /** decode_raw inverts encode: the round trip gives back every byte string. */
  lemma DecodeEncodeRoundTrip(data: seq<Byte>)
    ensures DecodedRaw(Encoded(data)) == Ok(data)
  {
    EncodedBlockDecodes(data);
    DecodedRawWhole(Encoded(data));
  }

  /** block_decode alone reads all of encode's output back. */
  lemma EncodedBlockDecodes(data: seq<Byte>)
    ensures BlockDecoded(Encoded(data)).0 == data
    ensures BlockDecoded(Encoded(data)).1 == |Encoded(data)|
  {
    var whole := |data| - |data| % 3;
    var head, tail := data[..whole], data[whole..];
    BlockEncodedPrefix(data);
    WholeTriples(|data|);
    BlockRoundTrip(head, FinalGroup(tail));
    FinalGroupDecodes(tail);
    assert head + tail == data;
  }

  /** block_encode only looks at whole triples. */
  lemma {:induction false} BlockEncodedPrefix(data: seq<Byte>)
    ensures BlockEncoded(data) == BlockEncoded(data[..|data| - |data| % 3])
  {
    if |data| >= 3 {
      var whole := data[..|data| - |data| % 3];
      var rest := data[3..];
      OneTripleLess(|data|);
      BlockEncodedPrefix(rest);
      assert whole[3..] == rest[..|rest| - |rest| % 3];
      assert whole[0] == data[0] && whole[1] == data[1] && whole[2] == data[2];
    }
  }

  /** Without padding, every group of four gives three bytes and a tail of r characters gives r bytes. */
  lemma UnpaddedLength(s: string)
    requires forall i | 0 <= i < |s| :: InAlphabet(s[i])
    ensures DecodedRaw(s).Ok?
    ensures |DecodedRaw(s).value| == |s| / 4 * 3 + |s| % 4
  {
    UnpaddedBlockLength(s);
    var stop := BlockDecoded(s).1;
    WholeGroups(|s|, stop, |BlockDecoded(s).0|);
    if |s| % 4 != 0 {
      TailGroupDecodes(s[stop..]);
      DecodedRawTail(s, |s| % 4);
    } else {
      DecodedRawWhole(s);
    }
  }

  /** decode_raw for a text whose block decoding leaves a tail of r characters that decodes fully. */
  lemma DecodedRawTail(s: string, r: nat)
    requires |s| - BlockDecoded(s).1 == r && 0 < r < 4
    requires |BlockDecoded(TailGroup(s[BlockDecoded(s).1..])).0| == 3
    ensures DecodedRaw(s) == Ok(BlockDecoded(s).0 + BlockDecoded(TailGroup(s[BlockDecoded(s).1..])).0[..r])
  {
    var rest := s[BlockDecoded(s).1..];
    SmallRemainder(r);
    assert |rest| % 4 == r && rest[..r] == rest;
  }

  lemma RemainderBound(n: nat)
    ensures n % 4 <= n && n % 4 < 4
  {
  }

  lemma SmallRemainder(r: nat)
    requires r < 4
    ensures r % 4 == r
  {
  }

  /** decode_raw's buffer for an unpadded tail decodes to a full group of three bytes. */
  lemma TailGroupDecodes(tail: string)
    requires |tail| < 4
    requires forall i | 0 <= i < |tail| :: InAlphabet(tail[i])
    ensures |BlockDecoded(TailGroup(tail)).0| == 3
  {
    var t := TailGroup(tail);
    forall k | 0 <= k < 4
      ensures t[k] != '='
    {
      if k < |tail| {
        assert t[k] == Truncated(tail[k]);
      } else {
        assert t[k] == 0 as char;
      }
    }
    BlockDecodedFirst(t);
    assert BlockDecoded(t[4..]) == ([], 0);
  }

  lemma {:induction false} UnpaddedBlockLength(s: string)
    requires forall i | 0 <= i < |s| :: InAlphabet(s[i])
    ensures BlockDecoded(s).1 <= |s| < BlockDecoded(s).1 + 4 && BlockDecoded(s).1 % 4 == 0
    ensures |BlockDecoded(s).0| * 4 == BlockDecoded(s).1 * 3
  {
    if |s| > 3 {
      assert InAlphabet(s[1]) && InAlphabet(s[2]) && InAlphabet(s[3]);
      UnpaddedBlockLength(s[4..]);
      BlockDecodedFirst(s);
      NextGroup(BlockDecoded(s[4..]).1);
    }
  }

  lemma NextGroup(n: int)
    requires n % 4 == 0
    ensures (n + 4) % 4 == 0
  {
  }

  lemma WholeGroups(n: nat, stop: nat, bytes: nat)
    requires stop <= n < stop + 4 && stop % 4 == 0 && bytes * 4 == stop * 3
    ensures bytes + (n - stop) == n / 4 * 3 + n % 4 && n - stop == n % 4
  {
  }
}
