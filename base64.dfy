/**
 * The `btoa` and `atob` globals of the worker bootstrap (preamble.js:42-43):
 * base64 over binary strings, the encoding of section 4 of RFC 4648.
 *
 * A binary string is a string whose characters each stand for one byte.
 * `btoa` turns it into bytes with `Buffer.from(data, 'binary')`, which keeps
 * the low eight bits of every character code, and encodes those bytes;
 * `atob` decodes base64 text into bytes and reads each byte back as the
 * character with that code.
 */
module Base64 {
  import opened Wrappers

  type Byte = x: int | 0 <= x < 256
  type Sextet = x: int | 0 <= x < 64

  /** The 64 characters of the base64 alphabet (Table 1 of RFC 4648). */
  predicate IsAlphabetChar(c: char) {
    ('A' <= c <= 'Z') || ('a' <= c <= 'z') || ('0' <= c <= '9') || c == '+' || c == '/'
  }

  /** The alphabet character that encodes a 6-bit value. */
  function CharOf(v: Sextet): (c: char)
    ensures IsAlphabetChar(c)
  {
    if v < 26 then ('A' as int + v) as char
    else if v < 52 then ('a' as int + (v - 26)) as char
    else if v < 62 then ('0' as int + (v - 52)) as char
    else if v == 62 then '+'
    else '/'
  }

  /** The 6-bit value an alphabet character stands for; None for any other character. */
  function ValueOf(c: char): (r: Option<Sextet>)
    ensures r.Some? <==> IsAlphabetChar(c)
    ensures r.Some? ==> CharOf(r.value) == c
  {
    if 'A' <= c <= 'Z' then Some(c as int - 'A' as int)
    else if 'a' <= c <= 'z' then Some(c as int - 'a' as int + 26)
    else if '0' <= c <= '9' then Some(c as int - '0' as int + 52)
    else if c == '+' then Some(62)
    else if c == '/' then Some(63)
    else None
  }

  /** Encoding a value and reading the character back gives the value. */
  lemma ValueOfCharOf(v: Sextet)
    ensures ValueOf(CharOf(v)) == Some(v)
  {
  }

  /*
   * A 24-bit group a b c is cut into four 6-bit values: the top six bits of
   * a; the low two bits of a with the top four of b; the low four bits of b
   * with the top two of c; the low six bits of c.
   */
  function Sextet0(a: Byte): Sextet { a / 4 }
  function Sextet1(a: Byte, b: Byte): Sextet { (a % 4) * 16 + b / 16 }
  function Sextet2(b: Byte, c: Byte): Sextet { (b % 16) * 4 + c / 64 }
  function Sextet3(c: Byte): Sextet { c % 64 }

  /* The bytes are put back together from consecutive 6-bit values. */
  function Byte0(v0: Sextet, v1: Sextet): Byte { v0 * 4 + v1 / 16 }
  function Byte1(v1: Sextet, v2: Sextet): Byte { (v1 % 16) * 16 + v2 / 4 }
  function Byte2(v2: Sextet, v3: Sextet): Byte { (v2 % 4) * 64 + v3 }

  lemma BytesFromSextets(a: Byte, b: Byte, c: Byte)
    ensures Byte0(Sextet0(a), Sextet1(a, b)) == a
    ensures Byte1(Sextet1(a, b), Sextet2(b, c)) == b
    ensures Byte2(Sextet2(b, c), Sextet3(c)) == c
  {
  }

  lemma SextetsFromBytes(v0: Sextet, v1: Sextet, v2: Sextet, v3: Sextet)
    ensures Sextet0(Byte0(v0, v1)) == v0
    ensures Sextet1(Byte0(v0, v1), Byte1(v1, v2)) == v1
    ensures Sextet2(Byte1(v1, v2), Byte2(v2, v3)) == v2
    ensures Sextet3(Byte2(v2, v3)) == v3
    ensures v1 % 16 == 0 ==> Sextet1(Byte0(v0, v1), 0) == v1
    ensures v2 % 4 == 0 ==> Sextet2(Byte1(v1, v2), 0) == v2
  {
  }

  /** A full 24-bit group: three bytes become four characters. */
  function EncodeTriple(a: Byte, b: Byte, c: Byte): string {
    [CharOf(Sextet0(a)), CharOf(Sextet1(a, b)), CharOf(Sextet2(b, c)), CharOf(Sextet3(c))]
  }

  /**
   * Base64 encoding: every three bytes become four alphabet characters; a
   * final group of one or two bytes is padded with zero bits and "=".
   */
  function Encode(data: seq<Byte>): (s: string)
    ensures |s| == 4 * ((|data| + 2) / 3)
    ensures forall i :: 0 <= i < |s| ==> IsAlphabetChar(s[i]) || s[i] == '='
    ensures forall i :: 0 <= i < |s| && s[i] == '=' ==> |s| - 2 <= i
    decreases |data|
  {
    if |data| == 0 then
      []
    else if |data| == 1 then
      [CharOf(Sextet0(data[0])), CharOf(Sextet1(data[0], 0)), '=', '=']
    else if |data| == 2 then
      [CharOf(Sextet0(data[0])), CharOf(Sextet1(data[0], data[1])), CharOf(Sextet2(data[1], 0)), '=']
    else
      var head, tail := EncodeTriple(data[0], data[1], data[2]), Encode(data[3..]);
      assert forall i :: 0 <= i < |head| ==> IsAlphabetChar(head[i]);
      assert (|data| + 2) / 3 == (|data| - 1) / 3 + 1;
      head + tail
  }

  /** Four alphabet characters without padding decode to three bytes. */
  function DecodeFull(q: string): Option<seq<Byte>>
    requires |q| == 4
  {
    match (ValueOf(q[0]), ValueOf(q[1]), ValueOf(q[2]), ValueOf(q[3]))
    case (Some(v0), Some(v1), Some(v2), Some(v3)) =>
      Some([Byte0(v0, v1), Byte1(v1, v2), Byte2(v2, v3)])
    case _ => None
  }

  /**
   * The last group of four characters, which may end in "==" (one byte) or
   * "=" (two bytes). The padding bits must be zero, so that every byte
   * string has exactly one encoding (section 3.5 of RFC 4648).
   */
  function DecodeLast(q: string): Option<seq<Byte>>
    requires |q| == 4
  {
    if q[2] == '=' && q[3] == '=' then
      match (ValueOf(q[0]), ValueOf(q[1]))
      case (Some(v0), Some(v1)) =>
        if v1 % 16 == 0 then Some([Byte0(v0, v1)]) else None
      case _ => None
    else if q[3] == '=' then
      match (ValueOf(q[0]), ValueOf(q[1]), ValueOf(q[2]))
      case (Some(v0), Some(v1), Some(v2)) =>
        if v2 % 4 == 0 then Some([Byte0(v0, v1), Byte1(v1, v2)]) else None
      case _ => None
    else
      DecodeFull(q)
  }

  /** Base64 decoding of canonical text; None for any text that is not an encoding. */
  function Decode(s: string): Option<seq<Byte>>
    decreases |s|
  {
    if |s| == 0 then
      Some([])
    else if |s| < 4 then
      None
    else if |s| == 4 then
      DecodeLast(s)
    else
      match (DecodeFull(s[..4]), Decode(s[4..]))
      case (Some(head), Some(tail)) => Some(head + tail)
      case _ => None
  }

  /**
   * Only text whose length is a multiple of four decodes, and every group
   * of four gives three bytes except the last, which gives one to three.
   */
  lemma {:induction false} DecodeLength(s: string)
    requires Decode(s).Some?
    ensures |s| % 4 == 0
    ensures 3 * (|s| / 4) - 2 <= |Decode(s).value| <= 3 * (|s| / 4)
    decreases |s|
  {
    if |s| == 4 {
      LastGroupLength(s);
    } else if |s| > 4 {
      var tail := s[4..];
      DecodeLength(tail);
      assert Decode(s).value == DecodeFull(s[..4]).value + Decode(tail).value;
      assert |s| / 4 == |tail| / 4 + 1;
    }
  }

  lemma LastGroupLength(q: string)
    requires |q| == 4 && DecodeLast(q).Some?
    ensures 1 <= |DecodeLast(q).value| <= 3
  {
  }

  lemma TripleRoundTrip(a: Byte, b: Byte, c: Byte)
    ensures DecodeFull(EncodeTriple(a, b, c)) == Some([a, b, c])
  {
    ValueOfCharOf(Sextet0(a));
    ValueOfCharOf(Sextet1(a, b));
    ValueOfCharOf(Sextet2(b, c));
    ValueOfCharOf(Sextet3(c));
    BytesFromSextets(a, b, c);
  }

  lemma OneByteGroup(a: Byte)
    ensures DecodeLast([CharOf(Sextet0(a)), CharOf(Sextet1(a, 0)), '=', '=']) == Some([a])
  {
    var q := [CharOf(Sextet0(a)), CharOf(Sextet1(a, 0)), '=', '='];
    ValueOfCharOf(Sextet0(a));
    ValueOfCharOf(Sextet1(a, 0));
    assert ValueOf(q[0]) == Some(Sextet0(a)) && ValueOf(q[1]) == Some(Sextet1(a, 0));
    assert Sextet1(a, 0) % 16 == 0;
    assert DecodeLast(q) == Some([Byte0(Sextet0(a), Sextet1(a, 0))]);
    BytesFromSextets(a, 0, 0);
  }

  lemma TwoByteGroup(a: Byte, b: Byte)
    ensures DecodeLast([CharOf(Sextet0(a)), CharOf(Sextet1(a, b)), CharOf(Sextet2(b, 0)), '=']) == Some([a, b])
  {
    var q := [CharOf(Sextet0(a)), CharOf(Sextet1(a, b)), CharOf(Sextet2(b, 0)), '='];
    ValueOfCharOf(Sextet0(a));
    ValueOfCharOf(Sextet1(a, b));
    ValueOfCharOf(Sextet2(b, 0));
    assert ValueOf(q[0]) == Some(Sextet0(a)) && ValueOf(q[1]) == Some(Sextet1(a, b));
    assert ValueOf(q[2]) == Some(Sextet2(b, 0)) && q[2] != '=';
    assert Sextet2(b, 0) % 4 == 0;
    assert DecodeLast(q) == Some([Byte0(Sextet0(a), Sextet1(a, b)), Byte1(Sextet1(a, b), Sextet2(b, 0))]);
    BytesFromSextets(a, b, 0);
  }

  /** A leading unpadded group decodes independently of the groups after it. */
  lemma DecodeConcat(head: string, tail: string, h: seq<Byte>, t: seq<Byte>)
    requires |head| == 4 && |tail| >= 4
    requires DecodeFull(head) == Some(h) && Decode(tail) == Some(t)
    ensures Decode(head + tail) == Some(h + t)
  {
    assert (head + tail)[..4] == head;
    assert (head + tail)[4..] == tail;
  }

  /** A group of three bytes followed by more: what follows decodes independently. */
  lemma GroupStep(data: seq<Byte>)
    requires |data| > 3
    requires Decode(Encode(data[3..])) == Some(data[3..])
    ensures Decode(Encode(data)) == Some(data)
  {
    var head, tail := EncodeTriple(data[0], data[1], data[2]), Encode(data[3..]);
    SplitThree(data);
    assert Encode(data) == head + tail;
    TripleRoundTrip(data[0], data[1], data[2]);
    DecodeConcat(head, tail, [data[0], data[1], data[2]], data[3..]);
  }

  lemma SplitThree<T>(s: seq<T>)
    requires |s| >= 3
    ensures s == [s[0], s[1], s[2]] + s[3..]
  {
  }

  /** A single group of four alphabet characters decodes as a full group. */
  lemma UnpaddedLast(q: string)
    requires |q| == 4 && IsAlphabetChar(q[2]) && IsAlphabetChar(q[3])
    ensures Decode(q) == DecodeFull(q)
  {
  }

  /** Exactly three bytes are one unpadded group. */
  lemma ThreeByteGroup(data: seq<Byte>)
    requires |data| == 3
    ensures Decode(Encode(data)) == Some(data)
  {
    var q := EncodeTriple(data[0], data[1], data[2]);
    assert Encode(data) == q by {
      assert data[3..] == [];
    }
    UnpaddedLast(q);
    TripleRoundTrip(data[0], data[1], data[2]);
    assert data == [data[0], data[1], data[2]];
  }

  /** Decoding undoes encoding, for every byte string. */
  lemma {:induction false} DecodeEncode(data: seq<Byte>)
    ensures Decode(Encode(data)) == Some(data)
    decreases |data|
  {
    if |data| == 1 {
      OneByteGroup(data[0]);
      assert [data[0]] == data;
    } else if |data| == 2 {
      TwoByteGroup(data[0], data[1]);
      assert [data[0], data[1]] == data;
    } else if |data| == 3 {
      ThreeByteGroup(data);
    } else if |data| > 3 {
      DecodeEncode(data[3..]);
      GroupStep(data);
    }
  }

  /** A group that decodes without padding is the encoding of its three bytes. */
  lemma FullGroupEncodes(q: string, bytes: seq<Byte>)
    requires |q| == 4 && DecodeFull(q) == Some(bytes)
    ensures |bytes| == 3 && EncodeTriple(bytes[0], bytes[1], bytes[2]) == q
  {
    var v0, v1, v2, v3 := ValueOf(q[0]).value, ValueOf(q[1]).value, ValueOf(q[2]).value, ValueOf(q[3]).value;
    SextetsFromBytes(v0, v1, v2, v3);
  }

  /** The last group that decodes is the encoding of its one, two or three bytes. */
  lemma LastGroupEncodes(q: string, bytes: seq<Byte>)
    requires |q| == 4 && DecodeLast(q) == Some(bytes)
    ensures Encode(bytes) == q
  {
    if q[2] == '=' && q[3] == '=' {
      var v0, v1 := ValueOf(q[0]).value, ValueOf(q[1]).value;
      SextetsFromBytes(v0, v1, 0, 0);
      assert bytes == [Byte0(v0, v1)];
    } else if q[3] == '=' {
      var v0, v1, v2 := ValueOf(q[0]).value, ValueOf(q[1]).value, ValueOf(q[2]).value;
      SextetsFromBytes(v0, v1, v2, 0);
      assert bytes == [Byte0(v0, v1), Byte1(v1, v2)];
    } else {
      FullGroupEncodes(q, bytes);
      assert Encode(bytes) == EncodeTriple(bytes[0], bytes[1], bytes[2]) + Encode(bytes[3..]);
    }
  }

  /** Encoding undoes decoding: a text that decodes is the encoding of what it decodes to. */
  lemma {:induction false} EncodeDecode(s: string, data: seq<Byte>)
    requires Decode(s) == Some(data)
    ensures Encode(data) == s
    decreases |s|
  {
    if |s| == 4 {
      LastGroupEncodes(s, data);
    } else if |s| > 4 {
      var head := DecodeFull(s[..4]).value;
      var tail := Decode(s[4..]).value;
      FullGroupEncodes(s[..4], head);
      EncodeDecode(s[4..], tail);
      assert data == head + tail;
      assert data[3..] == tail;
      assert Encode(data) == EncodeTriple(data[0], data[1], data[2]) + Encode(tail);
      assert s == s[..4] + s[4..];
    }
  }

  /** The byte `Buffer.from(data, 'binary')` keeps of a character: the low eight bits of its code. */
  function LowByte(c: char): Byte {
    c as int % 256
  }

  /** The character `buffer.toString('binary')` makes of a byte: the one with that code. */
  function ByteChar(b: Byte): char {
    b as char
  }

  lemma LowByteOfByteChar(b: Byte)
    ensures LowByte(ByteChar(b)) == b
  {
  }

  lemma ByteCharOfLowByte(c: char)
    requires c as int < 256
    ensures ByteChar(LowByte(c)) == c
  {
  }

  /** `Buffer.from(data, 'binary')` */
  function BinaryBytes(s: string): (b: seq<Byte>)
    ensures |b| == |s|
  {
    seq(|s|, i requires 0 <= i < |s| => LowByte(s[i]))
  }

  /** `buffer.toString('binary')` */
  function BinaryString(b: seq<Byte>): (s: string)
    ensures |s| == |b|
  {
    seq(|b|, i requires 0 <= i < |b| => ByteChar(b[i]))
  }

  /** The `btoa` global (preamble.js:42). */
  function Btoa(data: string): (r: string)
    ensures |r| == 4 * ((|data| + 2) / 3)
    ensures forall i :: 0 <= i < |r| ==> IsAlphabetChar(r[i]) || r[i] == '='
  {
    Encode(BinaryBytes(data))
  }

  /** The `atob` global (preamble.js:43), on canonical base64 text. */
  function Atob(data: string): (r: Option<string>)
    ensures r.Some? <==> Decode(data).Some?
    ensures r.Some? ==> |r.value| == |Decode(data).value|
    ensures r.Some? ==> forall i :: 0 <= i < |r.value| ==> r.value[i] as int < 256
  {
    match Decode(data)
    case Some(bytes) => Some(BinaryString(bytes))
    case None => None
  }

  /** A binary string survives `btoa` followed by `atob`. */
  lemma AtobBtoa(s: string)
    requires forall i :: 0 <= i < |s| ==> s[i] as int < 256
    ensures Atob(Btoa(s)) == Some(s)
  {
    var bytes := BinaryBytes(s);
    DecodeEncode(bytes);
    assert Decode(Btoa(s)) == Some(bytes);
    forall i | 0 <= i < |s|
      ensures BinaryString(bytes)[i] == s[i]
    {
      ByteCharOfLowByte(s[i]);
    }
    assert BinaryString(bytes) == s;
  }

  /** Base64 text that `atob` accepts is exactly what `btoa` makes of the result. */
  lemma BtoaAtob(text: string, s: string)
    requires Atob(text) == Some(s)
    ensures Btoa(s) == text
  {
    var bytes := Decode(text).value;
    EncodeDecode(text, bytes);
    assert s == BinaryString(bytes);
    forall i | 0 <= i < |bytes|
      ensures BinaryBytes(s)[i] == bytes[i]
    {
      LowByteOfByteChar(bytes[i]);
    }
    assert BinaryBytes(s) == bytes;
  }

  /**
   * Characters above U+00FF are not rejected: `btoa` only sees their low
   * byte, so two strings that agree on the low bytes encode alike.
   */
  lemma BtoaSeesLowBytes(s: string, t: string)
    requires |s| == |t|
    requires forall i :: 0 <= i < |s| ==> LowByte(s[i]) == LowByte(t[i])
    ensures Btoa(s) == Btoa(t)
  {
    assert BinaryBytes(s) == BinaryBytes(t);
  }
}
