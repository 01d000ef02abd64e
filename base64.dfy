/** Base64 text framing as java.util.Base64's basic encoder and decoder do
    it: the alphabet of section 4 of RFC 4648, with '=' padding on output.
    The decoder accepts a final unit with or without its padding, rejects any
    character outside the alphabet, a padding character where none can be,
    and anything after the padding; like the JDK it does not check that the
    unused low bits of a padded unit are zero. */
module Base64 {
  import opened UdfTypes

  /** Index of a character in the Base 64 alphabet. */
  type Sextet = x: int | 0 <= x < 64

  const Pad: char := '='

  /** The character of index i in Table 1 of RFC 4648. */
  function CharOf(i: Sextet): char {
    if i < 26 then ('A' as int + i) as char
    else if i < 52 then ('a' as int + (i - 26)) as char
    else if i < 62 then ('0' as int + (i - 52)) as char
    else if i == 62 then '+'
    else '/'
  }

  /** The index of c in that alphabet, or None when c is not one of its
      64 characters (the padding character included). */
  function SextetOf(c: char): (r: Option<Sextet>)
    ensures r.Some? ==> CharOf(r.value) == c
  {
    if 'A' <= c <= 'Z' then Some(c as int - 'A' as int)
    else if 'a' <= c <= 'z' then Some(c as int - 'a' as int + 26)
    else if '0' <= c <= '9' then Some(c as int - '0' as int + 52)
    else if c == '+' then Some(62)
    else if c == '/' then Some(63)
    else None
  }

  lemma SextetOfCharOf(i: Sextet)
    ensures SextetOf(CharOf(i)) == Some(i)
  {
  }

  predicate InAlphabet(c: char) {
    SextetOf(c).Some?
  }

  function Value(c: char): Sextet
    requires InAlphabet(c)
  {
    SextetOf(c).value
  }

  /** Four characters for three bytes: 24 bits read as four 6-bit groups,
      most significant first. */
  function EncodeUnit(b0: byte, b1: byte, b2: byte): string {
    [CharOf(b0 / 4), CharOf((b0 % 4) * 16 + b1 / 16), CharOf((b1 % 16) * 4 + b2 / 64), CharOf(b2 % 64)]
  }

  function Encode(data: Bytes): (s: string)
    ensures |s| == 4 * ((|data| + 2) / 3)
    decreases |data|
  {
    if |data| == 0 then []
    else if |data| == 1 then
      [CharOf(data[0] / 4), CharOf((data[0] % 4) * 16), Pad, Pad]
    else if |data| == 2 then
      [CharOf(data[0] / 4), CharOf((data[0] % 4) * 16 + data[1] / 16), CharOf((data[1] % 16) * 4), Pad]
    else
      EncodeUnit(data[0], data[1], data[2]) + Encode(data[3..])
  }

  function Byte0(c0: Sextet, c1: Sextet): byte {
    c0 * 4 + c1 / 16
  }

  function Byte1(c1: Sextet, c2: Sextet): byte {
    (c1 % 16) * 16 + c2 / 4
  }

  function Byte2(c2: Sextet, c3: Sextet): byte {
    (c2 % 4) * 64 + c3
  }

  predicate IsFullUnit(s: string)
    requires |s| >= 4
  {
    InAlphabet(s[0]) && InAlphabet(s[1]) && InAlphabet(s[2]) && InAlphabet(s[3])
  }

  /** The last unit when it is not four alphabet characters: two or three
      alphabet characters, each optionally followed by its padding. */
  function DecodeLast(s: string): Option<Bytes> {
    if |s| == 2 && InAlphabet(s[0]) && InAlphabet(s[1]) then
      Some([Byte0(Value(s[0]), Value(s[1]))])
    else if |s| == 3 && InAlphabet(s[0]) && InAlphabet(s[1]) && InAlphabet(s[2]) then
      Some([Byte0(Value(s[0]), Value(s[1])), Byte1(Value(s[1]), Value(s[2]))])
    else if |s| == 4 && InAlphabet(s[0]) && InAlphabet(s[1]) && s[2] == Pad && s[3] == Pad then
      Some([Byte0(Value(s[0]), Value(s[1]))])
    else if |s| == 4 && InAlphabet(s[0]) && InAlphabet(s[1]) && InAlphabet(s[2]) && s[3] == Pad then
      Some([Byte0(Value(s[0]), Value(s[1])), Byte1(Value(s[1]), Value(s[2]))])
    else None
  }

  /** Base64.getDecoder().decode: None where the JDK throws
      IllegalArgumentException. */
  function Decode(s: string): Option<Bytes>
    decreases |s|
  {
    if |s| == 0 then Some([])
    else if |s| >= 4 && IsFullUnit(s) then
      match Decode(s[4..])
      case None => None
      case Some(rest) =>
        Some([Byte0(Value(s[0]), Value(s[1])), Byte1(Value(s[1]), Value(s[2])), Byte2(Value(s[2]), Value(s[3]))] + rest)
    else DecodeLast(s)
  }

  /** The number of alphabet characters at the front of s. */
  function AlphabetPrefix(s: string): (n: nat)
    ensures n <= |s|
    ensures forall i :: 0 <= i < n ==> InAlphabet(s[i])
    ensures n < |s| ==> !InAlphabet(s[n])
  {
    if |s| == 0 || !InAlphabet(s[0]) then 0 else 1 + AlphabetPrefix(s[1..])
  }

  /** The texts the basic decoder accepts, stated on the whole text: alphabet
      characters followed only by padding; with no padding the alphabet part
      must not end in a single dangling character, and padding must be one
      '=' after three characters of the last unit or two after two. */
  predicate Acceptable(s: string) {
    var n := AlphabetPrefix(s);
    var p := |s| - n;
    && (forall i :: n <= i < |s| ==> s[i] == Pad)
    && (if p == 0 then n % 4 != 1 else (p == 1 && n % 4 == 3) || (p == 2 && n % 4 == 2))
  }

  /** Three bytes per four alphabet characters, and one or two for the two or
      three characters of a partial last unit. */
  function DecodedLength(s: string): nat {
    var n := AlphabetPrefix(s);
    3 * (n / 4) + (if n % 4 == 2 then 1 else if n % 4 == 3 then 2 else 0)
  }

  lemma PrefixAfterUnit(s: string)
    requires |s| >= 4 && IsFullUnit(s)
    ensures AlphabetPrefix(s) == 4 + AlphabetPrefix(s[4..])
  {
    assert s[1..][1..][1..][1..] == s[4..];
  }

  lemma AcceptableAfterUnit(s: string)
    requires |s| >= 4 && IsFullUnit(s)
    ensures Acceptable(s) <==> Acceptable(s[4..])
    ensures DecodedLength(s) == 3 + DecodedLength(s[4..])
  {
    PrefixAfterUnit(s);
    var n := AlphabetPrefix(s);
    var t := s[4..];
    assert forall i :: n <= i < |s| ==> s[i] == t[i - 4];
    assert (forall i :: n <= i < |s| ==> s[i] == Pad) <==> (forall j :: n - 4 <= j < |t| ==> t[j] == Pad) by {
      if forall j :: n - 4 <= j < |t| ==> t[j] == Pad {
        forall i | n <= i < |s| ensures s[i] == Pad {
          assert t[i - 4] == Pad;
        }
      }
    }
  }

  lemma DecodeLastAccepts(s: string)
    requires |s| > 0 && !(|s| >= 4 && IsFullUnit(s))
    ensures DecodeLast(s).Some? <==> Acceptable(s)
    ensures DecodeLast(s).Some? ==> |DecodeLast(s).value| == DecodedLength(s)
  {
    var n := AlphabetPrefix(s);
    assert n < 4;
    if Acceptable(s) {
      assert |s| <= 4;
      if |s| == 4 {
        assert s[3] == Pad;
      }
    }
  }

  /** Decode succeeds exactly on the acceptable texts, with three bytes per
      full unit and one or two for a partial last unit. */
  lemma {:induction false} DecodeAccepts(s: string)
    ensures Decode(s).Some? <==> Acceptable(s)
    ensures Decode(s).Some? ==> |Decode(s).value| == DecodedLength(s)
    decreases |s|
  {
    if |s| == 0 {
    } else if |s| >= 4 && IsFullUnit(s) {
      DecodeAccepts(s[4..]);
      AcceptableAfterUnit(s);
    } else {
      DecodeLastAccepts(s);
    }
  }

  lemma UnitRoundTrip(b0: byte, b1: byte, b2: byte)
    ensures var u := EncodeUnit(b0, b1, b2);
      IsFullUnit(u)
      && Byte0(Value(u[0]), Value(u[1])) == b0
      && Byte1(Value(u[1]), Value(u[2])) == b1
      && Byte2(Value(u[2]), Value(u[3])) == b2
  {
    SextetOfCharOf(b0 / 4);
    SextetOfCharOf((b0 % 4) * 16 + b1 / 16);
    SextetOfCharOf((b1 % 16) * 4 + b2 / 64);
    SextetOfCharOf(b2 % 64);
  }

  lemma DecodeEncodeOne(b0: byte)
    ensures Decode(Encode([b0])) == Some([b0])
  {
    var c0, c1 := b0 / 4, (b0 % 4) * 16;
    SextetOfCharOf(c0);
    SextetOfCharOf(c1);
    var s := Encode([b0]);
    assert s == [CharOf(c0), CharOf(c1), Pad, Pad];
    assert !InAlphabet(s[2]);
    assert Byte0(c0, c1) == b0;
  }

  lemma DecodeEncodeTwo(b0: byte, b1: byte)
    ensures Decode(Encode([b0, b1])) == Some([b0, b1])
  {
    var c0, c1, c2 := b0 / 4, (b0 % 4) * 16 + b1 / 16, (b1 % 16) * 4;
    SextetOfCharOf(c0);
    SextetOfCharOf(c1);
    SextetOfCharOf(c2);
    var s := Encode([b0, b1]);
    assert s == [CharOf(c0), CharOf(c1), CharOf(c2), Pad];
    assert !InAlphabet(s[3]);
    assert Byte0(c0, c1) == b0;
    assert Byte1(c1, c2) == b1;
  }

  /** A text that starts with a full unit decodes to that unit's three
      bytes in front of what the rest decodes to. */
  lemma DecodeAfterFullUnit(s: string, tail: Bytes)
    requires |s| >= 4 && IsFullUnit(s)
    requires Decode(s[4..]) == Some(tail)
    ensures Decode(s) == Some([Byte0(Value(s[0]), Value(s[1])), Byte1(Value(s[1]), Value(s[2])), Byte2(Value(s[2]), Value(s[3]))] + tail)
  {
  }

  /** Decoding a full unit the encoder wrote, followed by a decodable text,
      gives the unit's three bytes in front of that text's bytes. */
  lemma DecodeUnitThen(b0: byte, b1: byte, b2: byte, rest: string, tail: Bytes)
    requires Decode(rest) == Some(tail)
    ensures Decode(EncodeUnit(b0, b1, b2) + rest) == Some([b0, b1, b2] + tail)
  {
    var u := EncodeUnit(b0, b1, b2);
    var s := u + rest;
    UnitRoundTrip(b0, b1, b2);
    assert s[0] == u[0] && s[1] == u[1] && s[2] == u[2] && s[3] == u[3];
    assert s[4..] == rest;
    DecodeAfterFullUnit(s, tail);
  }

  /** Encoding three or more bytes puts a full unit in front of the
      encoding of the rest, and decoding takes it off again. */
  lemma DecodeEncodeStep(data: Bytes)
    requires |data| >= 3
    requires Decode(Encode(data[3..])) == Some(data[3..])
    ensures Decode(Encode(data)) == Some(data)
  {
    SplitFront(data);
    DecodeUnitThen(data[0], data[1], data[2], Encode(data[3..]), data[3..]);
  }

  lemma SplitFront(data: Bytes)
    requires |data| >= 3
    ensures data == [data[0], data[1], data[2]] + data[3..]
  {
  }

  /** Decoding inverts encoding, for every byte string. */
  lemma {:induction false} DecodeEncode(data: Bytes)
    ensures Decode(Encode(data)) == Some(data)
    decreases |data|
  {
    if |data| == 1 {
      assert data == [data[0]];
      DecodeEncodeOne(data[0]);
    } else if |data| == 2 {
      assert data == [data[0], data[1]];
      DecodeEncodeTwo(data[0], data[1]);
    } else if |data| >= 3 {
      DecodeEncode(data[3..]);
      DecodeEncodeStep(data);
    }
  }

  /** Two byte strings with the same encoding are equal. */
  lemma EncodeInjective(a: Bytes, b: Bytes)
    requires Encode(a) == Encode(b)
    ensures a == b
  {
    DecodeEncode(a);
    DecodeEncode(b);
  }

  /** A text whose length leaves one character over a whole number of
      four-character units is always rejected: one character cannot carry
      a byte. */
  lemma {:induction false} DecodeRejectsDanglingCharacter(s: string)
    requires |s| % 4 == 1
    ensures Decode(s) == None
    decreases |s|
  {
    if |s| >= 4 && IsFullUnit(s) {
      DecodeRejectsDanglingCharacter(s[4..]);
    }
  }
}
