/**
 * Base64 encoding with the standard alphabet and '=' padding (section 4 of RFC 4648), as
 * Convert.ToBase64String produces it, with the matching decoder.
 */
module Base64 {
  import opened Wrappers

  newtype byte = x: int | 0 <= x < 256

  /** Table 1 of RFC 4648: the character that encodes the 6-bit value `v`. */
  function Digit(v: int): (c: char)
    requires 0 <= v < 64
  {
    if v < 26 then (65 + v) as char
    else if v < 52 then (97 + v - 26) as char
    else if v < 62 then (48 + v - 52) as char
    else if v == 62 then '+'
    else '/'
  }

  /** The 6-bit value a character encodes, or None for a character outside the alphabet. */
  function Value(c: char): (r: Option<int>)
    ensures r.Some? ==> 0 <= r.value < 64
  {
    if 'A' <= c <= 'Z' then Some(c as int - 65)
    else if 'a' <= c <= 'z' then Some(c as int - 97 + 26)
    else if '0' <= c <= '9' then Some(c as int - 48 + 52)
    else if c == '+' then Some(62)
    else if c == '/' then Some(63)
    else None
  }

  predicate IsDigit(c: char) {
    Value(c).Some?
  }

  lemma ValueOfDigit(v: int)
    requires 0 <= v < 64
    ensures Value(Digit(v)) == Some(v)
  {
  }

  /** Encode: every group of three bytes becomes four characters; a short last group is padded. */
  function Encode(b: seq<byte>): string
    decreases |b|
  {
    if |b| == 0 then ""
    else if |b| == 1 then
      [Digit(b[0] as int / 4), Digit(b[0] as int % 4 * 16), '=', '=']
    else if |b| == 2 then
      [Digit(b[0] as int / 4), Digit(b[0] as int % 4 * 16 + b[1] as int / 16), Digit(b[1] as int % 16 * 4), '=']
    else
      [Digit(b[0] as int / 4), Digit(b[0] as int % 4 * 16 + b[1] as int / 16),
       Digit(b[1] as int % 16 * 4 + b[2] as int / 64), Digit(b[2] as int % 64)] + Encode(b[3..])
  }

  /** Decode: the inverse of Encode on every string it produces. */
  function Decode(s: string): Option<seq<byte>>
    decreases |s|
  {
    if |s| == 0 then Some([])
    else if |s| < 4 || !IsDigit(s[0]) || !IsDigit(s[1]) then None
    else
      var v0, v1 := Value(s[0]).value, Value(s[1]).value;
      var b0 := (v0 * 4 + v1 / 16) as byte;
      if |s| == 4 && s[2] == '=' && s[3] == '=' then Some([b0])
      else if !IsDigit(s[2]) then None
      else
        var v2 := Value(s[2]).value;
        var b1 := (v1 % 16 * 16 + v2 / 4) as byte;
        if |s| == 4 && s[3] == '=' then Some([b0, b1])
        else if !IsDigit(s[3]) then None
        else
          var v3 := Value(s[3]).value;
          var b2 := (v2 % 4 * 64 + v3) as byte;
          match Decode(s[4..])
          case None => None
          case Some(rest) => Some([b0, b1, b2] + rest)
  }

  /** Four output characters per started group of three input bytes. */
  lemma {:induction false} EncodedLength(b: seq<byte>)
    ensures |Encode(b)| == 4 * ((|b| + 2) / 3)
    decreases |b|
  {
    if |b| > 2 {
      EncodedLength(b[3..]);
      assert (|b| + 2) / 3 == (|b[3..]| + 2) / 3 + 1;
    }
  }

  /** Every character is from the alphabet, except the padding '=' at the end. */
  lemma {:induction false} EncodedAlphabet(b: seq<byte>)
    ensures forall i :: 0 <= i < |Encode(b)| ==> IsDigit(Encode(b)[i]) || (Encode(b)[i] == '=' && i >= |Encode(b)| - 2)
    decreases |b|
  {
    if |b| > 2 {
      EncodedAlphabet(b[3..]);
      var head := Encode(b)[..4];
      ValueOfDigit(b[0] as int / 4);
      ValueOfDigit(b[0] as int % 4 * 16 + b[1] as int / 16);
      ValueOfDigit(b[1] as int % 16 * 4 + b[2] as int / 64);
      ValueOfDigit(b[2] as int % 64);
      assert Encode(b) == head + Encode(b[3..]);
    } else if |b| == 2 {
      ValueOfDigit(b[0] as int / 4);
      ValueOfDigit(b[0] as int % 4 * 16 + b[1] as int / 16);
      ValueOfDigit(b[1] as int % 16 * 4);
    } else if |b| == 1 {
      ValueOfDigit(b[0] as int / 4);
      ValueOfDigit(b[0] as int % 4 * 16);
    }
  }

  /** The byte arithmetic of one full group inverts. */
  lemma GroupRoundTrip(b0: int, b1: int, b2: int)
    requires 0 <= b0 < 256 && 0 <= b1 < 256 && 0 <= b2 < 256
    ensures (b0 / 4) * 4 + (b0 % 4 * 16 + b1 / 16) / 16 == b0
    ensures (b0 % 4 * 16 + b1 / 16) % 16 * 16 + (b1 % 16 * 4 + b2 / 64) / 4 == b1
    ensures (b1 % 16 * 4 + b2 / 64) % 4 * 64 + b2 % 64 == b2
  {
  }

  /** Decoding an encoding gives back the bytes: distinct byte strings have distinct encodings. */
  lemma {:induction false} DecodeEncode(b: seq<byte>)
    ensures Decode(Encode(b)) == Some(b)
    decreases |b|
  {
    if |b| == 1 {
      DecodeEncodeOne(b);
    } else if |b| == 2 {
      DecodeEncodeTwo(b);
    } else if |b| > 2 {
      DecodeEncode(b[3..]);
      DecodeEncodeGroup(b);
    }
  }

  lemma DecodeEncodeOne(b: seq<byte>)
    requires |b| == 1
    ensures Decode(Encode(b)) == Some(b)
  {
    var x0 := b[0] as int;
    var v0, v1 := x0 / 4, x0 % 4 * 16;
    var s := Encode(b);
    assert |s| == 4 && s[2] == '=' && s[3] == '=' && Value(s[0]) == Some(v0) && Value(s[1]) == Some(v1) by {
      assert s == [Digit(v0), Digit(v1), '=', '='];
      ValueOfDigit(v0);
      ValueOfDigit(v1);
    }
    DecodeOneByte(s, v0, v1);
    GroupRoundTrip(x0, 0, 0);
    assert b == [b[0]];
  }

  /** A group of two alphabet characters and two '=' decodes to one byte. */
  lemma DecodeOneByte(s: string, v0: int, v1: int)
    requires |s| == 4 && s[2] == '=' && s[3] == '='
    requires Value(s[0]) == Some(v0) && Value(s[1]) == Some(v1)
    ensures Decode(s) == Some([(v0 * 4 + v1 / 16) as byte])
  {
  }

  lemma DecodeEncodeTwo(b: seq<byte>)
    requires |b| == 2
    ensures Decode(Encode(b)) == Some(b)
  {
    var x0, x1 := b[0] as int, b[1] as int;
    var v0, v1, v2 := x0 / 4, x0 % 4 * 16 + x1 / 16, x1 % 16 * 4;
    var s := Encode(b);
    assert |s| == 4 && s[3] == '=' && Value(s[0]) == Some(v0) && Value(s[1]) == Some(v1) && Value(s[2]) == Some(v2) by {
      assert s == [Digit(v0), Digit(v1), Digit(v2), '='];
      ValueOfDigit(v0);
      ValueOfDigit(v1);
      ValueOfDigit(v2);
    }
    DecodeTwoBytes(s, v0, v1, v2);
    TwoBytes(b, v0, v1, v2);
  }

  /** The two bytes recovered from the three digits of a short group are the group's bytes. */
  lemma TwoBytes(b: seq<byte>, v0: int, v1: int, v2: int)
    requires |b| == 2
    requires v0 == b[0] as int / 4 && v1 == b[0] as int % 4 * 16 + b[1] as int / 16 && v2 == b[1] as int % 16 * 4
    ensures 0 <= v0 * 4 + v1 / 16 < 256 && 0 <= v1 % 16 * 16 + v2 / 4 < 256
    ensures [(v0 * 4 + v1 / 16) as byte, (v1 % 16 * 16 + v2 / 4) as byte] == b
  {
    GroupRoundTrip(b[0] as int, b[1] as int, 0);
  }

  /** A group of three alphabet characters and one '=' decodes to two bytes. */
  lemma DecodeTwoBytes(s: string, v0: int, v1: int, v2: int)
    requires |s| == 4 && s[3] == '='
    requires Value(s[0]) == Some(v0) && Value(s[1]) == Some(v1) && Value(s[2]) == Some(v2)
    ensures Decode(s) == Some([(v0 * 4 + v1 / 16) as byte, (v1 % 16 * 16 + v2 / 4) as byte])
  {
    assert s[2] != '=';
  }

  lemma DecodeEncodeGroup(b: seq<byte>)
    requires |b| > 2 && Decode(Encode(b[3..])) == Some(b[3..])
    ensures Decode(Encode(b)) == Some(b)
  {
    var x0, x1, x2 := b[0] as int, b[1] as int, b[2] as int;
    var v0, v1, v2, v3 := x0 / 4, x0 % 4 * 16 + x1 / 16, x1 % 16 * 4 + x2 / 64, x2 % 64;
    var s := Encode(b);
    assert s[4..] == Encode(b[3..]) && Value(s[0]) == Some(v0) && Value(s[1]) == Some(v1)
      && Value(s[2]) == Some(v2) && Value(s[3]) == Some(v3) by {
      assert s == [Digit(v0), Digit(v1), Digit(v2), Digit(v3)] + Encode(b[3..]);
      ValueOfDigit(v0);
      ValueOfDigit(v1);
      ValueOfDigit(v2);
      ValueOfDigit(v3);
    }
    DecodeFullGroup(s, v0, v1, v2, v3, b[3..]);
    GroupBytes(b, v0, v1, v2, v3);
  }

  /** The three bytes recovered from the four digits of a full group are the group's bytes. */
  lemma GroupBytes(b: seq<byte>, v0: int, v1: int, v2: int, v3: int)
    requires |b| > 2
    requires v0 == b[0] as int / 4 && v1 == b[0] as int % 4 * 16 + b[1] as int / 16
    requires v2 == b[1] as int % 16 * 4 + b[2] as int / 64 && v3 == b[2] as int % 64
    ensures 0 <= v0 * 4 + v1 / 16 < 256 && 0 <= v1 % 16 * 16 + v2 / 4 < 256 && 0 <= v2 % 4 * 64 + v3 < 256
    ensures [(v0 * 4 + v1 / 16) as byte, (v1 % 16 * 16 + v2 / 4) as byte, (v2 % 4 * 64 + v3) as byte] + b[3..] == b
  {
    GroupRoundTrip(b[0] as int, b[1] as int, b[2] as int);
    assert b == b[..3] + b[3..];
  }

  /** A string that starts with four alphabet characters decodes to three bytes and the rest. */
  lemma DecodeFullGroup(s: string, v0: int, v1: int, v2: int, v3: int, rest: seq<byte>)
    requires |s| >= 4 && Decode(s[4..]) == Some(rest)
    requires Value(s[0]) == Some(v0) && Value(s[1]) == Some(v1)
    requires Value(s[2]) == Some(v2) && Value(s[3]) == Some(v3)
    ensures Decode(s) == Some([(v0 * 4 + v1 / 16) as byte, (v1 % 16 * 16 + v2 / 4) as byte, (v2 % 4 * 64 + v3) as byte] + rest)
  {
    assert s[2] != '=' && s[3] != '=';
  }
}
