/** What the well-formedness of a name means: it is the encoding of a sequence of Unicode scalar
    values (RFC 3629, section 3). */
module Utf8 {
  import opened Platform
  import opened ImageFormat

  type Scalar = c: int | 0 <= c < 0xd800 || 0xe000 <= c < 0x11_0000

  function Encoded(c: Scalar): (bytes: seq<u8>)
    ensures bytes != []
  {
    if c < 0x80 then [c]
    else if c < 0x800 then [0xc0 + c / 0x40, 0x80 + c % 0x40]
    else if c < 0x1_0000 then [0xe0 + c / 0x1000, 0x80 + c / 0x40 % 0x40, 0x80 + c % 0x40]
    else [0xf0 + c / 0x4_0000, 0x80 + c / 0x1000 % 0x40, 0x80 + c / 0x40 % 0x40, 0x80 + c % 0x40]
  }

  function EncodedAll(text: seq<Scalar>): seq<u8> {
    if text == [] then [] else Encoded(text[0]) + EncodedAll(text[1..])
  }

  /** The bytes in front of a well-formed string that make it well-formed. */
  predicate LeadsOn(front: seq<u8>) {
    || (|front| == 1 && front[0] < 0x80)
    || (|front| == 2 && 0xc2 <= front[0] < 0xe0 && Continues(front[1]))
    || (|front| == 3 && 0xe0 <= front[0] < 0xf0 && Continues(front[1]) && Continues(front[2])
        && (front[0] == 0xe0 ==> front[1] >= 0xa0) && (front[0] == 0xed ==> front[1] < 0xa0))
    || (|front| == 4 && 0xf0 <= front[0] < 0xf5 && Continues(front[1]) && Continues(front[2]) && Continues(front[3])
        && (front[0] == 0xf0 ==> front[1] >= 0x90) && (front[0] == 0xf4 ==> front[1] < 0x90))
  }

  lemma EncodedLeadsOn(c: Scalar)
    ensures LeadsOn(Encoded(c))
  {}

  /** Such bytes are the encoding of the scalar value that their low bits spell. */
  lemma Decoded(front: seq<u8>) returns (c: Scalar)
    requires LeadsOn(front)
    ensures Encoded(c) == front
  {
    if |front| == 1 {
      c := front[0];
    } else if |front| == 2 {
      c := DecodedTwo(front[0] - 0xc0, front[1] - 0x80);
    } else if |front| == 3 {
      c := DecodedThree(front[0] - 0xe0, front[1] - 0x80, front[2] - 0x80);
    } else {
      c := DecodedFour(front[0] - 0xf0, front[1] - 0x80, front[2] - 0x80, front[3] - 0x80);
    }
  }

  lemma DecodedTwo(a: int, b: int) returns (c: Scalar)
    requires 2 <= a < 0x20 && 0 <= b < 0x40
    ensures Encoded(c) == [0xc0 + a, 0x80 + b]
  {
    c := 0x40 * a + b;
  }

  lemma DecodedThree(a: int, b: int, d: int) returns (c: Scalar)
    requires 0 <= a < 0x10 && 0 <= b < 0x40 && 0 <= d < 0x40 && (a == 0 ==> b >= 0x20) && (a == 0xd ==> b < 0x20)
    ensures Encoded(c) == [0xe0 + a, 0x80 + b, 0x80 + d]
  {
    c := 0x40 * (0x40 * a + b) + d;
    assert c / 0x40 == 0x40 * a + b;
  }

  lemma DecodedFour(a: int, b: int, d: int, e: int) returns (c: Scalar)
    requires 0 <= a < 5 && 0 <= b < 0x40 && 0 <= d < 0x40 && 0 <= e < 0x40 && (a == 0 ==> b >= 0x10) && (a == 4 ==> b < 0x10)
    ensures Encoded(c) == [0xf0 + a, 0x80 + b, 0x80 + d, 0x80 + e]
  {
    c := 0x40 * (0x40 * (0x40 * a + b) + d) + e;
    assert c / 0x40 == 0x40 * (0x40 * a + b) + d;
    assert c / 0x1000 == 0x40 * a + b;
  }

  lemma LongerIsValid(front: seq<u8>, rest: seq<u8>)
    requires LeadsOn(front) && ValidUtf8(rest)
    ensures ValidUtf8(front + rest)
  {
    assert (front + rest)[|front|..] == rest;
  }

  lemma ValidSplits(s: seq<u8>) returns (front: seq<u8>, rest: seq<u8>)
    requires ValidUtf8(s) && s != []
    ensures s == front + rest && LeadsOn(front) && ValidUtf8(rest)
  {
    var n := if s[0] < 0x80 then 1 else if s[0] < 0xe0 then 2 else if s[0] < 0xf0 then 3 else 4;
    front, rest := s[..n], s[n..];
  }

  lemma {:induction false} EncodingIsValid(text: seq<Scalar>)
    ensures ValidUtf8(EncodedAll(text))
  {
    if text != [] {
      EncodingIsValid(text[1..]);
      EncodedLeadsOn(text[0]);
      hide Encoded, LeadsOn, ValidUtf8;
      LongerIsValid(Encoded(text[0]), EncodedAll(text[1..]));
    }
  }

  lemma {:induction false} ValidIsEncoding(s: seq<u8>) returns (text: seq<Scalar>)
    requires ValidUtf8(s)
    ensures EncodedAll(text) == s
    decreases |s|
  {
    if s == [] {
      text := [];
    } else {
      hide ValidUtf8, Encoded;
      var front, rest := ValidSplits(s);
      var c := Decoded(front);
      var more := ValidIsEncoding(rest);
      text := [c] + more;
      assert text[1..] == more;
    }
  }

  ghost predicate IsText(s: seq<u8>) { exists text :: EncodedAll(text) == s }

  /** A name is accepted as UTF-8 exactly when it encodes some sequence of scalar values. */
  lemma Utf8Exactly(s: seq<u8>)
    ensures ValidUtf8(s) <==> IsText(s)
  {
    if ValidUtf8(s) {
      var text := ValidIsEncoding(s);
    }
    if text :| EncodedAll(text) == s {
      EncodingIsValid(text);
    }
  }
}
