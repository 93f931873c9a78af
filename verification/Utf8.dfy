/**
 UTF-8 from its code points (section 3 of RFC 3629), and that the octets the server takes for
 text are exactly the encodings of such points.
 */
module Utf8 {
  import opened Octets
  import opened QueryReader

  /** A code point that is no surrogate. */
  predicate Scalar(c: nat) { c < 0xD800 || 0xE000 <= c < 0x11_0000 }

  function EncodePoint(c: nat): (s: Bytes)
    requires Scalar(c)
    ensures 1 <= |s| <= 4
  {
    if c < 0x80 then [c]
    else if c < 0x800 then [192 + c / 64, 128 + c % 64]
    else if c < 0x1_0000 then [224 + c / 4096, 128 + (c / 64) % 64, 128 + c % 64]
    else [240 + c / 262144, 128 + (c / 4096) % 64, 128 + (c / 64) % 64, 128 + c % 64]
  }

  predicate Scalars(cs: seq<nat>) { forall c | c in cs :: Scalar(c) }

  function EncodePoints(cs: seq<nat>): Bytes
    requires Scalars(cs)
  {
    if cs == [] then []
    else
      assert cs[0] in cs && forall c | c in cs[1..] :: c in cs;
      EncodePoint(cs[0]) + EncodePoints(cs[1..])
  }

  ghost predicate IsUtf8(s: Bytes) { exists cs :: Scalars(cs) && EncodePoints(cs) == s }

  // ----- encodings are accepted ------------------------------------------------

  lemma AfterOne(a: byte, rest: Bytes)
    requires a < 0x80
    ensures ValidUtf8([a] + rest) <==> ValidUtf8(rest)
  {
    assert ([a] + rest)[1..] == rest;
  }

  lemma AfterTwo(a: byte, b: byte, rest: Bytes)
    requires 0xC2 <= a <= 0xDF && Continuation(b)
    ensures ValidUtf8([a, b] + rest) <==> ValidUtf8(rest)
  {
    assert ([a, b] + rest)[2..] == rest;
  }

  lemma AfterThree(a: byte, b: byte, c: byte, rest: Bytes)
    requires 0xE0 <= a <= 0xEF && Continuation(b) && Continuation(c)
    requires (a == 0xE0 ==> b >= 0xA0) && (a == 0xED ==> b <= 0x9F)
    ensures ValidUtf8([a, b, c] + rest) <==> ValidUtf8(rest)
  {
    assert ([a, b, c] + rest)[3..] == rest;
  }

  lemma AfterFour(a: byte, b: byte, c: byte, d: byte, rest: Bytes)
    requires 0xF0 <= a <= 0xF4 && Continuation(b) && Continuation(c) && Continuation(d)
    requires (a == 0xF0 ==> b >= 0x90) && (a == 0xF4 ==> b <= 0x8F)
    ensures ValidUtf8([a, b, c, d] + rest) <==> ValidUtf8(rest)
  {
    assert ([a, b, c, d] + rest)[4..] == rest;
  }

  lemma AfterPoint(c: nat, rest: Bytes)
    requires Scalar(c)
    ensures ValidUtf8(EncodePoint(c) + rest) <==> ValidUtf8(rest)
  {
    hide ValidUtf8;
    if c < 0x80 {
      AfterOne(c, rest);
    } else if c < 0x800 {
      AfterTwo(192 + c / 64, 128 + c % 64, rest);
    } else if c < 0x1_0000 {
      AfterThree(224 + c / 4096, 128 + (c / 64) % 64, 128 + c % 64, rest);
    } else {
      AfterFour(240 + c / 262144, 128 + (c / 4096) % 64, 128 + (c / 64) % 64, 128 + c % 64, rest);
    }
  }

  lemma {:induction false} EncodedIsAccepted(cs: seq<nat>)
    requires Scalars(cs)
    ensures ValidUtf8(EncodePoints(cs))
  {
    hide EncodePoint;
    if cs != [] {
      assert cs[0] in cs && forall c | c in cs[1..] :: c in cs;
      EncodedIsAccepted(cs[1..]);
      AfterPoint(cs[0], EncodePoints(cs[1..]));
    }
  }

  // ----- and nothing else ------------------------------------------------------

  lemma OnePoint(a: byte)
    requires a < 0x80
    ensures Scalar(a) && EncodePoint(a) == [a]
  {
  }

  lemma TwoPoint(a: byte, b: byte) returns (p: nat)
    requires 0xC2 <= a <= 0xDF && Continuation(b)
    ensures Scalar(p) && EncodePoint(p) == [a, b]
  {
    p := 64 * (a as int - 192) + (b as int - 128);
  }

  lemma ThreePoint(a: byte, b: byte, c: byte) returns (p: nat)
    requires 0xE0 <= a <= 0xEF && Continuation(b) && Continuation(c)
    requires (a == 0xE0 ==> b >= 0xA0) && (a == 0xED ==> b <= 0x9F)
    ensures Scalar(p) && EncodePoint(p) == [a, b, c]
  {
    p := 4096 * (a as int - 224) + 64 * (b as int - 128) + (c as int - 128);
    assert p / 64 == 64 * (a as int - 224) + (b as int - 128);
    assert p / 4096 == a as int - 224;
  }

  lemma FourPoint(a: byte, b: byte, c: byte, d: byte) returns (p: nat)
    requires 0xF0 <= a <= 0xF4 && Continuation(b) && Continuation(c) && Continuation(d)
    requires (a == 0xF0 ==> b >= 0x90) && (a == 0xF4 ==> b <= 0x8F)
    ensures Scalar(p) && EncodePoint(p) == [a, b, c, d]
  {
    p := 262144 * (a as int - 240) + 4096 * (b as int - 128) + 64 * (c as int - 128) + (d as int - 128);
    assert p / 64 == 4096 * (a as int - 240) + 64 * (b as int - 128) + (c as int - 128);
    assert p / 4096 == 64 * (a as int - 240) + (b as int - 128);
    assert p / 262144 == a as int - 240;
  }

  /** The first code point of an accepted text, and the accepted rest behind it. */
  lemma FirstPoint(s: Bytes) returns (p: nat)
    requires s != [] && ValidUtf8(s)
    ensures Scalar(p) && EncodePoint(p) <= s && ValidUtf8(s[|EncodePoint(p)|..])
  {
    hide EncodePoint, Scalar;
    if s[0] < 0x80 {
      p := s[0];
      OnePoint(s[0]);
    } else if s[0] <= 0xDF {
      p := TwoPoint(s[0], s[1]);
    } else if s[0] <= 0xEF {
      p := ThreePoint(s[0], s[1], s[2]);
    } else {
      p := FourPoint(s[0], s[1], s[2], s[3]);
    }
  }

  lemma {:induction false} AcceptedIsEncoded(s: Bytes) returns (cs: seq<nat>)
    requires ValidUtf8(s)
    ensures Scalars(cs) && EncodePoints(cs) == s
    decreases |s|
  {
    hide ValidUtf8, EncodePoint, Scalar;
    if s == [] {
      cs := [];
    } else {
      var c := FirstPoint(s);
      var n := |EncodePoint(c)|;
      var rest := AcceptedIsEncoded(s[n..]);
      cs := [c] + rest;
      assert cs[0] == c && cs[1..] == rest;
      assert s == EncodePoint(c) + s[n..];
    }
  }

  /** The server takes octets for text exactly when they encode code points. */
  lemma TextIsUtf8(s: Bytes)
    ensures ValidUtf8(s) <==> IsUtf8(s)
  {
    if ValidUtf8(s) {
      var cs := AcceptedIsEncoded(s);
    }
    if IsUtf8(s) {
      var cs :| Scalars(cs) && EncodePoints(cs) == s;
      EncodedIsAccepted(cs);
    }
  }
}
