/**
  UTF-8 encoding, which stands for `String.data(using: .utf8)`, and strict
  decoding of well-formed UTF-8, which stands for `String(data:encoding: .utf8)`
  (any treatment of a byte-order mark by Foundation's decoder is not modelled).
  A Dafny `char` is a Unicode scalar value, just as every Swift `String` holds
  only scalar values, so encoding never fails; decoding fails on any ill-formed
  byte sequence.
*/
module Utf8 {
  import opened Wrappers

  newtype byte = x: int | 0 <= x < 256

  /** A continuation byte 10xxxxxx. */
  predicate IsContinuation(b: byte) { 0x80 <= b < 0xC0 }

  /** Scalar values that a Dafny `char` may hold. */
  predicate IsScalar(cp: int) { 0 <= cp < 0xD800 || 0xE000 <= cp < 0x11_0000 }

  /** The encoding of one scalar value: one to four bytes, the first one telling the length. */
  function EncodeScalar(c: char): (bs: seq<byte>)
    ensures 1 <= |bs| <= 4
    ensures |bs| == 1 <==> c as int < 0x80
    ensures |bs| == 1 ==> bs[0] as int == c as int
    ensures forall i :: 1 <= i < |bs| ==> IsContinuation(bs[i])
  {
    var cp := c as int;
    if cp < 0x80 then
      [cp as byte]
    else if cp < 0x800 then
      [(0xC0 + cp / 64) as byte, (0x80 + cp % 64) as byte]
    else if cp < 0x1_0000 then
      [(0xE0 + cp / 4096) as byte, (0x80 + (cp / 64) % 64) as byte, (0x80 + cp % 64) as byte]
    else
      [(0xF0 + cp / 262144) as byte, (0x80 + (cp / 4096) % 64) as byte,
       (0x80 + (cp / 64) % 64) as byte, (0x80 + cp % 64) as byte]
  }

  function Encode(s: string): (bs: seq<byte>)
    ensures |bs| >= |s|
  {
    if s == [] then [] else EncodeScalar(s[0]) + Encode(s[1..])
  }

  /**
    Reads one scalar value off the front of `bs`, with the number of bytes it took.
    Overlong forms, surrogates, values above U+10FFFF, stray continuation bytes and
    truncated sequences are all rejected, as in the Unicode Standard's table of
    well-formed UTF-8 byte sequences.
  */
  function DecodeScalar(bs: seq<byte>): (r: Option<(char, nat)>)
    requires bs != []
    ensures r.Some? ==> 1 <= r.value.1 <= |bs|
  {
    var b0 := bs[0] as int;
    if b0 < 0x80 then
      Some((b0 as char, 1))
    else if 0xC2 <= b0 < 0xE0 && |bs| >= 2 && IsContinuation(bs[1]) then
      var cp := (b0 - 0xC0) * 64 + (bs[1] as int - 0x80);
      Some((cp as char, 2))
    else if 0xE0 <= b0 < 0xF0 && |bs| >= 3 && IsContinuation(bs[1]) && IsContinuation(bs[2]) then
      var cp := (b0 - 0xE0) * 4096 + (bs[1] as int - 0x80) * 64 + (bs[2] as int - 0x80);
      if 0x800 <= cp && IsScalar(cp) then Some((cp as char, 3)) else None
    else if 0xF0 <= b0 < 0xF5 && |bs| >= 4 && IsContinuation(bs[1]) && IsContinuation(bs[2]) && IsContinuation(bs[3]) then
      var cp := (b0 - 0xF0) * 262144 + (bs[1] as int - 0x80) * 4096 + (bs[2] as int - 0x80) * 64 + (bs[3] as int - 0x80);
      if 0x1_0000 <= cp < 0x11_0000 then Some((cp as char, 4)) else None
    else
      None
  }

  function Decode(bs: seq<byte>): (r: Option<string>)
    decreases |bs|
  {
    if bs == [] then Some([])
    else match DecodeScalar(bs)
      case None => None
      case Some((c, n)) =>
        match Decode(bs[n..])
        case None => None
        case Some(rest) => Some([c] + rest)
  }

  /** Encoding distributes over concatenation. */
  lemma {:induction false} EncodeAppend(a: string, b: string)
    ensures Encode(a + b) == Encode(a) + Encode(b)
  {
    if a == [] {
      assert a + b == b;
    } else {
      assert (a + b)[1..] == a[1..] + b;
      EncodeAppend(a[1..], b);
    }
  }

  /** Text made only of ASCII characters encodes byte for byte. */
  lemma {:induction false} EncodeAscii(s: string)
    requires forall i :: 0 <= i < |s| ==> s[i] as int < 0x80
    ensures |Encode(s)| == |s|
    ensures forall i :: 0 <= i < |s| ==> Encode(s)[i] as int == s[i] as int
  {
    if s != [] {
      EncodeAscii(s[1..]);
    }
  }

  /** ASCII text encodes to the bytes that carry its code points. */
  lemma EncodeAsciiBytes(s: string, bs: seq<byte>)
    requires |bs| == |s|
    requires forall i :: 0 <= i < |s| ==> s[i] as int < 0x80 && bs[i] as int == s[i] as int
    ensures Encode(s) == bs
  {
    EncodeAscii(s);
  }

  lemma DivMod(x: int, d: int)
    requires 0 <= x && 0 < d
    ensures x == (x / d) * d + x % d && 0 <= x % d < d
  {
  }

  /** Decoding the encoding of one scalar value gives it back, whatever follows. */
  lemma DecodeEncodeScalar(c: char, rest: seq<byte>)
    ensures DecodeScalar(EncodeScalar(c) + rest) == Some((c, |EncodeScalar(c)|))
  {
    var cp := c as int;
    if cp < 0x80 {
    } else if cp < 0x800 {
      DecodeEncodeTwo(c, rest);
    } else if cp < 0x1_0000 {
      DecodeEncodeThree(c, rest);
    } else {
      DecodeEncodeFour(c, rest);
    }
  }

  lemma DecodeEncodeTwo(c: char, rest: seq<byte>)
    requires 0x80 <= c as int < 0x800
    ensures DecodeScalar(EncodeScalar(c) + rest) == Some((c, 2))
  {
    var cp := c as int;
    var bs := EncodeScalar(c) + rest;
    DivMod(cp, 64);
    assert bs[0] as int - 0xC0 == cp / 64;
    assert bs[1] as int - 0x80 == cp % 64;
  }

  lemma DecodeEncodeThree(c: char, rest: seq<byte>)
    requires 0x800 <= c as int < 0x1_0000
    ensures DecodeScalar(EncodeScalar(c) + rest) == Some((c, 3))
  {
    var cp := c as int;
    var bs := EncodeScalar(c) + rest;
    DivMod(cp, 64);
    DivMod(cp / 64, 64);
    assert cp / 4096 == (cp / 64) / 64;
    assert bs[0] as int - 0xE0 == cp / 4096;
  }

  lemma DecodeEncodeFour(c: char, rest: seq<byte>)
    requires 0x1_0000 <= c as int
    ensures DecodeScalar(EncodeScalar(c) + rest) == Some((c, 4))
  {
    var cp := c as int;
    var bs := EncodeScalar(c) + rest;
    DivMod(cp, 64);
    DivMod(cp / 64, 64);
    DivMod(cp / 4096, 64);
    assert cp / 4096 == (cp / 64) / 64;
    assert cp / 262144 == (cp / 4096) / 64;
    assert bs[0] as int - 0xF0 == cp / 262144;
  }

  /** Strict decoding inverts encoding. */
  lemma {:induction false} DecodeEncode(s: string)
    ensures Decode(Encode(s)) == Some(s)
  {
    if s != [] {
      var e := EncodeScalar(s[0]);
      DecodeEncodeScalar(s[0], Encode(s[1..]));
      assert (e + Encode(s[1..]))[|e|..] == Encode(s[1..]);
      DecodeEncode(s[1..]);
      assert [s[0]] + s[1..] == s;
    }
  }

  /** A scalar value read off the front of `bs` encodes back to exactly the bytes it was read from. */
  lemma EncodeDecodeScalar(bs: seq<byte>)
    requires bs != [] && DecodeScalar(bs).Some?
    ensures EncodeScalar(DecodeScalar(bs).value.0) == bs[..DecodeScalar(bs).value.1]
  {
    var b0 := bs[0] as int;
    if b0 < 0x80 {
    } else if b0 < 0xE0 {
      EncodeDecodeTwo(bs);
    } else if b0 < 0xF0 {
      EncodeDecodeThree(bs);
    } else {
      EncodeDecodeFour(bs);
    }
  }

  lemma EncodeDecodeTwo(bs: seq<byte>)
    requires bs != [] && DecodeScalar(bs).Some? && 0x80 <= bs[0] < 0xE0
    ensures EncodeScalar(DecodeScalar(bs).value.0) == bs[..DecodeScalar(bs).value.1]
  {
    var b0 := bs[0] as int;
    var cp := DecodeScalar(bs).value.0 as int;
    var x1 := bs[1] as int - 0x80;
    assert cp == (b0 - 0xC0) * 64 + x1;
    assert cp / 64 == b0 - 0xC0 && cp % 64 == x1;
  }

  lemma EncodeDecodeThree(bs: seq<byte>)
    requires bs != [] && DecodeScalar(bs).Some? && 0xE0 <= bs[0] < 0xF0
    ensures EncodeScalar(DecodeScalar(bs).value.0) == bs[..DecodeScalar(bs).value.1]
  {
    var b0 := bs[0] as int;
    var cp := DecodeScalar(bs).value.0 as int;
    var x1, x2 := bs[1] as int - 0x80, bs[2] as int - 0x80;
    assert cp == ((b0 - 0xE0) * 64 + x1) * 64 + x2;
    assert cp / 64 == (b0 - 0xE0) * 64 + x1 && cp % 64 == x2;
    assert cp / 4096 == (cp / 64) / 64;
  }

  lemma EncodeDecodeFour(bs: seq<byte>)
    requires bs != [] && DecodeScalar(bs).Some? && 0xF0 <= bs[0]
    ensures EncodeScalar(DecodeScalar(bs).value.0) == bs[..DecodeScalar(bs).value.1]
  {
    var b0 := bs[0] as int;
    var cp := DecodeScalar(bs).value.0 as int;
    var x1, x2, x3 := bs[1] as int - 0x80, bs[2] as int - 0x80, bs[3] as int - 0x80;
    assert cp == (((b0 - 0xF0) * 64 + x1) * 64 + x2) * 64 + x3;
    assert cp / 64 == ((b0 - 0xF0) * 64 + x1) * 64 + x2 && cp % 64 == x3;
    assert cp / 4096 == (cp / 64) / 64 == (b0 - 0xF0) * 64 + x1;
    assert cp / 262144 == (cp / 4096) / 64;
  }

  /** Strict decoding succeeds only on the exact encoding of its result. */
  lemma {:induction false} EncodeDecode(bs: seq<byte>)
    requires Decode(bs).Some?
    ensures Encode(Decode(bs).value) == bs
    decreases |bs|
  {
    if bs != [] {
      var c, n := DecodeScalar(bs).value.0, DecodeScalar(bs).value.1;
      DecodeStep(bs);
      var rest := Decode(bs[n..]).value;
      EncodeDecodeScalar(bs);
      EncodeDecode(bs[n..]);
      EncodeGlue(bs, n, c, rest);
    }
  }

  lemma DecodeStep(bs: seq<byte>)
    requires bs != [] && Decode(bs).Some?
    ensures DecodeScalar(bs).Some? && Decode(bs[DecodeScalar(bs).value.1..]).Some?
    ensures Decode(bs).value == [DecodeScalar(bs).value.0] + Decode(bs[DecodeScalar(bs).value.1..]).value
  {
  }

  lemma EncodeGlue(bs: seq<byte>, n: nat, c: char, rest: string)
    requires n <= |bs| && EncodeScalar(c) == bs[..n] && Encode(rest) == bs[n..]
    ensures Encode([c] + rest) == bs
  {
    assert ([c] + rest)[1..] == rest;
    assert bs[..n] + bs[n..] == bs;
  }

  /** Decoding is exactly the inverse of encoding. */
  lemma DecodeIsInverse(bs: seq<byte>, s: string)
    ensures Decode(bs) == Some(s) <==> Encode(s) == bs
  {
    if Decode(bs) == Some(s) {
      EncodeDecode(bs);
    }
    if Encode(s) == bs {
      DecodeEncode(s);
    }
  }
}
