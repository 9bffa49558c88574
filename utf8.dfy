/**
 * UTF-8 as Rust's `String::from_utf8` and `str::as_bytes` see it: the
 * well-formed byte sequences of Table 3-7 of the Unicode Standard (no
 * overlong forms, no surrogates, nothing above U+10FFFF). Dafny's `char` is
 * a Unicode scalar value, as Rust's is.
 */
module Utf8 {
  import opened Wrappers
  import opened Common

  predicate IsContinuation(b: Byte) { 0x80 <= b <= 0xBF }

  /** The encoding of one scalar value, leading byte first. */
  function EncodeChar(c: char): (r: seq<Byte>)
    ensures 1 <= |r| <= 4
    ensures (c as int < 0x80) <==> r == [c as int]
  {
    var cp := c as int;
    if cp < 0x80 then [cp]
    else
      var d, r1 := cp % 64, cp / 64;
      if cp < 0x800 then [0xC0 + r1, 0x80 + d]
      else
        var c2, r2 := r1 % 64, r1 / 64;
        if cp < 0x10000 then [0xE0 + r2, 0x80 + c2, 0x80 + d]
        else [0xF0 + r2 / 64, 0x80 + r2 % 64, 0x80 + c2, 0x80 + d]
  }

  /** `str::as_bytes`: the concatenated encodings of the characters. */
  function Encode(s: string): (r: seq<Byte>)
    ensures |r| >= |s|
  {
    if s == [] then [] else EncodeChar(s[0]) + Encode(s[1..])
  }

  /** The range allowed for the second byte after a given leading byte (Table 3-7). */
  function SecondLow(b0: Byte): Byte {
    if b0 == 0xE0 then 0xA0 else if b0 == 0xF0 then 0x90 else 0x80
  }

  function SecondHigh(b0: Byte): Byte {
    if b0 == 0xED then 0x9F else if b0 == 0xF4 then 0x8F else 0xBF
  }

  /** The first scalar value of `b` and the number of bytes it occupies, if well formed. */
  function DecodeFirst(b: seq<Byte>): (r: Option<(char, nat)>)
    requires |b| > 0
    ensures r.Some? ==> 1 <= r.value.1 <= |b| && r.value.1 <= 4
  {
    var b0 := b[0] as int;
    if b0 < 0x80 then Some((b0 as char, 1))
    else if 0xC2 <= b0 <= 0xDF then
      if |b| >= 2 && IsContinuation(b[1]) then
        Some((((b0 - 0xC0) * 64 + (b[1] as int - 0x80)) as char, 2))
      else None
    else if 0xE0 <= b0 <= 0xEF then
      if |b| >= 3 && SecondLow(b0) <= b[1] <= SecondHigh(b0) && IsContinuation(b[2]) then
        var cp := ((b0 - 0xE0) * 64 + (b[1] as int - 0x80)) * 64 + (b[2] as int - 0x80);
        assert cp < 0xD800 || 0xE000 <= cp;
        Some((cp as char, 3))
      else None
    else if 0xF0 <= b0 <= 0xF4 then
      if |b| >= 4 && SecondLow(b0) <= b[1] <= SecondHigh(b0) && IsContinuation(b[2]) && IsContinuation(b[3]) then
        var cp := (((b0 - 0xF0) * 64 + (b[1] as int - 0x80)) * 64 + (b[2] as int - 0x80)) * 64 + (b[3] as int - 0x80);
        Some((cp as char, 4))
      else None
    else None
  }

  /** `String::from_utf8`: the text, or None (a `FromUtf8Error`) when `b` is not well formed. */
  function Decode(b: seq<Byte>): (r: Option<string>)
    ensures r.Some? ==> |r.value| <= |b|
    decreases |b|
  {
    if b == [] then Some([])
    else
      var (c, n) :- DecodeFirst(b);
      var rest :- Decode(b[n..]);
      Some([c] + rest)
  }

  /** The leading byte's encoding is recognised and gives back the character. */
  lemma DecodeFirstEncodeChar(c: char, rest: seq<Byte>)
    ensures DecodeFirst(EncodeChar(c) + rest) == Some((c, |EncodeChar(c)|))
  {
    var e := EncodeChar(c);
    var b := e + rest;
    var cp := c as int;
    assert b[..|e|] == e;
    if cp < 0x80 {
    } else if cp < 0x800 {
      var d, r1 := cp % 64, cp / 64;
      assert b[0] == 0xC0 + r1 && b[1] == 0x80 + d;
      assert (r1 * 64 + d) as char == c;
    } else if cp < 0x10000 {
      var d, r1 := cp % 64, cp / 64;
      var c2, r2 := r1 % 64, r1 / 64;
      assert b[0] == 0xE0 + r2 && b[1] == 0x80 + c2 && b[2] == 0x80 + d;
      assert (r2 * 64 + c2) * 64 + d == cp;
    } else {
      var d, r1 := cp % 64, cp / 64;
      var c2, r2 := r1 % 64, r1 / 64;
      assert b[0] == 0xF0 + r2 / 64 && b[1] == 0x80 + r2 % 64 && b[2] == 0x80 + c2 && b[3] == 0x80 + d;
      assert ((r2 / 64 * 64 + r2 % 64) * 64 + c2) * 64 + d == cp;
    }
  }

  /** Decoding undoes encoding: every string's bytes are well formed and decode to it. */
  lemma {:induction false} DecodeEncode(s: string)
    ensures Decode(Encode(s)) == Some(s)
  {
    if s != [] {
      var e := EncodeChar(s[0]);
      var b := Encode(s);
      assert b == e + Encode(s[1..]);
      DecodeFirstEncodeChar(s[0], Encode(s[1..]));
      assert b[|e|..] == Encode(s[1..]);
      DecodeEncode(s[1..]);
      assert s == [s[0]] + s[1..];
    }
  }

  /** Text made only of ASCII characters is its own byte string. */
  lemma {:induction false} EncodeAscii(s: string)
    requires forall i :: 0 <= i < |s| ==> s[i] as int < 0x80
    ensures Encode(s) == seq(|s|, i requires 0 <= i < |s| => s[i] as int)
  {
    if s != [] {
      EncodeAscii(s[1..]);
    }
  }

  /** A well-formed leading sequence is the encoding of the character it decodes to. */
  lemma DecodeFirstCanonical(b: seq<Byte>)
    requires |b| > 0 && DecodeFirst(b).Some?
    ensures EncodeChar(DecodeFirst(b).value.0) == b[..DecodeFirst(b).value.1]
  {
    var (c, n) := DecodeFirst(b).value;
    var b0 := b[0] as int;
    var cp := c as int;
    if n == 2 {
      var b1 := b[1] as int;
      assert cp == (b0 - 0xC0) * 64 + (b1 - 0x80);
      assert cp / 64 == b0 - 0xC0 && cp % 64 == b1 - 0x80;
      assert b[..2] == [b0, b1];
    } else if n == 3 {
      var b1, b2 := b[1] as int, b[2] as int;
      var r1 := (b0 - 0xE0) * 64 + (b1 - 0x80);
      assert cp == r1 * 64 + (b2 - 0x80);
      assert cp / 64 == r1 && cp % 64 == b2 - 0x80;
      assert r1 / 64 == b0 - 0xE0 && r1 % 64 == b1 - 0x80;
      assert b[..3] == [b0, b1, b2];
    } else if n == 4 {
      var b1, b2, b3 := b[1] as int, b[2] as int, b[3] as int;
      var r2 := (b0 - 0xF0) * 64 + (b1 - 0x80);
      var r1 := r2 * 64 + (b2 - 0x80);
      assert cp == r1 * 64 + (b3 - 0x80);
      assert cp / 64 == r1 && cp % 64 == b3 - 0x80;
      assert r1 / 64 == r2 && r1 % 64 == b2 - 0x80;
      assert r2 / 64 == b0 - 0xF0 && r2 % 64 == b1 - 0x80;
      assert b[..4] == [b0, b1, b2, b3];
    }
  }

  /** One step of the decoder: a decodable input is its first character followed by the decoded rest. */
  lemma DecodeStep(b: seq<Byte>)
    requires b != [] && Decode(b).Some?
    ensures DecodeFirst(b).Some?
    ensures Decode(b[DecodeFirst(b).value.1..]).Some?
    ensures Decode(b).value == [DecodeFirst(b).value.0] + Decode(b[DecodeFirst(b).value.1..]).value
  {
  }

  /** A character's encoding followed by the rest's encoding reassembles the bytes they came from. */
  lemma Reassemble(b: seq<Byte>, c: char, n: nat, t: string)
    requires n <= |b| && EncodeChar(c) == b[..n] && Encode(t) == b[n..]
    ensures Encode([c] + t) == b
  {
    assert ([c] + t)[1..] == t;
    assert b == b[..n] + b[n..];
  }

  /** The decoder accepts only well-formed, shortest-form bytes: they are the encoding of what they decode to. */
  lemma {:induction false} EncodeDecode(b: seq<Byte>)
    requires Decode(b).Some?
    ensures Encode(Decode(b).value) == b
    decreases |b|
  {
    if b != [] {
      DecodeStep(b);
      var (c, n) := DecodeFirst(b).value;
      DecodeFirstCanonical(b);
      EncodeDecode(b[n..]);
      Reassemble(b, c, n, Decode(b[n..]).value);
    }
  }
}
