/**
 * The base64 encoding of section 4 of RFC 4648 (standard alphabet, '='
 * padding), with the decoding rules of the `base64` crate's
 * `general_purpose::STANDARD` engine: the input length must be a multiple of
 * four, padding may only close the last quantum, and the unused low bits of
 * the last symbol must be zero (the canonical form of section 3.5 of RFC 4648).
 */
module Base64 {
  import opened Wrappers
  import opened Common

  /** The value carried by one base64 symbol. */
  type Sextet = v: int | 0 <= v < 64

  const PAD: char := '='

  /** The symbol for a value, from the table of section 4 of RFC 4648. */
  function Symbol(v: Sextet): (c: char)
    ensures Value(c) == Some(v)
    ensures c != PAD && '+' <= c <= 'z'
  {
    if v < 26 then ('A' as int + v) as char
    else if v < 52 then ('a' as int + (v - 26)) as char
    else if v < 62 then ('0' as int + (v - 52)) as char
    else if v == 62 then '+'
    else '/'
  }

  /** The value of a symbol, or None when the character is not in the alphabet. */
  function Value(c: char): (r: Option<Sextet>)
    ensures r.Some? ==> c != PAD
  {
    if 'A' <= c <= 'Z' then Some(c as int - 'A' as int)
    else if 'a' <= c <= 'z' then Some(c as int - 'a' as int + 26)
    else if '0' <= c <= '9' then Some(c as int - '0' as int + 52)
    else if c == '+' then Some(62)
    else if c == '/' then Some(63)
    else None
  }

  /** Every symbol of the alphabet is the symbol of its value. */
  lemma SymbolOfValue(c: char)
    requires Value(c).Some?
    ensures Symbol(Value(c).value) == c
  {
  }

  /** Four symbols for three octets. */
  function EncodeTriple(x: Byte, y: Byte, z: Byte): string {
    [Symbol(x / 4), Symbol((x % 4) * 16 + y / 16), Symbol((y % 16) * 4 + z / 64), Symbol(z % 64)]
  }

  /** Encoding with padding: every group of three octets gives four symbols,
    * a final one or two octets give "xx==" or "xxx=". */
  function Encode(b: seq<Byte>): (s: string)
    ensures |s| % 4 == 0
    ensures forall i :: 0 <= i < |s| ==> '+' <= s[i] <= 'z'
    decreases |b|
  {
    if |b| == 0 then []
    else if |b| == 1 then [Symbol(b[0] / 4), Symbol((b[0] % 4) * 16), PAD, PAD]
    else if |b| == 2 then [Symbol(b[0] / 4), Symbol((b[0] % 4) * 16 + b[1] / 16), Symbol((b[1] % 16) * 4), PAD]
    else EncodeTriple(b[0], b[1], b[2]) + Encode(b[3..])
  }

  /** A quantum of four symbols, none of them padding. */
  function DecodeQuad(q: string): Option<seq<Byte>>
    requires |q| == 4
  {
    match (Value(q[0]), Value(q[1]), Value(q[2]), Value(q[3]))
    case (Some(a), Some(b), Some(c), Some(d)) =>
      var octets: seq<Byte> := [a as int * 4 + b as int / 16, (b as int % 16) * 16 + c as int / 4, (c as int % 4) * 64 + d as int];
      Some(octets)
    case _ => None
  }

  /** The last quantum: "xxxx", "xxx=" or "xx==", the last two with zero trailing bits. */
  function DecodeFinal(q: string): Option<seq<Byte>>
    requires |q| == 4
  {
    if q[3] != PAD then DecodeQuad(q)
    else if q[2] != PAD then
      match (Value(q[0]), Value(q[1]), Value(q[2]))
      case (Some(a), Some(b), Some(c)) =>
        var octets: seq<Byte> := [a as int * 4 + b as int / 16, (b as int % 16) * 16 + c as int / 4];
        if c % 4 == 0 then Some(octets) else None
      case _ => None
    else
      match (Value(q[0]), Value(q[1]))
      case (Some(a), Some(b)) =>
        var octets: seq<Byte> := [a as int * 4 + b as int / 16];
        if b % 16 == 0 then Some(octets) else None
      case _ => None
  }

  /** Decoding; None stands for the crate's `DecodeError`. */
  function Decode(s: string): (r: Option<seq<Byte>>)
    ensures r.Some? ==> |s| % 4 == 0
    ensures r.Some? ==> forall i :: 0 <= i < |s| ==> s[i] == PAD || Value(s[i]).Some?
    decreases |s|
  {
    if |s| == 0 then Some([])
    else if |s| < 4 then None
    else if |s| == 4 then DecodeFinal(s)
    else
      var head :- DecodeQuad(s[..4]);
      var tail :- Decode(s[4..]);
      Some(head + tail)
  }

  /** A decoded length is three quarters of the encoded one, less the padding. */
  lemma {:induction false} DecodeLength(s: string)
    requires Decode(s).Some?
    ensures |s| % 4 == 0
    ensures |s| > 0 ==> 3 * (|s| / 4) - 2 <= |Decode(s).value| <= 3 * (|s| / 4)
    ensures |s| == 0 ==> Decode(s).value == []
    decreases |s|
  {
    if |s| > 4 {
      DecodeLength(s[4..]);
    }
  }

  /** The bit arithmetic of one quantum: the four sextets of three octets give the octets back. */
  lemma TripleArithmetic(x: Byte, y: Byte, z: Byte)
    ensures (x / 4) * 4 + ((x % 4) * 16 + y / 16) / 16 == x
    ensures (((x % 4) * 16 + y / 16) % 16) * 16 + ((y % 16) * 4 + z / 64) / 4 == y
    ensures (((y % 16) * 4 + z / 64) % 4) * 64 + z % 64 == z
  {
    var b, c := (x % 4) * 16 + y / 16, (y % 16) * 4 + z / 64;
    assert b / 16 == x % 4 && b % 16 == y / 16;
    assert c / 4 == y % 16 && c % 4 == z / 64;
  }

  lemma TripleRoundTrip(x: Byte, y: Byte, z: Byte)
    ensures DecodeQuad(EncodeTriple(x, y, z)) == Some([x, y, z])
    ensures DecodeFinal(EncodeTriple(x, y, z)) == Some([x, y, z])
  {
    var q := EncodeTriple(x, y, z);
    var a, b, c, d := x / 4, (x % 4) * 16 + y / 16, (y % 16) * 4 + z / 64, z % 64;
    assert Value(q[0]) == Some(a) && Value(q[1]) == Some(b);
    assert Value(q[2]) == Some(c) && Value(q[3]) == Some(d);
    TripleArithmetic(x, y, z);
  }

  lemma SingleRoundTrip(x: Byte)
    ensures DecodeFinal(Encode([x])) == Some([x])
  {
    var a, c := x / 4, (x % 4) * 16;
    var q := Encode([x]);
    assert q == [Symbol(a), Symbol(c), PAD, PAD];
    assert Value(q[0]) == Some(a) && Value(q[1]) == Some(c);
    assert c / 16 == x % 4 && c % 16 == 0;
    assert a * 4 + c / 16 == x;
  }

  lemma PairRoundTrip(x: Byte, y: Byte)
    ensures DecodeFinal(Encode([x, y])) == Some([x, y])
  {
    var a, c, d := x / 4, (x % 4) * 16 + y / 16, (y % 16) * 4;
    var q := Encode([x, y]);
    assert q == [Symbol(a), Symbol(c), Symbol(d), PAD];
    assert Value(q[0]) == Some(a) && Value(q[1]) == Some(c) && Value(q[2]) == Some(d);
    assert c / 16 == x % 4 && c % 16 == y / 16;
    assert d / 4 == y % 16 && d % 4 == 0;
    assert a * 4 + c / 16 == x && (c % 16) * 16 + d / 4 == y;
  }

  /** A full quantum followed by a non-empty decodable rest decodes to the concatenation. */
  lemma DecodeCons(q: string, rest: string)
    requires |q| == 4 && |rest| > 0
    requires DecodeQuad(q).Some? && Decode(rest).Some?
    ensures Decode(q + rest) == Some(DecodeQuad(q).value + Decode(rest).value)
  {
    var s := q + rest;
    assert s[..4] == q && s[4..] == rest;
  }

  /** Decoding undoes encoding, for every octet string. */
  lemma {:induction false} DecodeEncode(b: seq<Byte>)
    ensures Decode(Encode(b)) == Some(b)
    decreases |b|
  {
    if |b| == 0 {
    } else if |b| == 1 {
      SingleRoundTrip(b[0]);
      assert b == [b[0]];
    } else if |b| == 2 {
      PairRoundTrip(b[0], b[1]);
      assert b == [b[0], b[1]];
    } else {
      var q := EncodeTriple(b[0], b[1], b[2]);
      var rest := Encode(b[3..]);
      assert Encode(b) == q + rest;
      TripleRoundTrip(b[0], b[1], b[2]);
      assert b == [b[0], b[1], b[2]] + b[3..];
      if |b| == 3 {
        assert rest == [];
        assert Encode(b) == q;
        assert Decode(q) == DecodeFinal(q);
        assert b == [b[0], b[1], b[2]];
      } else {
        DecodeEncode(b[3..]);
        DecodeCons(q, rest);
      }
    }
  }

  /** A full quantum is the encoding of the octets it decodes to. */
  lemma QuadCanonical(q: string)
    requires |q| == 4 && DecodeQuad(q).Some?
    ensures |DecodeQuad(q).value| == 3
    ensures EncodeTriple(DecodeQuad(q).value[0], DecodeQuad(q).value[1], DecodeQuad(q).value[2]) == q
  {
    var a: int, b: int, c: int, d: int := Value(q[0]).value, Value(q[1]).value, Value(q[2]).value, Value(q[3]).value;
    var o := DecodeQuad(q).value;
    assert o[0] == a * 4 + b / 16 && o[1] == (b % 16) * 16 + c / 4 && o[2] == (c % 4) * 64 + d;
    assert o[0] / 4 == a && o[0] % 4 == b / 16;
    assert o[1] / 16 == b % 16 && o[1] % 16 == c / 4;
    assert o[2] / 64 == c % 4 && o[2] % 64 == d;
    SymbolOfValue(q[0]);
    SymbolOfValue(q[1]);
    SymbolOfValue(q[2]);
    SymbolOfValue(q[3]);
  }

  /** A last quantum is the encoding of the octets it decodes to, padding included. */
  lemma FinalCanonical(q: string)
    requires |q| == 4 && DecodeFinal(q).Some?
    ensures 1 <= |DecodeFinal(q).value| <= 3
    ensures Encode(DecodeFinal(q).value) == q
  {
    var o := DecodeFinal(q).value;
    if q[3] != PAD {
      QuadCanonical(q);
      assert o == [o[0], o[1], o[2]];
      assert Encode(o) == EncodeTriple(o[0], o[1], o[2]) + Encode(o[3..]);
      assert o[3..] == [];
    } else if q[2] != PAD {
      var a: int, b: int, c: int := Value(q[0]).value, Value(q[1]).value, Value(q[2]).value;
      assert o[0] == a * 4 + b / 16 && o[1] == (b % 16) * 16 + c / 4;
      assert o[0] / 4 == a && o[0] % 4 == b / 16;
      assert o[1] / 16 == b % 16 && (o[1] % 16) * 4 == c;
      SymbolOfValue(q[0]);
      SymbolOfValue(q[1]);
      SymbolOfValue(q[2]);
    } else {
      var a: int, b: int := Value(q[0]).value, Value(q[1]).value;
      assert o[0] == a * 4 + b / 16;
      assert o[0] / 4 == a && (o[0] % 4) * 16 == b;
      SymbolOfValue(q[0]);
      SymbolOfValue(q[1]);
    }
  }

  /**
   * The decoder accepts only canonical text: whatever it decodes is the
   * encoding of the result, so no two texts decode to the same octets.
   */
  lemma {:induction false} EncodeDecode(s: string)
    requires Decode(s).Some?
    ensures Encode(Decode(s).value) == s
    decreases |s|
  {
    if |s| == 4 {
      FinalCanonical(s);
    } else if |s| > 4 {
      var head := DecodeQuad(s[..4]).value;
      var tail := Decode(s[4..]).value;
      QuadCanonical(s[..4]);
      EncodeDecode(s[4..]);
      var b := head + tail;
      assert b[..3] == head && b[3..] == tail;
      assert Encode(b) == EncodeTriple(b[0], b[1], b[2]) + Encode(b[3..]);
      assert s == s[..4] + s[4..];
    }
  }
}
