/**
 * UTF-8 as defined by RFC 3629, standing in for Python's strict
 * `bytes.decode("utf-8")`: overlong forms, encoded surrogates, code points
 * above U+10FFFF and truncated sequences are all rejected.
 * Dafny's `char` is a Unicode scalar value, exactly the set UTF-8 encodes.
 */
module Utf8 {
  import opened Wrappers
  import opened Octets

  predicate InRange(x: int, lo: int, hi: int) {
    lo <= x <= hi
  }

  predicate IsContinuation(x: uint8) {
    InRange(x, 0x80, 0xBF)
  }

  /** The encoding of one scalar value (the table in section 3 of RFC 3629). */
  function EncodeChar(c: char): (b: seq<uint8>)
    ensures 1 <= |b| <= 4
  {
    var cp := c as int;
    if cp < 0x80 then [cp]
    else if cp < 0x800 then [0xC0 + cp / 64, 0x80 + cp % 64]
    else if cp < 0x10000 then [0xE0 + cp / 4096, 0x80 + (cp / 64) % 64, 0x80 + cp % 64]
    else [0xF0 + cp / 262144, 0x80 + (cp / 4096) % 64, 0x80 + (cp / 64) % 64, 0x80 + cp % 64]
  }

  function Encode(s: string): (b: seq<uint8>)
    ensures |s| <= |b| <= 4 * |s|
  {
    if s == "" then [] else EncodeChar(s[0]) + Encode(s[1..])
  }

  /**
   * Decodes the scalar value at the start of `b` and says how many octets it
   * took, or None when `b` does not start with a well-formed sequence
   * (the table of well-formed sequences in section 4 of RFC 3629).
   */
  function DecodeChar(b: seq<uint8>): (r: Option<(char, nat)>)
    requires |b| > 0
    ensures r.Some? ==> 1 <= r.value.1 <= |b| && r.value.1 <= 4
  {
    var b0: int := b[0];
    if b0 < 0x80 then
      Some((b0 as char, 1))
    else if InRange(b0, 0xC2, 0xDF) then
      if |b| >= 2 && IsContinuation(b[1]) then
        Some((((b0 - 0xC0) * 64 + (b[1] as int - 0x80)) as char, 2))
      else None
    else if InRange(b0, 0xE0, 0xEF) then
      var lo := if b0 == 0xE0 then 0xA0 else 0x80;
      var hi := if b0 == 0xED then 0x9F else 0xBF;
      if |b| >= 3 && InRange(b[1], lo, hi) && IsContinuation(b[2]) then
        Some((((b0 - 0xE0) * 4096 + (b[1] as int - 0x80) * 64 + (b[2] as int - 0x80)) as char, 3))
      else None
    else if InRange(b0, 0xF0, 0xF4) then
      var lo := if b0 == 0xF0 then 0x90 else 0x80;
      var hi := if b0 == 0xF4 then 0x8F else 0xBF;
      if |b| >= 4 && InRange(b[1], lo, hi) && IsContinuation(b[2]) && IsContinuation(b[3]) then
        Some((((b0 - 0xF0) * 262144 + (b[1] as int - 0x80) * 4096 + (b[2] as int - 0x80) * 64 + (b[3] as int - 0x80)) as char, 4))
      else None
    else None
  }

  /** Decodes a whole octet string, or None if any part of it is not well-formed UTF-8. */
  function Decode(b: seq<uint8>): (r: Option<string>)
    ensures r.Some? ==> |r.value| <= |b| <= 4 * |r.value|
    ensures r.Some? && |b| > 0 ==> DecodeChar(b).Some? && r.value[0] == DecodeChar(b).value.0
    decreases |b|
  {
    if |b| == 0 then Some("")
    else
      match DecodeChar(b)
      case None => None
      case Some((c, n)) =>
        match Decode(b[n..])
        case None => None
        case Some(rest) => Some([c] + rest)
  }

  /** The encoding of a scalar value decodes back to it, whatever follows. */
  lemma DecodeEncodeChar(c: char, tail: seq<uint8>)
    ensures DecodeChar(EncodeChar(c) + tail) == Some((c, |EncodeChar(c)|))
  {
    var cp := c as int;
    var b := EncodeChar(c) + tail;
    if cp < 0x80 {
    } else if cp < 0x800 {
      assert b[0] == 0xC0 + cp / 64 && b[1] == 0x80 + cp % 64;
      assert (cp / 64) * 64 + cp % 64 == cp;
    } else if cp < 0x10000 {
      var q, m := cp / 64, cp % 64;
      var h, k := q / 64, q % 64;
      assert h == cp / 4096;
      assert b[0] == 0xE0 + h && b[1] == 0x80 + k && b[2] == 0x80 + m;
      assert h * 4096 + k * 64 + m == cp;
      assert h == 0 ==> k >= 0x20;
      assert h == 0xD ==> k <= 0x1F;
    } else {
      var q, m := cp / 64, cp % 64;
      var q2, k := q / 64, q % 64;
      var h, j := q2 / 64, q2 % 64;
      assert h == cp / 262144 && q2 == cp / 4096;
      assert b[0] == 0xF0 + h && b[1] == 0x80 + j && b[2] == 0x80 + k && b[3] == 0x80 + m;
      assert h * 262144 + j * 4096 + k * 64 + m == cp;
      assert h == 0 ==> j >= 0x10;
      assert h == 4 ==> j <= 0x0F;
    }
  }

  /** A well-formed sequence is exactly the encoding of the scalar value it decodes to. */
  lemma EncodeDecodeChar(b: seq<uint8>)
    requires |b| > 0 && DecodeChar(b).Some?
    ensures EncodeChar(DecodeChar(b).value.0) == b[..DecodeChar(b).value.1]
  {
    var b0: int := b[0];
    if b0 < 0x80 {
    } else if b0 < 0xE0 {
      var x, y := b0 - 0xC0, b[1] as int - 0x80;
      assert (x * 64 + y) / 64 == x && (x * 64 + y) % 64 == y;
    } else if b0 < 0xF0 {
      var x, y, z := b0 - 0xE0, b[1] as int - 0x80, b[2] as int - 0x80;
      var cp := x * 4096 + y * 64 + z;
      assert cp / 64 == x * 64 + y && cp % 64 == z;
      assert (x * 64 + y) / 64 == x && (x * 64 + y) % 64 == y;
      assert cp / 4096 == x;
    } else {
      var x, y, z, w := b0 - 0xF0, b[1] as int - 0x80, b[2] as int - 0x80, b[3] as int - 0x80;
      var cp := x * 262144 + y * 4096 + z * 64 + w;
      assert cp / 64 == x * 4096 + y * 64 + z && cp % 64 == w;
      assert (x * 4096 + y * 64 + z) / 64 == x * 64 + y && (x * 4096 + y * 64 + z) % 64 == z;
      assert (x * 64 + y) / 64 == x && (x * 64 + y) % 64 == y;
      assert cp / 4096 == x * 64 + y;
      assert cp / 262144 == x;
    }
  }

  /** Round trip: every string survives encoding and decoding. */
  lemma {:induction false} DecodeEncode(s: string)
    ensures Decode(Encode(s)) == Some(s)
  {
    if s != "" {
      var e := EncodeChar(s[0]);
      var b := Encode(s);
      assert b == e + Encode(s[1..]);
      DecodeEncodeChar(s[0], Encode(s[1..]));
      assert b[|e|..] == Encode(s[1..]);
      DecodeEncode(s[1..]);
      assert [s[0]] + s[1..] == s;
    }
  }

  lemma EncodeCons(c: char, s: string)
    ensures Encode([c] + s) == EncodeChar(c) + Encode(s)
  {
    assert ([c] + s)[1..] == s;
  }

  lemma SplitAt(b: seq<uint8>, n: nat)
    requires n <= |b|
    ensures b[..n] + b[n..] == b
  {
  }

  /** The other direction: decoding succeeds only on the encoding of its result. */
  lemma {:induction false} EncodeDecode(b: seq<uint8>)
    requires Decode(b).Some?
    ensures Encode(Decode(b).value) == b
    decreases |b|
  {
    if |b| > 0 {
      var (c, n) := DecodeChar(b).value;
      var rest := Decode(b[n..]).value;
      assert Decode(b).value == [c] + rest;
      EncodeCons(c, rest);
      EncodeDecodeChar(b);
      EncodeDecode(b[n..]);
      SplitAt(b, n);
    }
  }
}
