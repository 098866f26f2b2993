/**
 * The base64url encoding of section 5 of RFC 4648, as used for Gmail body data.
 * The decoder stands in for Python's `base64.urlsafe_b64decode`, which maps
 * '-' and '_' to '+' and '/' and then decodes standard base64, so both spellings
 * of values 62 and 63 are accepted; the encoder writes the URL-safe alphabet.
 */
module Base64Url {
  import opened Wrappers
  import opened Octets

  type Sextet = x: int | 0 <= x < 64

  const Pad: char := '='

  /** The URL-safe alphabet (table 2 of RFC 4648). */
  function CharOf(v: Sextet): (c: char)
    ensures IsAlphabet(c) && c != Pad
  {
    if v < 26 then ('A' as int + v) as char
    else if v < 52 then ('a' as int + (v - 26)) as char
    else if v < 62 then ('0' as int + (v - 52)) as char
    else if v == 62 then '-'
    else '_'
  }

  predicate IsAlphabet(c: char) {
    ('A' <= c <= 'Z') || ('a' <= c <= 'z') || ('0' <= c <= '9')
    || c == '-' || c == '_' || c == '+' || c == '/'
  }

  function ValueOf(c: char): (v: Sextet)
    requires IsAlphabet(c)
  {
    if 'A' <= c <= 'Z' then c as int - 'A' as int
    else if 'a' <= c <= 'z' then c as int - 'a' as int + 26
    else if '0' <= c <= '9' then c as int - '0' as int + 52
    else if c == '-' || c == '+' then 62
    else 63
  }

  lemma ValueOfCharOf(v: Sextet)
    ensures ValueOf(CharOf(v)) == v
  {
  }

  /** Three octets become four characters: 6 bits each, most significant first. */
  function EncodeTriple(b0: uint8, b1: uint8, b2: uint8): (s: string)
    ensures |s| == 4
  {
    [CharOf(b0 / 4), CharOf((b0 % 4) * 16 + b1 / 16), CharOf((b1 % 16) * 4 + b2 / 64), CharOf(b2 % 64)]
  }

  /** A final group of one or two octets is zero-filled and padded with '='. */
  function EncodeTail(b: seq<uint8>): (s: string)
    requires 1 <= |b| <= 2
    ensures |s| == 4
  {
    if |b| == 1 then [CharOf(b[0] / 4), CharOf((b[0] % 4) * 16), Pad, Pad]
    else [CharOf(b[0] / 4), CharOf((b[0] % 4) * 16 + b[1] / 16), CharOf((b[1] % 16) * 4), Pad]
  }

  function Encode(b: seq<uint8>): (s: string)
    ensures |s| == 4 * ((|b| + 2) / 3)
    decreases |b|
  {
    if |b| == 0 then ""
    else if |b| <= 2 then EncodeTail(b)
    else EncodeTriple(b[0], b[1], b[2]) + Encode(b[3..])
  }

  /** A group of four alphabet characters (no padding) gives three octets. */
  function DecodeQuad(q: string): (r: Option<seq<uint8>>)
    requires |q| == 4
    ensures r.Some? ==> |r.value| == 3
  {
    if IsAlphabet(q[0]) && IsAlphabet(q[1]) && IsAlphabet(q[2]) && IsAlphabet(q[3]) then
      var c0, c1, c2, c3 := ValueOf(q[0]), ValueOf(q[1]), ValueOf(q[2]), ValueOf(q[3]);
      Some([c0 * 4 + c1 / 16, (c1 % 16) * 16 + c2 / 4, (c2 % 4) * 64 + c3])
    else None
  }

  /**
   * The last group of four: either a full group, or "xy==" giving one octet, or
   * "xyz=" giving two. The bits a padded group drops are ignored, as CPython's
   * non-strict decoder ignores them.
   */
  function DecodeLastQuad(q: string): (r: Option<seq<uint8>>)
    requires |q| == 4
    ensures r.Some? ==> 1 <= |r.value| <= 3
  {
    if q[2] == Pad && q[3] == Pad then
      if IsAlphabet(q[0]) && IsAlphabet(q[1]) then
        var c0, c1 := ValueOf(q[0]), ValueOf(q[1]);
        Some([c0 * 4 + c1 / 16])
      else None
    else if q[3] == Pad then
      if IsAlphabet(q[0]) && IsAlphabet(q[1]) && IsAlphabet(q[2]) then
        var c0, c1, c2 := ValueOf(q[0]), ValueOf(q[1]), ValueOf(q[2]);
        Some([c0 * 4 + c1 / 16, (c1 % 16) * 16 + c2 / 4])
      else None
    else DecodeQuad(q)
  }

  /**
   * Decodes padded base64url text; None for a length that is not a multiple of
   * four, a character outside the alphabet, or padding anywhere but the end.
   */
  function Decode(s: string): (r: Option<seq<uint8>>)
    ensures r.Some? ==> |s| % 4 == 0
    decreases |s|
  {
    if |s| == 0 then Some([])
    else if |s| < 4 then None
    else if |s| == 4 then DecodeLastQuad(s)
    else
      match DecodeQuad(s[..4])
      case None => None
      case Some(head) =>
        match Decode(s[4..])
        case None => None
        case Some(tail) => Some(head + tail)
  }

  lemma DecodeEncodeTriple(b0: uint8, b1: uint8, b2: uint8)
    ensures DecodeQuad(EncodeTriple(b0, b1, b2)) == Some([b0, b1, b2])
  {
    var c0, c1, c2, c3 := b0 / 4, (b0 % 4) * 16 + b1 / 16, (b1 % 16) * 4 + b2 / 64, b2 % 64;
    ValueOfCharOf(c0);
    ValueOfCharOf(c1);
    ValueOfCharOf(c2);
    ValueOfCharOf(c3);
    assert c1 / 16 == b0 % 4 && c1 % 16 == b1 / 16;
    assert c2 / 4 == b1 % 16 && c2 % 4 == b2 / 64;
    var q := EncodeTriple(b0, b1, b2);
    assert q == [CharOf(c0), CharOf(c1), CharOf(c2), CharOf(c3)];
    assert DecodeQuad(q) == Some([c0 * 4 + c1 / 16, (c1 % 16) * 16 + c2 / 4, (c2 % 4) * 64 + c3]);
  }

  lemma DecodeEncodeTail(b: seq<uint8>)
    requires 1 <= |b| <= 2
    ensures DecodeLastQuad(EncodeTail(b)) == Some(b)
  {
    ValueOfCharOf(b[0] / 4);
    if |b| == 1 {
      var c0, c1 := b[0] / 4, (b[0] % 4) * 16;
      ValueOfCharOf(c1);
      assert c1 / 16 == b[0] % 4;
      var q := EncodeTail(b);
      assert q == [CharOf(c0), CharOf(c1), Pad, Pad];
      assert DecodeLastQuad(q) == Some([c0 * 4 + c1 / 16]);
      assert [c0 * 4 + c1 / 16] == b;
    } else {
      var c0, c1, c2 := b[0] / 4, (b[0] % 4) * 16 + b[1] / 16, (b[1] % 16) * 4;
      ValueOfCharOf(c1);
      ValueOfCharOf(c2);
      assert c1 / 16 == b[0] % 4 && c1 % 16 == b[1] / 16 && c2 / 4 == b[1] % 16;
      var q := EncodeTail(b);
      assert q == [CharOf(c0), CharOf(c1), CharOf(c2), Pad];
      assert DecodeLastQuad(q) == Some([c0 * 4 + c1 / 16, (c1 % 16) * 16 + c2 / 4]);
      assert [c0 * 4 + c1 / 16, (c1 % 16) * 16 + c2 / 4] == b;
    }
  }

  /** Decoding a full group followed by more text decodes the two independently. */
  lemma DecodeQuadThen(q: string, t: string)
    requires |q| == 4 && |t| > 0
    ensures Decode(q + t) ==
      match DecodeQuad(q)
      case None => None
      case Some(head) =>
        match Decode(t)
        case None => None
        case Some(tail) => Some(head + tail)
  {
    assert (q + t)[..4] == q && (q + t)[4..] == t;
  }

  lemma DecodeLastFullQuad(q: string)
    requires |q| == 4 && q[2] != Pad && q[3] != Pad
    ensures Decode(q) == DecodeQuad(q)
  {
  }

  lemma EncodeStep(b: seq<uint8>)
    requires |b| >= 3
    ensures Encode(b) == EncodeTriple(b[0], b[1], b[2]) + Encode(b[3..])
  {
  }

  lemma SplitThree(b: seq<uint8>)
    requires |b| >= 3
    ensures [b[0], b[1], b[2]] + b[3..] == b
  {
  }

  lemma DecodeEncodeLastTriple(b: seq<uint8>)
    requires |b| == 3
    ensures Decode(Encode(b)) == Some(b)
  {
    var q := EncodeTriple(b[0], b[1], b[2]);
    DecodeEncodeTriple(b[0], b[1], b[2]);
    assert Encode(b) == q by { EncodeStep(b); assert Encode(b[3..]) == []; }
    DecodeLastFullQuad(q);
    assert b == [b[0], b[1], b[2]];
  }

  lemma DecodeEncodeStep(b: seq<uint8>)
    requires |b| > 3
    requires Decode(Encode(b[3..])) == Some(b[3..])
    ensures Decode(Encode(b)) == Some(b)
  {
    var q := EncodeTriple(b[0], b[1], b[2]);
    DecodeEncodeTriple(b[0], b[1], b[2]);
    EncodeStep(b);
    DecodeQuadThen(q, Encode(b[3..]));
    SplitThree(b);
  }

  /** Round trip: decoding the encoding of any octet string gives it back. */
  lemma {:induction false} DecodeEncode(b: seq<uint8>)
    ensures Decode(Encode(b)) == Some(b)
    decreases |b|
  {
    if |b| == 0 {
    } else if |b| <= 2 {
      DecodeEncodeTail(b);
    } else if |b| == 3 {
      DecodeEncodeLastTriple(b);
    } else {
      DecodeEncode(b[3..]);
      DecodeEncodeStep(b);
    }
  }

  /** Every decoded text has the length the encoder would give its result. */
  lemma {:induction false} DecodeLength(s: string)
    requires Decode(s).Some?
    ensures |s| == 4 * ((|Decode(s).value| + 2) / 3)
    decreases |s|
  {
    if |s| > 4 {
      DecodeLength(s[4..]);
    }
  }

  // The converse round trip, for text in the form the encoder writes.

  /** A character of the URL-safe alphabet proper (not the standard '+' and '/'). */
  predicate IsUrlSafe(c: char) {
    IsAlphabet(c) && c != '+' && c != '/'
  }

  lemma CharOfValueOf(c: char)
    requires IsUrlSafe(c)
    ensures CharOf(ValueOf(c)) == c
  {
  }

  /**
   * Text in the form the encoder writes: only URL-safe characters apart from
   * the padding, and zero bits in the positions a padded last group drops.
   */
  predicate IsCanonical(s: string) {
    && (forall i :: 0 <= i < |s| ==> IsUrlSafe(s[i]) || s[i] == Pad)
    && (|s| >= 4 && s[|s| - 2] == Pad && IsAlphabet(s[|s| - 3]) ==> ValueOf(s[|s| - 3]) % 16 == 0)
    && (|s| >= 4 && s[|s| - 1] == Pad && s[|s| - 2] != Pad && IsAlphabet(s[|s| - 2]) ==> ValueOf(s[|s| - 2]) % 4 == 0)
  }

  /** Regrouping four sextets into three octets and back gives the sextets. */
  lemma RegroupSextets(c0: int, c1: int, c2: int, c3: int, b0: int, b1: int, b2: int)
    requires 0 <= c0 < 64 && 0 <= c1 < 64 && 0 <= c2 < 64 && 0 <= c3 < 64
    requires b0 == c0 * 4 + c1 / 16 && b1 == (c1 % 16) * 16 + c2 / 4 && b2 == (c2 % 4) * 64 + c3
    ensures b0 / 4 == c0 && (b0 % 4) * 16 + b1 / 16 == c1
    ensures (b1 % 16) * 4 + b2 / 64 == c2 && b2 % 64 == c3
  {
    assert b0 / 4 == c0 && b0 % 4 == c1 / 16;
    assert b1 / 16 == c1 % 16 && b1 % 16 == c2 / 4;
    assert b2 / 64 == c2 % 4 && b2 % 64 == c3;
  }

  lemma EncodeDecodeQuad(q: string)
    requires |q| == 4 && DecodeQuad(q).Some?
    requires forall i :: 0 <= i < 4 ==> IsUrlSafe(q[i])
    ensures var b := DecodeQuad(q).value; EncodeTriple(b[0], b[1], b[2]) == q
  {
    var c0: int, c1: int, c2: int, c3: int := ValueOf(q[0]), ValueOf(q[1]), ValueOf(q[2]), ValueOf(q[3]);
    var b := DecodeQuad(q).value;
    RegroupSextets(c0, c1, c2, c3, b[0], b[1], b[2]);
    CharOfValueOf(q[0]);
    CharOfValueOf(q[1]);
    CharOfValueOf(q[2]);
    CharOfValueOf(q[3]);
  }

  lemma EncodeDecodeTwoPads(q: string)
    requires |q| == 4 && q[2] == Pad && q[3] == Pad && IsUrlSafe(q[0]) && IsUrlSafe(q[1])
    requires ValueOf(q[1]) % 16 == 0
    ensures DecodeLastQuad(q).Some? && Encode(DecodeLastQuad(q).value) == q
  {
    var c0: int, c1: int := ValueOf(q[0]), ValueOf(q[1]);
    var b0: int := c0 * 4 + c1 / 16;
    assert b0 / 4 == c0 && (b0 % 4) * 16 == c1;
    CharOfValueOf(q[0]);
    CharOfValueOf(q[1]);
    assert DecodeLastQuad(q) == Some([b0]);
    assert Encode([b0]) == [CharOf(c0), CharOf(c1), Pad, Pad];
  }

  lemma EncodeDecodeOnePad(q: string)
    requires |q| == 4 && q[2] != Pad && q[3] == Pad && IsUrlSafe(q[0]) && IsUrlSafe(q[1]) && IsUrlSafe(q[2])
    requires ValueOf(q[2]) % 4 == 0
    ensures DecodeLastQuad(q).Some? && Encode(DecodeLastQuad(q).value) == q
  {
    var c0: int, c1: int, c2: int := ValueOf(q[0]), ValueOf(q[1]), ValueOf(q[2]);
    var b0: int, b1: int := c0 * 4 + c1 / 16, (c1 % 16) * 16 + c2 / 4;
    assert b0 / 4 == c0 && b0 % 4 == c1 / 16;
    assert b1 / 16 == c1 % 16 && (b1 % 16) * 4 == c2;
    assert (b0 % 4) * 16 + b1 / 16 == c1;
    CharOfValueOf(q[0]);
    CharOfValueOf(q[1]);
    CharOfValueOf(q[2]);
    assert DecodeLastQuad(q) == Some([b0, b1]);
    assert Encode([b0, b1]) == [CharOf(c0), CharOf(c1), CharOf(c2), Pad];
  }

  lemma EncodeDecodeLastQuad(q: string)
    requires |q| == 4 && IsCanonical(q) && DecodeLastQuad(q).Some?
    ensures Encode(DecodeLastQuad(q).value) == q
  {
    if q[2] == Pad && q[3] == Pad {
      EncodeDecodeTwoPads(q);
    } else if q[3] == Pad {
      EncodeDecodeOnePad(q);
    } else {
      var b := DecodeLastQuad(q).value;
      EncodeDecodeQuad(q);
      EncodeStep(b);
      assert Encode(b[3..]) == "";
    }
  }

  /**
   * Round trip from the text side: canonical text that decodes is exactly the
   * encoding of what it decodes to.
   */
  lemma {:induction false} EncodeDecode(s: string)
    requires Decode(s).Some? && IsCanonical(s)
    ensures Encode(Decode(s).value) == s
    decreases |s|
  {
    if |s| == 4 {
      EncodeDecodeLastQuad(s);
    } else if |s| > 4 {
      var q, t := s[..4], s[4..];
      assert s == q + t;
      var head := DecodeQuad(q).value;
      var tail := Decode(t).value;
      assert Decode(s).value == head + tail;
      assert forall i :: 0 <= i < 4 ==> IsUrlSafe(q[i]) by {
        forall i | 0 <= i < 4 ensures IsUrlSafe(q[i]) {
          assert s[i] == q[i];
        }
      }
      EncodeDecodeQuad(q);
      assert IsCanonical(t) by {
        forall i | 0 <= i < |t| ensures IsUrlSafe(t[i]) || t[i] == Pad {
          assert t[i] == s[i + 4];
        }
      }
      EncodeDecode(t);
      assert head == [head[0], head[1], head[2]];
      SplitThree(head + tail);
      assert (head + tail)[3..] == tail;
      EncodeStep(head + tail);
    }
  }
}
