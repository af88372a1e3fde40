/**
 * The base64 encoding of RFC 4648, section 4 (standard alphabet, `=` padding),
 * which the handler applies to the framed envelope (`base64_encode`) and
 * reverses with strict decoding (`base64_decode($data, true)`).
 *
 * Decoding is strict in the RFC's canonical sense: the input is a whole number
 * of four-character groups of the alphabet, padding may only close the last
 * group, and the bits that padding drops must be zero. Under these rules
 * decoding is exactly the inverse of encoding (DecodeIsInverse).
 */
module Base64 {
  import opened Types

  const Pad: char := '='

  /** A 6-bit value: what one base64 character carries. */
  type Sextet = v: int | 0 <= v < 64

  /** The alphabet character (RFC 4648, Table 1) that stands for the 6-bit value v. */
  function CharOf(v: Sextet): (c: char)
    ensures c != Pad
  {
    if v < 26 then ('A' as int + v) as char
    else if v < 52 then ('a' as int + v - 26) as char
    else if v < 62 then ('0' as int + v - 52) as char
    else if v == 62 then '+'
    else '/'
  }

  /** The 6-bit value of an alphabet character; None for every other character, `=` included. */
  function ValueOf(c: char): (r: Option<Sextet>)
    ensures r.Some? ==> CharOf(r.value) == c
    ensures c == Pad ==> r == None
  {
    if 'A' <= c <= 'Z' then Some(c as int - 'A' as int)
    else if 'a' <= c <= 'z' then Some(c as int - 'a' as int + 26)
    else if '0' <= c <= '9' then Some(c as int - '0' as int + 52)
    else if c == '+' then Some(62)
    else if c == '/' then Some(63)
    else None
  }

  lemma ValueOfCharOf(v: Sextet)
    ensures ValueOf(CharOf(v)) == Some(v)
  {
  }

  /** The four characters that carry the 24 bits of the bytes a, b, c. */
  function Quad(a: Byte, b: Byte, c: Byte): (q: string)
    ensures |q| == 4 && q[3] != Pad
  {
    [CharOf(a / 4), CharOf(a % 4 * 16 + b / 16), CharOf(b % 16 * 4 + c / 64), CharOf(c % 64)]
  }

  /** The three bytes carried by four alphabet characters, or None if one of them is not in the alphabet. */
  function DecodeQuad(q: string): (r: Option<Bytes>)
    requires |q| == 4
    ensures r.Some? ==> |r.value| == 3
  {
    match (ValueOf(q[0]), ValueOf(q[1]), ValueOf(q[2]), ValueOf(q[3]))
    case (Some(w), Some(x), Some(y), Some(z)) => Some(Unpack(w, x, y, z))
    case _ => None
  }

  /** The three bytes whose 24 bits are the four 6-bit values w, x, y, z. */
  function Unpack(w: Sextet, x: Sextet, y: Sextet, z: Sextet): (t: Bytes)
  {
    [w * 4 + x / 16, x % 16 * 16 + y / 4, y % 4 * 64 + z]
  }

  lemma UnpackOfQuad(a: Byte, b: Byte, c: Byte)
    ensures Unpack(a / 4, a % 4 * 16 + b / 16, b % 16 * 4 + c / 64, c % 64) == [a, b, c]
  {
  }

  lemma DecodeQuadOfQuad(a: Byte, b: Byte, c: Byte)
    ensures DecodeQuad(Quad(a, b, c)) == Some([a, b, c])
  {
    var q := Quad(a, b, c);
    var w, x, y, z := a / 4, a % 4 * 16 + b / 16, b % 16 * 4 + c / 64, c % 64;
    ValueOfCharOf(w);
    ValueOfCharOf(x);
    ValueOfCharOf(y);
    ValueOfCharOf(z);
    assert ValueOf(q[0]) == Some(w) && ValueOf(q[1]) == Some(x);
    assert ValueOf(q[2]) == Some(y) && ValueOf(q[3]) == Some(z);
    UnpackOfQuad(a, b, c);
  }

  lemma QuadOfDecodeQuad(q: string)
    requires |q| == 4 && DecodeQuad(q).Some?
    ensures var t := DecodeQuad(q).value; Quad(t[0], t[1], t[2]) == q
  {
    var w, x, y, z := ValueOf(q[0]).value, ValueOf(q[1]).value, ValueOf(q[2]).value, ValueOf(q[3]).value;
    var t := Unpack(w, x, y, z);
    assert t[0] / 4 == w && t[0] % 4 * 16 + t[1] / 16 == x;
    assert t[1] % 16 * 4 + t[2] / 64 == y && t[2] % 64 == z;
  }

  /**
   * Base64 text of b: one group per three bytes; a final one or two bytes are
   * completed with zero bits and the missing characters replaced by padding.
   */
  function Encode(b: Bytes): (s: string)
    ensures |s| == (|b| + 2) / 3 * 4
    decreases |b|
  {
    if |b| == 0 then []
    else if |b| == 1 then Quad(b[0], 0, 0)[..2] + [Pad, Pad]
    else if |b| == 2 then Quad(b[0], b[1], 0)[..3] + [Pad]
    else Quad(b[0], b[1], b[2]) + Encode(b[3..])
  }

  /** Known answers: "Man", "Ma" and "M" as in RFC 4648, and bytes that use the last two alphabet characters. */
  lemma EncodeKnownAnswers()
    ensures Encode([77, 97, 110]) == "TWFu"
    ensures Encode([77, 97]) == "TWE="
    ensures Encode([77]) == "TQ=="
    ensures Encode([251, 255]) == "+/8="
  {
  }

  /**
   * The bytes of a last group, which may end in padding. A group `xyz=` is read as
   * `xyzA` and `xy==` as `xyAA` (the letter A carries six zero bits); the bytes the
   * padding stands for must then come out zero, or the group is not canonical.
   */
  function DecodeFinal(q: string): (r: Option<Bytes>)
    requires |q| == 4
  {
    if q[3] != Pad then DecodeQuad(q)
    else if q[2] != Pad then
      match DecodeQuad(q[..3] + ['A'])
      case Some(t) => if t[2] == 0 then Some(t[..2]) else None
      case None => None
    else
      match DecodeQuad(q[..2] + ['A', 'A'])
      case Some(t) => if t[1] == 0 then Some(t[..1]) else None
      case None => None
  }

  /** Strict decoding: None unless s is canonical base64 text. */
  function Decode(s: string): (r: Option<Bytes>)
    ensures r.Some? ==> |s| % 4 == 0
    decreases |s|
  {
    if |s| == 0 then Some([])
    else if |s| < 4 then None
    else if |s| == 4 then DecodeFinal(s)
    else
      match DecodeQuad(s[..4])
      case None => None
      case Some(t) =>
        match Decode(s[4..])
        case None => None
        case Some(rest) => Some(t + rest)
  }

  lemma DecodeFinalOfOne(a: Byte)
    ensures DecodeFinal(Quad(a, 0, 0)[..2] + [Pad, Pad]) == Some([a])
  {
    var full := Quad(a, 0, 0);
    var q := full[..2] + [Pad, Pad];
    assert full[2] == CharOf(0) == 'A' && full[3] == CharOf(0);
    assert q[..2] + ['A', 'A'] == full;
    DecodeQuadOfQuad(a, 0, 0);
    assert DecodeQuad(q[..2] + ['A', 'A']) == Some([a, 0, 0]);
    assert [a, 0, 0][..1] == [a];
  }

  lemma DecodeFinalOfTwo(a: Byte, b: Byte)
    ensures DecodeFinal(Quad(a, b, 0)[..3] + [Pad]) == Some([a, b])
  {
    var full := Quad(a, b, 0);
    var q := full[..3] + [Pad];
    assert full[3] == CharOf(0) == 'A';
    assert q[..3] + ['A'] == full;
    DecodeQuadOfQuad(a, b, 0);
    assert DecodeQuad(q[..3] + ['A']) == Some([a, b, 0]);
    assert [a, b, 0][..2] == [a, b];
  }

  /** Decoding recovers every byte string from its encoding. */
  lemma {:induction false} DecodeEncode(b: Bytes)
    ensures Decode(Encode(b)) == Some(b)
    decreases |b|
  {
    if |b| == 1 {
      DecodeFinalOfOne(b[0]);
      assert [b[0]] == b;
    } else if |b| == 2 {
      DecodeFinalOfTwo(b[0], b[1]);
      assert [b[0], b[1]] == b;
    } else if |b| >= 3 {
      var s, q := Encode(b), Quad(b[0], b[1], b[2]);
      DecodeQuadOfQuad(b[0], b[1], b[2]);
      assert b == [b[0], b[1], b[2]] + b[3..];
      if |b| == 3 {
        assert Encode(b[3..]) == [];
        assert s == q;
        assert Decode(s) == DecodeFinal(s) == DecodeQuad(q);
        assert b == [b[0], b[1], b[2]];
      } else {
        DecodeEncode(b[3..]);
        assert s[..4] == q && s[4..] == Encode(b[3..]);
      }
    }
  }

  /** Only the encoding of b decodes to b: strict decoding accepts canonical text alone. */
  lemma {:induction false} EncodeDecode(s: string)
    requires Decode(s).Some?
    ensures Encode(Decode(s).value) == s
    decreases |s|
  {
    var b := Decode(s).value;
    if |s| == 4 {
      if s[3] != Pad {
        QuadOfDecodeQuad(s);
        assert Encode(b) == Quad(b[0], b[1], b[2]) + Encode(b[3..]);
      } else if s[2] != Pad {
        var q := s[..3] + ['A'];
        QuadOfDecodeQuad(q);
        var t := DecodeQuad(q).value;
        assert b == t[..2] && t[2] == 0;
        assert Encode(b) == Quad(t[0], t[1], 0)[..3] + [Pad];
      } else {
        var q := s[..2] + ['A', 'A'];
        QuadOfDecodeQuad(q);
        var t := DecodeQuad(q).value;
        assert b == t[..1] && t[1] == 0;
        assert t[2] == 0;
        assert Encode(b) == Quad(t[0], 0, 0)[..2] + [Pad, Pad];
      }
    } else if |s| > 4 {
      var t := DecodeQuad(s[..4]).value;
      var rest := Decode(s[4..]).value;
      QuadOfDecodeQuad(s[..4]);
      EncodeDecode(s[4..]);
      assert b == t + rest;
      assert b[3..] == rest;
      assert Encode(b) == Quad(t[0], t[1], t[2]) + Encode(rest);
      assert s == s[..4] + s[4..];
    }
  }

  /** Strict decoding and encoding are inverse bijections between byte strings and canonical text. */
  lemma DecodeIsInverse(s: string, b: Bytes)
    ensures Decode(s) == Some(b) <==> s == Encode(b)
  {
    if s == Encode(b) {
      DecodeEncode(b);
    }
    if Decode(s) == Some(b) {
      EncodeDecode(s);
    }
  }
}
