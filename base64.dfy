/**
 * The base 64 encoding of section 4 of RFC 4648, over bytes, and a decoder
 * for its padded output.  The token generator hands its bytes to Node's
 * Buffer for this step; here the encoding is specified directly.
 */
module Base64 {
  import opened JsInt
  import opened Wrappers

  type Byte = x: int | 0 <= x < 0x100

  /** A 6-bit group: the value one base 64 character stands for. */
  type Sextet = x: int | 0 <= x < 64

  const PAD: char := '='

  /** Table 1 of RFC 4648: A-Z, a-z, 0-9, '+', '/'. */
  function CharOf(v: Sextet): (c: char)
    ensures c != PAD && c != '-' && c != '_'
  {
    if v < 26 then (65 + v) as char
    else if v < 52 then (97 + v - 26) as char
    else if v < 62 then (48 + v - 52) as char
    else if v == 62 then '+'
    else '/'
  }

  /** The value of a character of the alphabet; None for any other character. */
  function ValueOf(c: char): (r: Option<Sextet>)
    ensures r.Some? ==> CharOf(r.value) == c
  {
    if 'A' <= c <= 'Z' then Some(c as int - 65)
    else if 'a' <= c <= 'z' then Some(c as int - 97 + 26)
    else if '0' <= c <= '9' then Some(c as int - 48 + 52)
    else if c == '+' then Some(62)
    else if c == '/' then Some(63)
    else None
  }

  lemma ValueOfCharOf(v: Sextet)
    ensures ValueOf(CharOf(v)) == Some(v)
  {
  }

  // ---------------------------------------------------------------------
  // Arithmetic on 24-bit groups

  lemma SextetsOf(n: nat)
    requires n < 0x100_0000
    ensures n / 0x4_0000 < 64
    ensures n == (n / 0x4_0000) * 0x4_0000 + ((n / 0x1000) % 64) * 0x1000 + ((n / 64) % 64) * 64 + n % 64
  {
    var q1 := n / 64;
    var q2 := q1 / 64;
    var q3 := q2 / 64;
    assert q2 == n / 0x1000 by { DivDiv(n, 64, 64); }
    assert q3 == n / 0x4_0000 by { DivDiv(n, 0x1000, 64); }
  }

  lemma BytesOfGroup(b0: Byte, b1: Byte, b2: Byte)
    ensures var n := b0 * 0x1_0000 + b1 * 0x100 + b2;
      n < 0x100_0000 && n / 0x1_0000 == b0 && (n / 0x100) % 0x100 == b1 && n % 0x100 == b2
  {
    var n := b0 * 0x1_0000 + b1 * 0x100 + b2;
    DivUnique(n, 0x1_0000, b0, b1 * 0x100 + b2);
    DivUnique(n, 0x100, b0 * 0x100 + b1, b2);
    DivUnique(b0 * 0x100 + b1, 0x100, b0, b1);
  }

  // ---------------------------------------------------------------------
  // Encoding

  /** The 24-bit group of three bytes, the first one most significant. */
  function Group(b0: Byte, b1: Byte, b2: Byte): (n: nat)
    ensures n < 0x100_0000
  {
    (b0 as int) * 0x1_0000 + (b1 as int) * 0x100 + b2 as int
  }

  /** The four characters of a group of three bytes, most significant sextet first. */
  function Quad(b0: Byte, b1: Byte, b2: Byte): (r: seq<char>)
    ensures |r| == 4
  {
    var n := Group(b0, b1, b2);
    SextetsOf(n);
    [CharOf(n / 0x4_0000), CharOf((n / 0x1000) % 64), CharOf((n / 64) % 64), CharOf(n % 64)]
  }

  /**
   * The characters of the encoding of b before its padding, section 4 of
   * RFC 4648: each 3 bytes become 4 characters, a final 1 or 2 bytes
   * become 2 or 3 characters (the bytes completed with zero bits).
   */
  function EncodeBody(b: seq<Byte>): (r: seq<char>)
    ensures |r| == 4 * (|b| / 3) + (if |b| % 3 == 0 then 0 else |b| % 3 + 1)
    ensures forall k :: 0 <= k < |r| ==> r[k] != PAD && r[k] != '-' && r[k] != '_'
  {
    if |b| == 0 then []
    else if |b| == 1 then Quad(b[0], 0, 0)[..2]
    else if |b| == 2 then Quad(b[0], b[1], 0)[..3]
    else Quad(b[0], b[1], b[2]) + EncodeBody(b[3..])
  }

  /** The "=" characters that fill the final quantum to four characters. */
  function Padding(n: nat): (r: seq<char>)
    ensures forall k :: 0 <= k < |r| ==> r[k] == PAD
  {
    if n % 3 == 1 then [PAD, PAD] else if n % 3 == 2 then [PAD] else []
  }

  /** The base 64 encoding of b: its characters, then the padding. */
  function Encode(b: seq<Byte>): seq<char>
  {
    EncodeBody(b) + Padding(|b|)
  }

  // ---------------------------------------------------------------------
  // Decoding

  /** The bytes of a full group of four characters. */
  function DecodeQuad(s: seq<char>): (r: Option<seq<Byte>>)
    requires |s| == 4
    ensures r.Some? ==> |r.value| == 3
  {
    var v0, v1, v2, v3 := ValueOf(s[0]), ValueOf(s[1]), ValueOf(s[2]), ValueOf(s[3]);
    if v0.None? || v1.None? || v2.None? || v3.None? then None
    else
      var n := v0.value * 0x4_0000 + v1.value * 0x1000 + v2.value * 64 + v3.value;
      Some([n / 0x1_0000, (n / 0x100) % 0x100, n % 0x100])
  }

  /** The last group of four characters, which may end in "=" or "==". */
  function DecodeLast(s: seq<char>): (r: Option<seq<Byte>>)
    requires |s| == 4
  {
    if s[2] == PAD && s[3] == PAD then
      var q := DecodeQuad(s[..2] + ['A', 'A']);
      if q.None? then None else Some(q.value[..1])
    else if s[3] == PAD then
      var q := DecodeQuad(s[..3] + ['A']);
      if q.None? then None else Some(q.value[..2])
    else DecodeQuad(s)
  }

  /**
   * The bytes a padded base 64 text stands for, or None when its length is
   * not a multiple of 4, a character is outside the alphabet, or padding
   * appears before the last group.
   */
  function Decode(s: seq<char>): (r: Option<seq<Byte>>)
  {
    if |s| == 0 then Some([])
    else if |s| < 4 then None
    else if |s| == 4 then DecodeLast(s)
    else
      var q := DecodeQuad(s[..4]);
      var rest := Decode(s[4..]);
      if q.None? || rest.None? then None else Some(q.value + rest.value)
  }

  // ---------------------------------------------------------------------
  // Decoding inverts encoding

  lemma DecodeQuadOfQuad(b0: Byte, b1: Byte, b2: Byte)
    ensures DecodeQuad(Quad(b0, b1, b2)) == Some([b0, b1, b2])
  {
    var n := Group(b0, b1, b2);
    BytesOfGroup(b0, b1, b2);
    SextetsOf(n);
    ValueOfCharOf(n / 0x4_0000);
    ValueOfCharOf((n / 0x1000) % 64);
    ValueOfCharOf((n / 64) % 64);
    ValueOfCharOf(n % 64);
  }

  /** A group whose last byte is zero ends in the character 'A'. */
  lemma LastSextetZero(b0: Byte, b1: Byte)
    ensures Quad(b0, b1, 0)[3] == 'A'
  {
    var n := Group(b0, b1, 0);
    DivUnique(n, 64, (b0 as int) * 0x400 + (b1 as int) * 4, 0);
  }

  /** A group whose last two bytes are zero ends in "AA". */
  lemma LastTwoSextetsZero(b0: Byte)
    ensures Quad(b0, 0, 0)[2] == 'A' && Quad(b0, 0, 0)[3] == 'A'
  {
    var n := Group(b0, 0, 0);
    var m := (b0 as int) * 0x400;
    DivUnique(n, 64, m, 0);
    DivUnique(m, 64, (b0 as int) * 16, 0);
  }

  lemma DecodeLastOfOne(b0: Byte)
    ensures DecodeLast(Quad(b0, 0, 0)[..2] + [PAD, PAD]) == Some([b0])
  {
    var q := Quad(b0, 0, 0);
    var s := q[..2] + [PAD, PAD];
    LastTwoSextetsZero(b0);
    assert s[..2] + ['A', 'A'] == q;
    DecodeQuadOfQuad(b0, 0, 0);
    var d := DecodeQuad(q);
    assert d.value[..1] == [b0];
    assert s[2] == PAD && s[3] == PAD;
  }

  lemma DecodeLastOfTwo(b0: Byte, b1: Byte)
    ensures DecodeLast(Quad(b0, b1, 0)[..3] + [PAD]) == Some([b0, b1])
  {
    var q := Quad(b0, b1, 0);
    var s := q[..3] + [PAD];
    LastSextetZero(b0, b1);
    assert s[..3] + ['A'] == q;
    DecodeQuadOfQuad(b0, b1, 0);
    var d := DecodeQuad(q);
    assert d.value[..2] == [b0, b1];
    assert s[2] != PAD && s[3] == PAD;
  }

  lemma DecodeLastOfThree(b0: Byte, b1: Byte, b2: Byte)
    ensures Decode(Quad(b0, b1, b2)) == Some([b0, b1, b2])
  {
    var q := Quad(b0, b1, b2);
    assert q[2] != PAD && q[3] != PAD;
    assert DecodeLast(q) == DecodeQuad(q);
    DecodeQuadOfQuad(b0, b1, b2);
  }

  /** Encoding three bytes or more starts with their group. */
  lemma EncodeStep(b: seq<Byte>)
    requires |b| >= 3
    ensures Encode(b) == Quad(b[0], b[1], b[2]) + Encode(b[3..])
  {
    assert Padding(|b|) == Padding(|b[3..]|);
  }

  /** Text longer than one group decodes group by group. */
  lemma DecodeCons(q: seq<char>, t: seq<char>)
    requires |q| == 4 && |t| >= 1
    ensures Decode(q + t) == (var d, r := DecodeQuad(q), Decode(t);
                              if d.None? || r.None? then None else Some(d.value + r.value))
  {
    assert (q + t)[..4] == q && (q + t)[4..] == t;
  }

  lemma DecodeJoin(e: seq<char>, q: seq<char>, t: seq<char>, h: seq<Byte>, r: seq<Byte>)
    requires e == q + t && |q| == 4 && |t| >= 1
    requires DecodeQuad(q) == Some(h) && Decode(t) == Some(r)
    ensures Decode(e) == Some(h + r)
  {
    DecodeCons(q, t);
  }

  lemma EncodeNonEmpty(b: seq<Byte>)
    requires |b| >= 1
    ensures |Encode(b)| >= 1
  {
    assert |EncodeBody(b)| >= 2;
  }

  /** The round trip for the final quantum: one, two or three bytes. */
  lemma DecodeEncodeLast(b: seq<Byte>)
    requires 1 <= |b| <= 3
    ensures Decode(Encode(b)) == Some(b)
  {
    var e := Encode(b);
    if |b| == 1 {
      assert e == Quad(b[0], 0, 0)[..2] + [PAD, PAD];
      DecodeLastOfOne(b[0]);
      assert b == [b[0]];
    } else if |b| == 2 {
      assert e == Quad(b[0], b[1], 0)[..3] + [PAD];
      DecodeLastOfTwo(b[0], b[1]);
      assert b == [b[0], b[1]];
    } else {
      EncodeStep(b);
      assert Encode(b[3..]) == [];
      assert e == Quad(b[0], b[1], b[2]);
      DecodeLastOfThree(b[0], b[1], b[2]);
      assert b == [b[0], b[1], b[2]];
    }
    assert Decode(e) == DecodeLast(e);
  }

  /** Decoding the encoding of any byte sequence gives it back. */
  lemma {:induction false} DecodeEncode(b: seq<Byte>)
    ensures Decode(Encode(b)) == Some(b)
  {
    if |b| == 0 {
      assert Encode(b) == [];
    } else if |b| <= 3 {
      DecodeEncodeLast(b);
    } else {
      assert b == [b[0], b[1], b[2]] + b[3..];
      EncodeStep(b);
      EncodeNonEmpty(b[3..]);
      DecodeQuadOfQuad(b[0], b[1], b[2]);
      DecodeEncode(b[3..]);
      DecodeJoin(Encode(b), Quad(b[0], b[1], b[2]), Encode(b[3..]), [b[0], b[1], b[2]], b[3..]);
    }
  }
}
