/**
 * The hash family of the font-service token generator (scripts/build.js,
 * H_CONST, G, Ba and Ca): MurmurHash3 x86_32 written with JavaScript
 * number arithmetic.  Multiplications go through SplitMul, which keeps
 * every product below 2^53; everything else is a 32-bit bitwise operator.
 */
module Murmur {
  import opened JsInt

  /** A UTF-16 code unit, what `charCodeAt` returns. */
  type CodeUnit = x: int | 0 <= x < 0x1_0000

  /** H_CONST: the seed of each hash round. */
  const SEEDS: seq<int> := [2449897292, 4218179547, 2675077685, 1031960064, 1478620578,
                            1386343184, 3194259988, 2656050674, 3012733295, 2193273665]

  const C1: int := 3432918353  // 0xCC9E2D51
  const C2: int := 461845907   // 0x1B873593
  const C3: int := 2246822507  // 0x85EBCA6B
  const C4: int := 3266489909  // 0xC2B2AE35
  const ADD: int := 3864292196 // 0xE6546B64
  const ALL_ONES: int := 4294967295

  /**
   * The seed of round c: `H_CONST[c]`, read as 0 past the end of the table,
   * where JavaScript yields undefined and the hashes' `b || 0` turns it into 0.
   */
  function Seed(c: nat): (r: int)
    ensures 0 <= r < TWO_32
  {
    if c < |SEEDS| then SEEDS[c] else 0
  }

  /** G: `(a & 65535) * b + (((a >>> 16) * b & 65535) << 16)`. */
  function SplitMul(a: int, b: nat): int
  {
    And(a, 65535) * b + Shl(And(Ushr(a, 16) * b, 65535), 16)
  }

  /** Ba: the hash of a numeric key, one 4-byte block and length 4. */
  function HashNumber(a: int, b: int): (r: int)
    ensures 0 <= r < TWO_32
  {
    var a := SplitMul(And(a, ALL_ONES), C1);
    var a := SplitMul(Or(Shl(a, 15), Ushr(a, 17)), C2);
    var b := Xor(b, a);
    var b := SplitMul(Or(Shl(b, 13), Ushr(b, 19)), 5) + ADD;
    var b := Xor(b, 4);
    var b := SplitMul(Xor(b, Ushr(b, 16)), C3);
    var b := SplitMul(Xor(b, Ushr(b, 13)), C4);
    ToUint32(Xor(b, Ushr(b, 16)))
  }

  // ---------------------------------------------------------------------
  // Ca, as functions: the specification of the HashString method below

  /** The block word Ca builds from the four characters at c. */
  function BlockWord(s: seq<CodeUnit>, c: nat): int
    requires c + 4 <= |s|
  {
    Or(Or(Or(Shl(And(s[c], ALL_ONES), 0), Shl(And(s[c + 1], ALL_ONES), 8)),
          Shl(And(s[c + 2], ALL_ONES), 16)),
       Shl(And(s[c + 3], ALL_ONES), 24))
  }

  /** One iteration of Ca's block loop: mix word k into accumulator h. */
  function MixBlock(h: int, k: int): int
  {
    var f := SplitMul(k, C1);
    var f := Or(Shl(f, 15), Ushr(f, 17));
    var f := SplitMul(f, C2);
    var h := Xor(h, f);
    var h := Or(Shl(h, 13), Ushr(h, 19));
    SplitMul(h, 5) + ADD
  }

  /** The accumulator after the first n blocks of s. */
  function MixBlocks(s: seq<CodeUnit>, h: int, n: nat): int
    requires 4 * n <= |s|
  {
    if n == 0 then h else MixBlock(MixBlocks(s, h, n - 1), BlockWord(s, 4 * (n - 1)))
  }

  /** The fall-through switch on the 0 to 3 characters left from c. */
  function MixTail(s: seq<CodeUnit>, h: int, c: nat): int
    requires c <= |s| < c + 4
  {
    var d := |s| - c;
    if d == 0 then h
    else
      var f := if d == 3 then Xor(0, Shl(And(s[c + 2], ALL_ONES), 16)) else 0;
      var f := if d >= 2 then Xor(f, Shl(And(s[c + 1], ALL_ONES), 8)) else f;
      var f := Xor(f, Shl(And(s[c], ALL_ONES), 0));
      var f := SplitMul(f, C1);
      var f := SplitMul(Or(Shl(f, 15), Ushr(f, 17)), C2);
      Xor(h, f)
  }

  /** XOR in the length, then the avalanche step. */
  function Finalize(h: int, len: int): (r: int)
    ensures 0 <= r < TWO_32
  {
    var b := Xor(h, len);
    var b := SplitMul(Xor(b, Ushr(b, 16)), C3);
    var b := SplitMul(Xor(b, Ushr(b, 13)), C4);
    ToUint32(Xor(b, Ushr(b, 16)))
  }

  /** The number of whole 4-character blocks in a string of length n. */
  function BlockCount(n: nat): (m: nat)
    ensures 4 * m <= n < 4 * m + 4
  {
    n / 4
  }

  /** What Ca computes: the blocks, then the tail, then the length and avalanche. */
  function HashStringValue(s: seq<CodeUnit>, seed: int): (r: int)
    ensures 0 <= r < TWO_32
  {
    var m := BlockCount(|s|);
    Finalize(MixTail(s, MixBlocks(s, seed, m), 4 * m), |s|)
  }

  lemma MixBlocksStep(s: seq<CodeUnit>, h: int, i: nat)
    requires 4 * i + 4 <= |s|
    ensures MixBlocks(s, h, i + 1) == MixBlock(MixBlocks(s, h, i), BlockWord(s, 4 * i))
  {
  }

  lemma NextBlock(i: int, m: int)
    requires 4 * i < 4 * m
    ensures 4 * i + 4 <= 4 * m
  {
  }

  /** One pass of Ca's block loop, at character c = 4 * i. */
  method MixNext(a: seq<CodeUnit>, seed: int, b: int, c: nat, ghost i: nat) returns (b': int)
    requires c == 4 * i && c + 4 <= |a| && b == MixBlocks(a, seed, i)
    ensures b' == MixBlocks(a, seed, i + 1)
  {
    MixBlocksStep(a, seed, i);
    var f := BlockWord(a, c);
    b' := MixBlock(b, f);
  }

  /** Ca: the hash of a string key, by 4-character blocks and a tail. */
  method HashString(a: seq<CodeUnit>, seed: int) returns (r: int)
    ensures r == HashStringValue(a, seed)
  {
    var b := seed;
    var d := |a| % 4;
    var e := |a| - d;
    ghost var m := BlockCount(|a|);
    assert e == 4 * m;
    var c := 0;
    ghost var i := 0;
    while c < e
      invariant c == 4 * i && i <= m
      invariant b == MixBlocks(a, seed, i)
    {
      NextBlock(i, m);
      b := MixNext(a, seed, b, c, i);
      c := c + 4;
      i := i + 1;
    }
    assert i == m;
    b := MixTail(a, b, c);
    r := Finalize(b, |a|);
  }

  // ---------------------------------------------------------------------
  // G is a 32-bit multiplication

  lemma MulSplit(u: int, lo: int, hi: int, b: int)
    requires u == hi * 0x1_0000 + lo
    ensures u * b == lo * b + (hi * b) * 0x1_0000
  {
  }

  lemma SplitMulParts(a: int)
    ensures And(a, 65535) == ToUint32(a) % 0x1_0000
    ensures Ushr(a, 16) == ToUint32(a) / 0x1_0000
  {
    var u := ToUint32(a);
    Pow2Values();
    AndNLowMask(u, 16);
    ToUint32OfUint32(65535);
    ShrNIsDiv(u, 16);
    ShiftCount(16);
  }

  /** `(v & 65535) << 16` is v * 2^16 modulo 2^32. */
  lemma LowHalfShifted(v: nat)
    ensures ToUint32(Shl(And(v, 65535), 16)) == (v * 0x1_0000) % TWO_32
  {
    var w := And(v, 65535);
    SplitMulParts(v);
    ModOfMod(v, 0x1_0000, 0x1_0000);
    assert w == v % 0x1_0000;
    var z := ShlN(w, 16);
    assert z == w * 0x1_0000 by {
      ShlNIsMul(w, 16);
      assert Pow2(16) == 0x1_0000 by { Pow2Values(); }
    }
    assert Shl(w, 16) == ToInt32(z) by {
      ToUint32OfUint32(w);
      ShiftCount(16);
    }
    ModMulScaled(v, 0x1_0000, 0x1_0000);
    assert z < TWO_32;
    ToUint32OfUint32(z);
  }

  /** G(a, b) is congruent to a * b modulo 2^32: the split multiply wraps like a 32-bit one. */
  lemma SplitMulWraps(a: int, b: nat)
    ensures ToUint32(SplitMul(a, b)) == (ToUint32(a) * b) % TWO_32
  {
    var u := ToUint32(a);
    var lo, hi := u % 0x1_0000, u / 0x1_0000;
    SplitMulParts(a);
    var v := hi * b;
    LowHalfShifted(v);
    var s := Shl(And(v, 65535), 16);
    assert SplitMul(a, b) == lo * b + s;
    ModAddRight(lo * b, s, TWO_32);
    MulSplit(u, lo, hi, b);
    ModAddRight(lo * b, v * 0x1_0000, TWO_32);
  }

  /** G only reads its first operand modulo 2^32. */
  lemma SplitMulCongruent(a: int, a': int, b: nat)
    requires ToUint32(a) == ToUint32(a')
    ensures SplitMul(a, b) == SplitMul(a', b)
  {
  }

  // ---------------------------------------------------------------------
  // Ba is Ca on the four bytes of the number

  /** The four characters holding x's bytes, least significant first. */
  function LittleEndianUnits(x: int): (s: seq<CodeUnit>)
    ensures |s| == 4 && forall i :: 0 <= i < 4 ==> s[i] < 0x100
  {
    var u := ToUint32(x);
    [u % 0x100, (u / 0x100) % 0x100, (u / 0x1_0000) % 0x100, u / 0x100_0000]
  }

  lemma BytesRecompose(u: nat)
    requires u < TWO_32
    ensures u == u % 0x100 + 0x100 * ((u / 0x100) % 0x100)
                 + 0x1_0000 * ((u / 0x1_0000) % 0x100) + 0x100_0000 * (u / 0x100_0000)
  {
    var q1 := u / 0x100;
    var q2 := q1 / 0x100;
    var q3 := q2 / 0x100;
    DivDiv(u, 0x100, 0x100);
    DivDiv(u, 0x1_0000, 0x100);
    assert q2 == u / 0x1_0000;
    assert q3 == u / 0x100_0000;
  }

  lemma ByteTimesLane(c: nat, p: nat)
    requires c < 0x100 && p <= 0x100_0000
    ensures c * p < TWO_32
  {
    assert c * p <= 0xFF * p;
  }

  /** A byte shifted left by 8k, k < 4, is the byte times 2^(8k). */
  lemma ByteLane(c: nat, k: nat)
    requires c < 0x100 && k < 4
    ensures ToUint32(Shl(And(c, ALL_ONES), 8 * k)) == c * Pow2(8 * k)
  {
    Pow2Values();
    AndNLowMask(c, 32);
    ToUint32OfUint32(c);
    ToUint32OfUint32(ALL_ONES);
    assert And(c, ALL_ONES) == c;
    ShiftCount(8 * k);
    ShlNIsMul(c, 8 * k);
    Pow2Mono(8 * k, 24);
    ByteTimesLane(c, Pow2(8 * k));
    ToUint32OfUint32(c * Pow2(8 * k));
  }

  /** ORing byte c into lane k of a word whose lanes from k up are clear adds c * 2^(8k). */
  lemma OrLane(acc: int, c: nat, k: nat)
    requires c < 0x100 && k < 4 && ToUint32(acc) < Pow2(8 * k)
    ensures ToUint32(Or(acc, Shl(And(c, ALL_ONES), 8 * k))) == ToUint32(acc) + c * Pow2(8 * k)
  {
    var lane := Shl(And(c, ALL_ONES), 8 * k);
    ByteLane(c, k);
    ShlNIsMul(c, 8 * k);
    OrRange(acc, lane);
    OrNDisjoint(ToUint32(acc), c, 8 * k);
  }

  /** The block word of x's four little-endian bytes is x modulo 2^32. */
  lemma BlockWordOfBytes(x: int)
    ensures ToUint32(BlockWord(LittleEndianUnits(x), 0)) == ToUint32(x)
  {
    var s := LittleEndianUnits(x);
    Pow2Values();
    var a0 := Shl(And(s[0], ALL_ONES), 0);
    ByteLane(s[0], 0);
    var o1 := Or(a0, Shl(And(s[1], ALL_ONES), 8));
    OrLane(a0, s[1], 1);
    var o2 := Or(o1, Shl(And(s[2], ALL_ONES), 16));
    OrLane(o1, s[2], 2);
    OrLane(o2, s[3], 3);
    BytesRecompose(ToUint32(x));
  }

  /** Ba is one block mix of the masked number, then finalization with length 4. */
  lemma HashNumberShape(x: int, seed: int)
    ensures HashNumber(x, seed) == Finalize(MixBlock(seed, And(x, ALL_ONES)), 4)
  {
  }

  /** Ca of a 4-character string is one block mix, then finalization with length 4. */
  lemma HashFourUnits(s: seq<CodeUnit>, seed: int)
    requires |s| == 4
    ensures HashStringValue(s, seed) == Finalize(MixBlock(seed, BlockWord(s, 0)), 4)
  {
    assert BlockCount(4) == 1;
    assert MixBlocks(s, seed, 1) == MixBlock(seed, BlockWord(s, 0));
  }

  /** `x & 4294967295` keeps all 32 bits of x. */
  lemma MaskAllOnes(x: int)
    ensures ToUint32(And(x, ALL_ONES)) == ToUint32(x)
  {
    ToUint32OfUint32(ALL_ONES);
    AndRange(x, ALL_ONES);
    AndNAllOnes(ToUint32(x));
  }

  lemma AndNAllOnes(u: nat)
    requires u < TWO_32
    ensures AndN(u, ALL_ONES) == u
  {
    var p := Pow2(32);
    assert p == TWO_32 by { Pow2Values(); }
    AndNLowMask(u, 32);
    ToUint32OfUint32(u);
  }

  /** A block mix only reads the block word modulo 2^32. */
  lemma MixBlockCongruent(h: int, k: int, k': int)
    requires ToUint32(k) == ToUint32(k')
    ensures MixBlock(h, k) == MixBlock(h, k')
  {
    SplitMulCongruent(k, k', C1);
  }

  /**
   * Ba(x, s) is Ca of the four characters holding x's little-endian bytes:
   * one full block, no tail, length 4.
   */
  lemma HashNumberIsOneBlock(x: int, seed: int)
    ensures HashNumber(x, seed) == HashStringValue(LittleEndianUnits(x), seed)
  {
    var s := LittleEndianUnits(x);
    BlockWordOfBytes(x);
    MaskAllOnes(x);
    MixBlockCongruent(seed, And(x, ALL_ONES), BlockWord(s, 0));
    HashNumberShape(x, seed);
    HashFourUnits(s, seed);
  }
}
