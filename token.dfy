/**
 * Fa and Ga of scripts/build.js: the "unicode" token.  The filter's
 * `[size, g, ...words]` are written as big-endian 32-bit words, the bytes
 * are base 64 encoded, '+' and '/' become '-' and '_' as in section 5 of
 * RFC 4648, and the trailing '=' padding is dropped.
 */
module Token {
  import opened JsInt
  import opened Murmur
  import opened Wrappers
  import opened Base64
  import opened BitArrays
  import opened BloomFilter

  // ---------------------------------------------------------------------
  // Words as bytes

  /** The four bytes of a 32-bit value, most significant first. */
  function BigEndian(u: nat): (r: seq<Byte>)
    requires u < TWO_32
    ensures |r| == 4
  {
    [u / 0x100_0000, (u / 0x1_0000) % 0x100, (u / 0x100) % 0x100, u % 0x100]
  }

  /** `(d & m) >>> s` works on d modulo 2^32 and on the mask as it is. */
  lemma UshrOfAnd(d: int, m: nat, s: nat)
    requires m < TWO_32 && s < 32
    ensures Ushr(And(d, m), s) == ShrN(AndN(ToUint32(d), m), s)
  {
    var u := ToUint32(d);
    ToUint32OfUint32(m);
    var v := AndN(u, m);
    AndNBound(u, m);
    ToUint32OfUint32(v);
    ShiftCount(s);
  }

  /** Masking with 255 << s and shifting right by s gives byte s / 8. */
  lemma ShrNMaskedByte(u: nat, s: nat)
    ensures ShrN(AndN(u, ShlN(255, s)), s) == (u / Pow2(s)) % 0x100
  {
    AndNShiftedMask(u, 255, s);
    var w := AndN(ShrN(u, s), Pow2(8) - 1);
    assert Pow2(8) == 0x100 by { Pow2Values(); }
    ShrNShlN(w, s);
    AndNLowMask(ShrN(u, s), 8);
    ShrNIsDiv(u, s);
  }

  /** `(d & mask) >>> s` with mask = 255 << s: byte s / 8 of d. */
  function MaskedByte(d: int, mask: int, s: nat): (r: Byte)
    requires s < 32 && mask == 255 * Pow2(s) && mask < TWO_32
    ensures r == (ToUint32(d) / Pow2(s)) % 0x100
  {
    UshrOfAnd(d, mask, s);
    ShlNIsMul(255, s);
    ShrNMaskedByte(ToUint32(d), s);
    Ushr(And(d, mask), s)
  }

  /** The masks Fa uses are 255 shifted by 24, 16, 8 and 0 bits. */
  lemma Masks()
    ensures Pow2(0) == 1 && Pow2(8) == 0x100 && Pow2(16) == 0x1_0000 && Pow2(24) == 0x100_0000
    ensures 255 * Pow2(24) == 4278190080 && 255 * Pow2(16) == 16711680
    ensures 255 * Pow2(8) == 65280 && 255 * Pow2(0) == 255
  {
    Pow2Values();
  }

  /** One of Fa's masked bytes: the mask is 255 << s for s in 24, 16, 8, 0. */
  function FaByte(d: int, s: nat): (r: Byte)
    requires s == 24 || s == 16 || s == 8 || s == 0
    ensures r == (ToUint32(d) / Pow2(s)) % 0x100
  {
    Masks();
    var mask := if s == 24 then 4278190080 else if s == 16 then 16711680 else if s == 8 then 65280 else 255;
    MaskedByte(d, mask, s)
  }

  /** Fa's four bytes of word d, by its masks and unsigned shifts. */
  function WordBytes(d: int): (r: seq<Byte>)
    ensures r == BigEndian(ToUint32(d))
  {
    var u := ToUint32(d);
    Masks();
    TopByte(u);
    [FaByte(d, 24), FaByte(d, 16), FaByte(d, 8), FaByte(d, 0)]
  }

  /** The top byte of a 32-bit value needs no reduction. */
  lemma TopByte(u: nat)
    requires u < TWO_32
    ensures u / 0x100_0000 < 0x100 && (u / 0x100_0000) % 0x100 == u / 0x100_0000
  {
  }

  /** The bytes of a sequence of words, four per word, in order. */
  function WordsToBytes(ws: seq<int>): (r: seq<Byte>)
    ensures |r| == 4 * |ws|
  {
    if ws == [] then [] else WordsToBytes(ws[..|ws| - 1]) + BigEndian(ToUint32(ws[|ws| - 1]))
  }

  /** The 32-bit value of four bytes, most significant first. */
  function ReadWord(b: seq<Byte>): nat
    requires |b| == 4
  {
    (b[0] as int) * 0x100_0000 + (b[1] as int) * 0x1_0000 + (b[2] as int) * 0x100 + b[3] as int
  }

  /** Reading four-byte groups back into words. */
  function ReadWords(b: seq<Byte>): (r: seq<nat>)
    requires |b| % 4 == 0
    ensures |r| == |b| / 4
  {
    if b == [] then [] else ReadWords(b[..|b| - 4]) + [ReadWord(b[|b| - 4..])]
  }

  /** What reading the words back can give: each word modulo 2^32. */
  function Uint32s(ws: seq<int>): (r: seq<nat>)
    ensures |r| == |ws| && forall k :: 0 <= k < |ws| ==> r[k] == ToUint32(ws[k])
  {
    if ws == [] then [] else Uint32s(ws[..|ws| - 1]) + [ToUint32(ws[|ws| - 1])]
  }

  lemma ReadBigEndian(u: nat)
    requires u < TWO_32
    ensures ReadWord(BigEndian(u)) == u
  {
    BytesRecompose(u);
  }

  lemma {:induction false} ReadWordsToBytes(ws: seq<int>)
    ensures ReadWords(WordsToBytes(ws)) == Uint32s(ws)
  {
    if ws != [] {
      var init, last := ws[..|ws| - 1], ws[|ws| - 1];
      var b := WordsToBytes(ws);
      assert b[..|b| - 4] == WordsToBytes(init);
      assert b[|b| - 4..] == BigEndian(ToUint32(last));
      ReadWordsToBytes(init);
      ReadBigEndian(ToUint32(last));
    }
  }

  // ---------------------------------------------------------------------
  // The URL-safe alphabet and the padding

  /** `+` becomes `-` and `/` becomes `_`; every other character is kept. */
  function SafeChar(c: char): char
  {
    if c == '+' then '-' else if c == '/' then '_' else c
  }

  function UrlSafe(s: seq<char>): (r: seq<char>)
    ensures |r| == |s| && forall k :: 0 <= k < |s| ==> r[k] == SafeChar(s[k])
  {
    seq(|s|, k requires 0 <= k < |s| => SafeChar(s[k]))
  }

  /** `-` becomes `+` and `_` becomes `/` again. */
  function UnsafeChar(c: char): char
  {
    if c == '-' then '+' else if c == '_' then '/' else c
  }

  function FromUrlSafe(s: seq<char>): (r: seq<char>)
    ensures |r| == |s| && forall k :: 0 <= k < |s| ==> r[k] == UnsafeChar(s[k])
  {
    seq(|s|, k requires 0 <= k < |s| => UnsafeChar(s[k]))
  }

  /** `replace(/=+$/, "")`: every '=' at the end is removed. */
  function StripPadding(s: seq<char>): (r: seq<char>)
    ensures |r| <= |s| && r == s[..|r|]
    ensures r == [] || r[|r| - 1] != PAD
    ensures forall k :: |r| <= k < |s| ==> s[k] == PAD
  {
    if s != [] && s[|s| - 1] == PAD then StripPadding(s[..|s| - 1]) else s
  }

  /** Text completed with '=' to a multiple of four characters. */
  function Repad(s: seq<char>): (r: seq<char>)
    ensures |r| % 4 == 0
  {
    s + seq((4 - |s| % 4) % 4, _ => PAD)
  }

  // ---------------------------------------------------------------------
  // The token and its decoding

  /** What Fa returns for the words `[size, g, ...values]`. */
  function TokenOf(ws: seq<int>): string
  {
    StripPadding(UrlSafe(Encode(WordsToBytes(ws))))
  }

  /**
   * Reading a token: back to the standard alphabet, padding restored,
   * base 64 decoded, read as big-endian words.
   */
  function DecodeToken(t: string): Option<seq<nat>>
  {
    var b := Decode(Repad(FromUrlSafe(t)));
    if b.None? || |b.value| % 4 != 0 then None else Some(ReadWords(b.value))
  }

  lemma {:induction false} StripPads(x: seq<char>, n: nat)
    requires x == [] || x[|x| - 1] != PAD
    ensures StripPadding(x + seq(n, _ => PAD)) == x
  {
    if n > 0 {
      var y := x + seq(n, _ => PAD);
      assert y[..|y| - 1] == x + seq(n - 1, _ => PAD);
      StripPads(x, n - 1);
    }
  }

  lemma PaddingIsPads(n: nat)
    ensures Padding(n) == seq(|Padding(n)|, _ => PAD)
  {
  }

  lemma PadCount(q: nat, r: nat, len: nat)
    requires r < 3 && len == 4 * q + (if r == 0 then 0 else r + 1)
    ensures (4 - len % 4) % 4 == (if r == 1 then 2 else if r == 2 then 1 else 0)
  {
    if r == 0 {
      DivUnique(len, 4, q, 0);
    } else {
      DivUnique(len, 4, q, r + 1);
    }
  }

  /** The body of an encoding, padded again, is the whole encoding. */
  lemma RepadBody(b: seq<Byte>)
    ensures Repad(EncodeBody(b)) == Encode(b)
  {
    var n := |b|;
    var e := EncodeBody(b);
    PadCount(n / 3, n % 3, |e|);
    PaddingIsPads(n);
  }

  /** A token is the URL-safe body of the encoding, without any padding. */
  lemma TokenIsBody(ws: seq<int>)
    ensures TokenOf(ws) == UrlSafe(EncodeBody(WordsToBytes(ws)))
  {
    var b := WordsToBytes(ws);
    var e := EncodeBody(b);
    var p := Padding(|b|);
    assert UrlSafe(e + p) == UrlSafe(e) + p;
    PaddingIsPads(|b|);
    StripPads(UrlSafe(e), |p|);
  }

  /** Fa's output never contains '+', '/' or '='. */
  lemma TokenAlphabet(ws: seq<int>)
    ensures forall k :: 0 <= k < |TokenOf(ws)| ==>
      TokenOf(ws)[k] != '+' && TokenOf(ws)[k] != '/' && TokenOf(ws)[k] != PAD
  {
    TokenIsBody(ws);
  }

  /** Decoding a token gives back every word it was made of, modulo 2^32. */
  lemma DecodeTokenOf(ws: seq<int>)
    ensures DecodeToken(TokenOf(ws)) == Some(Uint32s(ws))
  {
    var b := WordsToBytes(ws);
    var e := EncodeBody(b);
    TokenIsBody(ws);
    assert FromUrlSafe(UrlSafe(e)) == e;
    RepadBody(b);
    DecodeEncode(b);
    ReadWordsToBytes(ws);
  }

  // ---------------------------------------------------------------------
  // Fa

  /** The words Fa serialises: size, rounds, then the bit array. */
  function Header(size: nat, g: nat, words: seq<int>): seq<int>
  {
    [size, g] + words
  }

  /** Fa: the token of a filter. */
  method Serialize(f: Filter) returns (t: string)
    requires f.Valid()
    ensures t == TokenOf(Header(f.size, f.g, f.data.values[..]))
  {
    var arr := Header(f.size, f.g, f.data.values[..]);
    var b: seq<Byte> := [];
    var c := 0;
    while c < |arr|
      invariant 0 <= c <= |arr|
      invariant b == WordsToBytes(arr[..c])
    {
      var d := arr[c];
      assert arr[..c + 1][..c] == arr[..c];
      b := b + WordBytes(d);
      c := c + 1;
    }
    assert arr[..c] == arr;
    t := StripPadding(UrlSafe(Encode(b)));
  }

  // ---------------------------------------------------------------------
  // Ga

  const EMPTY_TOKEN: string := "AAAAAQAAAAEAAAAB"

  /** The largest bit count Ga uses. */
  const MAX_SIZE: int := 9586

  /** `Math.min(estimate, 9586)`: the bit count of the filter. */
  function FilterSize(estimate: int): (r: nat)
    requires estimate >= 1
    ensures 1 <= r <= MAX_SIZE
    ensures r == estimate || (estimate > MAX_SIZE && r == MAX_SIZE)
  {
    if estimate < MAX_SIZE then estimate else MAX_SIZE
  }

  /** `Math.max(Math.min(estimate, H_CONST.length), 1)`: the number of rounds. */
  function Rounds(estimate: int): (r: nat)
    ensures 1 <= r <= |SEEDS|
    ensures 1 <= estimate <= |SEEDS| ==> r == estimate
    ensures estimate > |SEEDS| ==> r == |SEEDS|
    ensures estimate < 1 ==> r == 1
  {
    var m := if estimate < |SEEDS| then estimate else |SEEDS|;
    if m > 1 then m else 1
  }

  function Zeros(n: nat): (r: seq<int>)
    ensures |r| == n && Words32(r)
  {
    seq(n, _ => 0)
  }

  /** The words after adding the numbers of list, in order. */
  function AddNumbers(w: seq<int>, list: seq<int>, g: nat, size: nat): (r: seq<int>)
    requires 1 <= size <= 32 * |w|
    ensures |r| == |w|
    ensures Words32(w) ==> Words32(r)
  {
    if list == [] then w
    else AddWords(AddNumbers(w, list[..|list| - 1], g, size), Num(list[|list| - 1]), g, size)
  }

  /** Some round of some number of list selects bit j. */
  predicate Hit(list: seq<int>, g: nat, size: nat, j: nat)
    requires size >= 1
  {
    exists x, c :: x in list && 0 <= c < g && Index(Num(x), c, size) == j
  }

  /**
   * After the numbers of list are added, bit j is set iff it was set
   * before or some round of some number selects it: no false negatives,
   * and no bit set for any other reason.
   */
  lemma {:induction false} AddNumbersBits(w: seq<int>, list: seq<int>, g: nat, size: nat)
    requires 1 <= size <= 32 * |w|
    ensures forall j: nat :: j < 32 * |w| ==>
      BitOf(AddNumbers(w, list, g, size), j) == (BitOf(w, j) || Hit(list, g, size, j))
  {
    if list != [] {
      var init, x := list[..|list| - 1], list[|list| - 1];
      var v := AddNumbers(w, init, g, size);
      AddNumbersBits(w, init, g, size);
      AddBits(v, Num(x), g, size);
      forall j: nat | j < 32 * |w|
        ensures BitOf(AddNumbers(w, list, g, size), j) == (BitOf(w, j) || Hit(list, g, size, j))
      {
        HitLast(list, g, size, j);
      }
    }
  }

  /** A hit in a non-empty list is a hit in its front or a round of its last number. */
  lemma HitLast(list: seq<int>, g: nat, size: nat, j: nat)
    requires size >= 1 && list != []
    ensures var init, x := list[..|list| - 1], list[|list| - 1];
      Hit(list, g, size, j) == (Hit(init, g, size, j) || j in Indices(Num(x), g, size))
  {
    var init, x := list[..|list| - 1], list[|list| - 1];
    HitOfRound(list, g, size, j);
    HitOfInit(list, g, size, j);
    HitSplits(list, g, size, j);
  }

  lemma HitOfRound(list: seq<int>, g: nat, size: nat, j: nat)
    requires size >= 1 && list != []
    ensures j in Indices(Num(list[|list| - 1]), g, size) ==> Hit(list, g, size, j)
  {
    var x := list[|list| - 1];
    var xs := Indices(Num(x), g, size);
    if j in xs {
      var c :| 0 <= c < g && xs[c] == j;
      assert x in list;
    }
  }

  lemma HitOfInit(list: seq<int>, g: nat, size: nat, j: nat)
    requires size >= 1 && list != []
    ensures Hit(list[..|list| - 1], g, size, j) ==> Hit(list, g, size, j)
  {
    var init := list[..|list| - 1];
    if Hit(init, g, size, j) {
      var y, c :| y in init && 0 <= c < g && Index(Num(y), c, size) == j;
      assert y in list;
    }
  }

  lemma InFrontOrLast(list: seq<int>, y: int)
    requires y in list
    ensures y == list[|list| - 1] || y in list[..|list| - 1]
  {
    var k :| 0 <= k < |list| && list[k] == y;
    if k < |list| - 1 {
      assert list[..|list| - 1][k] == y;
    }
  }

  lemma HitSplits(list: seq<int>, g: nat, size: nat, j: nat)
    requires size >= 1 && list != []
    ensures Hit(list, g, size, j) ==>
      Hit(list[..|list| - 1], g, size, j) || j in Indices(Num(list[|list| - 1]), g, size)
  {
    var init, x := list[..|list| - 1], list[|list| - 1];
    if Hit(list, g, size, j) {
      var y, c :| y in list && 0 <= c < g && Index(Num(y), c, size) == j;
      InFrontOrLast(list, y);
      if y == x {
        assert Indices(Num(x), g, size)[c] == j;
      } else {
        assert y in init && 0 <= c < g && Index(Num(y), c, size) == j;
      }
    }
  }

  /**
   * The words after the forEach depend only on which numbers the list
   * holds: not on their order, nor on repeats.
   */
  lemma AddNumbersOrder(w: seq<int>, l1: seq<int>, l2: seq<int>, g: nat, size: nat)
    requires 1 <= size <= 32 * |w| && Words32(w)
    requires forall x :: x in l1 <==> x in l2
    ensures AddNumbers(w, l1, g, size) == AddNumbers(w, l2, g, size)
  {
    AddNumbersBits(w, l1, g, size);
    AddNumbersBits(w, l2, g, size);
    forall j: nat | j < 32 * |w|
      ensures Hit(l1, g, size, j) == Hit(l2, g, size, j)
    {
      if Hit(l1, g, size, j) {
        var y, c :| y in l1 && 0 <= c < g && Index(Num(y), c, size) == j;
        assert y in l2;
      }
      if Hit(l2, g, size, j) {
        var y, c :| y in l2 && 0 <= c < g && Index(Num(y), c, size) == j;
        assert y in l1;
      }
    }
    WordsExtensional(AddNumbers(w, l1, g, size), AddNumbers(w, l2, g, size));
  }

  /** One step of the forEach: add the number list[i]. */
  method AddNext(f: Filter, list: seq<int>, i: nat, ghost w: seq<int>)
    requires f.Valid() && i < |list| && 1 <= f.size <= 32 * |w|
    requires f.data.values[..] == AddNumbers(w, list[..i], f.g, f.size)
    modifies f.data.values
    ensures f.Valid()
    ensures f.data.values[..] == AddNumbers(w, list[..i + 1], f.g, f.size)
  {
    assert list[..i + 1][..i] == list[..i];
    f.Add(Num(list[i]));
  }

  /** `unicodeList.forEach(d => c.add(d))`. */
  method AddAll(f: Filter, list: seq<int>)
    requires f.Valid()
    modifies f.data.values
    ensures f.Valid()
    ensures f.data.values[..] == AddNumbers(old(f.data.values[..]), list, f.g, f.size)
  {
    var i := 0;
    while i < |list|
      invariant 0 <= i <= |list| && f.Valid()
      invariant f.data.values[..] == AddNumbers(old(f.data.values[..]), list[..i], f.g, f.size)
    {
      AddNext(f, list, i, old(f.data.values[..]));
      i := i + 1;
    }
    assert list[..i] == list;
  }

  /**
   * Ga: the token of a list of code points.  The floating-point estimates
   * of the bit count and of the rounds are taken as inputs.
   */
  method GenerateToken(list: seq<int>, sizeEstimate: int, roundsEstimate: int) returns (t: string)
    requires sizeEstimate >= 1
    ensures list == [] ==> t == EMPTY_TOKEN
    ensures list != [] ==>
      var size, g := FilterSize(sizeEstimate), Rounds(roundsEstimate);
      t == TokenOf(Header(size, g, AddNumbers(Zeros(WordCount(size)), list, g, size)))
  {
    if list == [] {
      return EMPTY_TOKEN;
    }
    var size := FilterSize(sizeEstimate);
    var g := Rounds(roundsEstimate);
    var f := new Filter(size, g);
    assert f.data.values[..] == Zeros(WordCount(size));
    AddAll(f, list);
    t := Serialize(f);
  }

  lemma UintsConcat(a: seq<int>, b: seq<int>)
    ensures Uint32s(a + b) == Uint32s(a) + Uint32s(b)
  {
    assert forall k :: 0 <= k < |a + b| ==> Uint32s(a + b)[k] == (Uint32s(a) + Uint32s(b))[k];
  }

  /** A token decodes to the filter's size, its rounds and its words modulo 2^32. */
  lemma DecodeHeader(size: nat, g: nat, words: seq<int>)
    requires size < TWO_32 && g < TWO_32
    ensures DecodeToken(TokenOf(Header(size, g, words))) == Some([size, g] + Uint32s(words))
  {
    DecodeTokenOf(Header(size, g, words));
    UintsConcat([size, g], words);
    UintsOfPair(size, g);
  }

  lemma UintsOfPair(size: nat, g: nat)
    requires size < TWO_32 && g < TWO_32
    ensures Uint32s([size, g]) == [size, g]
  {
    ToUint32OfUint32(size);
    ToUint32OfUint32(g);
  }

  // ---------------------------------------------------------------------
  // The token of an empty list

  /** The twelve bytes of the words [1, 1, 1], most significant byte first. */
  const ONES_BYTES: seq<Byte> := [0, 0, 0, 1, 0, 0, 0, 1, 0, 0, 0, 1]

  lemma EmptyTokenGroups()
    ensures DecodeQuad("AAAA") == Some([0, 0, 0])
    ensures DecodeQuad("AQAA") == Some([1, 0, 0])
  {
  }

  lemma EmptyTokenGroupsTail()
    ensures DecodeQuad("AAEA") == Some([0, 1, 0])
    ensures Decode("AAAB") == Some([0, 0, 1])
  {
    assert DecodeQuad("AAAB") == Some([0, 0, 1]);
  }

  lemma EmptyTokenBytes()
    ensures Decode(EMPTY_TOKEN) == Some(ONES_BYTES)
  {
    var q0, q1, q2, q3 := "AAAA", "AQAA", "AAEA", "AAAB";
    assert EMPTY_TOKEN == q0 + (q1 + (q2 + q3));
    EmptyTokenGroups();
    EmptyTokenGroupsTail();
    DecodeJoin(q2 + q3, q2, q3, [0, 1, 0], [0, 0, 1]);
    DecodeJoin(q1 + (q2 + q3), q1, q2 + q3, [1, 0, 0], [0, 1, 0] + [0, 0, 1]);
    DecodeJoin(EMPTY_TOKEN, q0, q1 + (q2 + q3), [0, 0, 0], [1, 0, 0] + ([0, 1, 0] + [0, 0, 1]));
    assert [0, 0, 0] + ([1, 0, 0] + ([0, 1, 0] + [0, 0, 1])) == ONES_BYTES;
  }

  lemma OnesBytesWords()
    ensures ReadWords(ONES_BYTES) == [1, 1, 1]
  {
    var b := ONES_BYTES;
    assert ReadWords(b[..4]) == [1] by {
      assert b[..4][..0] == [];
    }
    assert ReadWords(b[..8]) == [1, 1] by {
      assert b[..8][..4] == b[..4];
    }
    assert b[..12][..8] == b[..8];
  }

  lemma EmptyTokenDecodes()
    ensures DecodeToken(EMPTY_TOKEN) == Some([1, 1, 1])
  {
    assert FromUrlSafe(EMPTY_TOKEN) == EMPTY_TOKEN;
    assert Repad(EMPTY_TOKEN) == EMPTY_TOKEN;
    EmptyTokenBytes();
    OnesBytesWords();
  }
}
