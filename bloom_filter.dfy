/**
 * Ea of scripts/build.js: a Bloom filter of `size` bits and `g` hash
 * rounds.  Adding a key sets, for every round c < g, the bit at
 * hash(key, H_CONST[c]) % size of its bit array.
 */
module BloomFilter {
  import opened JsInt
  import opened Murmur
  import opened BitArrays

  /** A key `add` accepts: a JavaScript number or a string. */
  datatype Key = Num(n: int) | Str(s: seq<CodeUnit>)

  /** Ba for numbers, Ca for strings. */
  function Hash(key: Key, seed: int): (r: int)
    ensures 0 <= r < TWO_32
  {
    match key
    case Num(n) => HashNumber(n, seed)
    case Str(s) => HashStringValue(s, seed)
  }

  /** The bit that round c sets: `hash % size`. */
  function Index(key: Key, c: nat, size: nat): (r: nat)
    requires size >= 1
    ensures r < size
  {
    Hash(key, Seed(c)) % size
  }

  /** The indices `add` passes to `set`, one per round, in round order. */
  function Indices(key: Key, g: nat, size: nat): (r: seq<nat>)
    requires size >= 1
    ensures |r| == g
    ensures forall c :: 0 <= c < g ==> r[c] == Index(key, c, size) < size
  {
    if g == 0 then [] else Indices(key, g - 1, size) + [Index(key, g - 1, size)]
  }

  /** The words after setting the bits xs one after another. */
  function SetAll(w: seq<int>, xs: seq<nat>): (r: seq<int>)
    requires forall k :: 0 <= k < |xs| ==> xs[k] < 32 * |w|
    ensures |r| == |w|
    ensures Words32(w) ==> Words32(r)
  {
    if xs == [] then w else SetBit(SetAll(w, xs[..|xs| - 1]), xs[|xs| - 1])
  }

  /** A bit is set after SetAll iff it was set before or is one of xs. */
  lemma {:induction false} SetAllBits(w: seq<int>, xs: seq<nat>)
    requires forall k :: 0 <= k < |xs| ==> xs[k] < 32 * |w|
    ensures forall j: nat :: j < 32 * |w| ==> BitOf(SetAll(w, xs), j) == (BitOf(w, j) || j in xs)
  {
    if xs != [] {
      var ys, x := xs[..|xs| - 1], xs[|xs| - 1];
      assert xs == ys + [x];
      SetAllBits(w, ys);
      SetBitBits(SetAll(w, ys), x);
    }
  }

  lemma SetAllStep(w: seq<int>, xs: seq<nat>)
    requires xs != [] && forall k :: 0 <= k < |xs| ==> xs[k] < 32 * |w|
    ensures SetAll(w, xs) == SetBit(SetAll(w, xs[..|xs| - 1]), xs[|xs| - 1])
  {
  }

  /** The round c + 1 of add sets one more bit than round c. */
  lemma AddStep(w: seq<int>, key: Key, c: nat, size: nat)
    requires 1 <= size <= 32 * |w|
    ensures SetAll(w, Indices(key, c + 1, size)) == SetBit(SetAll(w, Indices(key, c, size)), Index(key, c, size))
  {
    var xs := Indices(key, c + 1, size);
    assert xs[..c] == Indices(key, c, size);
    SetAllStep(w, xs);
  }

  /** The hash of round c: Ba for a number, Ca for a string. */
  method RoundHash(key: Key, c: nat) returns (h: int)
    ensures h == Hash(key, Seed(c))
  {
    if key.Num? {
      h := HashNumber(key.n, Seed(c));
    } else {
      h := HashString(key.s, Seed(c));
    }
  }

  /** The words after `add(key)` on a filter of the given size and rounds. */
  function AddWords(w: seq<int>, key: Key, g: nat, size: nat): (r: seq<int>)
    requires 1 <= size <= 32 * |w|
    ensures |r| == |w|
    ensures Words32(w) ==> Words32(r)
  {
    SetAll(w, Indices(key, g, size))
  }

  /** After add, bit j is set iff it was set before or some round hashed the key to j. */
  lemma AddBits(w: seq<int>, key: Key, g: nat, size: nat)
    requires 1 <= size <= 32 * |w|
    ensures forall j: nat :: j < 32 * |w| ==>
      BitOf(AddWords(w, key, g, size), j) == (BitOf(w, j) || j in Indices(key, g, size))
  {
    SetAllBits(w, Indices(key, g, size));
  }

  /** Bits only go from 0 to 1, and every round's bit is set afterwards. */
  lemma AddMonotone(w: seq<int>, key: Key, g: nat, size: nat)
    requires 1 <= size <= 32 * |w|
    ensures forall j: nat :: j < 32 * |w| && BitOf(w, j) ==> BitOf(AddWords(w, key, g, size), j)
    ensures forall c :: 0 <= c < g ==> BitOf(AddWords(w, key, g, size), Index(key, c, size))
  {
    var xs := Indices(key, g, size);
    AddBits(w, key, g, size);
    forall c | 0 <= c < g
      ensures BitOf(AddWords(w, key, g, size), Index(key, c, size))
    {
      assert xs[c] in xs;
    }
  }

  /** Adding the same key twice leaves the words as after one add. */
  lemma AddIdempotent(w: seq<int>, key: Key, g: nat, size: nat)
    requires 1 <= size <= 32 * |w| && Words32(w)
    ensures AddWords(AddWords(w, key, g, size), key, g, size) == AddWords(w, key, g, size)
  {
    var once := AddWords(w, key, g, size);
    AddBits(w, key, g, size);
    AddBits(once, key, g, size);
    WordsExtensional(AddWords(once, key, g, size), once);
  }

  /** The words after adding two keys do not depend on the order of the adds. */
  lemma AddCommutes(w: seq<int>, k1: Key, k2: Key, g: nat, size: nat)
    requires 1 <= size <= 32 * |w| && Words32(w)
    ensures AddWords(AddWords(w, k1, g, size), k2, g, size)
         == AddWords(AddWords(w, k2, g, size), k1, g, size)
  {
    var w1, w2 := AddWords(w, k1, g, size), AddWords(w, k2, g, size);
    AddBits(w, k1, g, size);
    AddBits(w, k2, g, size);
    AddBits(w1, k2, g, size);
    AddBits(w2, k1, g, size);
    WordsExtensional(AddWords(w1, k2, g, size), AddWords(w2, k1, g, size));
  }

  /** Ea: `size` bits, `g` rounds and the bit array `data`. */
  class Filter {
    const size: nat
    const g: nat
    const data: BitArray

    ghost predicate Valid()
      reads data, data.values
    {
      size >= 1 && data.size == size && data.Valid()
    }

    /** A filter whose bit array has ceil(size / 32) zero words. */
    constructor (size: nat, g: nat)
      requires size >= 1
      ensures Valid() && this.size == size && this.g == g
      ensures fresh(data) && fresh(data.values)
      ensures forall k :: 0 <= k < data.values.Length ==> data.values[k] == 0
    {
      this.size := size;
      this.g := g;
      data := new BitArray(size);
    }

    /**
     * `add(key)`: for each round c < g, sets bit hash(key, H_CONST[c]) % size.
     * None of the g calls to `set` throws.
     */
    method Add(key: Key)
      requires Valid()
      modifies data.values
      ensures Valid()
      ensures data.values[..] == AddWords(old(data.values[..]), key, g, size)
    {
      var c := 0;
      while c < g
        invariant 0 <= c <= g && Valid()
        invariant data.values[..] == SetAll(old(data.values[..]), Indices(key, c, size))
      {
        AddRound(key, c, old(data.values[..]));
        c := c + 1;
      }
    }

    /** Round c of `add`: set the bit the round's hash selects. */
    method AddRound(key: Key, c: nat, ghost w: seq<int>)
      requires Valid() && |w| == data.values.Length
      requires data.values[..] == SetAll(w, Indices(key, c, size))
      modifies data.values
      ensures Valid()
      ensures data.values[..] == SetAll(w, Indices(key, c + 1, size))
    {
      var h := RoundHash(key, c);
      var r := data.Set(h % size);
      assert r.Ok?;
      AddStep(w, key, c, size);
    }
  }
}
