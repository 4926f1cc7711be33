/**
 * Da of scripts/build.js: a fixed-size bit array kept as JavaScript numbers
 * holding 32-bit words.  Bit i lives in bit i % 32 of word i / 32.
 *
 * The words are first specified as a sequence (SetBit, BitOf); the class
 * BitArray then keeps them in an array that `Set` updates in place.
 */
module BitArrays {
  import opened JsInt

  /** The message of the error `set` and `has` throw. */
  const OUT_OF_BOUNDS: string := "Index is out of bounds."

  /** A call that either returns a value or throws an Error with a message. */
  datatype Result<T> = Ok(value: T) | Error(message: string)

  /** `Math.ceil(size / 32)`: the number of words for size bits. */
  function WordCount(size: nat): (n: nat)
    ensures size <= 32 * n < size + 32
  {
    (size + 31) / 32
  }

  /** The check both `set` and `has` make: `Math.floor(i / 32 + 1) > values.length`. */
  predicate OutOfBounds(w: seq<int>, i: nat)
  {
    i / 32 + 1 > |w|
  }

  lemma OutOfBoundsIff(w: seq<int>, i: nat)
    ensures OutOfBounds(w, i) <==> i >= 32 * |w|
  {
    var b := i / 32;
    assert i == 32 * b + i % 32;
    if b + 1 <= |w| {
      assert 32 * (b + 1) <= 32 * |w|;
    } else {
      assert 32 * |w| <= 32 * b;
    }
  }

  /** Every word holds a value a JavaScript bitwise operator can produce. */
  predicate Words32(w: seq<int>)
  {
    forall k :: 0 <= k < |w| ==> IsInt32(w[k])
  }

  /** Bit i of the array. */
  function BitOf(w: seq<int>, i: nat): bool
    requires i < 32 * |w|
  {
    Bit(w[i / 32], i % 32)
  }

  /** The words after `values[b] |= 1 << i - 32 * b` with b = floor(i / 32). */
  function SetBit(w: seq<int>, i: nat): (r: seq<int>)
    requires i < 32 * |w|
    ensures |r| == |w|
    ensures Words32(w) ==> Words32(r)
  {
    var b := i / 32;
    w[b := Or(w[b], Shl(1, i - 32 * b))]
  }

  lemma WordAndOffset(k: nat, b: nat)
    requires b < 32
    ensures (32 * k + b) / 32 == k && (32 * k + b) % 32 == b
  {
    DivUnique(32 * k + b, 32, k, b);
  }

  /**
   * Setting bit i turns on bit i and no other, and changes no word but
   * word i / 32.
   */
  lemma SetBitBits(w: seq<int>, i: nat)
    requires i < 32 * |w|
    ensures forall j: nat :: j < 32 * |w| ==> BitOf(SetBit(w, i), j) == (BitOf(w, j) || j == i)
    ensures forall k :: 0 <= k < |w| && k != i / 32 ==> SetBit(w, i)[k] == w[k]
  {
    var b := i / 32;
    var r := SetBit(w, i);
    forall j: nat | j < 32 * |w|
      ensures BitOf(r, j) == (BitOf(w, j) || j == i)
    {
      if j / 32 == b {
        BitOr(w[b], Shl(1, i % 32), j % 32);
        BitShlOne(i % 32, j % 32);
        assert j == 32 * b + j % 32 && i == 32 * b + i % 32;
      } else {
        assert j != i;
      }
    }
  }

  /** Words of int32 values are determined by their bits. */
  lemma WordsExtensional(w: seq<int>, v: seq<int>)
    requires |w| == |v| && Words32(w) && Words32(v)
    requires forall j: nat :: j < 32 * |w| ==> BitOf(w, j) == BitOf(v, j)
    ensures w == v
  {
    forall k | 0 <= k < |w|
      ensures w[k] == v[k]
    {
      forall b | 0 <= b < 32
        ensures Bit(w[k], b) == Bit(v[k], b)
      {
        WordAndOffset(k, b);
        assert BitOf(w, 32 * k + b) == BitOf(v, 32 * k + b);
      }
      Int32Extensional(w[k], v[k]);
    }
  }

  /** Da: `size` bits in `values.Length` = ceil(size / 32) words. */
  class BitArray {
    const size: nat
    const values: array<int>

    ghost predicate Valid()
      reads values
    {
      values.Length == WordCount(size) && Words32(values[..])
    }

    /** A new array of ceil(size / 32) words, all zero. */
    constructor (size: nat)
      ensures Valid() && this.size == size && fresh(values)
      ensures forall k :: 0 <= k < values.Length ==> values[k] == 0
    {
      this.size := size;
      var n := WordCount(size);
      var a := new int[n];
      var i := 0;
      while i < n
        invariant 0 <= i <= n
        invariant forall k :: 0 <= k < i ==> a[k] == 0
      {
        a[i] := 0;
        i := i + 1;
      }
      values := a;
    }

    /**
     * `set(i)`: throws "Index is out of bounds." exactly when i is not below
     * 32 * values.Length, and otherwise ORs bit i into its word.
     */
    method Set(i: nat) returns (r: Result<()>)
      requires Valid()
      modifies values
      ensures Valid()
      ensures r.Ok? <==> i < 32 * values.Length
      ensures r.Error? ==> r.message == OUT_OF_BOUNDS && values[..] == old(values[..])
      ensures r.Ok? ==> values[..] == SetBit(old(values[..]), i)
      ensures r.Ok? ==> forall j: nat :: j < 32 * values.Length ==>
                BitOf(values[..], j) == (BitOf(old(values[..]), j) || j == i)
    {
      OutOfBoundsIff(values[..], i);
      if OutOfBounds(values[..], i) {
        return Error(OUT_OF_BOUNDS);
      }
      SetBitBits(values[..], i);
      var b := i / 32;
      values[b] := Or(values[b], Shl(1, i - 32 * b));
      return Ok(());
    }

    /** `has(i)`: the same bounds error, otherwise whether bit i is set. */
    function Has(i: nat): (r: Result<bool>)
      reads values
      ensures r.Ok? <==> i < 32 * values.Length
      ensures r.Error? ==> r.message == OUT_OF_BOUNDS
      ensures r.Ok? ==> r.value == BitOf(values[..], i)
    {
      OutOfBoundsIff(values[..], i);
      if OutOfBounds(values[..], i) then Error(OUT_OF_BOUNDS)
      else
        var b := i / 32;
        AndShlOne(values[b], i - 32 * b);
        Ok(And(values[b], Shl(1, i - 32 * b)) != 0)
    }
  }
}
