/**
 * Bloom filter (ad-hoc BloomFilter.java): a bit set of `bitsetSize` bits and
 * `numHashFunctions` index functions derived from String.hashCode.
 *
 * Java `int` arithmetic is modelled on `bv32` (wrap-around multiplication and
 * xor), and `%` as Java's remainder, which truncates toward zero.
 */
module Bloom {

  const INT_MAX: int := 0x7FFF_FFFF
  /** The MurmurHash2 multiplier the i-th hash function mixes in. */
  const MIX: bv32 := 0x5bd1e995

  /** The value of a 32-bit two's-complement word. */
  function Signed(b: bv32): int
  {
    if b < 0x8000_0000 then b as int else b as int - 0x1_0000_0000
  }

  /** String.hashCode: h = 31 * h + c over the characters, with 32-bit wrap-around. */
  function HashCode(s: string): bv32
  {
    if |s| == 0 then 0
    else HashCode(s[..|s| - 1]) * 31 + ((s[|s| - 1] as int) as bv32)
  }

  /**
   * i * 0x5bd1e995 in Java int: the multiplier added i times with 32-bit
   * wrap-around, which is the product modulo 2^32.
   */
  function Mix(i: nat): bv32
  {
    if i == 0 then 0 else Mix(i - 1) + MIX
  }

  /** hash(key, i) = key.hashCode() ^ (i * 0x5bd1e995), all in Java int. */
  function Hash(key: string, i: int): bv32
    requires 0 <= i <= INT_MAX
  {
    HashCode(key) ^ Mix(i)
  }

  /** Java's `a % n` for n > 0: the remainder takes the sign of `a`. */
  function JavaRem(a: int, n: int): int
    requires n > 0
  {
    if a >= 0 then a % n else -((-a) % n)
  }

  /**
   * Math.abs(hash % size): a bit index of the set. The remainder's magnitude
   * is below `size`, so the index is in range and Math.abs cannot overflow.
   */
  function BitOf(hash: bv32, size: int): (r: int)
    requires size > 0
    ensures 0 <= r < size
  {
    var rem := JavaRem(Signed(hash), size);
    if rem < 0 then -rem else rem
  }

  /** The bit the i-th hash function selects for `key`. */
  function Index(key: string, i: int, size: int): int
    requires 0 <= i <= INT_MAX && size > 0
  {
    BitOf(Hash(key, i), size)
  }

  /** The bits the first `n` hash functions select for `key`. */
  ghost function Indices(key: string, n: int, size: int): set<int>
    requires n <= INT_MAX + 1 && size > 0
  {
    set i | 0 <= i < n :: Index(key, i, size)
  }

  /** `bits` with every position in `s` set to true. */
  ghost function SetBits(bits: seq<bool>, s: set<int>): (r: seq<bool>)
    ensures |r| == |bits|
  {
    seq(|bits|, j requires 0 <= j < |bits| => bits[j] || j in s)
  }

  /** The bit set after add(key). */
  ghost function AddBits(bits: seq<bool>, key: string, k: int): seq<bool>
    requires |bits| > 0 && k <= INT_MAX
  {
    SetBits(bits, Indices(key, k, |bits|))
  }

  /** The bit set after adding each key of `keys` in turn. */
  ghost function AddAll(bits: seq<bool>, keys: seq<string>, k: int): (r: seq<bool>)
    requires |bits| > 0 && k <= INT_MAX
    ensures |r| == |bits|
    decreases |keys|
  {
    if keys == [] then bits else AddAll(AddBits(bits, keys[0], k), keys[1..], k)
  }

  /** What mightContain answers: every selected bit is set. */
  ghost predicate Contains(bits: seq<bool>, key: string, k: int)
    requires |bits| > 0 && k <= INT_MAX
  {
    forall i :: 0 <= i < k ==> bits[Index(key, i, |bits|)]
  }

  /** Adding a key sets exactly its bits and never clears one. */
  lemma AddSetsExactlyIndices(bits: seq<bool>, key: string, k: int, j: int)
    requires |bits| > 0 && k <= INT_MAX && 0 <= j < |bits|
    ensures AddBits(bits, key, k)[j] <==> bits[j] || exists i :: 0 <= i < k && Index(key, i, |bits|) == j
  {
  }

  /** No false negatives: right after add(key), mightContain(key) is true. */
  lemma {:induction false} AddThenContains(bits: seq<bool>, key: string, k: int)
    requires |bits| > 0 && k <= INT_MAX
    ensures Contains(AddBits(bits, key, k), key, k)
  {
    forall i | 0 <= i < k
      ensures AddBits(bits, key, k)[Index(key, i, |bits|)]
    {
      assert Index(key, i, |bits|) in Indices(key, k, |bits|);
    }
  }

  /** A set bit stays set whatever is added afterwards. */
  lemma {:induction false} AddAllKeepsBits(bits: seq<bool>, keys: seq<string>, k: int, j: int)
    requires |bits| > 0 && k <= INT_MAX && 0 <= j < |bits| && bits[j]
    ensures AddAll(bits, keys, k)[j]
    decreases |keys|
  {
    if keys != [] {
      AddAllKeepsBits(AddBits(bits, keys[0], k), keys[1..], k, j);
    }
  }

  /** No false negatives, also after any further adds. */
  lemma {:induction false} NoFalseNegatives(bits: seq<bool>, key: string, later: seq<string>, k: int)
    requires |bits| > 0 && k <= INT_MAX
    ensures Contains(AddAll(AddBits(bits, key, k), later, k), key, k)
  {
    var added := AddBits(bits, key, k);
    AddThenContains(bits, key, k);
    forall i | 0 <= i < k
      ensures AddAll(added, later, k)[Index(key, i, |bits|)]
    {
      AddAllKeepsBits(added, later, k, Index(key, i, |bits|));
    }
  }

  /** Adding the same key twice leaves the bit set that adding it once leaves. */
  lemma AddIdempotent(bits: seq<bool>, key: string, k: int)
    requires |bits| > 0 && k <= INT_MAX
    ensures AddBits(AddBits(bits, key, k), key, k) == AddBits(bits, key, k)
  {
  }

  /** One more hash function: the bit it selects joins the bits already set. */
  lemma AddBitsStep(bits: seq<bool>, cur: seq<bool>, key: string, i: int, j: int)
    requires |bits| > 0 && 0 <= i < INT_MAX && j == Index(key, i, |bits|)
    requires cur == SetBits(bits, Indices(key, i, |bits|))
    ensures cur[j := true] == SetBits(bits, Indices(key, i + 1, |bits|))
  {
    assert Indices(key, i + 1, |bits|) == Indices(key, i, |bits|) + {j};
  }

  /** A non-positive number of hash functions selects no bit. */
  lemma NoHashFunctions(key: string, k: int, size: int)
    requires k <= 0 && size > 0
    ensures Indices(key, k, size) == {} == Indices(key, 0, size)
  {
  }

  class BloomFilter {
    const bitset: array<bool>
    const bitsetSize: int
    const numHashFunctions: int

    ghost predicate Valid()
      reads this
    {
      bitset.Length == bitsetSize && 0 < bitsetSize <= INT_MAX && -INT_MAX - 1 <= numHashFunctions <= INT_MAX
    }

    constructor (bitsetSize: int, numHashFunctions: int)
      requires 0 < bitsetSize <= INT_MAX && -INT_MAX - 1 <= numHashFunctions <= INT_MAX
      ensures Valid() && fresh(bitset)
      ensures this.bitsetSize == bitsetSize && this.numHashFunctions == numHashFunctions
      ensures forall j :: 0 <= j < bitset.Length ==> !bitset[j]
    {
      this.bitsetSize := bitsetSize;
      this.numHashFunctions := numHashFunctions;
      bitset := new bool[bitsetSize](_ => false);
    }

    /** Sets the bit of every hash function for `key`. */
    method Add(key: string)
      requires Valid()
      modifies bitset
      ensures bitset[..] == AddBits(old(bitset[..]), key, numHashFunctions)
    {
      ghost var bits := bitset[..];
      var i := 0;
      while i < numHashFunctions
        invariant 0 <= i <= numHashFunctions || (i == 0 && numHashFunctions < 0)
        invariant bitset[..] == SetBits(bits, Indices(key, i, bitsetSize))
      {
        var hash := Hash(key, i);
        var j := BitOf(hash, bitsetSize);
        AddBitsStep(bits, bitset[..], key, i, j);
        bitset[j] := true;
        i := i + 1;
      }
      if numHashFunctions < 0 {
        NoHashFunctions(key, numHashFunctions, bitsetSize);
      }
    }

    /** False as soon as one selected bit is clear; true when all are set. */
    method MightContain(key: string) returns (r: bool)
      requires Valid()
      ensures r == Contains(bitset[..], key, numHashFunctions)
    {
      var i := 0;
      while i < numHashFunctions
        invariant 0 <= i <= numHashFunctions || (i == 0 && numHashFunctions < 0)
        invariant forall m :: 0 <= m < i ==> bitset[Index(key, m, bitsetSize)]
      {
        var hash := Hash(key, i);
        if !bitset[BitOf(hash, bitsetSize)] {
          assert !bitset[..][Index(key, i, bitsetSize)];
          return false;
        }
        i := i + 1;
      }
      return true;
    }
  }
}
