/** The sum-based string hash that picks a word's home slot. */
module Hashing {
  import opened Words

  /** Slot count that create_hashtable allocates. */
  const TABLESIZE := 1267709

  /** The prime the author added to each character's positional weight. */
  const HASH_PRIME := 1409

  /** 2^32: the accumulator is a C `unsigned int`. */
  const WORD_RANGE := 0x1_0000_0000

  /** The hash sum before any wrap-around: character i (0-based) weighs (i + 1) + HASH_PRIME. */
  function HashSum(key: string): (sum: nat)
  {
    if key == [] then 0
    else
      var i := |key| - 1;
      HashSum(key[..i]) + key[i] as int * (i + 1) + key[i] as int * HASH_PRIME
  }

  /** The home slot: the 32-bit accumulator reduced modulo the table size. */
  function HashIndex(key: string, tableSize: nat): (slot: nat)
    requires tableSize > 0
  {
    (HashSum(key) % WORD_RANGE) % tableSize
  }

  /** hashCode: accumulates in a wrapping 32-bit register and reduces modulo the table size. */
  method HashCode(key: string, tableSize: nat) returns (slot: nat)
    requires tableSize > 0
    ensures slot == HashIndex(key, tableSize)
    ensures slot < tableSize
  {
    var value := 0;
    for i := 0 to |key|
      invariant value == HashSum(key[..i]) % WORD_RANGE
    {
      assert key[..i + 1][..i] == key[..i];
      ModAddAbsorbs(HashSum(key[..i]), key[i] as int * (i + 1) + key[i] as int * HASH_PRIME);
      value := (value + key[i] as int * (i + 1) + key[i] as int * HASH_PRIME) % WORD_RANGE;
    }
    assert key[..|key|] == key;
    slot := value % tableSize;
  }

  lemma ModAddAbsorbs(a: nat, b: nat)
    ensures (a % WORD_RANGE + b) % WORD_RANGE == (a + b) % WORD_RANGE
  {
    var q := a / WORD_RANGE;
    assert a == q * WORD_RANGE + a % WORD_RANGE;
    assert a + b == (a % WORD_RANGE + b) + q * WORD_RANGE;
  }

  /** A letter of a token, weighted by its position, adds at most 122 * (99 + HASH_PRIME). */
  const MAX_STEP := 122 * (MAX_WORD_LENGTH + HASH_PRIME)

  lemma MulMono(a: nat, b: nat, c: nat)
    requires a <= b
    ensures a * c <= b * c
  {
  }

  /** Every character is at most 'z' and there are at most 99 of them:
      each one adds at most MAX_STEP to the hash sum. */
  lemma {:induction false} HashSumBound(key: string)
    requires |key| <= MAX_WORD_LENGTH
    requires forall i :: 0 <= i < |key| ==> key[i] <= 'z'
    ensures HashSum(key) <= |key| * MAX_STEP
  {
    if key != [] {
      var i := |key| - 1;
      HashSumBound(key[..i]);
      var c := key[i] as int;
      MulMono(c, 122, i + 1 + HASH_PRIME);
      MulMono(i + 1 + HASH_PRIME, MAX_WORD_LENGTH + HASH_PRIME, 122);
      assert c * (i + 1) + c * HASH_PRIME == c * (i + 1 + HASH_PRIME);
    }
  }

  /** For every token the tokenizer can produce the 32-bit accumulator never wraps,
      so the home slot is the plain sum modulo the table size. */
  lemma HashNoWrap(key: string, tableSize: nat)
    requires IsWord(key) && tableSize > 0
    ensures HashSum(key) < WORD_RANGE
    ensures HashIndex(key, tableSize) == HashSum(key) % tableSize
  {
    HashSumBound(key);
    MulMono(|key|, MAX_WORD_LENGTH, MAX_STEP);
  }
}
