/** The FNV-1a loop of the address derivation, and how it spreads residues. */
module Fnv {
  import opened Words

  const OFFSET_BASIS: u32 := 2_166_136_261
  const PRIME: u32 := 16_777_619
  /** The inverse of the prime modulo 2^32. */
  const PRIME_INVERSE: u32 := 899_433_627

  /** One round: exclusive-or the byte in, then multiply with wrap-around. */
  function Step(h: u32, b: u8): u32 {
    XorWord(h, b);
    WrappingMul(Xor(h, b), PRIME)
  }

  /** The hash state after feeding `input` to a state `h`. */
  function HashFrom(h: u32, input: Bytes): u32
    decreases |input|
  {
    if input == [] then h else HashFrom(Step(h, input[0]), input[1..])
  }

  function Hash(input: Bytes): u32 {
    HashFrom(OFFSET_BASIS, input)
  }

  method ComputeHash(input: Bytes) returns (hash: u32)
    ensures hash == Hash(input)
  {
    hash := OFFSET_BASIS;
    for i := 0 to |input|
      invariant HashFrom(hash, input[i..]) == Hash(input)
    {
      XorWord(hash, input[i]);
      hash := WrappingMul(Xor(hash, input[i]), PRIME);
      assert input[i..][1..] == input[i + 1..];
    }
  }

  lemma XorWord(h: u32, b: u8)
    ensures Xor(h, b) < WORD
  {
    Pow2Values();
    XorBound(h, b, 32);
  }

  lemma {:induction false} HashFromAppend(h: u32, a: Bytes, b: Bytes)
    ensures HashFrom(h, a + b) == HashFrom(HashFrom(h, a), b)
    decreases |a|
  {
    if a == [] {
      assert a + b == b;
    } else {
      HashFromAppend(Step(h, a[0]), a[1..], b);
      assert (a + b)[1..] == a[1..] + b;
    }
  }

  /** Published FNV-1a values: the empty string and "a". */
  lemma KnownHashes(a: Bytes)
    requires a == [97]
    ensures Hash([]) == 0x811C_9DC5 && Hash(a) == 0xE40C_292C
  {
    StepOfA(OFFSET_BASIS, a[0]);
    assert a[1..] == [];
    assert Hash(a) == HashFrom(Step(OFFSET_BASIS, a[0]), []);
  }

  lemma StepOfA(h: u32, b: u8)
    requires h == OFFSET_BASIS && b == 97
    ensures Step(h, b) == 0xE40C_292C
  {
    hide Xor;
    XorZero(16_922_939);
    XorUnfold(33_845_879, 1);
    XorUnfold(67_691_758, 3);
    XorUnfold(135_383_516, 6);
    XorUnfold(270_767_032, 12);
    XorUnfold(541_534_065, 24);
    XorUnfold(1_083_068_130, 48);
    XorUnfold(2_166_136_261, 97);
    assert Xor(h, b) == 2_166_136_228;
  }

  lemma XorZero(x: nat)
    ensures Xor(x, 0) == x
  {
  }

  // ---------------------------------------------------------------- residues

  /** `m * c == 2^32` for the modulus of every host-bit width. */
  lemma ModulusOfWord(k: nat) returns (c: nat)
    requires k <= 32
    ensures c >= 1 && Pow2(k) * c == WORD
  {
    Pow2Values();
    Pow2Split(k, 32 - k);
    c := Pow2(32 - k);
  }

  lemma ProductResidue(x: u32, k: nat)
    requires k <= 32
    ensures WrappingMul(x, PRIME) % Pow2(k) == (x * PRIME) % Pow2(k)
  {
    var c := ModulusOfWord(k);
    ModMod(x * PRIME, Pow2(k), c);
  }

  /** Multiplying by the prime then by its inverse is the identity modulo 2^k. */
  lemma PrimeUndone(x: int, k: nat)
    requires k <= 32
    ensures (x * PRIME * PRIME_INVERSE) % Pow2(k) == x % Pow2(k)
  {
    var c := ModulusOfWord(k);
    var s := (PRIME * PRIME_INVERSE - 1) / WORD;
    assert PRIME * PRIME_INVERSE == 1 + WORD * s;
    assert x * PRIME * PRIME_INVERSE == x + Pow2(k) * (c * (s * x)) by {
      assert x * PRIME * PRIME_INVERSE == x + WORD * (s * x);
      Associate(Pow2(k), c, s * x);
    }
    ModOfMultiple(x, Pow2(k), c * (s * x));
  }

  /** Multiplication by the prime is a bijection on residues modulo every 2^k. */
  lemma PrimeCancels(x: int, y: int, k: nat)
    requires k <= 32
    ensures (x * PRIME) % Pow2(k) == (y * PRIME) % Pow2(k) <==> x % Pow2(k) == y % Pow2(k)
  {
    var m := Pow2(k);
    if (x * PRIME) % m == (y * PRIME) % m {
      var t := CongruenceWitness(x * PRIME, y * PRIME, m);
      Associate(m, t, PRIME_INVERSE);
      assert x * PRIME * PRIME_INVERSE == y * PRIME * PRIME_INVERSE + m * (t * PRIME_INVERSE);
      ModOfMultiple(y * PRIME * PRIME_INVERSE, m, t * PRIME_INVERSE);
      PrimeUndone(x, k);
      PrimeUndone(y, k);
    }
    if x % m == y % m {
      var t := CongruenceWitness(x, y, m);
      Associate(m, t, PRIME);
      assert x * PRIME == y * PRIME + m * (t * PRIME);
      ModOfMultiple(y * PRIME, m, t * PRIME);
    }
  }

  /** One round sends states and bytes that agree, or differ, modulo 2^k to states that do. */
  lemma StepResidue(g: u32, h: u32, a: u8, b: u8, k: nat)
    requires k <= 32
    ensures Step(g, a) % Pow2(k) == Step(h, b) % Pow2(k)
       <==> Xor(g % Pow2(k), a % Pow2(k)) == Xor(h % Pow2(k), b % Pow2(k))
  {
    XorWord(g, a);
    XorWord(h, b);
    ProductResidue(Xor(g, a), k);
    ProductResidue(Xor(h, b), k);
    PrimeCancels(Xor(g, a), Xor(h, b), k);
    XorMod(g, a, k);
    XorMod(h, b, k);
  }

  lemma XorRightCancels(x: nat, y: nat, z: nat)
    requires Xor(x, z) == Xor(y, z)
    ensures x == y
  {
    XorInvolutive(x, z);
    XorInvolutive(y, z);
  }

  lemma SameByteKeepsResidue(g: u32, h: u32, b: u8, k: nat)
    requires k <= 32
    ensures Step(g, b) % Pow2(k) == Step(h, b) % Pow2(k) <==> g % Pow2(k) == h % Pow2(k)
  {
    StepResidue(g, h, b, b, k);
    if Step(g, b) % Pow2(k) == Step(h, b) % Pow2(k) {
      XorRightCancels(g % Pow2(k), h % Pow2(k), b % Pow2(k));
    }
  }

  /** A common suffix neither separates nor merges residues. */
  lemma {:induction false} SuffixKeepsResidue(g: u32, h: u32, suffix: Bytes, k: nat)
    requires k <= 32
    ensures HashFrom(g, suffix) % Pow2(k) == HashFrom(h, suffix) % Pow2(k) <==> g % Pow2(k) == h % Pow2(k)
    decreases |suffix|
  {
    if suffix != [] {
      SameByteKeepsResidue(g, h, suffix[0], k);
      SuffixKeepsResidue(Step(g, suffix[0]), Step(h, suffix[0]), suffix[1..], k);
    }
  }

  /** Inputs of equal length that differ in one byte: their hashes agree modulo 2^k
      exactly when the two bytes do, for every common prefix, common suffix and width. */
  lemma OneByteDecides(prefix: Bytes, a: u8, b: u8, suffix: Bytes, k: nat)
    requires k <= 32
    ensures Hash(prefix + [a] + suffix) % Pow2(k) == Hash(prefix + [b] + suffix) % Pow2(k)
       <==> a % Pow2(k) == b % Pow2(k)
  {
    var h := HashFrom(OFFSET_BASIS, prefix);
    HashFromAppend(OFFSET_BASIS, prefix + [a], suffix);
    HashFromAppend(OFFSET_BASIS, prefix + [b], suffix);
    HashFromAppend(OFFSET_BASIS, prefix, [a]);
    HashFromAppend(OFFSET_BASIS, prefix, [b]);
    assert HashFrom(h, [a]) == Step(h, a) && HashFrom(h, [b]) == Step(h, b);
    SuffixKeepsResidue(Step(h, a), Step(h, b), suffix, k);
    StepResidue(h, h, a, b, k);
    var m := Pow2(k);
    XorCommutes(h % m, a % m);
    XorCommutes(h % m, b % m);
    if Xor(h % m, a % m) == Xor(h % m, b % m) {
      XorRightCancels(a % m, b % m, h % m);
    }
  }

  /** With at least eight bits kept, every single-byte change shows; in particular in the
      full 32-bit hash. */
  lemma OneByteAlwaysShows(prefix: Bytes, a: u8, b: u8, suffix: Bytes, k: nat)
    requires 8 <= k <= 32 && a != b
    ensures Hash(prefix + [a] + suffix) % Pow2(k) != Hash(prefix + [b] + suffix) % Pow2(k)
    ensures Hash(prefix + [a] + suffix) != Hash(prefix + [b] + suffix)
  {
    OneByteDecides(prefix, a, b, suffix, k);
    Pow2Values();
    Pow2Monotone(8, k);
    BelowIsOwnRemainder(a, Pow2(k));
    BelowIsOwnRemainder(b, Pow2(k));
  }
}
