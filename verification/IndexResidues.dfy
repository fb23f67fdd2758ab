/** How the collision index moves the hash: the residues that different indices of one
    identity leave in a subnet's host bits. */
module IndexResidues {
  import opened Words
  import opened Counting
  import opened Decimal
  import opened Fnv
  import opened Identities

  function HashInput(id: Identity, index: u32): Bytes {
    if index == 0 then id else id + Ascii(index)
  }

  /** The residue that an index contributes in a subnet of `2^k` hosts. */
  ghost function Residue(id: Identity, index: u32, k: nat): (r: int)
    ensures 0 <= r < Pow2(k)
  {
    Hash(HashInput(id, index)) % Pow2(k)
  }

  /** Two indices of one decade agree modulo `2^k` exactly when their last digits do. */
  lemma DecadeResidues(id: Identity, tens: nat, u: nat, v: nat, k: nat)
    requires 10 * tens + 9 < WORD && u < 10 && v < 10 && k <= 32 && (tens == 0 ==> u > 0 && v > 0)
    ensures Residue(id, 10 * tens + u, k) == Residue(id, 10 * tens + v, k) <==> (48 + u) % Pow2(k) == (48 + v) % Pow2(k)
  {
    AsciiOfDecade(tens, u);
    AsciiOfDecade(tens, v);
    var stem := if tens == 0 then id else id + Ascii(tens);
    assert HashInput(id, 10 * tens + u) == stem + [48 + u] + [];
    assert HashInput(id, 10 * tens + v) == stem + [48 + v] + [];
    OneByteDecides(stem, 48 + u, 48 + v, [], k);
  }

  /** The residues of `n` consecutive indices. */
  ghost function Row(id: Identity, first: nat, n: nat, k: nat): (row: seq<int>)
    requires first + n <= WORD
    ensures |row| == n && forall i :: 0 <= i < n ==> row[i] == Residue(id, first + i, k)
  {
    seq(n, i requires 0 <= i < n => Residue(id, first + i, k))
  }

  /** Within one decade the residues are pairwise different, as far as the width can tell
      the digits apart. */
  lemma RowDistinct(id: Identity, tens: nat, lo: nat, n: nat, k: nat)
    requires 10 * tens + 9 < WORD && lo + n <= 10 && k <= 32 && (tens == 0 ==> lo > 0)
    requires n <= Pow2(k)
    ensures |Elements(Row(id, 10 * tens + lo, n, k))| == n
  {
    hide Residue, Pow2;
    var row := Row(id, 10 * tens + lo, n, k);
    forall i, j | 0 <= i < j < n ensures row[i] != row[j] {
      DecadeResidues(id, tens, lo + i, lo + j, k);
      CloseValuesDiffer(48 + (lo + i), 48 + (lo + j), Pow2(k));
      assert row[i] == Residue(id, 10 * tens + (lo + i), k);
      assert row[j] == Residue(id, 10 * tens + (lo + j), k);
    }
    DistinctCount(row);
  }

  // ---------------------------------------------------------------- two digits

  /** Appending a digit to an index is one more round of the hash. */
  lemma AppendDigit(id: Identity, n: nat, unit: nat)
    requires n >= 1 && unit < 10 && 10 * n + unit < WORD
    ensures Hash(HashInput(id, 10 * n + unit)) == Step(Hash(HashInput(id, n)), 48 + unit)
  {
    hide Step;
    AsciiOfDecade(n, unit);
    assert HashInput(id, 10 * n + unit) == HashInput(id, n) + [48 + unit];
    HashFromAppend(OFFSET_BASIS, HashInput(id, n), [48 + unit]);
    var h := Hash(HashInput(id, n));
    assert [48 + unit][1..] == [];
    assert HashFrom(h, [48 + unit]) == HashFrom(Step(h, 48 + unit), []);
  }

  lemma XorSixteenths(x: nat, y: nat)
    ensures Xor(x, y) / 16 == Xor(x / 16, y / 16)
  {
    hide Xor;
    XorUnfold(x, y);
    XorUnfold(x / 2, y / 2);
    XorUnfold(x / 4, y / 4);
    XorUnfold(x / 8, y / 8);
    assert x / 2 / 2 == x / 4 && x / 4 / 2 == x / 8 && x / 8 / 2 == x / 16;
    assert y / 2 / 2 == y / 4 && y / 4 / 2 == y / 8 && y / 8 / 2 == y / 16;
  }

  /** Exclusive-or with ASCII digits moves a number only within its block of sixteen. */
  lemma DigitsStayInBlock(x: nat, y: nat, u: nat, v: nat)
    requires u < 10 && v < 10
    ensures Xor(x, 48 + u) / 16 == Xor(y, 48 + v) / 16 <==> x / 16 == y / 16
  {
    hide Xor;
    XorSixteenths(x, 48 + u);
    XorSixteenths(y, 48 + v);
    assert (48 + u) / 16 == 3 && (48 + v) / 16 == 3;
    if Xor(x / 16, 3) == Xor(y / 16, 3) {
      XorRightCancels(x / 16, y / 16, 3);
    }
  }

  /** How far apart two states may be for the prime to part them: any two of one block of
      sixteen modulo 2^10, any two of one block of four modulo 2^7. */
  ghost predicate Parted(distance: int, j: nat) {
    (j == 10 && 1 <= distance <= 15) || (j == 7 && 1 <= distance <= 3)
  }

  /** The prime is 403 modulo 1024 and 19 modulo 128; no such multiple of it comes near a
      multiple of the modulus. */
  lemma PrimeSpreads(d: int, e: int, t: int)
    requires -15 <= e <= 15
    ensures 1 <= d <= 15 ==> 403 * d - e != 1024 * t
    ensures 1 <= d <= 3 ==> 19 * d - e != 128 * t
  {
    assert 1 <= d <= 15 ==>
        d == 1 || d == 2 || d == 3 || d == 4 || d == 5 || d == 6 || d == 7 || d == 8
        || d == 9 || d == 10 || d == 11 || d == 12 || d == 13 || d == 14 || d == 15;
  }

  /** How remainders modulo `m` of two multiples of `prime` differ. */
  lemma RemainderDifference(a: int, b: int, prime: int, m: int, c: int, low: int) returns (t: int)
    requires m > 0 && prime == low + m * c
    ensures low * (a - b) - ((a * prime) % m - (b * prime) % m) == m * t
  {
    var p, q := (a * prime) / m, (b * prime) / m;
    DivMod(a * prime, m);
    DivMod(b * prime, m);
    t := p - q - c * (a - b);
    assert a * prime == low * a + (m * c) * a && b * prime == low * b + (m * c) * b;
    Associate(m, c, a);
    Associate(m, c, b);
    assert m * t == m * p - m * q - m * (c * a) + m * (c * b);
  }

  /** Such states are sent to different blocks of sixteen. */
  lemma BlocksSeparate(a: int, b: int, j: nat)
    requires 0 <= b < a && Parted(a - b, j)
    ensures ((a * PRIME) % Pow2(j)) / 16 != ((b * PRIME) % Pow2(j)) / 16
  {
    if j == 10 {
      assert Pow2(j) == 1024;
      var t := RemainderDifference(a, b, PRIME, 1024, 16_384, 403);
      NotOneBlock((a * PRIME) % 1024, (b * PRIME) % 1024, a - b, t);
    } else {
      assert Pow2(j) == 128;
      var t := RemainderDifference(a, b, PRIME, 128, 131_075, 19);
      NotOneBlock((a * PRIME) % 128, (b * PRIME) % 128, a - b, t);
    }
  }

  lemma NotOneBlock(x: int, y: int, d: int, t: int)
    requires x >= 0 && y >= 0
    requires (1 <= d <= 15 && 403 * d - (x - y) == 1024 * t) || (1 <= d <= 3 && 19 * d - (x - y) == 128 * t)
    ensures x / 16 != y / 16
  {
    if x / 16 == y / 16 {
      PrimeSpreads(d, x - y, t);
      assert false;
    }
  }

  /** First digits that lie close enough together for the width `j`. */
  ghost predicate CloseDigits(t: nat, v: nat, j: nat) {
    (j == 10 && t < 10 && v < 10) || (j == 7 && 4 <= t < 8 && 4 <= v < 8)
  }

  lemma DigitsStayClose(h: nat, t: nat, v: nat, j: nat)
    requires CloseDigits(t, v, j) && t != v
    ensures var a, b := Xor(h, 48 + t), Xor(h, 48 + v);
            a != b && Parted(if a > b then a - b else b - a, j)
  {
    hide Xor;
    XorCommutes(h, 48 + t);
    XorCommutes(h, 48 + v);
    if Xor(h, 48 + t) == Xor(h, 48 + v) {
      XorRightCancels(48 + t, 48 + v, h);
    }
    if j == 10 {
      DigitsStayInBlock(h, h, t, v);
    } else {
      XorQuarters(h, 48 + t);
      XorQuarters(h, 48 + v);
      assert (48 + t) / 4 == 13 && (48 + v) / 4 == 13;
    }
  }

  lemma XorQuarters(x: nat, y: nat)
    ensures Xor(x, y) / 4 == Xor(x / 4, y / 4)
  {
    hide Xor;
    XorUnfold(x, y);
    XorUnfold(x / 2, y / 2);
    assert x / 2 / 2 == x / 4 && y / 2 / 2 == y / 4;
  }

  /** After different close first digits, the hash states lie in different blocks. */
  lemma FirstDigitsSeparate(h: u32, t: nat, v: nat, j: nat)
    requires CloseDigits(t, v, j) && t != v
    ensures (Step(h, 48 + t) % Pow2(j)) / 16 != (Step(h, 48 + v) % Pow2(j)) / 16
  {
    hide Xor, Pow2;
    XorWord(h, 48 + t);
    XorWord(h, 48 + v);
    var a, b := Xor(h, 48 + t), Xor(h, 48 + v);
    ProductResidue(a, j);
    ProductResidue(b, j);
    DigitsStayClose(h, t, v, j);
    if a > b {
      BlocksSeparate(a, b, j);
    } else {
      BlocksSeparate(b, a, j);
    }
  }

  /** Indices of two digits with different close first digits leave different residues. */
  lemma TensSeparate(id: Identity, t: nat, u: nat, v: nat, w: nat, j: nat)
    requires 1 <= t < 10 && 1 <= v < 10 && u < 10 && w < 10 && t != v && CloseDigits(t, v, j)
    ensures Residue(id, 10 * t + u, j) != Residue(id, 10 * v + w, j)
  {
    hide Hash, Step, Xor, Pow2;
    var m := Pow2(j);
    AppendDigit(id, t, u);
    AppendDigit(id, v, w);
    var g, h := Hash(HashInput(id, t)), Hash(HashInput(id, v));
    FirstDigitStep(id, t);
    FirstDigitStep(id, v);
    FirstDigitsSeparate(Hash(id), t, v, j);
    StepResidue(g, h, 48 + u, 48 + w, j);
    assert (48 + u) % m == 48 + u && (48 + w) % m == 48 + w by { WideEnough(j, 48 + u); WideEnough(j, 48 + w); }
    DigitsStayInBlock(g % m, h % m, u, w);
  }

  lemma WideEnough(j: nat, b: nat)
    requires j >= 7 && b < 64
    ensures b % Pow2(j) == b
  {
    hide Pow2;
    assert Pow2(7) == 128 by { Pow2Split(4, 3); Pow2Values(); }
    Pow2Monotone(7, j);
    BelowIsOwnRemainder(b, Pow2(j));
  }

  lemma FirstDigitStep(id: Identity, t: nat)
    requires 1 <= t < 10
    ensures Hash(HashInput(id, t)) == Step(Hash(id), 48 + t)
  {
    hide Step;
    AsciiOfDecade(0, t);
    HashFromAppend(OFFSET_BASIS, id, [48 + t]);
    assert [48 + t][1..] == [];
    assert HashFrom(Hash(id), [48 + t]) == HashFrom(Step(Hash(id), 48 + t), []);
  }

  /** All ninety indices of two digits leave different residues from ten bits on, the forty
      from 40 to 79 already from seven bits on. */
  lemma TwoDigitRowDistinct(id: Identity, first: nat, n: nat, k: nat)
    requires (first == 10 && n == 90 && 10 <= k <= 32) || (first == 40 && n == 40 && 7 <= k <= 32)
    ensures |Elements(Row(id, first, n, k))| == n
  {
    var row := Row(id, first, n, k);
    forall i, j | 0 <= i < j < n ensures row[i] != row[j] {
      TwoDigitsDiffer(id, first + i, first + j, if first == 10 then 10 else 7, k);
    }
    DistinctCount(row);
  }

  lemma TwoDigitsDiffer(id: Identity, m: nat, n: nat, j: nat, k: nat)
    requires 10 <= m < n < 100 && CloseDigits(m / 10, n / 10, j) && j <= k <= 32
    ensures Residue(id, m, k) != Residue(id, n, k)
  {
    hide Hash, Pow2;
    var t, u, v, w := m / 10, m % 10, n / 10, n % 10;
    if t == v {
      DecadeResidues(id, t, u, w, k);
      Pow2Values();
      Pow2Monotone(4, k);
      CloseValuesDiffer(48 + u, 48 + w, Pow2(k));
    } else {
      TensSeparate(id, t, u, v, w, j);
      ModPow2(Hash(HashInput(id, m)), j, k);
      ModPow2(Hash(HashInput(id, n)), j, k);
    }
  }

  // ---------------------------------------------------------------- reaching every residue

  /** The first `2^k` units of a decade meet every residue of a subnet of `2^k` hosts. */
  lemma DecadeMeetsResidue(id: Identity, k: nat, want: nat) returns (unit: nat)
    requires 2 <= k <= 3 && want < Pow2(k)
    ensures unit < 8 && Residue(id, 10 + unit, k) == want
  {
    hide Row, Elements, Residue, Pow2;
    Pow2Values();
    var n := Pow2(k);
    RowDistinct(id, 1, 0, n, k);
    unit := EveryValueOccurs(Row(id, 10, n, k), n, want);
  }

  /** The state the last round must be fed, for a wanted residue. */
  lemma BeforeLastProduct(want: nat) returns (w: nat)
    requires want < 16
    ensures w < 16 && (w * PRIME) % 16 == want
  {
    assert Pow2(4) == 16;
    w := (want * PRIME_INVERSE) % 16;
    PrimeCancels(w, want * PRIME_INVERSE, 4);
    PrimeUndone(want, 4);
    assert want * PRIME_INVERSE * PRIME == want * PRIME * PRIME_INVERSE;
  }

  /** Nine first digits leave nine different states, so one of them is a digit away from
      any wanted one: the two-digit indices meet every residue of four bits. */
  lemma TwoDigitsMeetResidue(id: Identity, want: nat) returns (index: nat)
    requires want < 16
    ensures 10 <= index <= 99 && Residue(id, index, 4) == want
  {
    hide Hash, Xor, Pow2;
    assert Pow2(4) == 16 by { Pow2Values(); }
    var w := BeforeLastProduct(want);
    var t := DigitAway(id, w);
    var g := Hash(HashInput(id, t));
    var unit := Xor(g % 16, w);
    index := 10 * t + unit;
    AppendDigit(id, t, unit);
    LastDigitReaches(g, w);
    XorWord(g, 48 + unit);
    ProductResidue(Xor(g, 48 + unit), 4);
    PrimeCancels(Xor(g, 48 + unit), w, 4);
  }

  lemma LastDigitReaches(g: u32, w: nat)
    requires w < 16 && Xor(g % 16, w) < 10
    ensures Xor(g, 48 + Xor(g % 16, w)) % 16 == w
  {
    hide Xor, Pow2;
    assert Pow2(4) == 16 by { Pow2Values(); }
    var unit := Xor(g % 16, w);
    XorMod(g, 48 + unit, 4);
    assert (48 + unit) % 16 == unit;
    XorCommutes(g % 16, w);
    XorInvolutive(w, g % 16);
    XorCommutes(g % 16, unit);
  }

  lemma DigitAway(id: Identity, w: nat) returns (t: nat)
    requires w < 16
    ensures 1 <= t <= 9 && Xor(Hash(HashInput(id, t)) % 16, w) < 10
  {
    hide Hash, Xor, Range, Pow2;
    assert Pow2(4) == 16 by { Pow2Values(); }
    var first := Row(id, 1, 9, 4);
    var away := seq(9, i requires 0 <= i < 9 => Xor(first[i], w));
    forall i, j | 0 <= i < j < 9 ensures away[i] != away[j] {
      TwoRowsDiffer(id, i + 1, j + 1);
      if away[i] == away[j] {
        XorRightCancels(first[i], first[j], w);
      }
    }
    DistinctCount(away);
    RangeCount(10, 16);
    var off := Pigeonhole<int>(away, Range(10, 16));
    XorBound(first[off], w, 4);
    t := off + 1;
  }

  lemma TwoRowsDiffer(id: Identity, i: nat, j: nat)
    requires 1 <= i < j <= 9
    ensures Residue(id, i, 4) != Residue(id, j, 4)
  {
    hide Hash;
    assert Pow2(4) == 16;
    DecadeResidues(id, 0, i, j, 4);
  }
}
