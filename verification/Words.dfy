/**
  Machine words as bounded integers, the bitwise operators of the source on them, and the
  arithmetic meaning of masking, merging and exclusive-or.
 */
module Words {

  type u8 = x: int | 0 <= x < 0x100
  type u16 = x: int | 0 <= x < 0x1_0000
  type u32 = x: int | 0 <= x < 0x1_0000_0000

  /** A byte string; text is modelled as its bytes where the source hashes it. */
  type Bytes = seq<u8>

  const WORD := 0x1_0000_0000

  function Pow2(k: nat): (r: nat)
    ensures r >= 1
  {
    if k == 0 then 1 else 2 * Pow2(k - 1)
  }

  // ---------------------------------------------------------------- bitwise operators

  function And(x: nat, y: nat): nat {
    if x == 0 || y == 0 then 0
    else 2 * And(x / 2, y / 2) + (if x % 2 == 1 && y % 2 == 1 then 1 else 0)
  }

  function Or(x: nat, y: nat): nat {
    if x == 0 then y
    else if y == 0 then x
    else 2 * Or(x / 2, y / 2) + (if x % 2 == 1 || y % 2 == 1 then 1 else 0)
  }

  function Xor(x: nat, y: nat): nat {
    if x == 0 then y
    else if y == 0 then x
    else 2 * Xor(x / 2, y / 2) + (if x % 2 != y % 2 then 1 else 0)
  }

  function Not32(x: u32): u32 {
    0xFFFF_FFFF - x
  }

  function WrappingAdd(x: u32, y: u32): u32 {
    (x + y) % WORD
  }

  function WrappingMul(x: u32, y: u32): u32 {
    (x * y) % WORD
  }

  // ---------------------------------------------------------------- powers of two

  lemma {:induction false} Pow2Split(a: nat, b: nat)
    ensures Pow2(a + b) == Pow2(a) * Pow2(b)
  {
    if a == 0 {
    } else {
      Pow2Split(a - 1, b);
      assert Pow2(a + b) == 2 * Pow2(a - 1 + b);
      assert Pow2(a) * Pow2(b) == 2 * (Pow2(a - 1) * Pow2(b));
    }
  }

  lemma {:induction false} Pow2Monotone(a: nat, b: nat)
    requires a <= b
    ensures Pow2(a) <= Pow2(b)
    ensures a < b ==> Pow2(a) < Pow2(b)
  {
    if a < b {
      Pow2Monotone(a, b - 1);
    }
  }

  lemma Pow2Values()
    ensures Pow2(2) == 4 && Pow2(3) == 8 && Pow2(4) == 16 && Pow2(8) == 0x100
    ensures Pow2(12) == 4096 && Pow2(16) == 0x1_0000 && Pow2(20) == 0x10_0000
    ensures Pow2(31) == 0x8000_0000 && Pow2(32) == WORD
  {
    assert Pow2(4) == 16;
    assert Pow2(8) == 0x100;
    assert Pow2(12) == 4096;
    assert Pow2(16) == 0x1_0000;
    assert Pow2(20) == 0x10_0000;
    Pow2Split(11, 20);
    Pow2Split(12, 20);
  }

  // ---------------------------------------------------------------- division facts

  /** A non-zero multiple of `m` is at least `m` away from zero. */
  lemma MultipleTooFar(m: int, d: int)
    requires m > 0
    ensures d >= 1 ==> m * d >= m
    ensures d <= -1 ==> m * d <= -m
  {
    assert d >= 1 ==> m * (d - 1) >= 0;
    assert d <= -1 ==> m * (d + 1) <= 0;
    assert m * (d - 1) == m * d - m && m * (d + 1) == m * d + m;
  }

  /** The position `i` steps after `at`. */
  function After(at: nat, i: nat, step: nat): (r: nat)
    ensures r >= at
  {
    at + i * step
  }

  lemma FirstStep(at: nat, step: nat)
    ensures After(at, 0, step) == at
  {
  }

  lemma OneStepMore(at: nat, i: nat, step: nat)
    requires i >= 1
    ensures After(at, i, step) == After(at + step, i - 1, step) >= at + step
  {
    assert i * step == step + (i - 1) * step;
  }

  lemma EqualMultiples(m: int, a: int, b: int)
    requires m > 0
    ensures m * a == m * b <==> a == b
  {
    MultipleTooFar(m, a - b);
    assert m * (a - b) == m * a - m * b;
  }

  lemma DivMod(x: int, m: int)
    requires m > 0
    ensures x == m * (x / m) + x % m && 0 <= x % m < m
  {
  }

  /** Quotient and remainder are determined by any decomposition. */
  lemma DivModUnique(x: int, m: int, q: int, r: int)
    requires m > 0
    requires x == m * q + r && 0 <= r < m
    ensures x / m == q && x % m == r
  {
    var d := x / m - q;
    assert x == m * (x / m) + x % m;
    assert m * d == r - x % m by {
      assert m * d == m * (x / m) - m * q;
    }
    MultipleTooFar(m, d);
  }

  lemma QuotientNonnegative(x: int, m: int)
    requires x >= 0 && m > 0
    ensures x / m >= 0
  {
    DivMod(x, m);
    MultipleTooFar(m, x / m);
  }

  lemma ModOfMultiple(x: int, m: int, t: int)
    requires m > 0
    ensures (x + m * t) % m == x % m
  {
    assert x + m * t == m * (x / m + t) + x % m by {
      assert m * (x / m + t) == m * (x / m) + m * t;
    }
    DivModUnique(x + m * t, m, x / m + t, x % m);
  }

  /** Equal remainders mean a difference that is a multiple. */
  lemma CongruenceWitness(x: int, y: int, m: int) returns (t: int)
    requires m > 0 && x % m == y % m
    ensures x - y == m * t
  {
    t := x / m - y / m;
    assert m * t == m * (x / m) - m * (y / m);
  }

  /** Different values less than `m` apart differ modulo `m`. */
  lemma CloseValuesDiffer(x: int, y: int, m: int)
    requires x < y < x + m
    ensures x % m != y % m
  {
    if x % m == y % m {
      var t := CongruenceWitness(y, x, m);
      MultipleTooFar(m, t);
      assert false;
    }
  }

  lemma ModMod(x: int, m: int, c: int)
    requires m > 0 && c > 0
    ensures m * c > 0
    ensures (x % (m * c)) % m == x % m
  {
    MultipleTooFar(m, c);
    var t := x / (m * c);
    assert x == (m * c) * t + x % (m * c);
    assert (m * c) * t == m * (c * t);
    ModOfMultiple(x % (m * c), m, c * t);
  }

  lemma Associate(a: int, b: int, c: int)
    ensures a * (b * c) == (a * b) * c
  {
  }

  lemma DivDiv(x: int, m: int, c: int)
    requires m > 0 && c > 0
    ensures m * c > 0
    ensures (x / m) / c == x / (m * c)
  {
    MultipleTooFar(m, c);
    var y := x / m;
    var q, s, r := y / c, y % c, x % m;
    assert x == (m * c) * q + (m * s + r) by {
      assert x == m * y + r;
      assert m * y == m * (c * q) + m * s;
      Associate(m, c, q);
    }
    assert m * s + r < m * c by {
      assert m * (c - s) == m * c - m * s;
      MultipleTooFar(m, c - s);
    }
    assert 0 <= m * s;
    DivModUnique(x, m * c, q, m * s + r);
  }

  lemma DivOfMod(x: int, m: int, c: int)
    requires m > 0 && c > 0
    ensures m * c > 0 && (x % (m * c)) / m == (x / m) % c
  {
    DivDiv(x, m, c);
    var t := x / (m * c);
    DivMod(x, m * c);
    DivMod(x, m);
    DivMod(x / m, c);
    Associate(m, c, t);
    assert m * (x / m - c * t) == m * (x / m) - m * (c * t);
    DivModUnique(x % (m * c), m, x / m - c * t, x % m);
  }

  lemma ModPow2(x: int, j: nat, k: nat)
    requires j <= k
    ensures (x % Pow2(k)) % Pow2(j) == x % Pow2(j)
  {
    Pow2Split(j, k - j);
    ModMod(x, Pow2(j), Pow2(k - j));
  }

  /** The remainder by a doubled modulus, one bit at a time. */
  lemma ModDouble(x: int, m: int)
    requires m > 0
    ensures x % (2 * m) == 2 * ((x / 2) % m) + x % 2
  {
    var q := (x / 2) / m;
    var r := (x / 2) % m;
    assert x / 2 == m * q + r;
    assert x == (2 * m) * q + (2 * r + x % 2) by {
      assert (2 * m) * q == 2 * (m * q);
    }
    DivModUnique(x, 2 * m, q, 2 * r + x % 2);
  }

  lemma BelowIsOwnRemainder(x: int, m: int)
    requires 0 <= x < m
    ensures x % m == x && x / m == 0
  {
    DivModUnique(x, m, 0, x);
  }

  lemma ModWithin(x: int, m: int)
    requires m > 0
    ensures 0 <= x % m < m
  {
  }

  lemma BytesOfWord(a: u8, b: u8, c: u8, d: u8)
    ensures var ip := (a as int) * 0x100_0000 + (b as int) * 0x1_0000 + (c as int) * 0x100 + (d as int);
            && 0 <= ip < WORD
            && ip / 0x100_0000 == a && (ip / 0x1_0000) % 0x100 == b && (ip / 0x100) % 0x100 == c && ip % 0x100 == d
  {
    var top: int := (a as int) * 0x100 + (b as int);
    var mid: int := top * 0x100 + (c as int);
    var ip: int := mid * 0x100 + (d as int);
    DivModUnique(ip, 0x100, mid, d);
    DivModUnique(mid, 0x100, top, c);
    DivModUnique(top, 0x100, a, b);
    DivDiv(ip, 0x100, 0x100);
    DivDiv(ip, 0x1_0000, 0x100);
  }

  /** A word from its four bytes, most significant first. */
  lemma WordOfBytes(x: u32)
    ensures (x / 0x100_0000) * 0x100_0000 + ((x / 0x1_0000) % 0x100) * 0x1_0000
            + ((x / 0x100) % 0x100) * 0x100 + x % 0x100 == x
  {
    var a, b := x / 0x100, x / 0x1_0000;
    assert a / 0x100 == b && b / 0x100 == x / 0x100_0000;
  }

  // ---------------------------------------------------------------- masks

  /** `x & (2^k - 1)` keeps the low `k` bits. */
  lemma {:induction false} AndLowMask(x: nat, k: nat)
    ensures And(x, Pow2(k) - 1) == x % Pow2(k)
  {
    if k == 0 {
    } else if x == 0 {
      BelowIsOwnRemainder(0, Pow2(k));
    } else {
      var half := Pow2(k - 1);
      assert (Pow2(k) - 1) / 2 == half - 1 && (Pow2(k) - 1) % 2 == 1;
      AndLowMask(x / 2, k - 1);
      ModDouble(x, half);
    }
  }

  lemma AndDouble(x: nat, half: nat)
    ensures And(x, 2 * half) == 2 * And(x / 2, half)
  {
    assert (2 * half) / 2 == half && (2 * half) % 2 == 0;
  }

  lemma HalfHighMask(x: nat, m: nat, half: nat)
    requires m > 0 && And(x / 2, half) == x / 2 - (x / 2) % m
    ensures And(x, 2 * half) == x - x % (2 * m)
  {
    hide And;
    ModDouble(x, m);
    AndDouble(x, half);
  }

  lemma Pow2Double(k: nat)
    ensures Pow2(k + 1) == 2 * Pow2(k) && Pow2(0) == 1
  {
  }

  /** `x & !(2^k - 1)` on an `n`-bit word clears the low `k` bits. */
  lemma {:induction false} AndHighMask(x: nat, k: nat, n: nat)
    requires k <= n && x < Pow2(n)
    ensures Pow2(n) >= Pow2(k)
    ensures And(x, Pow2(n) - Pow2(k)) == x - x % Pow2(k)
  {
    hide And, Pow2;
    Pow2Monotone(k, n);
    if k == 0 {
      Pow2Double(0);
      AndLowMask(x, n);
      BelowIsOwnRemainder(x, Pow2(n));
    } else {
      var m, q := Pow2(k - 1), Pow2(n - 1);
      assert Pow2(k) == 2 * m by { Pow2Double(k - 1); }
      assert Pow2(n) == 2 * q by { Pow2Double(n - 1); }
      Halves(x, q);
      AndHighMask(x / 2, k - 1, n - 1);
      calc {
        And(x, Pow2(n) - Pow2(k));
        And(x, 2 * (q - m));
        { HalfHighMask(x, m, q - m); }
        x - x % (2 * m);
        x - x % Pow2(k);
      }
    }
  }

  lemma Halves(x: nat, q: nat)
    requires x < 2 * q
    ensures x / 2 < q
  {
  }

  /** Merging a word with low `k` bits clear and a value below `2^k` is addition. */
  lemma {:induction false} OrDisjoint(a: nat, b: nat, k: nat)
    requires a % Pow2(k) == 0 && b < Pow2(k)
    ensures Or(a, b) == a + b
  {
    if k == 0 || a == 0 || b == 0 {
    } else {
      ModDouble(a, Pow2(k - 1));
      OrDisjoint(a / 2, b / 2, k - 1);
    }
  }

  lemma {:induction false} XorMod(x: nat, y: nat, k: nat)
    ensures Xor(x, y) % Pow2(k) == Xor(x % Pow2(k), y % Pow2(k))
  {
    if k == 0 {
    } else if x == 0 || y == 0 {
      BelowIsOwnRemainder(0, Pow2(k));
    } else {
      var m := Pow2(k - 1);
      XorMod(x / 2, y / 2, k - 1);
      ModDouble(x, m);
      ModDouble(y, m);
      ModDouble(Xor(x, y), m);
      assert Xor(x, y) / 2 == Xor(x / 2, y / 2);
      XorUnfold(x % Pow2(k), y % Pow2(k));
      assert (x % Pow2(k)) / 2 == (x / 2) % m;
      assert (y % Pow2(k)) / 2 == (y / 2) % m;
    }
  }

  /** One bit of exclusive-or, also where an operand is zero. */
  lemma XorUnfold(x: nat, y: nat)
    ensures Xor(x, y) == 2 * Xor(x / 2, y / 2) + (if x % 2 != y % 2 then 1 else 0)
  {
  }

  lemma XorBound(x: nat, y: nat, k: nat)
    requires x < Pow2(k) && y < Pow2(k)
    ensures Xor(x, y) < Pow2(k)
  {
    XorMod(x, y, k);
    BelowIsOwnRemainder(x, Pow2(k));
    BelowIsOwnRemainder(y, Pow2(k));
  }

  lemma {:induction false} XorInvolutive(x: nat, y: nat)
    ensures Xor(Xor(x, y), y) == x
    decreases x + y
  {
    if x == 0 {
      XorSelf(y);
    } else {
      hide Xor;
      XorInvolutive(x / 2, y / 2);
      XorUnfold(x, y);
      var high, low := Xor(x / 2, y / 2), if x % 2 != y % 2 then 1 else 0;
      assert Xor(x, y) / 2 == high && Xor(x, y) % 2 == low;
      XorUnfold(Xor(x, y), y);
    }
  }

  lemma {:induction false} XorSelf(x: nat)
    ensures Xor(x, x) == 0
  {
    if x != 0 {
      XorSelf(x / 2);
    }
  }

  lemma {:induction false} XorCommutes(x: nat, y: nat)
    ensures Xor(x, y) == Xor(y, x)
  {
    if x != 0 && y != 0 {
      XorCommutes(x / 2, y / 2);
    }
  }
}
