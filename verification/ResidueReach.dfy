/** Every residue of up to ten bits is met: whatever the identity, the digits of an index
    steer the low bits of the hash to any value. */
module ResidueReach {
  import opened Words
  import opened Counting
  import opened Fnv
  import opened Identities
  import opened IndexResidues

  // ---------------------------------------------------------------- the low bits as a bit-vector

  /** The low ten bits of a number. */
  ghost function Low(n: nat): bv10 {
    if n == 0 then 0 else Twice(Low(n / 2), n % 2 == 1)
  }

  function Twice(b: bv10, odd: bool): bv10 {
    2 * b + (if odd then 1 else 0)
  }

  function Next(b: bv10): bv10 {
    b + 1
  }

  function Plus(x: bv10, y: bv10): bv10 {
    x + y
  }

  lemma PlusSteps(x: bv10, y: bv10)
    ensures Plus(x, 0) == x && Plus(x, Next(y)) == Next(Plus(x, y))
  {
  }

  lemma {:induction false} LowSuccessor(n: nat)
    ensures Low(n + 1) == Next(Low(n))
  {
    if n % 2 == 1 {
      LowSuccessor(n / 2);
      assert (n + 1) / 2 == n / 2 + 1;
    } else {
      assert (n + 1) / 2 == n / 2;
    }
  }

  lemma LowZero()
    ensures Low(0) == 0
  {
  }

  lemma {:induction false} LowSum(m: nat, n: nat)
    ensures Low(m + n) == Plus(Low(m), Low(n))
  {
    hide Low, Next, Plus;
    LowZero();
    PlusSteps(Low(m), 0);
    if n > 0 {
      LowSum(m, n - 1);
      LowSuccessor(m + (n - 1));
      LowSuccessor(n - 1);
      PlusSteps(Low(m), Low(n - 1));
    }
  }

  lemma {:induction false} LowTimes403(n: nat)
    ensures Low(403 * n) == 403 * Low(n)
  {
    LowZero();
    if n > 0 {
      assert Low(403) == 403;
      hide Low;
      LowTimes403(n - 1);
      LowSum(403 * (n - 1), 403);
      LowSuccessor(n - 1);
    }
  }

  lemma LowUnfold(n: nat)
    ensures Low(n) == Twice(Low(n / 2), n % 2 == 1)
  {
  }

  function Xored(x: bv10, y: bv10): bv10 {
    x ^ y
  }

  lemma XoredBits(x: bv10, y: bv10, p: bool, q: bool)
    ensures Xored(Twice(x, p), Twice(y, q)) == Twice(Xored(x, y), p != q)
  {
  }

  lemma XoredZero(x: bv10)
    ensures Xored(x, 0) == x && Xored(0, x) == x
  {
  }

  lemma XorHalves(m: nat, n: nat)
    ensures Xor(m, n) / 2 == Xor(m / 2, n / 2)
    ensures Xor(m, n) % 2 == 1 <==> (m % 2 == 1) != (n % 2 == 1)
    ensures Xor(m, 0) == m && Xor(0, n) == n
  {
    XorUnfold(m, n);
  }

  lemma {:induction false} LowXor(m: nat, n: nat)
    ensures Low(Xor(m, n)) == Xored(Low(m), Low(n))
  {
    hide Xor, Low, Twice, Xored;
    LowZero();
    XorHalves(m, n);
    if m == 0 {
      XoredZero(Low(n));
    } else if n == 0 {
      XoredZero(Low(m));
    } else {
      LowXor(m / 2, n / 2);
      LowUnfold(m);
      LowUnfold(n);
      LowUnfold(Xor(m, n));
      XoredBits(Low(m / 2), Low(n / 2), m % 2 == 1, n % 2 == 1);
    }
  }

  lemma {:induction false} LowOfMultiple(n: nat, t: nat)
    ensures Low(n + 1024 * t) == Low(n)
  {
    LowOf1024();
    hide Low;
    if t > 0 {
      LowOfMultiple(n, t - 1);
      LowSum(n + 1024 * (t - 1), 1024);
    }
  }

  lemma LowOf32()
    ensures Low(32) == 32
  {
  }

  lemma LowOf1024()
    ensures Low(1024) == 0
  {
    hide Low;
    LowOf32();
    LowUnfold(64);
    LowUnfold(128);
    LowUnfold(256);
    LowUnfold(512);
    LowUnfold(1024);
  }

  /** The number a state stands for. */
  function Value(b: bv10): nat {
    (if b & 1 == 0 then 0 else 1) + (if b & 2 == 0 then 0 else 2)
    + (if b & 4 == 0 then 0 else 4) + (if b & 8 == 0 then 0 else 8)
    + (if b & 16 == 0 then 0 else 16) + (if b & 32 == 0 then 0 else 32)
    + (if b & 64 == 0 then 0 else 64) + (if b & 128 == 0 then 0 else 128)
    + (if b & 256 == 0 then 0 else 256) + (if b & 512 == 0 then 0 else 512)
  }

  lemma ValueSuccessor(b: bv10)
    requires Value(b) < 1023
    ensures Value(Next(b)) == Value(b) + 1
  {
  }

  lemma {:induction false} ValueOfLow(n: nat)
    requires n < 1024
    ensures Value(Low(n)) == n
  {
    if n > 0 {
      hide Low, Value, Next;
      ValueOfLow(n - 1);
      LowSuccessor(n - 1);
      ValueSuccessor(Low(n - 1));
    }
  }

  lemma ValueDecides(a: bv10, b: bv10)
    ensures Value(a) == Value(b) ==> a == b
  {
  }

  /** Two states agree on the bits of a mask. */
  predicate Same(x: bv10, y: bv10, mask: bv10) {
    x & mask == y & mask
  }

  /** Agreeing on eight bits is having values that differ by a multiple of 256. */
  lemma SameValue(x: bv10, y: bv10)
    requires Same(x, y, 255)
    ensures Value(x) - Value(y) in {-768, -512, -256, 0, 256, 512, 768}
  {
  }

  // ---------------------------------------------------------------- one digit

  /** Multiplication by the prime, which is 403 modulo 1024. */
  function TimesPrime(b: bv10): bv10 {
    403 * b
  }

  /** One round on the low bits. */
  function Turn(s: bv10, digit: bv10): bv10 {
    TimesPrime(s ^ (48 + digit))
  }

  ghost function LowBits(id: Identity, index: u32): bv10 {
    Low(Hash(HashInput(id, index)))
  }

  lemma StepTurns(h: u32, d: nat)
    requires d < 10
    ensures Low(Step(h, 48 + d)) == Turn(Low(h), Low(d))
  {
    hide Low, Xor, TimesPrime;
    XorWord(h, 48 + d);
    ProductLow(Xor(h, 48 + d));
    LowXor(h, 48 + d);
    LowOf48();
    LowSum(48, d);
  }

  lemma LowOf48()
    ensures Low(48) == 48
  {
  }

  lemma ProductLow(x: u32)
    ensures Low(WrappingMul(x, PRIME)) == TimesPrime(Low(x))
  {
    hide Low;
    var p := x * PRIME;
    assert p == p % WORD + 1024 * (0x40_0000 * (p / WORD));
    LowOfMultiple(p % WORD, 0x40_0000 * (p / WORD));
    assert p == 403 * x + 1024 * (16_384 * x);
    LowOfMultiple(403 * x, 16_384 * x);
    LowTimes403(x);
  }

  /** Appending a digit to an index turns the low bits. */
  lemma AppendTurns(id: Identity, n: nat, d: nat)
    requires d < 10 && (n == 0 ==> d > 0) && 10 * n + d < WORD
    ensures LowBits(id, 10 * n + d) == Turn(LowBits(id, n), Low(d))
  {
    hide Hash, Step, Low, Turn;
    if n == 0 {
      FirstDigitStep(id, d);
    } else {
      AppendDigit(id, n, d);
    }
    StepTurns(Hash(HashInput(id, n)), d);
  }

  /** The low bits evolve on their own. */
  lemma TurnSame(x: bv10, y: bv10, digit: bv10)
    requires Same(x, y, 255)
    ensures Same(Turn(x, digit), Turn(y, digit), 255)
  {
  }

  // ---------------------------------------------------------------- from any state to any state

  /** Two digits, the first not zero, lead from any state to a multiple of sixteen. */
  lemma FirstTwoDigits(s: bv10) returns (a: bv10, b: bv10)
    ensures 1 <= a < 10 && b < 10 && Turn(Turn(s, a), b) & 15 == 0
  {
    a := if Turn(s, 1) & 15 < 10 then 1 else 3;
    b := Turn(s, a) & 15;
  }

  /** Two digits lead to any state from some multiple of sixteen; 155 is the inverse of 403. */
  lemma LastTwoDigits(want: bv10) returns (s: bv10, a: bv10, b: bv10)
    ensures s & 15 == 0 && a < 10 && b < 10 && Turn(Turn(s, a), b) == want
  {
    var g := want * 155;
    b := if ((g ^ 48) * 155) & 15 < 10 then 0 else 1;
    var v := (g ^ (48 + b)) * 155;
    a := v & 15;
    s := v ^ (48 + a);
  }

  function ThreeTurns(s: bv10, a: bv10, b: bv10, c: bv10): bv10 {
    Turn(Turn(Turn(s, a), b), c)
  }

  function FourTurns(s: bv10, a: bv10, b: bv10, c: bv10, d: bv10): bv10 {
    Turn(ThreeTurns(s, a, b, c), d)
  }

  /** The digits that lead, as far as eight bits, from the multiple `s` of sixteen below 64
      to the multiple `t`. */
  function Route(s: bv10, t: bv10): (bv10, bv10, bv10) {
    var column := ((t >> 4) & 15) as nat;
    if s == 0 then
      [(1, 3, 0), (1, 8, 1), (0, 6, 2), (6, 3, 3), (2, 0, 2), (5, 4, 1), (2, 7, 3), (0, 0, 0),
       (6, 0, 6), (0, 2, 6), (5, 3, 4), (1, 5, 2), (0, 1, 3), (1, 2, 3), (0, 3, 9), (5, 2, 7)][column]
    else if s == 16 then
      [(2, 4, 6), (0, 1, 3), (5, 4, 1), (4, 1, 7), (0, 0, 0), (1, 3, 0), (0, 2, 6), (5, 3, 4),
       (1, 5, 2), (4, 7, 1), (1, 2, 3), (0, 3, 9), (5, 2, 7), (2, 5, 9), (1, 8, 1), (0, 6, 2)][column]
    else if s == 32 then
      [(4, 1, 7), (1, 0, 9), (3, 5, 4), (0, 2, 6), (1, 1, 6), (1, 5, 2), (4, 7, 1), (3, 4, 7),
       (0, 3, 9), (0, 0, 0), (1, 3, 0), (4, 0, 4), (0, 6, 2), (3, 2, 1), (0, 1, 3), (1, 2, 3)][column]
    else
      [(1, 8, 1), (3, 9, 0), (1, 5, 2), (0, 1, 3), (3, 4, 7), (0, 3, 9), (3, 1, 8), (1, 3, 0),
       (0, 2, 6), (0, 6, 2), (3, 2, 1), (2, 0, 2), (1, 2, 3), (2, 7, 3), (0, 0, 0), (3, 5, 4)][column]
  }

  predicate Leads(s: bv10, t: bv10) {
    var (a, b, c) := Route(s, t);
    a < 10 && b < 10 && c < 10 && Same(ThreeTurns(s, a, b, c), t, 255)
  }

  lemma RouteLeads(s: bv10, t: bv10)
    requires s & 15 == 0 && s < 64 && t & 15 == 0
    ensures Leads(s, t)
  {
    hide Leads;
    if s & 16 == 0 {
      RouteLeadsEven(s, t);
    } else {
      RouteLeadsOdd(s, t);
    }
  }

  lemma RouteLeadsEven(s: bv10, t: bv10)
    requires (s == 0 || s == 32) && t & 15 == 0
    ensures Leads(s, t)
  {
  }

  lemma RouteLeadsOdd(s: bv10, t: bv10)
    requires (s == 16 || s == 48) && t & 15 == 0
    ensures Leads(s, t)
  {
  }

  /** The same as far as ten bits, from 0. */
  function FarRoute0(t: bv10): (bv10, bv10, bv10, bv10) {
    var column := ((t >> 4) & 15) as nat;
    if t < 256 then
      [(0, 1, 5, 2), (1, 2, 0, 9), (0, 3, 4, 7), (0, 2, 7, 3), (0, 5, 9, 2), (0, 2, 5, 9),
       (0, 5, 7, 8), (1, 0, 4, 7), (1, 1, 7, 3), (1, 3, 7, 5), (1, 1, 5, 9), (0, 4, 1, 7),
       (0, 3, 8, 3), (0, 1, 4, 5), (0, 2, 6, 0), (2, 0, 0, 6)][column]
    else if t < 512 then
      [(1, 7, 1, 7), (0, 5, 8, 5), (1, 0, 5, 4), (0, 0, 3, 9), (0, 5, 2, 7), (1, 1, 4, 6),
       (0, 4, 0, 4), (0, 3, 9, 0), (1, 3, 3, 9), (0, 7, 4, 3), (1, 2, 4, 5), (1, 7, 0, 4),
       (0, 0, 0, 0), (1, 0, 2, 1), (0, 0, 2, 6), (0, 5, 3, 4)][column]
    else if t < 768 then
      [(2, 1, 7, 6), (0, 4, 7, 1), (0, 8, 9, 3), (1, 1, 1, 5), (3, 4, 5, 6), (1, 2, 5, 2),
       (0, 1, 8, 1), (0, 1, 1, 6), (0, 9, 9, 6), (0, 0, 1, 3), (0, 5, 4, 1), (1, 8, 9, 8),
       (0, 0, 7, 5), (0, 8, 8, 0), (1, 1, 0, 2), (3, 4, 6, 3)][column]
    else
      [(2, 6, 2, 6), (3, 4, 4, 9), (0, 1, 2, 3), (1, 2, 8, 1), (1, 2, 1, 6), (0, 9, 8, 9),
       (1, 8, 6, 5), (0, 0, 6, 2), (0, 2, 4, 6), (0, 0, 8, 8), (0, 6, 1, 9), (2, 6, 1, 3),
       (1, 3, 6, 2), (0, 1, 3, 0), (1, 3, 8, 8), (1, 2, 2, 3)][column]
  }

  /** The same as far as ten bits, from 16. */
  function FarRoute16(t: bv10): (bv10, bv10, bv10, bv10) {
    var column := ((t >> 4) & 15) as nat;
    if t < 256 then
      [(4, 4, 4, 4), (0, 1, 5, 2), (0, 4, 7, 1), (4, 7, 0, 3), (1, 1, 1, 5), (0, 3, 8, 3),
       (1, 2, 5, 2), (1, 4, 4, 3), (0, 5, 3, 4), (1, 4, 6, 9), (0, 0, 1, 3), (0, 8, 9, 3),
       (1, 3, 2, 6), (2, 3, 4, 1), (3, 8, 8, 1), (0, 1, 8, 1)][column]
    else if t < 512 then
      [(0, 1, 1, 6), (1, 5, 5, 5), (1, 4, 5, 0), (0, 5, 4, 1), (1, 2, 8, 1), (0, 0, 0, 0),
       (0, 8, 8, 0), (1, 3, 1, 3), (0, 0, 6, 2), (1, 3, 3, 9), (0, 0, 8, 8), (0, 1, 2, 3),
       (2, 3, 8, 5), (0, 1, 0, 9), (0, 4, 4, 8), (3, 9, 6, 2)][column]
    else if t < 768 then
      [(1, 2, 2, 3), (0, 9, 9, 6), (1, 2, 0, 9), (0, 3, 4, 7), (0, 2, 7, 3), (0, 0, 7, 5),
       (0, 1, 3, 0), (1, 3, 8, 8), (1, 0, 4, 7), (2, 3, 7, 8), (1, 5, 9, 1), (1, 1, 5, 9),
       (0, 4, 1, 7), (1, 2, 1, 6), (0, 3, 5, 4), (0, 2, 6, 0)][column]
    else
      [(1, 4, 9, 4), (0, 2, 4, 6), (1, 3, 7, 5), (1, 0, 5, 4), (0, 0, 3, 9), (3, 8, 4, 5),
       (0, 1, 4, 5), (0, 4, 0, 4), (0, 3, 9, 0), (0, 3, 2, 1), (0, 5, 8, 5), (1, 2, 4, 5),
       (1, 4, 7, 6), (1, 3, 6, 2), (1, 0, 2, 1), (0, 0, 2, 6)][column]
  }

  /** The same as far as ten bits, from 32. */
  function FarRoute32(t: bv10): (bv10, bv10, bv10, bv10) {
    var column := ((t >> 4) & 15) as nat;
    if t < 256 then
      [(1, 4, 4, 3), (0, 5, 3, 4), (0, 9, 9, 6), (0, 0, 8, 8), (0, 3, 4, 7), (1, 1, 6, 0),
       (0, 6, 9, 1), (0, 1, 3, 0), (1, 1, 0, 2), (0, 1, 1, 6), (1, 7, 1, 7), (1, 0, 8, 3),
       (0, 7, 9, 4), (1, 4, 7, 6), (0, 0, 7, 5), (0, 3, 5, 4)][column]
    else if t < 512 then
      [(0, 2, 6, 0), (2, 5, 5, 4), (0, 2, 4, 6), (1, 6, 2, 7), (3, 2, 3, 6), (1, 1, 1, 5),
       (1, 0, 9, 0), (0, 1, 4, 5), (0, 7, 7, 6), (0, 0, 6, 2), (0, 3, 2, 1), (0, 5, 8, 5),
       (3, 1, 4, 4), (0, 2, 7, 3), (1, 6, 3, 4), (3, 2, 0, 3)][column]
    else if t < 768 then
      [(0, 2, 1, 5), (1, 9, 8, 2), (0, 1, 5, 2), (0, 7, 4, 3), (1, 1, 5, 9), (0, 7, 6, 9),
       (0, 3, 8, 3), (3, 1, 3, 1), (0, 0, 2, 6), (1, 6, 4, 1), (2, 7, 8, 1), (0, 2, 0, 2),
       (0, 8, 9, 3), (0, 4, 1, 7), (0, 7, 5, 0), (1, 1, 4, 6)][column]
    else
      [(0, 1, 8, 1), (0, 3, 9, 0), (3, 0, 6, 7), (0, 0, 1, 3), (0, 5, 4, 1), (0, 0, 3, 9),
       (0, 3, 1, 8), (0, 8, 8, 0), (1, 6, 8, 5), (1, 5, 1, 9), (1, 1, 7, 3), (2, 1, 8, 7),
       (0, 1, 2, 3), (2, 6, 8, 8), (0, 0, 0, 0), (1, 0, 2, 1)][column]
  }

  /** The same as far as ten bits, from 48. */
  function FarRoute48(t: bv10): (bv10, bv10, bv10, bv10) {
    var column := ((t >> 4) & 15) as nat;
    if t < 256 then
      [(0, 1, 3, 0), (0, 1, 8, 1), (0, 1, 1, 6), (2, 0, 4, 2), (4, 1, 5, 6), (0, 5, 4, 1),
       (1, 2, 8, 1), (0, 0, 7, 5), (0, 6, 0, 6), (1, 1, 0, 2), (1, 6, 4, 1), (0, 2, 4, 6),
       (1, 3, 7, 5), (0, 1, 2, 3), (2, 4, 0, 2), (2, 9, 5, 8)][column]
    else if t < 512 then
      [(0, 1, 4, 5), (4, 1, 4, 9), (0, 0, 6, 2), (0, 6, 3, 3), (0, 5, 8, 5), (0, 6, 1, 9),
       (0, 2, 7, 3), (1, 3, 6, 2), (1, 1, 4, 6), (1, 3, 8, 8), (1, 5, 1, 9), (0, 1, 5, 2),
       (0, 7, 4, 3), (0, 3, 4, 7), (0, 6, 2, 0), (0, 5, 9, 2)][column]
    else if t < 768 then
      [(1, 0, 2, 1), (0, 2, 6, 0), (1, 0, 4, 7), (1, 1, 7, 3), (0, 2, 0, 2), (1, 1, 5, 9),
       (0, 4, 1, 7), (0, 3, 8, 3), (2, 0, 2, 0), (0, 7, 7, 6), (2, 0, 0, 6), (1, 7, 1, 7),
       (0, 0, 1, 3), (1, 0, 5, 4), (0, 0, 3, 9), (0, 5, 2, 7)][column]
    else
      [(0, 8, 8, 0), (0, 2, 1, 5), (0, 3, 9, 0), (1, 3, 3, 9), (1, 6, 2, 7), (2, 0, 3, 3),
       (1, 7, 0, 4), (0, 0, 0, 0), (2, 0, 5, 5), (0, 0, 2, 6), (0, 5, 3, 4), (0, 9, 9, 6),
       (0, 0, 8, 8), (0, 8, 9, 3), (1, 1, 1, 5), (1, 6, 3, 4)][column]
  }

  predicate FarLeads(s: bv10, t: bv10, route: (bv10, bv10, bv10, bv10)) {
    && route.0 < 10 && route.1 < 10 && route.2 < 10 && route.3 < 10
    && FourTurns(s, route.0, route.1, route.2, route.3) == t
  }

  lemma FarLeadsBelow0(t: bv10)
    requires t & 15 == 0 && t < 512
    ensures FarLeads(0, t, FarRoute0(t))
  {
  }

  lemma FarLeadsAbove0(t: bv10)
    requires t & 15 == 0 && t >= 512
    ensures FarLeads(0, t, FarRoute0(t))
  {
  }

  lemma FarLeadsBelow16(t: bv10)
    requires t & 15 == 0 && t < 512
    ensures FarLeads(16, t, FarRoute16(t))
  {
  }

  lemma FarLeadsAbove16(t: bv10)
    requires t & 15 == 0 && t >= 512
    ensures FarLeads(16, t, FarRoute16(t))
  {
  }

  lemma FarLeadsBelow32(t: bv10)
    requires t & 15 == 0 && t < 512
    ensures FarLeads(32, t, FarRoute32(t))
  {
  }

  lemma FarLeadsAbove32(t: bv10)
    requires t & 15 == 0 && t >= 512
    ensures FarLeads(32, t, FarRoute32(t))
  {
  }

  lemma FarLeadsBelow48(t: bv10)
    requires t & 15 == 0 && t < 512
    ensures FarLeads(48, t, FarRoute48(t))
  {
  }

  lemma FarLeadsAbove48(t: bv10)
    requires t & 15 == 0 && t >= 512
    ensures FarLeads(48, t, FarRoute48(t))
  {
  }

  lemma FarRoute(s: bv10, t: bv10) returns (route: (bv10, bv10, bv10, bv10))
    requires s & 15 == 0 && s < 64 && t & 15 == 0
    ensures FarLeads(s, t, route)
  {
    hide FarLeads, FarRoute0, FarRoute16, FarRoute32, FarRoute48;
    if s == 0 {
      if t < 512 { FarLeadsBelow0(t); } else { FarLeadsAbove0(t); }
      route := FarRoute0(t);
    } else if s == 16 {
      if t < 512 { FarLeadsBelow16(t); } else { FarLeadsAbove16(t); }
      route := FarRoute16(t);
    } else if s == 32 {
      if t < 512 { FarLeadsBelow32(t); } else { FarLeadsAbove32(t); }
      route := FarRoute32(t);
    } else {
      if t < 512 { FarLeadsBelow48(t); } else { FarLeadsAbove48(t); }
      route := FarRoute48(t);
    }
  }

  /** Two states a multiple of 64 apart. */
  predicate Apart(x: bv10, y: bv10, off: bv10) {
    off & 63 == 0 && y == x + off
  }

  /** No digit touches the bits from the seventh on, and the prime is three modulo sixteen:
      a digit triples the distance between two states that only differ there. */
  lemma TripleTurn(x: bv10, y: bv10, off: bv10, digit: bv10)
    requires Apart(x, y, off) && digit < 10
    ensures Apart(Turn(x, digit), Turn(y, digit), Triple(off))
  {
  }

  function Triple(off: bv10): bv10 {
    3 * off
  }

  lemma TripleTurns(x: bv10, y: bv10, off: bv10, a: bv10, b: bv10, c: bv10)
    requires Apart(x, y, off) && a < 10 && b < 10 && c < 10
    ensures Apart(ThreeTurns(x, a, b, c), ThreeTurns(y, a, b, c), Triple(Triple(Triple(off))))
  {
    hide Turn, Apart, Triple;
    TripleTurn(x, y, off, a);
    TripleTurn(Turn(x, a), Turn(y, a), Triple(off), b);
    TripleTurn(Turn(Turn(x, a), b), Turn(Turn(y, a), b), Triple(Triple(off)), c);
  }

  /** Three digits lead from any multiple of sixteen to any other, as far as eight bits. */
  lemma MiddleDigits(s: bv10, t: bv10) returns (a: bv10, b: bv10, c: bv10)
    requires s & 15 == 0 && t & 15 == 0
    ensures a < 10 && b < 10 && c < 10 && Same(ThreeTurns(s, a, b, c), t, 255)
  {
    hide Route, Turn, ThreeTurns;
    var base, off := s & 63, s & 960;
    var moved := Triple(Triple(Triple(off)));
    var digits := Route(base, t - moved);
    RouteLeads(base, t - moved);
    a, b, c := digits.0, digits.1, digits.2;
    TripleTurns(base, s, off, a, b, c);
  }

  lemma TripleKeepsMultiples(off: bv10)
    requires off & 63 == 0
    ensures Triple(Triple(Triple(Triple(off)))) & 63 == 0
  {
  }

  /** Four digits lead from any multiple of sixteen to any other. */
  lemma FarMiddleDigits(s: bv10, t: bv10) returns (a: bv10, b: bv10, c: bv10, d: bv10)
    requires s & 15 == 0 && t & 15 == 0
    ensures a < 10 && b < 10 && c < 10 && d < 10 && FourTurns(s, a, b, c, d) == t
  {
    hide Turn, ThreeTurns, Triple;
    var base, off := s & 63, s & 960;
    var three := Triple(Triple(Triple(off)));
    TripleKeepsMultiples(off);
    var route := FarRoute(base, t - Triple(three));
    a, b, c, d := route.0, route.1, route.2, route.3;
    TripleTurns(base, s, off, a, b, c);
    TripleTurn(ThreeTurns(base, a, b, c), ThreeTurns(s, a, b, c), three, d);
  }

  /** Two digits, so that what is left to do is from one multiple of sixteen to another. */
  lemma Prepare(id: Identity) returns (index: u32)
    ensures 10 <= index <= 99 && LowBits(id, index) & 15 == 0
  {
    hide Turn, LowBits;
    var a, b := FirstTwoDigits(LowBits(id, 0));
    var i := Append(id, 0, a);
    index := Append(id, i, b);
  }

  /** Seven digits reach every state as far as eight bits. */
  lemma EightBitsMet(id: Identity, want: bv10) returns (index: u32)
    ensures index <= 9_999_999 && Same(LowBits(id, index), want, 255)
  {
    hide Turn, LowBits, Same;
    var i1 := Prepare(id);
    var s, y, z := LastTwoDigits(want);
    var u, v, w := MiddleDigits(LowBits(id, i1), s);
    var i2 := Append(id, i1, u);
    var i3 := Append(id, i2, v);
    var i4 := Append(id, i3, w);
    var i5 := Append(id, i4, y);
    index := Append(id, i5, z);
    TurnSame(LowBits(id, i4), s, y);
    TurnSame(LowBits(id, i5), Turn(s, y), z);
  }

  /** Eight digits reach every state. */
  lemma TenBitsMet(id: Identity, want: bv10) returns (index: u32)
    ensures index <= 99_999_999 && LowBits(id, index) == want
  {
    hide Turn, LowBits;
    var i1 := Prepare(id);
    var s, y, z := LastTwoDigits(want);
    var t, u, v, w := FarMiddleDigits(LowBits(id, i1), s);
    var i2 := Append(id, i1, t);
    var i3 := Append(id, i2, u);
    var i4 := Append(id, i3, v);
    var i5 := Append(id, i4, w);
    var i6 := Append(id, i5, y);
    index := Append(id, i6, z);
  }

  lemma Append(id: Identity, n: nat, digit: bv10) returns (index: u32)
    requires n < 10_000_000 && digit < 10 && (n == 0 ==> digit != 0)
    ensures 10 * n <= index <= 10 * n + 9 && (n == 0 ==> index > 0)
    ensures LowBits(id, index) == Turn(LowBits(id, n), digit)
  {
    hide Turn, LowBits, Low;
    DigitValue(digit);
    index := 10 * n + Value(digit);
    AppendTurns(id, n, Value(digit));
  }

  lemma DigitValue(digit: bv10)
    requires digit < 10
    ensures Value(digit) < 10 && Low(Value(digit)) == digit
    ensures digit != 0 ==> Value(digit) > 0
  {
    hide Low;
    ValueOfLow(Value(digit));
    ValueDecides(Low(Value(digit)), digit);
  }

  lemma ValueOfHash(h: u32)
    ensures Value(Low(h)) == h % 1024
  {
    hide Low, Value;
    LowOfMultiple(h % 1024, h / 1024);
    ValueOfLow(h % 1024);
  }

  /** Every residue of up to eight bits is that of some index of at most seven digits, every
      one of nine or ten bits that of some index of at most eight. */
  lemma EveryResidueMet(id: Identity, k: nat, want: nat) returns (index: u32)
    requires k <= 10 && want < Pow2(k)
    ensures index <= (if k <= 8 then 9_999_999 else 99_999_999) && Residue(id, index, k) == want
  {
    hide Low, Hash, Pow2, Value, Same;
    var width := if k <= 8 then 8 else 10;
    assert Pow2(8) == 256 && Pow2(10) == 1024 by { Pow2Values(); Pow2Split(8, 2); }
    Pow2Monotone(k, width);
    ValueOfLow(want);
    if k <= 8 {
      index := EightBitsMet(id, Low(want));
      SameValue(LowBits(id, index), Low(want));
    } else {
      index := TenBitsMet(id, Low(want));
    }
    var h := Hash(HashInput(id, index));
    ValueOfHash(h);
    OffByMultiples(h, want, k <= 8);
    ModPow2(h, k, width);
    BelowIsOwnRemainder(want, Pow2(k));
  }

  lemma OffByMultiples(h: nat, want: nat, short: bool)
    requires if short then want < 256 && h % 1024 - want in {-768, -512, -256, 0, 256, 512, 768}
             else h % 1024 == want
    ensures h % (if short then 256 else 1024) == want
  {
    if short {
      var t := (h % 1024 - want) / 256;
      assert h == 256 * (4 * (h / 1024) + t) + want;
      DivModUnique(h, 256, 4 * (h / 1024) + t, want);
    }
  }

  // ---------------------------------------------------------------- twenty different residues

  /** Two states lie in different halves of every 32. */
  predicate Halved(x: bv10, y: bv10) {
    (x ^ y) & 16 != 0
  }

  /** Two neighbouring first digits part a state. */
  predicate Parts(s: bv10, digit: bv10) {
    Halved(Turn(s, digit), Turn(s, digit + 1))
  }

  lemma SomeDigitParts(s: bv10)
    ensures Parts(s, 2) || Parts(s, 4)
  {
  }

  /** A last digit does not bring such states together again. */
  lemma StaysParted(x: bv10, y: bv10, u: bv10, w: bv10)
    requires Halved(x, y) && u < 10 && w < 10
    ensures !Same(Turn(x, u), Turn(y, w), 31)
  {
  }

  lemma {:induction false} LowOfMultiple32(n: nat, t: nat)
    ensures Same(Low(n + 32 * t), Low(n), 31)
  {
    if t > 0 {
      LowOf32();
      hide Low;
      LowOfMultiple32(n, t - 1);
      LowSum(n + 32 * (t - 1), 32);
    }
  }

  lemma DecadesDiffer(id: Identity, t: nat, u: nat, w: nat, k: nat)
    requires (t == 2 || t == 4) && u < 10 && w < 10 && 5 <= k <= 32
    requires Parts(LowBits(id, 0), if t == 2 then 2 else 4)
    ensures Residue(id, 10 * t + u, k) != Residue(id, 10 * (t + 1) + w, k)
  {
    hide Low, Turn, LowBits, Residue, Halved, Same;
    FirstDigitLows();
    AppendTurns(id, 0, t);
    AppendTurns(id, 0, t + 1);
    AppendTurns(id, t, u);
    AppendTurns(id, t + 1, w);
    SmallLow(u);
    SmallLow(w);
    StaysParted(LowBits(id, t), LowBits(id, t + 1), Low(u), Low(w));
    LowBitsDiffer(id, 10 * t + u, 10 * (t + 1) + w, k);
  }

  lemma FirstDigitLows()
    ensures Low(2) == 2 && Low(3) == 3 && Low(4) == 4 && Low(5) == 5
  {
  }

  lemma SmallLow(d: nat)
    requires d < 10
    ensures Low(d) < 10
  {
    hide Low;
    ValueOfLow(d);
  }

  lemma LowBitsDiffer(id: Identity, m: u32, n: u32, k: nat)
    requires !Same(LowBits(id, m), LowBits(id, n), 31) && 5 <= k <= 32
    ensures Residue(id, m, k) != Residue(id, n, k)
  {
    assert Pow2(5) == 32;
    hide Low, Hash, Pow2;
    var g, h := Hash(HashInput(id, m)), Hash(HashInput(id, n));
    LowOfMultiple32(g % 32, g / 32);
    LowOfMultiple32(h % 32, h / 32);
    ModPow2(g, 5, k);
    ModPow2(h, 5, k);
  }

  /** From five bits on, twenty indices below sixty leave different residues. */
  lemma TwentyDistinct(id: Identity, k: nat) returns (first: nat)
    requires 5 <= k <= 32
    ensures (first == 20 || first == 40) && |Elements(Row(id, first, 20, k))| == 20
  {
    hide Residue, LowBits, Parts;
    SomeDigitParts(LowBits(id, 0));
    var t := if Parts(LowBits(id, 0), 2) then 2 else 4;
    first := 10 * t;
    var row := Row(id, first, 20, k);
    forall i, j | 0 <= i < j < 20 ensures row[i] != row[j] {
      if i < 10 <= j {
        DecadesDiffer(id, t, i, j - 10, k);
      } else if j < 10 {
        UnitsDiffer(id, t, i, j, k);
      } else {
        UnitsDiffer(id, t + 1, i - 10, j - 10, k);
      }
    }
    DistinctCount(row);
  }

  lemma UnitsDiffer(id: Identity, t: nat, u: nat, w: nat, k: nat)
    requires 1 <= t < 10 && u < w < 10 && 4 <= k <= 32
    ensures Residue(id, 10 * t + u, k) != Residue(id, 10 * t + w, k)
  {
    hide Hash, Pow2;
    DecadeResidues(id, t, u, w, k);
    Pow2Values();
    Pow2Monotone(4, k);
    CloseValuesDiffer(48 + u, 48 + w, Pow2(k));
  }
}
