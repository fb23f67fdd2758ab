/** The bounded first-fit search for a subnet that overlaps none of a node's own. */
module SubnetSearch {
  import opened Words
  import opened Counting
  import opened Subnets

  const ATTEMPTS: nat := 4096

  predicate Collides(existing: seq<Net>, s: Net) {
    exists i :: 0 <= i < |existing| && Overlap(existing[i], s)
  }

  /** The candidate moved `steps` whole blocks up, wrapping around the address space. */
  function Advance(candidate: Net, steps: nat): (s: Net)
    ensures s.prefix == candidate.prefix
  {
    Subnet((candidate.base + Size(candidate) * steps) % WORD, candidate.prefix)
  }

  function SearchFrom(candidate: Net, existing: seq<Net>, steps: nat): (s: Net)
    requires steps <= ATTEMPTS
    decreases ATTEMPTS - steps
  {
    if steps == ATTEMPTS || !Collides(existing, Advance(candidate, steps)) then Advance(candidate, steps)
    else SearchFrom(candidate, existing, steps + 1)
  }

  function Search(candidate: Net, existing: seq<Net>): Net {
    SearchFrom(candidate, existing, 0)
  }

  method NextAvailableSubnet(candidate: Net, existing: seq<Net>) returns (attempt: Net)
    ensures attempt == Search(candidate, existing)
  {
    var blockSize := Size(candidate);
    BlockFits(candidate);
    attempt := candidate;
    AdvanceZero(candidate);
    for n := 0 to ATTEMPTS
      invariant attempt == Advance(candidate, n)
      invariant SearchFrom(candidate, existing, n) == Search(candidate, existing)
    {
      if !Collides(existing, attempt) {
        return;
      }
      AdvanceOne(candidate, n);
      attempt := Subnet(WrappingAdd(attempt.base, blockSize), candidate.prefix);
    }
  }

  // ---------------------------------------------------------------- block arithmetic

  lemma BlockFits(s: Net)
    ensures 1 <= Size(s) < WORD
    ensures Pow2(s.prefix) * Size(s) == WORD && Size(s) * Pow2(s.prefix) == WORD
  {
    hide Pow2;
    Pow2Values();
    Pow2Monotone(32 - s.prefix, 32);
    Pow2Split(s.prefix, 32 - s.prefix);
  }

  lemma AdvanceZero(candidate: Net)
    ensures Advance(candidate, 0) == candidate
  {
    assert Size(candidate) * 0 == 0;
  }

  lemma AdvanceOne(candidate: Net, n: nat)
    ensures Size(candidate) < WORD
    ensures Advance(candidate, n + 1).base == WrappingAdd(Advance(candidate, n).base, Size(candidate))
  {
    hide Pow2;
    BlockFits(candidate);
    var m := Size(candidate);
    var x := candidate.base + m * n;
    assert m * (n + 1) == m * n + m;
    DivMod(x, WORD);
    ModOfMultiple(x % WORD + m, WORD, x / WORD);
  }

  /** Which aligned block of its own size a subnet names. */
  function Block(s: Net): nat {
    QuotientNonnegative(s.base, Size(s));
    s.base / Size(s)
  }

  lemma BlockOfAdvance(candidate: Net, steps: nat)
    ensures Block(Advance(candidate, steps)) == (Block(candidate) + steps) % Pow2(candidate.prefix)
  {
    hide Pow2;
    BlockFits(candidate);
    var m := Size(candidate);
    var x := candidate.base + m * steps;
    DivOfMod(x, m, Pow2(candidate.prefix));
    DivMod(candidate.base, m);
    assert m * (candidate.base / m + steps) == m * (candidate.base / m) + m * steps;
    DivModUnique(x, m, candidate.base / m + steps, candidate.base % m);
  }

  lemma BlockBelow(s: Net)
    ensures Block(s) < Pow2(s.prefix)
  {
    hide Pow2;
    BlockFits(s);
    var m, c := Size(s), Pow2(s.prefix);
    DivMod(s.base, m);
    MultipleTooFar(m, c - Block(s));
    assert m * (c - Block(s)) == m * c - m * Block(s);
    MultipleTooFar(m, Block(s) - c);
    assert m * (Block(s) - c) == m * Block(s) - m * c;
  }

  /** Fewer than a full turn of steps never names a block twice. */
  lemma StepsAreDistinct(candidate: Net, i: nat, j: nat)
    requires i < j < i + Pow2(candidate.prefix)
    ensures Block(Advance(candidate, i)) != Block(Advance(candidate, j))
  {
    hide Advance, Pow2;
    var c := Pow2(candidate.prefix);
    BlockOfAdvance(candidate, i);
    BlockOfAdvance(candidate, j);
    CloseValuesDiffer(Block(candidate) + i, Block(candidate) + j, c);
  }

  // ---------------------------------------------------------------- which blocks are covered

  /** Overlap with a subnet of prefix `p`, in block numbers: the finer of the two must lie
      in the coarser. */
  predicate Covers(e: Net, prefix: u8, block: nat)
    requires 1 <= prefix <= 32
  {
    if e.prefix >= prefix then e.base / Pow2(32 - prefix) == block
    else block / Pow2(prefix - e.prefix) == e.base / Pow2(32 - e.prefix)
  }

  lemma CoversMeaning(e: Net, s: Net)
    ensures Overlap(e, s) <==> Covers(e, s.prefix, Block(s))
  {
    SameNetworkBits(e.base, s.base, Min(e.prefix, s.prefix));
    if e.prefix < s.prefix {
      Pow2Split(32 - s.prefix, s.prefix - e.prefix);
      DivDiv(s.base, Size(s), Pow2(s.prefix - e.prefix));
    }
  }

  /** The blocks of one size that a node's subnets touch. */
  ghost function Covered(existing: seq<Net>, prefix: u8): (blocks: set<int>)
    requires 1 <= prefix <= 32
    ensures blocks <= Range(0, Pow2(prefix))
  {
    set b | b in Range(0, Pow2(prefix)) && exists i :: 0 <= i < |existing| && Covers(existing[i], prefix, b)
  }

  lemma CollidesIffCovered(existing: seq<Net>, s: Net)
    ensures Collides(existing, s) <==> Block(s) in Covered(existing, s.prefix)
  {
    BlockBelow(s);
    forall i | 0 <= i < |existing|
      ensures Overlap(existing[i], s) <==> Covers(existing[i], s.prefix, Block(s))
    {
      CoversMeaning(existing[i], s);
    }
  }

  /** How many blocks of a size one subnet can touch. */
  function BlocksTouched(e: Net, prefix: u8): nat {
    if e.prefix >= prefix then 1 else Pow2(prefix - e.prefix)
  }

  function TotalTouched(existing: seq<Net>, prefix: u8): nat {
    if existing == [] then 0
    else TotalTouched(existing[..|existing| - 1], prefix) + BlocksTouched(existing[|existing| - 1], prefix)
  }

  /** One subnet covers exactly one block of a coarser or equal size, and exactly
      2^(prefix difference) blocks of a finer one. */
  lemma CoveredByOne(e: Net, prefix: u8)
    requires 1 <= prefix <= 32
    ensures |Covered([e], prefix)| == if e.prefix >= prefix then 1 else Pow2(prefix - e.prefix)
  {
    hide Pow2, Range;
    var blocks := Covered([e], prefix);
    if e.prefix >= prefix {
      var only := e.base / Pow2(32 - prefix);
      BlockBelow(Subnet(e.base, prefix));
      assert Covers([e][0], prefix, only);
      assert blocks == {only};
    } else {
      var c, q := Pow2(prefix - e.prefix), e.base / Pow2(32 - e.prefix);
      BlockBelow(e);
      Pow2Split(prefix - e.prefix, e.prefix);
      LastBlockFits(c, q, Pow2(e.prefix));
      forall b | c * q <= b < c * q + c ensures b in blocks {
        DivModUnique(b, c, q, b - c * q);
        assert Covers([e][0], prefix, b);
      }
      forall b | b in blocks ensures c * q <= b < c * q + c {
        assert Covers(e, prefix, b);
        DivMod(b, c);
      }
      assert blocks == Range(c * q, c * q + c);
      RangeCount(c * q, c * q + c);
    }
  }

  lemma LastBlockFits(c: nat, q: nat, n: nat)
    requires c > 0 && q < n
    ensures 0 <= c * q && c * q + c <= c * n
  {
    MultipleTooFar(c, n - q);
    assert c * n == c * q + c * (n - q);
    if q > 0 {
      MultipleTooFar(c, q);
    }
  }

  lemma {:induction false} CoveredAtMostTotal(existing: seq<Net>, prefix: u8)
    requires 1 <= prefix <= 32
    ensures |Covered(existing, prefix)| <= TotalTouched(existing, prefix)
  {
    if existing == [] {
      assert Covered(existing, prefix) == {};
    } else {
      var rest, e := existing[..|existing| - 1], existing[|existing| - 1];
      CoveredAtMostTotal(rest, prefix);
      CoveredByOne(e, prefix);
      var union := Covered(rest, prefix) + Covered([e], prefix);
      forall b | b in Covered(existing, prefix) ensures b in union {
        var i :| 0 <= i < |existing| && Covers(existing[i], prefix, b);
        if i < |rest| {
          assert Covers(rest[i], prefix, b);
        } else {
          assert Covers([e][0], prefix, b);
        }
      }
      SubsetIsSmaller(Covered(existing, prefix), union);
    }
  }

  // ---------------------------------------------------------------- what the search finds

  lemma {:induction false} SearchFromMeaning(candidate: Net, existing: seq<Net>, from: nat) returns (steps: nat)
    requires from <= ATTEMPTS
    ensures from <= steps <= ATTEMPTS
    ensures SearchFrom(candidate, existing, from) == Advance(candidate, steps)
    ensures forall j :: from <= j < steps ==> Collides(existing, Advance(candidate, j))
    ensures steps < ATTEMPTS ==> !Collides(existing, Advance(candidate, steps))
    decreases ATTEMPTS - from
  {
    if from == ATTEMPTS || !Collides(existing, Advance(candidate, from)) {
      steps := from;
    } else {
      steps := SearchFromMeaning(candidate, existing, from + 1);
    }
  }

  /** The search keeps the prefix and stops at the least number of steps whose block is
      free, or after 4096 steps. */
  lemma SearchIsLeast(candidate: Net, existing: seq<Net>) returns (steps: nat)
    ensures steps <= ATTEMPTS && Search(candidate, existing) == Advance(candidate, steps)
    ensures forall j :: 0 <= j < steps ==> Collides(existing, Advance(candidate, j))
    ensures steps < ATTEMPTS ==> !Collides(existing, Advance(candidate, steps))
  {
    steps := SearchFromMeaning(candidate, existing, 0);
  }

  /** The result overlaps a subnet of the node exactly when 4097 consecutive blocks, the
      last of them returned unexamined, all do. */
  lemma SearchFailsIff(candidate: Net, existing: seq<Net>)
    ensures Collides(existing, Search(candidate, existing))
       <==> forall j :: 0 <= j <= ATTEMPTS ==> Collides(existing, Advance(candidate, j))
  {
    hide Collides;
    var steps := SearchIsLeast(candidate, existing);
  }

  /** Blocks of the first `n` attempts, in order. */
  ghost function Tried(candidate: Net, n: nat): seq<int> {
    seq(n, j requires 0 <= j < n => Block(Advance(candidate, j)))
  }

  lemma TriedDistinct(candidate: Net, n: nat)
    requires n <= Pow2(candidate.prefix)
    ensures |Elements(Tried(candidate, n))| == n
  {
    forall i, j | 0 <= i < j < n ensures Tried(candidate, n)[i] != Tried(candidate, n)[j] {
      StepsAreDistinct(candidate, i, j);
    }
    DistinctCount(Tried(candidate, n));
  }

  /** Completeness, counted by blocks really covered: with fewer covered blocks than
      attempts and than blocks in the address space, a free subnet is found. */
  lemma SearchComplete(candidate: Net, existing: seq<Net>)
    requires |Covered(existing, candidate.prefix)| < ATTEMPTS + 1
    requires |Covered(existing, candidate.prefix)| < Pow2(candidate.prefix)
    ensures !Collides(existing, Search(candidate, existing))
  {
    var covered := Covered(existing, candidate.prefix);
    var n := |covered| + 1;
    TriedDistinct(candidate, n);
    var j := Pigeonhole(Tried(candidate, n), covered);
    CollidesIffCovered(existing, Advance(candidate, j));
    SearchFailsIff(candidate, existing);
  }

  /** Completeness, counted by the sizes of the existing subnets. */
  lemma SearchCompleteByTotal(candidate: Net, existing: seq<Net>)
    requires TotalTouched(existing, candidate.prefix) < ATTEMPTS + 1
    requires TotalTouched(existing, candidate.prefix) < Pow2(candidate.prefix)
    ensures !Collides(existing, Search(candidate, existing))
  {
    CoveredAtMostTotal(existing, candidate.prefix);
    SearchComplete(candidate, existing);
  }

  /** Up to /12 the 4096 attempts go all the way round, so the search fails only when the
      whole address space is covered. */
  lemma ShortPrefixSearchExact(candidate: Net, existing: seq<Net>)
    requires candidate.prefix <= 12
    ensures Collides(existing, Search(candidate, existing))
       <==> Covered(existing, candidate.prefix) == Range(0, Pow2(candidate.prefix))
  {
    hide Collides, Covered, Range, Pow2;
    var blocks := Range(0, Pow2(candidate.prefix));
    var covered := Covered(existing, candidate.prefix);
    RangeCount(0, Pow2(candidate.prefix));
    assert Pow2(12) == ATTEMPTS by { Pow2Values(); }
    Pow2Monotone(candidate.prefix, 12);
    if covered == blocks {
      CollidesIffCovered(existing, Search(candidate, existing));
      var steps := SearchIsLeast(candidate, existing);
      BlockBelow(Search(candidate, existing));
    } else {
      ProperSubsetIsSmaller(covered, blocks);
      SearchComplete(candidate, existing);
    }
  }

  lemma GiveUpDistance(candidate: Net)
    ensures Size(candidate) * ATTEMPTS == Pow2(44 - candidate.prefix)
  {
    assert Pow2(12) == ATTEMPTS by { Pow2Values(); }
    Pow2Split(32 - candidate.prefix, 12);
  }

  /** A jump of `2^k` addresses returns to its start exactly when it is a whole number of
      turns of the address space. */
  lemma JumpReturns(base: u32, k: nat)
    ensures (base + Pow2(k)) % WORD == base <==> k >= 32
  {
    hide Pow2;
    assert Pow2(32) == WORD by { Pow2Values(); }
    BelowIsOwnRemainder(base, WORD);
    if k >= 32 {
      Pow2Split(32, k - 32);
      ModOfMultiple(base, WORD, Pow2(k - 32));
    } else if (base + Pow2(k)) % WORD == base {
      Pow2Monotone(k, 32);
      var t := CongruenceWitness(base + Pow2(k), base, WORD);
      assert false;
    }
  }

  /** Giving up returns the candidate moved 4096 blocks, which is the candidate itself
      exactly up to /12. */
  lemma GivingUp(candidate: Net, existing: seq<Net>)
    requires forall j :: 0 <= j < ATTEMPTS ==> Collides(existing, Advance(candidate, j))
    ensures Search(candidate, existing) == Advance(candidate, ATTEMPTS)
    ensures Search(candidate, existing) == candidate <==> candidate.prefix <= 12
  {
    hide Collides, Pow2;
    var steps := SearchIsLeast(candidate, existing);
    GiveUpDistance(candidate);
    JumpReturns(candidate.base, 44 - candidate.prefix);
  }
}
