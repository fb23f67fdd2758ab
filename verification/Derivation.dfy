/** Deriving an overlay address from an identity, and the collision-rotation search. */
module Derivation {
  import opened Options
  import opened Words
  import opened Decimal
  import opened Counting
  import opened Subnets
  import opened Fnv
  import opened Identities
  import opened IndexResidues
  import opened ResidueReach

  /** What the address search needs of a roster entry. */
  datatype Member = Member(identity: Identity, index: u32)

  /** The roster, looked up by address. */
  type Roster = map<u32, Member>

  /** Hosts 0 and 1 are the network and gateway addresses; they move up by two. */
  function AvoidReserved(host: nat): nat {
    if host <= 1 then host + 2 else host
  }

  /** Place hashed host bits into a subnet. */
  function Place(hash: u32, s: Net): u32 {
    var host := And(hash, HostMask(s.prefix));
    PlacedFits(hash, s);
    Or(NetworkBits(s.base, s.prefix), AvoidReserved(host))
  }

  function Derive(id: Identity, index: u32, s: Net): u32 {
    Place(Hash(HashInput(id, index)), s)
  }

  method DeriveIpWithIndex(id: Identity, index: u32, s: Net) returns (ip: u32)
    ensures ip == Derive(id, index, s)
  {
    var hash := ComputeHash(HashInput(id, index));
    ip := Place(hash, s);
  }

  /** Some other identity holds the address. */
  predicate TakenByOther(members: Roster, id: Identity, ip: u32) {
    ip in members && members[ip].identity != id
  }

  predicate IndexTaken(members: Roster, id: Identity, s: Net, index: u32) {
    TakenByOther(members, id, Derive(id, index, s))
  }

  /** The first acceptable index at or after `index`, if any 32-bit index is. */
  function AssignFrom(members: Roster, id: Identity, s: Net, index: nat): Option<(u32, u32)>
    requires index <= WORD
    decreases WORD - index
  {
    if index == WORD then None
    else if IndexTaken(members, id, s, index) then AssignFrom(members, id, s, index + 1)
    else Some((Derive(id, index, s), index))
  }

  function Assign(members: Roster, id: Identity, s: Net): Option<(u32, u32)> {
    AssignFrom(members, id, s, 0)
  }

  /** The rotation loop. `None` stands for the one way the source's loop has of not
      returning: every 32-bit index taken, so that the counter overflows. */
  method AssignIp(members: Roster, id: Identity, s: Net) returns (r: Option<(u32, u32)>)
    ensures r == Assign(members, id, s)
    ensures s.prefix <= 28 && |HeldByOthers(members, id)| <= 6 ==> r.Some? && r.value.1 <= 9
    ensures s.prefix <= 28 && |HeldByOthers(members, id)| <= 7 ==> r.Some? && r.value.1 <= 19
    ensures s.prefix <= 27 && |HeldByOthers(members, id)| <= 17 ==> r.Some? && r.value.1 <= 59
    ensures s.prefix <= 25 && |HeldByOthers(members, id)| <= 37 ==> r.Some? && r.value.1 <= 79
    ensures s.prefix <= 22 && |HeldByOthers(members, id)| <= 87 ==> r.Some? && r.value.1 <= 99
  {
    hide Derive, HeldByOthers;
    if s.prefix <= 28 {
      AssignBound(members, id, s);
    }
    var index := 0;
    while index < WORD
      invariant 0 <= index <= WORD
      invariant AssignFrom(members, id, s, index) == Assign(members, id, s)
    {
      var ip := DeriveIpWithIndex(id, index, s);
      if TakenByOther(members, id, ip) {
        index := index + 1;
      } else {
        return Some((ip, index));
      }
    }
    return None;
  }

  // ---------------------------------------------------------------- where derived addresses lie

  lemma {:induction false} OrBound(x: nat, y: nat, k: nat)
    requires x < Pow2(k) && y < Pow2(k)
    ensures Or(x, y) < Pow2(k)
  {
    if k > 0 && x > 0 && y > 0 {
      OrBound(x / 2, y / 2, k - 1);
    }
  }

  lemma PlacedFits(hash: u32, s: Net)
    ensures Or(NetworkBits(s.base, s.prefix), AvoidReserved(And(hash, HostMask(s.prefix)))) < WORD
  {
    hide Pow2, And, Or, NetworkBits;
    var k := 32 - s.prefix;
    AndLowMask(hash, k);
    ModWithin(hash, Pow2(k));
    NetworkBitsMeaning(s.base, s.prefix);
    ModWithin(s.base, Pow2(k));
    Pow2Monotone(k, 31);
    Pow2Values();
    OrBound(NetworkBits(s.base, s.prefix), AvoidReserved(And(hash, HostMask(s.prefix))), 32);
  }

  /** Up to /30, the placed address is the network address plus the hash residue moved off
      the two reserved hosts. */
  lemma PlaceMeaning(hash: u32, s: Net)
    requires s.prefix <= 30
    ensures Place(hash, s) == NetworkBits(s.base, s.prefix) + AvoidReserved(hash % Size(s))
    ensures 2 <= AvoidReserved(hash % Size(s)) < Size(s)
  {
    hide Pow2, And, Or, NetworkBits;
    var k := 32 - s.prefix;
    AndLowMask(hash, k);
    ModWithin(hash, Pow2(k));
    Pow2Values();
    Pow2Monotone(2, k);
    NetworkBitsMeaning(s.base, s.prefix);
    var q := s.base / Pow2(k);
    DivModUnique(Pow2(k) * q, Pow2(k), q, 0);
    OrDisjoint(NetworkBits(s.base, s.prefix), AvoidReserved(hash % Size(s)), k);
  }

  /** In numbers: residue 0 goes to host 2, residue 1 to host 3, every other to itself, counted
      from the base with its host bits cleared. */
  lemma DerivedAddress(id: Identity, index: u32, s: Net)
    requires s.prefix <= 30
    ensures var size := Pow2(32 - s.prefix);
            var host := Hash(if index == 0 then id else id + Ascii(index)) % size;
            Derive(id, index, s) == s.base - s.base % size + (if host == 0 then 2 else if host == 1 then 3 else host)
  {
    hide Hash, Place, NetworkBits, Pow2;
    PlaceMeaning(Hash(HashInput(id, index)), s);
    NetworkBitsMeaning(s.base, s.prefix);
  }

  /** The addresses a network hands out: in the subnet and off its two reserved hosts. */
  predicate Usable(ip: u32, s: Net) {
    InSubnet(ip, s) && ip - NetworkBits(s.base, s.prefix) >= 2
  }

  lemma UsableRange(ip: u32, s: Net)
    ensures Usable(ip, s) <==> NetworkBits(s.base, s.prefix) + 2 <= ip < NetworkBits(s.base, s.prefix) + Size(s)
  {
    InSubnetIffInRange(ip, s);
  }

  /** Every derived address is usable exactly when the prefix leaves two host bits: at /31
      and /32 the reserved-host step leaves the subnet or lands on a reserved host. */
  lemma PlacedUsableIff(hash: u32, s: Net)
    ensures Usable(Place(hash, s), s) <==> s.prefix <= 30
  {
    UsableRange(Place(hash, s), s);
    if s.prefix <= 30 {
      PlaceMeaning(hash, s);
    } else {
      assert Size(s) <= 2 by {
        assert Pow2(0) == 1 && Pow2(1) == 2;
      }
    }
  }

  lemma OrTwoOrThree(x: nat)
    ensures Or(x, 2) == 4 * (x / 4) + 2 + x % 2
    ensures Or(x, 3) == 4 * (x / 4) + 3
  {
    assert Or(x / 4, 0) == x / 4;
    assert Or(x / 2, 1) == 2 * (x / 2 / 2) + 1;
  }

  /** What the masks of /31 and /32 keep. */
  lemma NarrowMasks(x: u32, prefix: u8)
    requires 31 <= prefix <= 32
    ensures And(x, HostMask(prefix)) == if prefix == 32 then 0 else x % 2
    ensures NetworkBits(x, prefix) == if prefix == 32 then x else 2 * (x / 2)
  {
    hide And, NetworkBits;
    assert Pow2(0) == 1 && Pow2(1) == 2;
    hide Pow2;
    AndLowMask(x, 32 - prefix);
    NetworkBitsMeaning(x, prefix);
  }

  /** At /31 and /32 the placed address is the upper half of the base's block of four. */
  lemma NarrowPlace(hash: u32, s: Net)
    requires s.prefix >= 31
    ensures Place(hash, s) == 4 * (s.base / 4) + 2 + (if s.prefix == 32 then s.base else hash) % 2
  {
    hide And, Or, NetworkBits, HostMask;
    NarrowMasks(hash, s.prefix);
    NarrowMasks(s.base, s.prefix);
    if s.prefix == 32 {
      OrTwoOrThree(s.base);
    } else {
      OrTwoOrThree(2 * (s.base / 2));
      EvenPart(s.base);
      assert hash % 2 == 0 || hash % 2 == 1;
    }
  }

  /** The parts of a number in its block of four. */
  lemma BlockOfFour(x: nat, q: nat, r: nat)
    requires q == x / 4 && r == x % 4
    ensures x == 4 * q + r && x / 2 == 2 * q + r / 2 && x % 2 == r % 2 && (x / 2) % 2 == r / 2
  {
  }

  lemma EvenPart(x: nat)
    ensures 2 * (x / 2) / 4 == x / 4 && 2 * (x / 2) % 2 == 0
  {
    var q, r := x / 4, x % 4;
    BlockOfFour(x, q, r);
    var y := 2 * (x / 2);
    assert y == 4 * q + 2 * (r / 2);
    DivModUnique(y, 4, q, 2 * (r / 2));
    DivModUnique(y, 2, x / 2, 0);
  }

  /** A derived address stays inside the subnet exactly up to /30 or when the second lowest
      bit of the base is set: at /31 and /32 stepping off the reserved hosts sets that bit. */
  lemma PlacedInsideIff(hash: u32, s: Net)
    ensures InSubnet(Place(hash, s), s) <==> s.prefix <= 30 || (s.base / 2) % 2 == 1
  {
    hide Place, NetworkBits;
    if s.prefix <= 30 {
      PlacedUsableIff(hash, s);
    } else {
      NarrowPlace(hash, s);
      NarrowMasks(Place(hash, s), s.prefix);
      NarrowMasks(s.base, s.prefix);
      UpperHalf(s.base, (if s.prefix == 32 then s.base else hash) % 2, Place(hash, s));
    }
  }

  lemma UpperHalf(x: nat, p: nat, y: nat)
    requires p < 2 && y == 4 * (x / 4) + 2 + p
    ensures 2 * (y / 2) == 2 * (x / 2) <==> (x / 2) % 2 == 1
    ensures p == x % 2 ==> (y == x <==> (x / 2) % 2 == 1)
  {
    var q, r := x / 4, x % 4;
    BlockOfFour(x, q, r);
    DivModUnique(y, 2, 2 * q + 1, p);
  }

  /** So "always inside" is false: 10.88.0.0/31 derives 10.88.0.2 or 10.88.0.3 for everyone. */
  lemma NarrowSubnetIsLeft(id: Identity, index: u32, s: Net)
    requires s == Subnet(0x0A58_0000, 31)
    ensures !InSubnet(Derive(id, index, s), s)
  {
    PlacedInsideIff(Hash(HashInput(id, index)), s);
  }

  lemma DerivedUsable(id: Identity, index: u32, s: Net)
    requires s.prefix <= 30
    ensures Usable(Derive(id, index, s), s)
  {
    PlacedUsableIff(Hash(HashInput(id, index)), s);
  }

  // ---------------------------------------------------------------- the least free index

  lemma {:induction false} AssignFromMeaning(members: Roster, id: Identity, s: Net, index: nat)
    requires index <= WORD
    ensures var r := AssignFrom(members, id, s, index);
            && (r.Some? ==> index <= r.value.1 && r.value.0 == Derive(id, r.value.1, s)
                            && !IndexTaken(members, id, s, r.value.1)
                            && forall j: u32 :: index <= j < r.value.1 ==> IndexTaken(members, id, s, j))
            && (r.None? ==> forall j: u32 :: index <= j ==> IndexTaken(members, id, s, j))
    decreases WORD - index
  {
    hide Derive, IndexTaken;
    if index < WORD {
      if IndexTaken(members, id, s, index) {
        AssignFromMeaning(members, id, s, index + 1);
      }
    }
  }

  /** The assigned pair is the derivation at the least index nobody else holds; there is
      none exactly when others hold the derivation at every index. */
  lemma AssignIsLeast(members: Roster, id: Identity, s: Net)
    ensures var r := Assign(members, id, s);
            && (r.Some? ==> r.value.0 == Derive(id, r.value.1, s) && !TakenByOther(members, id, r.value.0)
                            && forall j: u32 :: j < r.value.1 ==> IndexTaken(members, id, s, j))
            && (r.None? <==> forall j: u32 :: IndexTaken(members, id, s, j))
  {
    AssignFromMeaning(members, id, s, 0);
  }

  lemma FreeIndexBoundsAssign(members: Roster, id: Identity, s: Net, i: u32)
    requires !IndexTaken(members, id, s, i)
    ensures Assign(members, id, s).Some? && Assign(members, id, s).value.1 <= i
  {
    AssignIsLeast(members, id, s);
  }

  ghost function HeldByOthers(members: Roster, id: Identity): set<u32> {
    set ip | ip in members && members[ip].identity != id
  }

  // ---------------------------------------------------------------- how far the rotation can go

  ghost function Shifted(s: set<u32>, base: int): set<int> {
    set x | x in s :: x - base
  }

  lemma {:induction false} ShiftedCount(s: set<u32>, base: int)
    ensures |Shifted(s, base)| <= |s|
  {
    if s != {} {
      var x :| x in s;
      var rest := s - {x};
      ShiftedCount(rest, base);
      forall y | y in Shifted(s, base) ensures y in Shifted(rest, base) + {x - base} {
        var z :| z in s && y == z - base;
        assert z == x || z in rest;
      }
      SubsetIsSmaller(Shifted(s, base), Shifted(rest, base) + {x - base});
    }
  }

  /** A run of indices with more different residues than held addresses and the two reserved
      ones has a free index. */
  lemma RowHasFreeIndex(members: Roster, id: Identity, s: Net, first: nat, n: nat) returns (i: u32)
    requires s.prefix <= 30 && first + n <= WORD
    requires |HeldByOthers(members, id)| + 2 < |Elements(Row(id, first, n, 32 - s.prefix))|
    ensures first <= i < first + n
    ensures !IndexTaken(members, id, s, i)
  {
    hide Hash, NetworkBits, Pow2, Place, Row;
    var k := 32 - s.prefix;
    var held := HeldByOthers(members, id);
    var net := NetworkBits(s.base, s.prefix);
    var shifted := Shifted(held, net);
    ShiftedCount(held, net);
    var off := Pigeonhole(Row(id, first, n, k), shifted + {0, 1});
    i := first + off;
    PlaceMeaning(Hash(HashInput(id, i)), s);
    assert Derive(id, i, s) == net + Residue(id, i, k);
    assert Derive(id, i, s) in held ==> Derive(id, i, s) - net in shifted;
  }

  /** The rotation is bounded, for every identity: up to /28, with at most six addresses held
      by others the search ends by index 9, with at most seven by index 19; up to /27, with
      at most 17 by index 59; up to /25, the default /24 included, with at most 37 by
      index 79; up to /22, with at most 87 by index 99. */
  lemma AssignBound(members: Roster, id: Identity, s: Net)
    requires s.prefix <= 28
    ensures |HeldByOthers(members, id)| <= 6 ==>
              Assign(members, id, s).Some? && Assign(members, id, s).value.1 <= 9
    ensures |HeldByOthers(members, id)| <= 7 ==>
              Assign(members, id, s).Some? && Assign(members, id, s).value.1 <= 19
    ensures s.prefix <= 27 && |HeldByOthers(members, id)| <= 17 ==>
              Assign(members, id, s).Some? && Assign(members, id, s).value.1 <= 59
    ensures s.prefix <= 25 && |HeldByOthers(members, id)| <= 37 ==>
              Assign(members, id, s).Some? && Assign(members, id, s).value.1 <= 79
    ensures s.prefix <= 22 && |HeldByOthers(members, id)| <= 87 ==>
              Assign(members, id, s).Some? && Assign(members, id, s).value.1 <= 99
  {
    hide Assign, IndexTaken, HeldByOthers, Row, Elements, Pow2;
    var k := 32 - s.prefix;
    var count := |HeldByOthers(members, id)|;
    if count <= 6 {
      DecadeRowCount(id, 0, 1, 9, k);
      BoundByRow(members, id, s, 1, 9);
    } else if count <= 7 {
      DecadeRowCount(id, 1, 0, 10, k);
      BoundByRow(members, id, s, 10, 10);
    } else if s.prefix <= 27 && count <= 17 {
      var first := TwentyDistinct(id, k);
      BoundByRow(members, id, s, first, 20);
    } else if s.prefix <= 25 && count <= 37 {
      TwoDigitRowDistinct(id, 40, 40, k);
      BoundByRow(members, id, s, 40, 40);
    } else if s.prefix <= 22 && count <= 87 {
      TwoDigitRowDistinct(id, 10, 90, k);
      BoundByRow(members, id, s, 10, 90);
    }
  }

  lemma DecadeRowCount(id: Identity, tens: nat, lo: nat, n: nat, k: nat)
    requires 10 * tens + 9 < WORD && lo + n <= 10 && 4 <= k <= 32 && (tens == 0 ==> lo > 0)
    ensures |Elements(Row(id, 10 * tens + lo, n, k))| == n
  {
    hide Row, Elements, Pow2;
    Pow2Values();
    Pow2Monotone(4, k);
    RowDistinct(id, tens, lo, n, k);
  }

  lemma BoundByRow(members: Roster, id: Identity, s: Net, first: nat, n: nat)
    requires s.prefix <= 30 && first + n <= WORD
    requires |HeldByOthers(members, id)| + 2 < |Elements(Row(id, first, n, 32 - s.prefix))|
    ensures Assign(members, id, s).Some? && Assign(members, id, s).value.1 < first + n
  {
    hide Assign, IndexTaken, HeldByOthers, Row, Elements;
    var i := RowHasFreeIndex(members, id, s, first, n);
    FreeIndexBoundsAssign(members, id, s, i);
  }

  /** How far an index has to go to reach every address of a subnet of at most 1024. */
  function FarthestIndex(prefix: nat): nat {
    if prefix >= 29 then 17 else if prefix == 28 then 99 else if prefix >= 24 then 9_999_999 else 99_999_999
  }

  /** From /22 on the indices of at most eight digits reach every usable address, from /24
      on those of seven; the two-digit ones do at /28, and those up to 17 from /29 on. */
  lemma IndicesReachAll(id: Identity, s: Net, ip: u32) returns (i: u32)
    requires 22 <= s.prefix <= 30 && Usable(ip, s)
    ensures i <= FarthestIndex(s.prefix) && Derive(id, i, s) == ip
  {
    hide Hash, Place, Pow2;
    UsableRange(ip, s);
    var want := ip - NetworkBits(s.base, s.prefix);
    if s.prefix >= 29 {
      var unit := DecadeMeetsResidue(id, 32 - s.prefix, want);
      i := 10 + unit;
    } else if s.prefix == 28 {
      assert Pow2(4) == 16 by { Pow2Values(); }
      i := TwoDigitsMeetResidue(id, want);
    } else {
      i := EveryResidueMet(id, 32 - s.prefix, want);
    }
    PlaceMeaning(Hash(HashInput(id, i)), s);
  }

  /** A network with every usable address held by others has no index left, at any prefix
      up to 30. */
  lemma FullNetHasNoIndex(members: Roster, id: Identity, s: Net)
    requires s.prefix <= 30
    requires forall ip: u32 :: Usable(ip, s) ==> TakenByOther(members, id, ip)
    ensures Assign(members, id, s).None?
  {
    forall j: u32 ensures IndexTaken(members, id, s, j) {
      DerivedUsable(id, j, s);
    }
    AssignIsLeast(members, id, s);
  }

  /** From /22 on, the default /24 included, the search is complete: it succeeds, by the
      farthest index above, exactly when some usable address is not held by another identity. */
  lemma RotationComplete(members: Roster, id: Identity, s: Net)
    requires 22 <= s.prefix <= 30
    ensures Assign(members, id, s).Some? <==> exists ip: u32 :: Usable(ip, s) && !TakenByOther(members, id, ip)
    ensures Assign(members, id, s).Some? ==>
              Assign(members, id, s).value.1 <=
                if s.prefix >= 29 then 17 else if s.prefix == 28 then 99 else if s.prefix >= 24 then 9_999_999
                else 99_999_999
  {
    hide Derive, Usable, TakenByOther, Assign;
    if ip: u32 :| Usable(ip, s) && !TakenByOther(members, id, ip) {
      var i := IndicesReachAll(id, s, ip);
      FreeIndexBoundsAssign(members, id, s, i);
    } else {
      FullNetHasNoIndex(members, id, s);
    }
  }

  // ---------------------------------------------------------------- the gateway address

  lemma GatewayIsNext(s: Net)
    ensures Gateway(s) == if s.base == 0xFFFF_FFFF then 0 else s.base + 1
  {
  }

  /** The gateway's offset from the base is not masked, so "never the gateway" depends on
      the alignment of the base: on an aligned base, and on the last host of a block, no
      identity and no index derives it. */
  lemma NeverTheGateway(id: Identity, index: u32, s: Net)
    requires s.prefix <= 30 && (s.base % Size(s) == 0 || s.base % Size(s) == Size(s) - 1)
    ensures Derive(id, index, s) != Gateway(s)
  {
    hide Derive, NetworkBits, Pow2, Usable;
    DerivedUsable(id, index, s);
    UsableRange(Derive(id, index, s), s);
    NetworkBitsMeaning(s.base, s.prefix);
  }

  lemma GatewayWraps(s: Net)
    requires s.base + 1 == WORD
    ensures s.base % Size(s) == Size(s) - 1
  {
    hide Pow2;
    var c := ModulusOfWord(32 - s.prefix);
    DivModUnique(s.base, Size(s), c - 1, Size(s) - 1);
  }

  /** From /22 on this is exact, for each identity: on every other base some index derives
      the gateway. */
  lemma GatewayDerivableIff(id: Identity, s: Net)
    requires 22 <= s.prefix <= 30
    ensures (exists index: u32 :: Derive(id, index, s) == Gateway(s))
       <==> !(s.base % Size(s) == 0 || s.base % Size(s) == Size(s) - 1)
  {
    hide Derive, NetworkBits, Pow2, Usable;
    if s.base % Size(s) == 0 || s.base % Size(s) == Size(s) - 1 {
      forall index: u32 ensures Derive(id, index, s) != Gateway(s) {
        NeverTheGateway(id, index, s);
      }
    } else {
      if s.base + 1 == WORD {
        GatewayWraps(s);
      }
      ModWithin(s.base, Size(s));
      NetworkBitsMeaning(s.base, s.prefix);
      UsableRange(Gateway(s), s);
      var index := IndicesReachAll(id, s, Gateway(s));
    }
  }
}
