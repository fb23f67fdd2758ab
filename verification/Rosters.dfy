/** Whole runs of a network's roster: every join assigns an address and records it. */
module Rosters {
  import opened Options
  import opened Words
  import opened Counting
  import opened Subnets
  import opened Fnv
  import opened Identities
  import opened Derivation

  datatype Event = Join(id: Identity) | Leave(id: Identity)

  function Without(r: Roster, id: Identity): Roster {
    map ip | ip in r && r[ip].identity != id :: r[ip]
  }

  /** One roster change. A join that finds no index leaves the roster as it was. */
  function Apply(r: Roster, e: Event, s: Net): Roster {
    match e
    case Leave(id) => Without(r, id)
    case Join(id) =>
      match Assign(r, id, s)
      case None => r
      case Some((ip, index)) => Without(r, id)[ip := Member(id, index)]
  }

  function Run(r: Roster, events: seq<Event>, s: Net): Roster {
    if events == [] then r else Apply(Run(r, events[..|events| - 1], s), events[|events| - 1], s)
  }

  /** Stored addresses are derivations at their stored index, usable, one per identity. */
  ghost predicate Sound(r: Roster, s: Net) {
    && (forall ip :: ip in r ==> ip == Derive(r[ip].identity, r[ip].index, s) && Usable(ip, s))
    && (forall x, y :: x in r && y in r && r[x].identity == r[y].identity ==> x == y)
  }

  predicate OnRoster(r: Roster, id: Identity) {
    exists ip :: ip in r && r[ip].identity == id
  }

  lemma JoinKeepsSound(r: Roster, id: Identity, s: Net)
    requires s.prefix <= 30 && Sound(r, s)
    ensures Sound(Apply(r, Join(id), s), s)
    ensures forall ip :: ip in r && r[ip].identity != id ==>
              ip in Apply(r, Join(id), s) && Apply(r, Join(id), s)[ip] == r[ip]
    ensures Assign(r, id, s).Some? ==> OnRoster(Apply(r, Join(id), s), id)
  {
    hide Usable, Derive, Assign;
    AssignIsLeast(r, id, s);
    match Assign(r, id, s) {
      case None =>
      case Some((ip, index)) =>
        DerivedUsable(id, index, s);
        assert ip !in Without(r, id);
        assert Apply(r, Join(id), s)[ip].identity == id;
    }
  }

  /** A leave takes exactly the one identity off the roster. */
  lemma LeaveMeaning(r: Roster, id: Identity, s: Net)
    ensures !OnRoster(Apply(r, Leave(id), s), id)
    ensures forall ip :: ip in r && r[ip].identity != id ==>
              ip in Apply(r, Leave(id), s) && Apply(r, Leave(id), s)[ip] == r[ip]
    ensures Apply(r, Leave(id), s).Keys <= r.Keys
  {
  }

  /** Over every run of joins and leaves from the empty roster, the roster is sound: no
      join ever displaces another member. */
  lemma {:induction false} RunIsSound(events: seq<Event>, s: Net)
    requires s.prefix <= 30
    ensures Sound(Run(map[], events, s), s)
  {
    if events != [] {
      var before := events[..|events| - 1];
      RunIsSound(before, s);
      match events[|events| - 1] {
        case Leave(id) =>
        case Join(id) => JoinKeepsSound(Run(map[], before, s), id, s);
      }
    }
  }

  /** Small networks admit anyone: up to seven members, by index 19, up to /28; up to 17, by
      index 59, up to /27; up to 37, by index 79, up to /25; up to 87, by index 99, up
      to /22. */
  lemma SmallMeshAlwaysAdmits(r: Roster, id: Identity, s: Net)
    requires (s.prefix <= 28 && |r| <= 7) || (s.prefix <= 27 && |r| <= 17)
             || (s.prefix <= 25 && |r| <= 37) || (s.prefix <= 22 && |r| <= 87)
    ensures Assign(r, id, s).Some?
    ensures Assign(r, id, s).value.1 <= if |r| <= 7 then 19 else if |r| <= 17 then 59 else if |r| <= 37 then 79 else 99
    ensures OnRoster(Apply(r, Join(id), s), id)
  {
    hide Assign;
    assert HeldByOthers(r, id) <= r.Keys;
    SubsetIsSmaller(HeldByOthers(r, id), r.Keys);
    AssignBound(r, id, s);
    var (ip, index) := Assign(r, id, s).value;
    assert Apply(r, Join(id), s)[ip].identity == id;
  }

  // ---------------------------------------------------------------- capacity

  lemma UsableCount(s: Net)
    requires s.prefix <= 30
    ensures var net := NetworkBits(s.base, s.prefix);
            |Range(net + 2, net + Size(s))| == Size(s) - 2
    ensures Size(s) >= 4
  {
    hide Pow2, NetworkBits, Range;
    Pow2Values();
    Pow2Monotone(2, 32 - s.prefix);
    var net := NetworkBits(s.base, s.prefix);
    RangeCount(net + 2, net + Size(s));
  }

  ghost function Held(r: Roster): set<int> {
    set ip | ip in r :: ip
  }

  lemma HeldAreUsable(r: Roster, s: Net)
    requires Sound(r, s)
    ensures var net := NetworkBits(s.base, s.prefix);
            Held(r) <= Range(net + 2, net + Size(s))
    ensures |Held(r)| == |r|
  {
    forall ip | ip in r
      ensures ip in Range(NetworkBits(s.base, s.prefix) + 2, NetworkBits(s.base, s.prefix) + Size(s))
    {
      UsableRange(ip, s);
    }
    assert Held(r) == r.Keys;
    assert |r.Keys| == |r|;
  }

  lemma SoundRosterFits(r: Roster, s: Net)
    requires s.prefix <= 30 && Sound(r, s)
    ensures |r| <= Size(s) - 2
  {
    hide Sound, Range, Held, NetworkBits, Pow2;
    HeldAreUsable(r, s);
    UsableCount(s);
    SubsetIsSmaller(Held(r), Range(NetworkBits(s.base, s.prefix) + 2, NetworkBits(s.base, s.prefix) + Size(s)));
  }

  /** A roster never outgrows the subnet less its two reserved hosts. */
  lemma CapacityOfRuns(events: seq<Event>, s: Net)
    requires s.prefix <= 30
    ensures |Run(map[], events, s)| <= Size(s) - 2
  {
    RunIsSound(events, s);
    SoundRosterFits(Run(map[], events, s), s);
  }

  /** At capacity the search succeeds exactly for identities already on the roster. */
  lemma FullRosterAdmitsOnlyMembers(r: Roster, id: Identity, s: Net)
    requires s.prefix <= 30 && Sound(r, s) && |r| == Size(s) - 2
    ensures Assign(r, id, s).Some? <==> OnRoster(r, id)
  {
    hide NetworkBits, Pow2, Usable, Range;
    var usable := Range(NetworkBits(s.base, s.prefix) + 2, NetworkBits(s.base, s.prefix) + Size(s));
    HeldAreUsable(r, s);
    UsableCount(s);
    SameSizeSubset(Held(r), usable);
    if ip :| ip in r && r[ip].identity == id {
      assert !IndexTaken(r, id, s, r[ip].index);
      FreeIndexBoundsAssign(r, id, s, r[ip].index);
    } else {
      forall ip: u32 | Usable(ip, s) ensures TakenByOther(r, id, ip) {
        UsableRange(ip, s);
        assert ip in usable;
      }
      FullNetHasNoIndex(r, id, s);
    }
  }

  lemma FreeAddress(r: Roster, s: Net) returns (ip: u32)
    requires s.prefix <= 30 && Sound(r, s) && |r| < Size(s) - 2
    ensures Usable(ip, s) && ip !in r
  {
    hide Sound, Range, NetworkBits, Pow2, Usable;
    var net := NetworkBits(s.base, s.prefix);
    HeldAreUsable(r, s);
    UsableCount(s);
    var free := ElementOutside(Held(r), Range(net + 2, net + Size(s)));
    LastHostFits(s);
    ip := free;
    UsableRange(ip, s);
  }

  lemma LastHostFits(s: Net)
    ensures NetworkBits(s.base, s.prefix) + Size(s) <= WORD
  {
    hide Pow2, NetworkBits;
    var m := Size(s);
    var c := ModulusOfWord(32 - s.prefix);
    NetworkBitsMeaning(s.base, s.prefix);
    DivMod(s.base, m);
    var gap := c - 1 - s.base / m;
    assert m * gap == WORD - m - m * (s.base / m);
    MultipleTooFar(m, gap);
  }

  /** From /22 on, after every run an identity is admitted exactly when it is
      a member already or the roster is below capacity. */
  lemma AdmittedIffRoom(events: seq<Event>, id: Identity, s: Net)
    requires 22 <= s.prefix <= 30
    ensures var r := Run(map[], events, s);
            Assign(r, id, s).Some? <==> OnRoster(r, id) || |r| < Size(s) - 2
  {
    hide Assign, Sound, OnRoster, Usable, Pow2;
    var r := Run(map[], events, s);
    RunIsSound(events, s);
    SoundRosterFits(r, s);
    if |r| < Size(s) - 2 {
      var ip := FreeAddress(r, s);
      RotationComplete(r, id, s);
      assert !TakenByOther(r, id, ip);
    } else {
      FullRosterAdmitsOnlyMembers(r, id, s);
    }
  }

  function Joins(ids: seq<Identity>): seq<Event> {
    seq(|ids|, i requires 0 <= i < |ids| => Join(ids[i]))
  }

  /** From /22 on, a subnet seats as many members as it has usable addresses, whoever they
      are and in whatever order they come. */
  lemma {:induction false} EverySeatIsTaken(ids: seq<Identity>, s: Net)
    requires 22 <= s.prefix <= 30 && Distinct(ids) && |ids| <= Size(s) - 2
    ensures var r := Run(map[], Joins(ids), s);
            |r| == |ids| && forall id :: OnRoster(r, id) <==> id in ids
  {
    hide Assign, Pow2, Usable;
    if ids != [] {
      var n := |ids| - 1;
      var id, rest := ids[n], ids[..n];
      EverySeatIsTaken(rest, s);
      assert Joins(ids)[..n] == Joins(rest);
      var r := Run(map[], Joins(rest), s);
      assert Run(map[], Joins(ids), s) == Apply(r, Join(id), s);
      AdmittedIffRoom(Joins(rest), id, s);
      assert !OnRoster(r, id);
      NewcomerSeated(r, id, s);
      assert forall x :: x in ids <==> x in rest || x == id;
    }
  }

  lemma NewcomerSeated(r: Roster, id: Identity, s: Net)
    requires !OnRoster(r, id) && Assign(r, id, s).Some?
    ensures var after := Apply(r, Join(id), s);
            |after| == |r| + 1 && forall x :: OnRoster(after, x) <==> OnRoster(r, x) || x == id
  {
    hide Assign, Derive;
    AssignIsLeast(r, id, s);
    var (ip, index) := Assign(r, id, s).value;
    assert Without(r, id) == r;
    assert ip !in r;
    hide Without;
    RosterGrows(r, ip, Member(id, index));
  }

  lemma RosterGrows(r: Roster, ip: u32, member: Member)
    requires ip !in r
    ensures |r[ip := member]| == |r| + 1
    ensures forall x :: OnRoster(r[ip := member], x) <==> OnRoster(r, x) || x == member.identity
  {
    var after := r[ip := member];
    assert after.Keys == r.Keys + {ip};
    assert after[ip].identity == member.identity;
    assert forall y :: y in r ==> y in after && after[y] == r[y];
  }

  // ---------------------------------------------------------------- the restart check

  /** A roster as the restart check sees it: a list of identities and addresses. */
  datatype Entry = Entry(identity: Identity, ip: u32)

  function FindMember(entries: seq<Entry>, id: Identity): Option<Entry> {
    if entries == [] then None
    else if entries[0].identity == id then Some(entries[0])
    else FindMember(entries[1..], id)
  }

  /** The restart check: an identity not on the roster passes. */
  predicate SubnetMatchesRoster(s: Net, entries: seq<Entry>, self: Identity) {
    var found := FindMember(entries, self);
    found.None? || InSubnet(found.value.ip, s)
  }

  /** `entries` lists the roster, in any order. */
  ghost predicate Lists(entries: seq<Entry>, r: Roster) {
    && (forall i :: 0 <= i < |entries| ==> entries[i].ip in r && r[entries[i].ip].identity == entries[i].identity)
    && (forall ip :: ip in r ==> Entry(r[ip].identity, ip) in entries)
  }

  lemma {:induction false} FindMemberMeaning(entries: seq<Entry>, id: Identity)
    ensures var found := FindMember(entries, id);
            && (found.Some? ==> found.value in entries && found.value.identity == id)
            && (found.None? <==> forall e :: e in entries ==> e.identity != id)
  {
    if entries != [] && entries[0].identity != id {
      FindMemberMeaning(entries[1..], id);
      assert forall e :: e in entries <==> e == entries[0] || e in entries[1..];
    }
  }

  /** A roster built in one subnet passes the check there for everyone, and fails it in any
      subnet that does not overlap for exactly the members. */
  lemma RestartCheck(events: seq<Event>, s: Net, entries: seq<Entry>, t: Net, self: Identity)
    requires s.prefix <= 30 && Lists(entries, Run(map[], events, s))
    ensures SubnetMatchesRoster(s, entries, self)
    ensures !Overlap(s, t) ==>
              (SubnetMatchesRoster(t, entries, self) <==> !OnRoster(Run(map[], events, s), self))
  {
    var r := Run(map[], events, s);
    RunIsSound(events, s);
    FindMemberMeaning(entries, self);
    var found := FindMember(entries, self);
    if found.Some? {
      var ip := found.value.ip;
      assert Usable(ip, s);
      OverlapIffShared(s, t);
    }
  }
}
