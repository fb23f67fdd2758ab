/** The subnets of one node: how creating and joining networks keeps them apart. */
module NodeSubnets {
  import opened Words
  import opened Subnets
  import opened SubnetSearch
  import opened Identities
  import opened Derivation
  import opened Rosters

  /** Changes to a node's set of networks, none of them forced: a create without a subnet
      starts the search at the default candidate, a create with one and a join are refused
      on any overlap. */
  datatype Action =
    | CreateDefault(candidate: Net)
    | CreateExplicit(subnet: Net)
    | JoinNetwork(subnet: Net)
    | LeaveNetwork(which: nat)

  function Act(nets: seq<Net>, a: Action): seq<Net> {
    match a
    case CreateDefault(candidate) => nets + [Search(candidate, nets)]
    case CreateExplicit(s) => if Collides(nets, s) then nets else nets + [s]
    case JoinNetwork(s) => if Collides(nets, s) then nets else nets + [s]
    case LeaveNetwork(i) => if i < |nets| then nets[..i] + nets[i + 1..] else nets
  }

  ghost predicate Separate(nets: seq<Net>) {
    forall i, j :: 0 <= i < j < |nets| ==> !Overlap(nets[i], nets[j])
  }

  /** A default create is within the search bound: fewer blocks of its size covered than
      the search looks at and than there are. */
  ghost predicate WithinBound(nets: seq<Net>, a: Action) {
    a.CreateDefault? ==>
      && |Covered(nets, a.candidate.prefix)| < ATTEMPTS + 1
      && |Covered(nets, a.candidate.prefix)| < Pow2(a.candidate.prefix)
  }

  lemma AppendSeparateIff(nets: seq<Net>, s: Net)
    requires Separate(nets)
    ensures Separate(nets + [s]) <==> !Collides(nets, s)
  {
    var more := nets + [s];
    if Separate(more) {
      forall i | 0 <= i < |nets| ensures !Overlap(nets[i], s) {
        assert more[i] == nets[i] && more[|nets|] == s;
      }
    }
  }

  /** A default create keeps the node's subnets apart exactly when one of the 4097 blocks
      from the candidate on is free. */
  lemma CreateDefaultSeparateIff(nets: seq<Net>, candidate: Net)
    requires Separate(nets)
    ensures Separate(Act(nets, CreateDefault(candidate)))
       <==> exists j :: 0 <= j <= ATTEMPTS && !Collides(nets, Advance(candidate, j))
  {
    AppendSeparateIff(nets, Search(candidate, nets));
    SearchFailsIff(candidate, nets);
  }

  /** What each change does: an explicit create and an unforced join add their subnet if and
      only if no network of the node shares an address with it; a default create adds a
      subnet of the candidate's size; a leave removes the one network named. */
  lemma ActMeaning(nets: seq<Net>, a: Action)
    ensures a.CreateExplicit? || a.JoinNetwork? ==>
              Act(nets, a) ==
                if exists i, ip: u32 :: 0 <= i < |nets| && InSubnet(ip, nets[i]) && InSubnet(ip, a.subnet)
                then nets else nets + [a.subnet]
    ensures a.CreateDefault? ==>
              |Act(nets, a)| == |nets| + 1 && nets <= Act(nets, a)
              && Act(nets, a)[|nets|].prefix == a.candidate.prefix
    ensures a.LeaveNetwork? ==>
              if a.which < |nets|
              then |Act(nets, a)| == |nets| - 1 && Act(nets, a)[..a.which] == nets[..a.which]
                   && Act(nets, a)[a.which..] == nets[a.which + 1..]
              else Act(nets, a) == nets
  {
    hide InSubnet, Overlap, Search;
    match a {
      case CreateExplicit(s) => CollidesIffShared(nets, s);
      case JoinNetwork(s) => CollidesIffShared(nets, s);
      case CreateDefault(candidate) => var steps := SearchIsLeast(candidate, nets);
      case LeaveNetwork(_) =>
    }
  }

  lemma CollidesIffShared(nets: seq<Net>, s: Net)
    ensures Collides(nets, s) <==>
              exists i, ip: u32 :: 0 <= i < |nets| && InSubnet(ip, nets[i]) && InSubnet(ip, s)
  {
    hide InSubnet, Overlap;
    forall i | 0 <= i < |nets|
      ensures Overlap(nets[i], s) <==> exists ip: u32 :: InSubnet(ip, nets[i]) && InSubnet(ip, s)
    {
      OverlapIffShared(nets[i], s);
    }
  }

  lemma ActKeepsSeparate(nets: seq<Net>, a: Action)
    requires Separate(nets) && WithinBound(nets, a)
    ensures Separate(Act(nets, a))
  {
    match a {
      case CreateDefault(candidate) =>
        SearchComplete(candidate, nets);
        AppendSeparateIff(nets, Search(candidate, nets));
      case CreateExplicit(s) => AppendSeparateIff(nets, s);
      case JoinNetwork(s) => AppendSeparateIff(nets, s);
      case LeaveNetwork(i) =>
    }
  }

  function RunActions(actions: seq<Action>): seq<Net> {
    if actions == [] then [] else Act(RunActions(actions[..|actions| - 1]), actions[|actions| - 1])
  }

  lemma RunOneMore(actions: seq<Action>, a: Action)
    ensures RunActions([]) == [] && RunActions(actions + [a]) == Act(RunActions(actions), a)
  {
    assert (actions + [a])[..|actions|] == actions;
  }

  /** Every default create of the run is within the search bound where it happens. */
  ghost predicate RunWithinBound(actions: seq<Action>) {
    forall n :: 0 <= n < |actions| ==> WithinBound(RunActions(actions[..n]), actions[n])
  }

  /** Over every run of unforced changes, a node's subnets are pairwise disjoint. */
  lemma {:induction false} RunKeepsSeparate(actions: seq<Action>)
    requires RunWithinBound(actions)
    ensures Separate(RunActions(actions))
  {
    if actions != [] {
      var n := |actions| - 1;
      var before := actions[..n];
      forall m | 0 <= m < |before| ensures WithinBound(RunActions(before[..m]), before[m]) {
        assert before[..m] == actions[..m] && before[m] == actions[m];
      }
      RunKeepsSeparate(before);
      ActKeepsSeparate(RunActions(before), actions[n]);
    }
  }

  /** No address derived on one network of a node equals one derived on another. */
  lemma DerivedApart(actions: seq<Action>, i: nat, j: nat, a: Identity, m: u32, b: Identity, n: u32)
    requires RunWithinBound(actions)
    requires i < j < |RunActions(actions)|
    requires RunActions(actions)[i].prefix <= 30 && RunActions(actions)[j].prefix <= 30
    ensures Derive(a, m, RunActions(actions)[i]) != Derive(b, n, RunActions(actions)[j])
  {
    var s, t := RunActions(actions)[i], RunActions(actions)[j];
    RunKeepsSeparate(actions);
    DerivedUsable(a, m, s);
    DerivedUsable(b, n, t);
    OverlapIffShared(s, t);
  }

  /** A roster built on one network fails the restart check under any other network of the
      node, for every member. */
  lemma RosterStaysWithItsNetwork(actions: seq<Action>, i: nat, j: nat, events: seq<Event>, entries: seq<Entry>,
                                  self: Identity)
    requires RunWithinBound(actions)
    requires i < |RunActions(actions)| && j < |RunActions(actions)| && i != j
    requires RunActions(actions)[i].prefix <= 30
    requires Lists(entries, Run(map[], events, RunActions(actions)[i]))
    requires OnRoster(Run(map[], events, RunActions(actions)[i]), self)
    ensures SubnetMatchesRoster(RunActions(actions)[i], entries, self)
    ensures !SubnetMatchesRoster(RunActions(actions)[j], entries, self)
  {
    RunKeepsSeparate(actions);
    OverlapSymmetric(RunActions(actions)[i], RunActions(actions)[j]);
    RestartCheck(events, RunActions(actions)[i], entries, RunActions(actions)[j], self);
  }
}
