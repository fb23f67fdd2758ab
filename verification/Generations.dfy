/** Convergence of the signed network record between coordinators and members: generations,
    read-before-write publishing and polling. A publish is one step, whose read of the record
    may fail; a failed read publishes blindly. */
module Generations {
  import opened Options

  type Content = seq<int>

  /** What a node knows of one network, and what a record carries. A poll adopts the shared
      part: members, approvals and nuke proposals. The local part is each node's own:
      invites, reusable keys, name, subnet and threshold. The hash covers everything, so that
      equal hashes stand for equal snapshots. */
  datatype Snapshot = Snapshot(generation: nat, shared: Content, local: Content)

  /** The published record, absent until a first publish. */
  type Record = Option<Snapshot>

  predicate Agree(x: Snapshot, y: Snapshot) {
    x.generation == y.generation && x.shared == y.shared
  }

  // ---------------------------------------------------------------- the rules of one node

  /** Publish over nothing or over a strictly lower generation; ties and higher defer. */
  predicate MayPublish(mine: Snapshot, record: Record) {
    record.None? || record.value.generation < mine.generation
  }

  /** Fetch a strictly higher generation, or an equal one with a different hash. */
  predicate ShouldFetch(mine: Snapshot, record: Record) {
    && record.Some?
    && (|| record.value.generation > mine.generation
        || (record.value.generation == mine.generation && record.value != mine))
  }

  function Published(mine: Snapshot, record: Record, seen: bool): Record {
    if !seen || MayPublish(mine, record) then Some(mine) else record
  }

  function Adopted(mine: Snapshot, theirs: Snapshot): Snapshot {
    theirs.(local := mine.local)
  }

  function Polled(mine: Snapshot, record: Record): Snapshot {
    if ShouldFetch(mine, record) then Adopted(mine, record.value) else mine
  }

  class Dht {
    var record: Record

    constructor ()
      ensures record == None
    {
      record := None;
    }

    /** Resolving the record: nothing there, a timeout, a relay or a decode error look alike. */
    method Resolve(fails: bool) returns (found: Record)
      ensures found == if fails then None else record
    {
      found := if fails then None else record;
    }
  }

  /** A node's own view of one network. */
  class NetworkState {
    var generation: nat
    var shared: Content
    var local: Content

    constructor (snapshot: Snapshot)
      ensures View() == snapshot
    {
      generation := snapshot.generation;
      shared := snapshot.shared;
      local := snapshot.local;
    }

    function View(): Snapshot
      reads this
    {
      Snapshot(generation, shared, local)
    }

    /** A genuine local mutation: admit, kick, invite, grant. */
    method BumpGenerationAndRefresh(newShared: Content, newLocal: Content)
      modifies this
      ensures View() == Snapshot(old(generation) + 1, newShared, newLocal)
    {
      generation := generation + 1;
      shared := newShared;
      local := newLocal;
    }

    /** The read-before-write publish. */
    method Publish(dht: Dht, readFails: bool) returns (done: bool)
      modifies dht
      ensures dht.record == Published(View(), old(dht.record), !readFails)
      ensures done <==> readFails || MayPublish(View(), old(dht.record))
      ensures Supersedes(dht.record, old(dht.record)) <==>
                !readFails || MayPublish(View(), old(dht.record)) || old(dht.record) == Some(View())
    {
      var found := dht.Resolve(readFails);
      match found {
        case None => done := true;
        case Some(theirs) => done := theirs.generation < generation;
      }
      if done {
        dht.record := Some(Snapshot(generation, shared, local));
      }
    }

    /** One tick of the poller, with the downgrade guard on what it fetched. */
    method Poll(dht: Dht, readFails: bool) returns (fetched: bool)
      modifies this
      ensures View() == if readFails then old(View()) else Polled(old(View()), dht.record)
      ensures fetched <==> !readFails && ShouldFetch(old(View()), dht.record)
      ensures generation >= old(generation) && local == old(local)
    {
      fetched := false;
      var found := dht.Resolve(readFails);
      if found.Some? {
        var remote := found.value;
        if !(remote.generation < generation || (remote.generation == generation && remote == View())) {
          if remote.generation >= generation {
            generation := remote.generation;
            shared := remote.shared;
            fetched := true;
          }
        }
      }
    }
  }

  // ---------------------------------------------------------------- the whole network

  type NodeId = nat

  datatype System = System(nodes: map<NodeId, Snapshot>, coordinators: set<NodeId>, record: Record)

  datatype Event =
    | Mutate(n: NodeId, shared: Content, local: Content)
    | Publish(n: NodeId, seen: bool)
    | Poll(n: NodeId, seen: bool)
    | Join(n: NodeId, local: Content)
    | Promote(n: NodeId)
    | Reload(n: NodeId, local: Content)
    | Restore(n: NodeId, stale: Snapshot)

  /** One event anywhere in the network. Only coordinators mutate and publish. A joiner, and
      a restart that reaches the record, start from it; a restart that does not falls back
      to a stale local copy, never to one from the future. */
  function Apply(s: System, e: Event): System {
    match e
    case Mutate(n, shared, local) =>
      if n in s.coordinators && n in s.nodes
      then s.(nodes := s.nodes[n := Snapshot(s.nodes[n].generation + 1, shared, local)])
      else s
    case Publish(n, seen) =>
      if n in s.coordinators && n in s.nodes then s.(record := Published(s.nodes[n], s.record, seen)) else s
    case Poll(n, seen) =>
      if n in s.nodes && seen then s.(nodes := s.nodes[n := Polled(s.nodes[n], s.record)]) else s
    case Join(n, local) =>
      if n !in s.nodes && s.record.Some? then s.(nodes := s.nodes[n := s.record.value.(local := local)]) else s
    case Promote(n) =>
      if n in s.nodes then s.(coordinators := s.coordinators + {n}) else s
    case Reload(n, local) =>
      if n in s.nodes && s.record.Some? then s.(nodes := s.nodes[n := s.record.value.(local := local)]) else s
    case Restore(n, stale) =>
      if n in s.nodes && stale.generation <= s.nodes[n].generation then s.(nodes := s.nodes[n := stale]) else s
  }

  /** What each event does: a mutation takes its coordinator one generation up; a joiner and
      a restart that reaches the record agree with it; a promotion adds a coordinator; a
      restart that does not reach it has the old copy; a poll leaves its node no older than
      the record it read. Nothing else changes, and only a publish changes the record. */
  lemma EventMeaning(s: System, e: Event)
    ensures forall m :: m in s.nodes && m != e.n ==> m in Apply(s, e).nodes && Apply(s, e).nodes[m] == s.nodes[m]
    ensures !e.Publish? ==> Apply(s, e).record == s.record
    ensures Apply(s, e).coordinators == if e.Promote? && e.n in s.nodes then s.coordinators + {e.n} else s.coordinators
    ensures e.Mutate? && e.n in s.coordinators && e.n in s.nodes ==>
              Apply(s, e).nodes[e.n] == Snapshot(s.nodes[e.n].generation + 1, e.shared, e.local)
    ensures (e.Join? || e.Reload?) && s.record.Some? && (e.n in s.nodes <==> e.Reload?) ==>
              e.n in Apply(s, e).nodes && Agree(Apply(s, e).nodes[e.n], s.record.value)
    ensures e.Restore? && e.n in s.nodes && e.stale.generation <= s.nodes[e.n].generation ==>
              Apply(s, e).nodes[e.n] == e.stale
    ensures e.Poll? && e.seen && e.n in s.nodes && s.record.Some? ==>
              Apply(s, e).nodes[e.n].generation >= s.record.value.generation
  {
  }

  function Run(s: System, events: seq<Event>): System
    decreases |events|
  {
    if events == [] then s else Run(Apply(s, events[0]), events[1..])
  }

  lemma {:induction false} RunAppend(s: System, a: seq<Event>, b: seq<Event>)
    ensures Run(s, a + b) == Run(Run(s, a), b)
    decreases |a|
  {
    hide Apply;
    if a == [] {
      assert a + b == b;
    } else {
      RunAppend(Apply(s, a[0]), a[1..], b);
      assert (a + b)[1..] == a[1..] + b;
    }
  }

  // ---------------------------------------------------------------- when the record goes back

  /** A record gives way only to a strictly higher generation. */
  ghost predicate Supersedes(after: Record, before: Record) {
    before.Some? ==>
      after.Some? && (after == before || after.value.generation > before.value.generation)
  }

  /** A publish keeps the record in order exactly if its read succeeds, or there is nothing
      to lose: no record, the same one, or one of lower generation. */
  ghost predicate SafePublish(mine: Snapshot, record: Record, seen: bool) {
    seen || record.None? || mine == record.value || mine.generation > record.value.generation
  }

  ghost predicate SafeStep(s: System, e: Event) {
    e.Publish? && e.n in s.coordinators && e.n in s.nodes ==> SafePublish(s.nodes[e.n], s.record, e.seen)
  }

  ghost predicate SafeRun(s: System, events: seq<Event>)
    decreases |events|
  {
    events != [] ==> SafeStep(s, events[0]) && SafeRun(Apply(s, events[0]), events[1..])
  }

  /** Every event of the run leaves the record alone or moves it to a higher generation. */
  ghost predicate RecordKept(s: System, events: seq<Event>)
    decreases |events|
  {
    events != [] ==>
      && Supersedes(Apply(s, events[0]).record, s.record)
      && RecordKept(Apply(s, events[0]), events[1..])
  }

  /** Over every run, stale restarts included, the record is kept in order if and only if
      every publish whose read fails has nothing to lose. */
  lemma {:induction false} RecordKeptIff(s: System, events: seq<Event>)
    ensures RecordKept(s, events) <==> SafeRun(s, events)
    decreases |events|
  {
    if events != [] {
      RecordKeptIff(Apply(s, events[0]), events[1..]);
    }
  }

  /** So over every run without unsafe blind publishes the record at the end is the one at
      the start or of strictly higher generation. */
  lemma {:induction false} RecordNeverGoesBack(s: System, events: seq<Event>)
    requires SafeRun(s, events)
    ensures Supersedes(Run(s, events).record, s.record)
    decreases |events|
  {
    if events != [] {
      RecordNeverGoesBack(Apply(s, events[0]), events[1..]);
    }
  }

  ghost predicate ReadsSucceed(events: seq<Event>) {
    forall i :: 0 <= i < |events| && events[i].Publish? ==> events[i].seen
  }

  lemma {:induction false} ReadsMakeSafe(s: System, events: seq<Event>)
    requires ReadsSucceed(events)
    ensures SafeRun(s, events)
    decreases |events|
  {
    if events != [] {
      ReadsMakeSafe(Apply(s, events[0]), events[1..]);
    }
  }

  /** Over every run without restarts, no node's generation decreases. */
  lemma {:induction false} NodesNeverGoBack(s: System, events: seq<Event>, n: NodeId)
    requires n in s.nodes
    requires forall i :: 0 <= i < |events| ==> !events[i].Restore? && !events[i].Reload?
    ensures n in Run(s, events).nodes && Run(s, events).nodes[n].generation >= s.nodes[n].generation
    decreases |events|
  {
    if events != [] {
      NodesNeverGoBack(Apply(s, events[0]), events[1..], n);
    }
  }

  // ---------------------------------------------------------------- reachable states

  /** Before anything is published: every node at generation zero. */
  ghost predicate Init(s: System) {
    && s.coordinators <= s.nodes.Keys
    && s.record == None
    && forall n :: n in s.nodes ==> s.nodes[n].generation == 0
  }

  /** Members are never ahead of the published record. */
  ghost predicate Inv(s: System) {
    && s.coordinators <= s.nodes.Keys
    && forall n :: n in s.nodes && n !in s.coordinators ==>
         if s.record.None? then s.nodes[n].generation == 0
         else s.nodes[n].generation <= s.record.value.generation
  }

  lemma ApplyKeepsInv(s: System, e: Event)
    requires Inv(s) && SafeStep(s, e)
    ensures Inv(Apply(s, e))
  {
  }

  lemma {:induction false} ReachableInv(s: System, events: seq<Event>)
    requires Inv(s) && SafeRun(s, events)
    ensures Inv(Run(s, events))
    decreases |events|
  {
    hide Inv, Apply, SafeStep;
    if events != [] {
      ApplyKeepsInv(s, events[0]);
      ReachableInv(Apply(s, events[0]), events[1..]);
    }
  }

  // ---------------------------------------------------------------- quiet runs

  /** Mutations have stopped: only publishes, whose reads succeed, and polls happen. */
  ghost predicate Quiet(events: seq<Event>) {
    forall i :: 0 <= i < |events| ==> QuietEvent(events[i])
  }

  ghost predicate QuietEvent(e: Event) {
    (e.Publish? && e.seen) || e.Poll?
  }

  lemma {:induction false} QuietIsSafe(s: System, events: seq<Event>)
    requires Quiet(events)
    ensures SafeRun(s, events)
  {
    ReadsMakeSafe(s, events);
  }

  /** The record is at least as new as this node. */
  ghost predicate Dominated(s: System, n: NodeId) {
    n in s.nodes && s.record.Some? && s.nodes[n].generation <= s.record.value.generation
  }

  ghost predicate AllDominated(s: System) {
    s.record.Some? && forall n :: n in s.nodes ==> Dominated(s, n)
  }

  lemma QuietStepKeepsDominated(s: System, e: Event, n: NodeId)
    requires Dominated(s, n) && QuietEvent(e)
    ensures Dominated(Apply(s, e), n)
  {
  }

  lemma {:induction false} QuietKeepsDominated(s: System, events: seq<Event>, n: NodeId)
    requires Dominated(s, n) && Quiet(events)
    ensures Dominated(Run(s, events), n)
    decreases |events|
  {
    hide Apply, Dominated;
    if events != [] {
      QuietStepKeepsDominated(s, events[0], n);
      QuietKeepsDominated(Apply(s, events[0]), events[1..], n);
    }
  }

  /** Quiet runs change neither the nodes, nor who coordinates, nor anyone's local part. */
  lemma {:induction false} QuietKeepsShape(s: System, events: seq<Event>)
    requires Quiet(events)
    ensures Run(s, events).nodes.Keys == s.nodes.Keys && Run(s, events).coordinators == s.coordinators
    ensures forall n :: n in s.nodes ==> Run(s, events).nodes[n].local == s.nodes[n].local
    decreases |events|
  {
    if events != [] {
      var next := Apply(s, events[0]);
      assert next.nodes.Keys == s.nodes.Keys && next.coordinators == s.coordinators;
      assert forall n :: n in s.nodes ==> next.nodes[n].local == s.nodes[n].local;
      hide Apply;
      QuietKeepsShape(next, events[1..]);
    }
  }

  lemma PublishDominates(s: System, c: NodeId)
    requires c in s.coordinators && c in s.nodes
    ensures Dominated(Apply(s, Publish(c, true)), c)
  {
  }

  /** A coordinator that publishes once in a quiet run is dominated at its end. */
  lemma {:induction false} PublishedIsDominated(s: System, events: seq<Event>, c: NodeId)
    requires Quiet(events) && Publish(c, true) in events && c in s.coordinators && c in s.nodes
    ensures Dominated(Run(s, events), c)
    decreases |events|
  {
    hide Dominated;
    if events[0] == Publish(c, true) {
      PublishDominates(s, c);
      QuietKeepsDominated(Apply(s, events[0]), events[1..], c);
    } else {
      assert c in Apply(s, events[0]).nodes;
      PublishedIsDominated(Apply(s, events[0]), events[1..], c);
    }
  }

  /** After every coordinator has published once, the record is at least as new as anyone. */
  lemma PublishPhase(s: System, events: seq<Event>)
    requires Inv(s) && s.coordinators != {} && Quiet(events)
    requires forall c :: c in s.coordinators ==> Publish(c, true) in events
    ensures AllDominated(Run(s, events))
  {
    hide Apply, SafeRun;
    var end := Run(s, events);
    QuietKeepsShape(s, events);
    QuietIsSafe(s, events);
    ReachableInv(s, events);
    forall c | c in s.coordinators ensures Dominated(end, c) {
      PublishedIsDominated(s, events, c);
    }
    var c :| c in s.coordinators;
    assert Dominated(end, c);
  }

  ghost predicate Synced(s: System, n: NodeId) {
    n in s.nodes && s.record.Some? && Agree(s.nodes[n], s.record.value)
  }

  /** Once the record is at least as new as anyone, publishes do nothing and a poll that
      reads the record agrees with it. */
  lemma PollPhaseStep(s: System, e: Event)
    requires AllDominated(s) && QuietEvent(e)
    ensures AllDominated(Apply(s, e)) && Apply(s, e).record == s.record
    ensures forall n :: Synced(s, n) ==> Synced(Apply(s, e), n)
    ensures e.Poll? && e.seen && e.n in s.nodes ==> Synced(Apply(s, e), e.n)
    ensures e.Publish? ==> Apply(s, e) == s
  {
    assert e.n in s.nodes ==> Dominated(s, e.n);
    forall n | n in Apply(s, e).nodes ensures Dominated(Apply(s, e), n) {
      assert Dominated(s, n);
    }
  }

  lemma {:induction false} PollPhase(s: System, events: seq<Event>)
    requires AllDominated(s) && Quiet(events)
    ensures Run(s, events).record == s.record
    ensures forall n :: n in s.nodes && (Synced(s, n) || Poll(n, true) in events) ==> Synced(Run(s, events), n)
    decreases |events|
  {
    if events != [] {
      hide Apply, AllDominated;
      PollPhaseStep(s, events[0]);
      var next := Apply(s, events[0]);
      PollPhase(next, events[1..]);
      forall n | n in s.nodes && (Synced(s, n) || Poll(n, true) in events) ensures Synced(Run(s, events), n) {
        assert n in next.nodes by { QuietKeepsShape(s, [events[0]]); assert Run(s, [events[0]]) == next; }
        assert Synced(next, n) || Poll(n, true) in events[1..];
      }
    }
  }

  // ---------------------------------------------------------------- convergence

  /** Every node agrees with the record on the generation and the shared part. */
  ghost predicate Converged(s: System) {
    s.record.Some? && forall n :: n in s.nodes ==> Agree(s.nodes[n], s.record.value)
  }

  /** Convergence: from any reachable state, ties with different content included, a quiet
      stretch in which every coordinator publishes, followed by one in which every node
      polls, leaves every node in agreement with the record. Any further publishes and polls,
      also failing ones, may be mixed into both stretches. */
  lemma Converges(s: System, publishes: seq<Event>, polls: seq<Event>)
    requires Inv(s) && s.coordinators != {}
    requires Quiet(publishes) && forall c :: c in s.coordinators ==> Publish(c, true) in publishes
    requires Quiet(polls) && forall n :: n in s.nodes ==> Poll(n, true) in polls
    ensures Converged(Run(s, publishes + polls))
  {
    hide Inv, Apply, AllDominated, Agree;
    var mid := Run(s, publishes);
    RunAppend(s, publishes, polls);
    PublishPhase(s, publishes);
    QuietKeepsShape(s, publishes);
    QuietKeepsShape(mid, polls);
    PollPhase(mid, polls);
    var end := Run(mid, polls);
    assert mid.record.Some? by { DominatedHasRecord(mid); }
    forall n | n in end.nodes ensures Agree(end.nodes[n], end.record.value) {
      assert Synced(end, n);
    }
  }

  lemma DominatedHasRecord(s: System)
    requires AllDominated(s)
    ensures s.record.Some?
  {
  }

  /** The same, from the network's beginning, whatever happened before mutations stopped,
      unless a blind publish had taken the record back. */
  lemma EveryHistoryConverges(start: System, history: seq<Event>, publishes: seq<Event>, polls: seq<Event>)
    requires Init(start) && SafeRun(start, history) && Run(start, history).coordinators != {}
    requires Quiet(publishes) && forall c :: c in Run(start, history).coordinators ==> Publish(c, true) in publishes
    requires Quiet(polls) && forall n :: n in Run(start, history).nodes ==> Poll(n, true) in polls
    ensures Converged(Run(start, history + (publishes + polls)))
  {
    hide Apply, SafeRun, Converged;
    assert Inv(start);
    ReachableInv(start, history);
    RunAppend(start, history, publishes + polls);
    Converges(Run(start, history), publishes, polls);
  }

  /** A converged network is a fixed point of publishing and polling. */
  lemma {:induction false} ConvergedIsFixed(s: System, events: seq<Event>)
    requires Converged(s) && Quiet(events)
    ensures Run(s, events) == s
    decreases |events|
  {
    if events != [] {
      hide Apply;
      ConvergedStep(s, events[0]);
      ConvergedIsFixed(s, events[1..]);
    }
  }

  lemma ConvergedStep(s: System, e: Event)
    requires Converged(s) && QuietEvent(e)
    ensures Apply(s, e) == s
  {
    if e.Poll? && e.n in s.nodes {
      assert s.nodes[e.n := s.nodes[e.n]] == s.nodes;
    }
  }

  /** Agreement is not equality: after convergence a node equals the record, and stops
      fetching it, if and only if its local part was the publisher's all along. Every other
      node fetches again at every tick, for ever. */
  lemma SettledIff(s: System, publishes: seq<Event>, polls: seq<Event>, more: seq<Event>, n: NodeId)
    requires Inv(s) && s.coordinators != {} && n in s.nodes && Quiet(more)
    requires Quiet(publishes) && forall c :: c in s.coordinators ==> Publish(c, true) in publishes
    requires Quiet(polls) && forall m :: m in s.nodes ==> Poll(m, true) in polls
    ensures var end := Run(Run(s, publishes + polls), more);
            && n in end.nodes && end.record.Some?
            && (end.nodes[n] == end.record.value <==> s.nodes[n].local == end.record.value.local)
            && (ShouldFetch(end.nodes[n], end.record) <==> s.nodes[n].local != end.record.value.local)
  {
    hide Inv, Apply;
    Converges(s, publishes, polls);
    var mid := Run(s, publishes + polls);
    assert Quiet(publishes + polls);
    QuietKeepsShape(s, publishes + polls);
    ConvergedIsFixed(mid, more);
    assert Agree(mid.nodes[n], mid.record.value);
  }

  // ---------------------------------------------------------------- what is agreed on

  /** In a quiet run a node keeps its snapshot until the record is at least as new. */
  ghost predicate UnchangedOrDominated(s: System, t: System) {
    && t.nodes.Keys == s.nodes.Keys && t.coordinators == s.coordinators
    && forall n :: n in s.nodes ==> t.nodes[n] == s.nodes[n] || Dominated(t, n)
  }

  /** The record is the one at the start, or a coordinator's snapshot from the start. */
  ghost predicate FromStart(s: System, record: Record) {
    record == s.record || exists c :: c in s.coordinators && c in s.nodes && record == Some(s.nodes[c])
  }

  lemma QuietStepInventsNothing(s: System, t: System, e: Event)
    requires UnchangedOrDominated(s, t) && FromStart(s, t.record) && QuietEvent(e)
    ensures UnchangedOrDominated(s, Apply(t, e)) && FromStart(s, Apply(t, e).record)
  {
    var next := Apply(t, e);
    if e.Publish? && next.record != t.record {
      assert !Dominated(t, e.n);
      assert next.record == Some(s.nodes[e.n]);
    }
    forall n | n in s.nodes ensures next.nodes[n] == s.nodes[n] || Dominated(next, n) {
      if Dominated(t, n) {
        QuietStepKeepsDominated(t, e, n);
      }
    }
  }

  lemma {:induction false} QuietInventsNothing(s: System, t: System, events: seq<Event>)
    requires UnchangedOrDominated(s, t) && FromStart(s, t.record) && Quiet(events)
    ensures FromStart(s, Run(t, events).record)
    decreases |events|
  {
    hide Apply, FromStart, UnchangedOrDominated;
    if events != [] {
      QuietStepInventsNothing(s, t, events[0]);
      QuietInventsNothing(s, Apply(t, events[0]), events[1..]);
    }
  }

  /** What is agreed on is a whole snapshot, the record's or a coordinator's, from when
      mutations stopped, and nothing present then had a higher generation. */
  lemma AgreedIsNewest(s: System, publishes: seq<Event>, polls: seq<Event>)
    requires Inv(s) && s.coordinators != {}
    requires Quiet(publishes) && forall c :: c in s.coordinators ==> Publish(c, true) in publishes
    requires Quiet(polls) && forall n :: n in s.nodes ==> Poll(n, true) in polls
    ensures var end := Run(s, publishes + polls);
            && end.record.Some? && FromStart(s, end.record)
            && (s.record.Some? ==> end.record.value.generation >= s.record.value.generation)
            && forall n :: n in s.nodes ==> end.record.value.generation >= s.nodes[n].generation
  {
    hide Inv, Apply, FromStart, SafeRun;
    Converges(s, publishes, polls);
    var all := publishes + polls;
    assert Quiet(all);
    QuietInventsNothing(s, s, all) by { StartsFromItself(s); }
    QuietIsSafe(s, all);
    RecordNeverGoesBack(s, all);
    forall n | n in s.nodes ensures Run(s, all).record.value.generation >= s.nodes[n].generation {
      NodesNeverGoBack(s, all, n);
      assert Agree(Run(s, all).nodes[n], Run(s, all).record.value);
    }
  }

  lemma StartsFromItself(s: System)
    ensures UnchangedOrDominated(s, s) && FromStart(s, s.record)
  {
  }

  // ---------------------------------------------------------------- the poller before the tie rule

  /** Only strictly higher generations were fetched. */
  function OldPolled(mine: Snapshot, record: Record): Snapshot {
    if record.Some? && record.value.generation > mine.generation then Adopted(mine, record.value) else mine
  }

  /** The old poller does adopt whatever is strictly newer, and nothing else. */
  lemma OldPollMeaning(mine: Snapshot, record: Record)
    ensures record.Some? && record.value.generation > mine.generation ==>
              Agree(OldPolled(mine, record), record.value) && OldPolled(mine, record).local == mine.local
    ensures record.None? || record.value.generation <= mine.generation ==> OldPolled(mine, record) == mine
  {
  }

  function OldApply(s: System, e: Event): System {
    if e.Poll? then
      if e.n in s.nodes && e.seen then s.(nodes := s.nodes[e.n := OldPolled(s.nodes[e.n], s.record)]) else s
    else Apply(s, e)
  }

  function OldRun(s: System, events: seq<Event>): System
    decreases |events|
  {
    if events == [] then s else OldRun(OldApply(s, events[0]), events[1..])
  }

  /** Under the old rule a tie never heals: once every node is no newer than the record, a
      node tied with it on a different shared part keeps that through every quiet run. */
  lemma {:induction false} OldPollerStuck(s: System, events: seq<Event>, n: NodeId)
    requires AllDominated(s) && Quiet(events) && n in s.nodes
    requires s.nodes[n].generation == s.record.value.generation && s.nodes[n].shared != s.record.value.shared
    ensures n in OldRun(s, events).nodes && OldRun(s, events).record.Some?
    ensures OldRun(s, events).nodes[n].shared != OldRun(s, events).record.value.shared
    decreases |events|
  {
    if events != [] {
      var e := events[0];
      var next := OldApply(s, e);
      assert e.n in s.nodes ==> Dominated(s, e.n);
      assert next.record == s.record && n in next.nodes && next.nodes[n] == s.nodes[n];
      forall m | m in next.nodes ensures Dominated(next, m) {
        assert Dominated(s, m);
      }
      OldPollerStuck(next, events[1..], n);
    }
  }

  /** Unfolds a run of three events. */
  lemma RunOfThree(s: System, e0: Event, e1: Event, e2: Event)
    ensures Run(s, [e0, e1, e2]) == Apply(Apply(Apply(s, e0), e1), e2)
  {
    hide Apply;
    var events := [e0, e1, e2];
    var s1 := Apply(s, e0);
    var s2 := Apply(s1, e1);
    var s3 := Apply(s2, e2);
    assert events[1..] == [e1, e2] && events[1..][1..] == [e2] && events[1..][1..][1..] == [];
    assert Run(s3, []) == s3;
    assert Run(s2, [e2]) == s3;
    assert Run(s1, [e1, e2]) == s3;
  }

  /** Such ties are reachable: two coordinators mutate from the same base and one publishes. */
  lemma TieIsReachable(a: Content, b: Content)
    requires a != b
    ensures exists s: System, events: seq<Event> ::
              && Init(s) && SafeRun(s, events) && 1 in Run(s, events).nodes && AllDominated(Run(s, events))
              && Run(s, events).nodes[1].generation == Run(s, events).record.value.generation
              && Run(s, events).nodes[1].shared != Run(s, events).record.value.shared
  {
    var base := Snapshot(0, [], []);
    var s := System(map[0 := base, 1 := base], {0, 1}, None);
    var e0, e1, e2 := Mutate(0, a, []), Mutate(1, b, []), Publish(0, true);
    var end := Apply(Apply(Apply(s, e0), e1), e2);
    assert end.record == Some(Snapshot(1, a, [])) && end.nodes[1] == Snapshot(1, b, []);
    assert Dominated(end, 0) && Dominated(end, 1);
    RunOfThree(s, e0, e1, e2);
    ReadsMakeSafe(s, [e0, e1, e2]);
    assert Init(s) && AllDominated(end);
  }

  // ---------------------------------------------------------------- restarts from a stale copy

  /** A record and its one coordinator at an old copy, everyone else at a newer one. */
  ghost predicate Wedged(s: System, n: NodeId, stale: Snapshot, lost: Snapshot) {
    && s.coordinators == {n} && n in s.nodes && s.nodes[n] == stale && s.record == Some(stale)
    && stale.generation < lost.generation
    && forall m :: m in s.nodes && m != n ==> Agree(s.nodes[m], lost)
  }

  lemma {:induction false} WedgedIsFixed(s: System, n: NodeId, stale: Snapshot, lost: Snapshot, events: seq<Event>)
    requires Wedged(s, n, stale, lost) && Quiet(events)
    ensures Run(s, events) == s
    decreases |events|
  {
    if events != [] {
      var e := events[0];
      if e.Poll? && e.n in s.nodes {
        assert s.nodes[e.n := s.nodes[e.n]] == s.nodes;
      }
      assert Apply(s, e) == s;
      WedgedIsFixed(s, n, stale, lost, events[1..]);
    }
  }

  /** One coordinator that restarts from an older copy, and whose read then fails, takes a
      converged network's record back, and for good: no amount of publishing and polling
      afterwards brings the record and the members together again. */
  lemma BlindPublishWedges(s: System, n: NodeId, stale: Snapshot, m: NodeId, events: seq<Event>)
    requires Converged(s) && s.coordinators == {n} && n in s.nodes && m in s.nodes && m != n
    requires stale.generation < s.record.value.generation && Quiet(events)
    ensures var end := Run(Apply(Apply(s, Restore(n, stale)), Publish(n, false)), events);
            && end.record == Some(stale) && !Supersedes(end.record, s.record)
            && m in end.nodes && Agree(end.nodes[m], s.record.value) && !Converged(end)
  {
    hide Run;
    var start := Apply(Apply(s, Restore(n, stale)), Publish(n, false));
    assert start.nodes[m] == s.nodes[m];
    WedgedIsFixed(start, n, stale, s.record.value, events);
  }

  /** Such networks are reachable: one coordinator mutates and publishes, its member polls. */
  lemma WedgeIsReachable(a: Content)
    ensures exists s: System, events: seq<Event> ::
              && Init(s) && SafeRun(s, events) && Converged(Run(s, events)) && Run(s, events).coordinators == {0}
              && Run(s, events).nodes.Keys == {0, 1} && Run(s, events).record == Some(Snapshot(1, a, []))
  {
    var base := Snapshot(0, [], []);
    var s := System(map[0 := base, 1 := base], {0}, None);
    var e0, e1, e2 := Mutate(0, a, []), Publish(0, true), Poll(1, true);
    var end := Apply(Apply(Apply(s, e0), e1), e2);
    var all := Snapshot(1, a, []);
    assert end.record == Some(all) && end.nodes == map[0 := all, 1 := all];
    RunOfThree(s, e0, e1, e2);
    ReadsMakeSafe(s, [e0, e1, e2]);
    assert Init(s) && Converged(end);
  }

  /** When the reads of the publishes succeed, the same restart is undone by the node's next
      poll, whatever else is published and polled, and whoever else is a coordinator; only
      its own local part stays that of the old copy. */
  lemma {:induction false} GuardedRestartHeals(s: System, n: NodeId, stale: Snapshot, events: seq<Event>)
    requires Converged(s) && n in s.nodes && stale.generation <= s.record.value.generation
    requires Quiet(events) && Poll(n, true) in events
    ensures Run(Apply(s, Restore(n, stale)), events) ==
            s.(nodes := s.nodes[n := s.nodes[n].(local := stale.local)])
    decreases |events|
  {
    hide Apply;
    RestartedStep(s, n, stale, events[0]);
    if events[0] == Poll(n, true) {
      var healed := s.(nodes := s.nodes[n := s.nodes[n].(local := stale.local)]);
      assert Agree(healed.nodes[n], healed.record.value);
      ConvergedIsFixed(healed, events[1..]);
    } else {
      GuardedRestartHeals(s, n, stale, events[1..]);
    }
  }

  lemma RestartedStep(s: System, n: NodeId, stale: Snapshot, e: Event)
    requires Converged(s) && n in s.nodes && stale.generation <= s.record.value.generation && QuietEvent(e)
    ensures var restarted := Apply(s, Restore(n, stale));
            Apply(restarted, e) ==
              if e == Poll(n, true) then s.(nodes := s.nodes[n := s.nodes[n].(local := stale.local)]) else restarted
  {
    var restarted := Apply(s, Restore(n, stale));
    assert Agree(s.nodes[n], s.record.value);
    if e.Poll? && e.n in s.nodes && e.seen {
      if e.n == n {
        var healed := s.nodes[n].(local := stale.local);
        assert Polled(stale, s.record) == healed;
        assert restarted.nodes[n := healed] == s.nodes[n := healed];
      } else {
        assert restarted.nodes[e.n := restarted.nodes[e.n]] == restarted.nodes;
      }
    }
  }
}
