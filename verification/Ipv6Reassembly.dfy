/** The per-connection reassembler of IPv6 envelopes. */
module Ipv6Reassembly {
  import opened Options
  import opened Words
  import opened Counting
  import opened Ipv6Envelopes

  const TUN_MTU: nat := 1280
  const MAX_IN_FLIGHT: nat := 16
  /** Milliseconds after which an untouched fragment set is collected. */
  const TIMEOUT: nat := 5000

  // ---------------------------------------------------------------- the reassembler

  datatype FragmentSet = FragmentSet(pieces: map<nat, Bytes>, total: Option<nat>, touched: nat)

  type InFlight = map<u32, FragmentSet>

  datatype Outcome = Complete(packet: Bytes) | Waiting | Rejected | NotAFragment

  datatype Arrival = Arrival(datagram: Bytes, now: nat)

  /** The pieces in offset order, if they are contiguous from `at` to exactly `total`. */
  function Assemble(pieces: map<nat, Bytes>, at: nat, total: nat): Option<Bytes>
    decreases |pieces|
  {
    if pieces == map[] then if at == total then Some([]) else None
    else if at in pieces then
      RemoveShrinks(pieces, at);
      match Assemble(pieces - {at}, at + |pieces[at]|, total)
      case None => None
      case Some(rest) => Some(pieces[at] + rest)
    else None
  }

  lemma RemoveShrinks(m: map<nat, Bytes>, k: nat)
    requires k in m
    ensures |m - {k}| == |m| - 1
  {
    assert (m - {k}).Keys == m.Keys - {k};
  }

  function AssembleSet(s: FragmentSet): Option<Bytes> {
    if s.total.None? then None else Assemble(s.pieces, 0, s.total.value)
  }

  /** An envelope that the reassembler stores: readable and within the TUN's MTU. */
  predicate Storable(d: Bytes) {
    Decode(d).Good? && (Decode(d).envelope.offset as int) + |Decode(d).envelope.payload| <= TUN_MTU
  }

  function Fresh(m: InFlight, now: nat): InFlight {
    map id | id in m && now - m[id].touched < TIMEOUT :: m[id]
  }

  function SetFor(m: InFlight, id: u32): FragmentSet {
    if id in m then m[id] else FragmentSet(map[], None, 0)
  }

  function Updated(s: FragmentSet, e: Envelope, now: nat): FragmentSet {
    var end: nat := (e.offset as int) + |e.payload|;
    FragmentSet(s.pieces[e.offset := e.payload], if e.more then s.total else Some(end), now)
  }

  ghost predicate Oldest(m: InFlight, id: u32) {
    id in m && forall other :: other in m ==> m[id].touched <= m[other].touched
  }

  /** Nothing, or the longest untouched set, makes room for a new id. */
  ghost predicate MadeRoom(m: InFlight, id: u32, m': InFlight) {
    if id in m || |m| < MAX_IN_FLIGHT then m' == m
    else exists victim :: Oldest(m, victim) && m' == m - {victim}
  }

  /** One datagram at the reassembler: the outcome and the sets in flight afterwards. Every
      readable envelope collects the timed-out sets; one past the MTU drops its id's set. */
  ghost predicate Step(m: InFlight, a: Arrival, out: Outcome, m': InFlight) {
    if Decode(a.datagram).NotEnvelope? then out == NotAFragment && m' == m
    else if Decode(a.datagram).Malformed? then out == Rejected && m' == m
    else if !Storable(a.datagram) then
      out == Rejected && m' == Fresh(m, a.now) - {Decode(a.datagram).envelope.id}
    else
      var e := Decode(a.datagram).envelope;
      exists roomy :: MadeRoom(Fresh(m, a.now), e.id, roomy) && Stored(roomy, e, a.now, out, m')
  }

  ghost predicate Stored(m: InFlight, e: Envelope, now: nat, out: Outcome, m': InFlight) {
    var s := Updated(SetFor(m, e.id), e, now);
    match AssembleSet(s)
    case Some(packet) => out == Complete(packet) && m' == m - {e.id}
    case None => out == Waiting && m' == m[e.id := s]
  }

  class Ipv6Reassembler {
    var inFlight: InFlight

    constructor ()
      ensures inFlight == map[]
    {
      inFlight := map[];
    }

    method Accept(datagram: Bytes, now: nat) returns (out: Outcome)
      requires |inFlight| <= MAX_IN_FLIGHT
      modifies this
      ensures Step(old(inFlight), Arrival(datagram, now), out, inFlight)
      ensures |inFlight| <= MAX_IN_FLIGHT
    {
      var decoded := Decode(datagram);
      if decoded.NotEnvelope? {
        return NotAFragment;
      }
      if decoded.Malformed? {
        return Rejected;
      }
      var e := decoded.envelope;
      FreshIsSmaller(inFlight, now);
      var sets := Fresh(inFlight, now);
      if !Storable(datagram) {
        StoreCount(sets, e.id, SetFor(sets, e.id));
        inFlight := sets - {e.id};
        return Rejected;
      }
      if e.id !in sets && |sets| >= MAX_IN_FLIGHT {
        sets := EvictOldest(sets);
      }
      assert MadeRoom(Fresh(inFlight, now), e.id, sets);
      var s := Updated(SetFor(sets, e.id), e, now);
      var assembled := AssembleSet(s);
      StoreCount(sets, e.id, s);
      match assembled {
        case Some(packet) =>
          out := Complete(packet);
          inFlight := sets - {e.id};
        case None =>
          out := Waiting;
          inFlight := sets[e.id := s];
      }
      assert Stored(sets, e, now, out, inFlight);
    }
  }

  lemma FreshIsSmaller(m: InFlight, now: nat)
    ensures |Fresh(m, now)| <= |m|
    ensures forall id :: id in Fresh(m, now) ==> id in m && Fresh(m, now)[id] == m[id]
  {
    SubsetIsSmaller(Fresh(m, now).Keys, m.Keys);
  }

  lemma StoreCount(m: InFlight, id: u32, s: FragmentSet)
    ensures |m - {id}| <= |m|
    ensures |m[id := s]| == if id in m then |m| else |m| + 1
  {
    SubsetIsSmaller((m - {id}).Keys, m.Keys);
    assert m[id := s].Keys == m.Keys + {id};
  }

  method EvictOldest(m: InFlight) returns (r: InFlight)
    requires |m| >= 1
    ensures |r| == |m| - 1
    ensures exists victim :: Oldest(m, victim) && r == m - {victim}
  {
    var rest := m.Keys;
    assert rest != {};
    var victim :| victim in rest;
    rest := rest - {victim};
    while rest != {}
      invariant rest <= m.Keys && victim in m
      invariant forall other :: other in m && other !in rest ==> m[victim].touched <= m[other].touched
      decreases |rest|
    {
      var id :| id in rest;
      if m[id].touched < m[victim].touched {
        victim := id;
      }
      rest := rest - {id};
    }
    r := m - {victim};
    assert r.Keys == m.Keys - {victim};
  }

  // ---------------------------------------------------------------- one step, spelled out

  /** The sets that have not been left alone for five seconds. */
  ghost function Recent(m: InFlight, now: nat): InFlight {
    map id | id in m && now - m[id].touched < 5000 :: m[id]
  }

  /** A readable datagram: the marker byte and a whole header. */
  predicate Readable(d: Bytes) {
    |d| >= 8 && d[0] == 0xF6
  }

  function IdOf(d: Bytes): u32
    requires Readable(d)
  {
    (d[1] as int) * 0x100_0000 + (d[2] as int) * 0x1_0000 + (d[3] as int) * 0x100 + (d[4] as int)
  }

  function OffsetOf(d: Bytes): u16
    requires Readable(d)
  {
    (d[5] as int) * 0x100 + (d[6] as int)
  }

  /** The set of an id after one more piece: what was there, unless it timed out, with the
      new piece over any other at its offset, its end as the total if it is the last. */
  ghost function Grown(m: InFlight, d: Bytes, now: nat): FragmentSet
    requires Readable(d)
  {
    var recent := Recent(m, now);
    var id := IdOf(d);
    var end := (OffsetOf(d) as int) + |d| - 8;
    FragmentSet((if id in recent then recent[id].pieces else map[])[OffsetOf(d) := d[8..]],
                if d[7] == 0 then Some(end) else if id in recent then recent[id].total else None,
                now)
  }

  /** What is in flight besides the id of a datagram. */
  ghost predicate OthersAre(m: InFlight, id: u32, others: InFlight) {
    m - {id} == others - {id}
  }

  /** Of sixteen or more sets, the one that has been left alone longest is gone. */
  ghost predicate LongestIdleGone(before: InFlight, after: InFlight) {
    exists victim ::
      && victim in before && after == before - {victim}
      && forall other :: other in before ==> before[victim].touched <= before[other].touched
  }

  /** The whole effect of a datagram, on its bytes and in numbers. Without the marker or
      with less than a header nothing happens. Otherwise every set left alone for 5000
      milliseconds is gone. A piece that ends past 1280 is rejected and its id's set dropped.
      Any other joins its id's set, after the longest idle of sixteen others had to make
      room for a new id; the set is delivered once it is complete, and kept otherwise. */
  lemma StepMeaning(m: InFlight, a: Arrival, out: Outcome, m': InFlight)
    requires Step(m, a, out, m')
    ensures |a.datagram| == 0 || a.datagram[0] != 0xF6 ==> out == NotAFragment && m' == m
    ensures |a.datagram| in {1, 2, 3, 4, 5, 6, 7} && a.datagram[0] == 0xF6 ==> out == Rejected && m' == m
    ensures Readable(a.datagram) ==>
              var d, recent, id := a.datagram, Recent(m, a.now), IdOf(a.datagram);
              if (OffsetOf(d) as int) + |d| - 8 > 1280 then
                out == Rejected && id !in m' && OthersAre(m', id, recent)
              else
                var s := Grown(m, d, a.now);
                && (if id in recent || |recent| < 16 then OthersAre(m', id, recent)
                    else exists roomy :: LongestIdleGone(recent, roomy) && OthersAre(m', id, roomy))
                && (if s.total.Some? && Assemble(s.pieces, 0, s.total.value).Some?
                    then out == Complete(Assemble(s.pieces, 0, s.total.value).value) && id !in m'
                    else out == Waiting && id in m' && m'[id] == s)
  {
    hide Assemble, MadeRoom, Stored, Grown, Updated;
    assert Fresh(m, a.now) == Recent(m, a.now);
    if Readable(a.datagram) && Storable(a.datagram) {
      StoredMeaning(m, a, out, m');
    }
  }

  lemma StoredMeaning(m: InFlight, a: Arrival, out: Outcome, m': InFlight)
    requires Step(m, a, out, m') && Readable(a.datagram) && Storable(a.datagram)
    ensures var d, recent, id := a.datagram, Recent(m, a.now), IdOf(a.datagram);
            var s := Grown(m, d, a.now);
            && (if id in recent || |recent| < 16 then OthersAre(m', id, recent)
                else exists roomy :: LongestIdleGone(recent, roomy) && OthersAre(m', id, roomy))
            && (if s.total.Some? && Assemble(s.pieces, 0, s.total.value).Some?
                then out == Complete(Assemble(s.pieces, 0, s.total.value).value) && id !in m'
                else out == Waiting && id in m' && m'[id] == s)
  {
    hide Assemble, MadeRoom, Decode, Stored, Grown, Updated, LongestIdleGone, OthersAre;
    var d, recent := a.datagram, Recent(m, a.now);
    assert Fresh(m, a.now) == recent;
    var e := Decode(d).envelope;
    ReadableDecodes(d);
    var roomy :| MadeRoom(recent, e.id, roomy) && Stored(roomy, e, a.now, out, m');
    RoomOf(recent, e.id, roomy);
    GrownByUpdate(m, d, e, a.now, roomy);
    StoreEffect(roomy, e, a.now, out, m');
  }

  lemma GrownByUpdate(m: InFlight, d: Bytes, e: Envelope, now: nat, roomy: InFlight)
    requires Readable(d) && e == Envelope(IdOf(d), OffsetOf(d), d[7] != 0, d[8..])
    requires if e.id in Recent(m, now) then e.id in roomy && roomy[e.id] == Recent(m, now)[e.id] else e.id !in roomy
    ensures Updated(SetFor(roomy, e.id), e, now) == Grown(m, d, now)
  {
  }

  lemma StoreEffect(m: InFlight, e: Envelope, now: nat, out: Outcome, m': InFlight)
    requires Stored(m, e, now, out, m')
    ensures OthersAre(m', e.id, m)
    ensures var s := Updated(SetFor(m, e.id), e, now);
            if s.total.Some? && Assemble(s.pieces, 0, s.total.value).Some?
            then out == Complete(Assemble(s.pieces, 0, s.total.value).value) && e.id !in m'
            else out == Waiting && e.id in m' && m'[e.id] == s
  {
    hide Assemble, Updated;
  }

  lemma RoomOf(recent: InFlight, id: u32, roomy: InFlight)
    requires MadeRoom(recent, id, roomy)
    ensures if id in recent || |recent| < 16 then roomy == recent else LongestIdleGone(recent, roomy) && id !in roomy
  {
    if id !in recent && |recent| >= 16 {
      var victim :| Oldest(recent, victim) && roomy == recent - {victim};
    }
  }

  /** A set of the datagram's own id that has been left alone for five seconds contributes
      nothing: outcome and effect are those without it. */
  lemma StaleSetIsIgnored(m: InFlight, a: Arrival, out: Outcome, m': InFlight, id: u32)
    requires Readable(a.datagram) && id in m && a.now - m[id].touched >= 5000
    ensures Step(m, a, out, m') <==> Step(m - {id}, a, out, m')
  {
    hide MadeRoom, Stored, Decode;
    assert Fresh(m, a.now) == Fresh(m - {id}, a.now);
    assert !Decode(a.datagram).NotEnvelope? && !Decode(a.datagram).Malformed? by { ReadableDecodes(a.datagram); }
  }

  lemma ReadableDecodes(d: Bytes)
    ensures Readable(d) <==> Decode(d).Good?
    ensures Readable(d) ==>
              var e := Decode(d).envelope;
              e.id == IdOf(d) && e.offset == OffsetOf(d) && e.payload == d[8..] && e.more == (d[7] != 0)
  {
  }

  // ---------------------------------------------------------------- bounds that hold for any peer

  /** What a hostile peer cannot break: few sets, and no piece of them past the MTU. */
  ghost predicate Bounded(m: InFlight) {
    && |m| <= MAX_IN_FLIGHT
    && forall id :: id in m ==> BoundedSet(m[id])
  }

  ghost predicate BoundedSet(s: FragmentSet) {
    && (s.total.Some? ==> s.total.value <= TUN_MTU)
    && forall x :: x in s.pieces ==> x + |s.pieces[x]| <= TUN_MTU
  }

  lemma {:induction false} AssembledLength(pieces: map<nat, Bytes>, at: nat, total: nat)
    requires Assemble(pieces, at, total).Some?
    ensures at + |Assemble(pieces, at, total).value| == total
    decreases |pieces|
  {
    if pieces != map[] {
      RemoveShrinks(pieces, at);
      AssembledLength(pieces - {at}, at + |pieces[at]|, total);
    }
  }

  /** What is delivered is what was received: it is as long as the total and holds every
      stored piece at its offset. */
  lemma {:induction false} AssembledHoldsPiece(pieces: map<nat, Bytes>, at: nat, total: nat, x: nat)
    requires Assemble(pieces, at, total).Some? && x in pieces
    ensures var packet := Assemble(pieces, at, total).value;
            && at + |packet| == total && at <= x && x + |pieces[x]| <= total
            && packet[x - at..x - at + |pieces[x]|] == pieces[x]
    decreases |pieces|
  {
    hide Assemble;
    AssembleUnfold(pieces, at, total);
    assert at in pieces by { AssembledStarts(pieces, at, total); }
    var head, next := pieces[at], at + |pieces[at]|;
    RemoveShrinks(pieces, at);
    AssembledLength(pieces, at, total);
    AssembledLength(pieces - {at}, next, total);
    var rest := Assemble(pieces - {at}, next, total).value;
    if x != at {
      AssembledHoldsPiece(pieces - {at}, next, total, x);
      assert (head + rest)[x - at..x - at + |pieces[x]|] == rest[x - next..x - next + |pieces[x]|];
    }
  }

  lemma AssembledStarts(pieces: map<nat, Bytes>, at: nat, total: nat)
    requires Assemble(pieces, at, total).Some? && pieces != map[]
    ensures at in pieces
  {
  }

  lemma StoredKeepsBounds(m: InFlight, e: Envelope, now: nat, out: Outcome, m': InFlight)
    requires Bounded(m) && (e.id !in m ==> |m| < MAX_IN_FLIGHT) && Stored(m, e, now, out, m')
    requires (e.offset as int) + |e.payload| <= TUN_MTU
    ensures Bounded(m')
    ensures out.Complete? ==> |out.packet| <= TUN_MTU
  {
    hide Assemble;
    var s := Updated(SetFor(m, e.id), e, now);
    StoreCount(m, e.id, s);
    assert BoundedSet(s);
    if AssembleSet(s).Some? {
      AssembledLength(s.pieces, 0, s.total.value);
    }
  }

  /** Every datagram whatsoever keeps the bounds, and nothing longer than the MTU is ever
      delivered. */
  lemma StepKeepsBounds(m: InFlight, a: Arrival, out: Outcome, m': InFlight)
    requires Bounded(m) && Step(m, a, out, m')
    ensures Bounded(m')
    ensures out.Complete? ==> |out.packet| <= TUN_MTU
  {
    hide Decode, Fresh, MadeRoom, Stored, BoundedSet;
    FreshIsSmaller(m, a.now);
    if Decode(a.datagram).Good? && !Storable(a.datagram) {
      StoreCount(Fresh(m, a.now), Decode(a.datagram).envelope.id, SetFor(m, 0));
    }
    if Storable(a.datagram) {
      var e := Decode(a.datagram).envelope;
      var roomy :| MadeRoom(Fresh(m, a.now), e.id, roomy) && Stored(roomy, e, a.now, out, m');
      RoomCount(Fresh(m, a.now), e.id, roomy);
      assert Bounded(roomy);
      StoredKeepsBounds(roomy, e, a.now, out, m');
    }
  }

  lemma RoomCount(m: InFlight, id: u32, roomy: InFlight)
    requires |m| <= MAX_IN_FLIGHT && MadeRoom(m, id, roomy)
    ensures |roomy| <= MAX_IN_FLIGHT && (id !in roomy ==> |roomy| < MAX_IN_FLIGHT)
    ensures forall x :: x in roomy ==> x in m && roomy[x] == m[x]
  {
    if id !in m && |m| >= MAX_IN_FLIGHT {
      var victim :| Oldest(m, victim) && roomy == m - {victim};
      assert roomy.Keys == m.Keys - {victim};
    }
  }

  // ---------------------------------------------------------------- honest packets

  /** The pieces of a packet at the offsets in `got`. */
  ghost function PiecesAt(packet: Bytes, step: nat, got: set<nat>): map<nat, Bytes>
    requires forall x :: x in got ==> x < |packet|
  {
    map x | x in got :: packet[x..x + PieceLen(packet, step, x)]
  }

  /** One step of the assembly walk. */
  lemma AssembleUnfold(pieces: map<nat, Bytes>, at: nat, total: nat)
    ensures at in pieces ==>
              Assemble(pieces, at, total) ==
                match Assemble(pieces - {at}, at + |pieces[at]|, total)
                case None => None
                case Some(rest) => Some(pieces[at] + rest)
    ensures at !in pieces && at != total ==> Assemble(pieces, at, total).None?
  {
  }

  lemma {:induction false} WholeAssembles(packet: Bytes, step: nat, at: nat)
    requires step > 0 && at <= |packet|
    ensures Assemble(PiecesAt(packet, step, Starts(packet, step, at)), at, |packet|) == Some(packet[at..])
    decreases |packet| - at
  {
    hide Assemble;
    if at == |packet| {
      assert PiecesAt(packet, step, {}) == map[] && packet[at..] == [];
      NothingAssembles(at);
    } else {
      hide PiecesAt;
      var next := at + PieceLen(packet, step, at);
      WholeAssembles(packet, step, next);
      FirstPieceAssembles(packet, step, at, Starts(packet, step, next));
    }
  }

  lemma NothingAssembles(at: nat)
    ensures Assemble(map[], at, at) == Some([])
  {
  }

  /** A piece in front of what assembles. */
  lemma FirstPieceAssembles(packet: Bytes, step: nat, at: nat, later: set<nat>)
    requires at < |packet| && at !in later && forall x :: x in later ==> x < |packet|
    requires var next := at + PieceLen(packet, step, at);
             next <= |packet| && Assemble(PiecesAt(packet, step, later), next, |packet|) == Some(packet[next..])
    ensures Assemble(PiecesAt(packet, step, {at} + later), at, |packet|) == Some(packet[at..])
  {
    hide Assemble, PiecesAt, PieceLen;
    var next := at + PieceLen(packet, step, at);
    PiecesOneMore(packet, step, at, later);
    AssembleUnfold(PiecesAt(packet, step, {at} + later), at, |packet|);
    assert packet[at..next] + packet[next..] == packet[at..];
  }

  lemma PiecesOneMore(packet: Bytes, step: nat, at: nat, later: set<nat>)
    requires at < |packet| && at !in later && forall x :: x in later ==> x < |packet|
    ensures var pieces := PiecesAt(packet, step, {at} + later);
            && at in pieces && pieces[at] == packet[at..at + PieceLen(packet, step, at)]
            && pieces - {at} == PiecesAt(packet, step, later)
  {
  }

  lemma {:induction false} MissingBlocks(packet: Bytes, step: nat, at: nat, pieces: map<nat, Bytes>, missing: nat)
    requires step > 0 && at <= |packet|
    requires missing in Starts(packet, step, at) && missing !in pieces
    requires forall x :: x in pieces ==> x < |packet| && pieces[x] == packet[x..x + PieceLen(packet, step, x)]
    ensures Assemble(pieces, at, |packet|).None?
    decreases |packet| - at
  {
    hide Assemble;
    AssembleUnfold(pieces, at, |packet|);
    if at in pieces {
      MissingBlocks(packet, step, at + PieceLen(packet, step, at), pieces - {at}, missing);
    }
  }

  /** The pieces received assemble exactly when none is missing. */
  lemma AssemblesIffAll(packet: Bytes, step: nat, got: set<nat>)
    requires step > 0 && got <= Starts(packet, step, 0)
    ensures Assemble(PiecesAt(packet, step, got), 0, |packet|) ==
            if got == Starts(packet, step, 0) then Some(packet) else None
  {
    if got == Starts(packet, step, 0) {
      WholeAssembles(packet, step, 0);
      assert packet[0..] == packet;
    } else {
      var missing :| missing in Starts(packet, step, 0) && missing !in got;
      MissingBlocks(packet, step, 0, PiecesAt(packet, step, got), missing);
    }
  }

  /** The last cut offset is the one whose envelope says so. */
  lemma {:induction false} LastStart(packet: Bytes, step: nat, at: nat) returns (last: nat)
    requires step > 0 && at < |packet|
    ensures last in Starts(packet, step, at)
    ensures forall x :: x in Starts(packet, step, at) ==> (x + PieceLen(packet, step, x) == |packet| <==> x == last)
    decreases |packet| - at
  {
    var next := at + PieceLen(packet, step, at);
    if next == |packet| {
      last := at;
      assert Starts(packet, step, next) == {};
    } else {
      last := LastStart(packet, step, next);
    }
  }

  /** The total length, known once the last piece has been seen. */
  ghost function TotalOf(packet: Bytes, step: nat, got: set<nat>): Option<nat>
    requires forall x :: x in got ==> x < |packet|
  {
    if exists x :: x in got && x + PieceLen(packet, step, x) == |packet| then Some(|packet|) else None
  }

  /** The fragment set of a packet of which exactly the pieces `got` have arrived. */
  ghost function SetOf(packet: Bytes, step: nat, got: set<nat>, t: nat): FragmentSet
    requires forall x :: x in got ==> x < |packet|
  {
    FragmentSet(PiecesAt(packet, step, got), TotalOf(packet, step, got), t)
  }

  /** The reassembler holds exactly the pieces `got` of the packet, last touched at `t`. */
  ghost predicate Tracks(m: InFlight, packet: Bytes, id: u32, step: nat, got: set<nat>, t: nat)
    requires step > 0
  {
    && got <= Starts(packet, step, 0)
    && (got == {} <==> id !in m)
    && (got != {} ==> m[id] == SetOf(packet, step, got, t))
  }

  /** A step that opens no seventeenth set. */
  ghost predicate HasRoom(m: InFlight, a: Arrival) {
    Storable(a.datagram) ==>
      Decode(a.datagram).envelope.id in Fresh(m, a.now) || |Fresh(m, a.now)| < MAX_IN_FLIGHT
  }

  /** Not a readable envelope of the tracked id. */
  predicate Foreign(d: Bytes, id: u32) {
    Decode(d).Good? ==> Decode(d).envelope.id != id
  }

  /** Datagrams that are not this packet's leave its pieces alone, before its timeout. */
  lemma ForeignStep(m: InFlight, a: Arrival, out: Outcome, m': InFlight, packet: Bytes, id: u32, step: nat,
                    got: set<nat>, t: nat)
    requires step > 0 && Tracks(m, packet, id, step, got, t)
    requires Foreign(a.datagram, id) && HasRoom(m, a) && Step(m, a, out, m')
    requires got != {} ==> a.now - t < TIMEOUT
    ensures Tracks(m', packet, id, step, got, t)
  {
    hide Decode, Starts, PiecesAt, AssembleSet, Updated;
    if Storable(a.datagram) && !Decode(a.datagram).NotEnvelope? {
      var e := Decode(a.datagram).envelope;
      var roomy :| MadeRoom(Fresh(m, a.now), e.id, roomy) && Stored(roomy, e, a.now, out, m');
      assert roomy == Fresh(m, a.now);
      assert id in roomy <==> got != {};
    }
  }

  /** Adding a piece to a set: contents and total follow, whether or not it was there. */
  lemma UpdatedSet(packet: Bytes, id: u32, step: nat, got: set<nat>, t: nat, x: nat, s: FragmentSet, now: nat)
    requires step > 0 && |packet| <= 0xFFFF
    requires got <= Starts(packet, step, 0) && x in Starts(packet, step, 0)
    requires s == if got == {} then FragmentSet(map[], None, 0) else SetOf(packet, step, got, t)
    ensures Updated(s, EnvelopeAt(packet, id, step, x), now) == SetOf(packet, step, got + {x}, now)
  {
    hide Starts;
    var e := EnvelopeAt(packet, id, step, x);
    assert x in got + {x};
    assert PiecesAt(packet, step, got + {x}) == s.pieces[x := e.payload];
    if y :| y in got && y + PieceLen(packet, step, y) == |packet| {
      assert y in got + {x};
    }
  }

  /** A set assembles, to exactly its packet, when and only when every piece has arrived. */
  lemma SetAssembles(packet: Bytes, step: nat, got: set<nat>, t: nat)
    requires step > 0 && packet != [] && got <= Starts(packet, step, 0)
    ensures AssembleSet(SetOf(packet, step, got, t)) == if got == Starts(packet, step, 0) then Some(packet) else None
  {
    hide Starts, Assemble, PiecesAt;
    AssemblesIffAll(packet, step, got);
    var last := LastStart(packet, step, 0);
    if got == Starts(packet, step, 0) {
      assert last in got && last + PieceLen(packet, step, last) == |packet|;
    }
  }

  /** One of the packet's own envelopes, in time: the outcome is the whole packet exactly
      when the piece is the last one missing. Duplicates change nothing. */
  lemma OwnStep(m: InFlight, a: Arrival, out: Outcome, m': InFlight, packet: Bytes, id: u32, step: nat,
                got: set<nat>, t: nat, x: nat)
    requires step > 0 && 0 < |packet| <= TUN_MTU && Tracks(m, packet, id, step, got, t)
    requires x in Starts(packet, step, 0)
    requires a.datagram == Encode(EnvelopeAt(packet, id, step, x))
    requires HasRoom(m, a) && Step(m, a, out, m')
    requires got != {} ==> a.now - t < TIMEOUT
    ensures out == if got + {x} == Starts(packet, step, 0) then Complete(packet) else Waiting
    ensures if got + {x} == Starts(packet, step, 0) then id !in m' else Tracks(m', packet, id, step, got + {x}, a.now)
  {
    hide Decode, Encode, Starts, SetOf, Stored;
    var e := EnvelopeAt(packet, id, step, x);
    DecodeEncode(e);
    var roomy :| MadeRoom(Fresh(m, a.now), id, roomy) && Stored(roomy, e, a.now, out, m');
    assert roomy == Fresh(m, a.now);
    SetTouched(packet, step, got, t);
    OwnStored(roomy, a.now, out, m', packet, id, step, got, t, x);
  }

  lemma OwnStored(m: InFlight, now: nat, out: Outcome, m': InFlight, packet: Bytes, id: u32, step: nat,
                  got: set<nat>, t: nat, x: nat)
    requires step > 0 && 0 < |packet| <= TUN_MTU && Tracks(m, packet, id, step, got, t)
    requires x in Starts(packet, step, 0)
    requires Stored(m, EnvelopeAt(packet, id, step, x), now, out, m')
    ensures out == if got + {x} == Starts(packet, step, 0) then Complete(packet) else Waiting
    ensures if got + {x} == Starts(packet, step, 0) then id !in m' else Tracks(m', packet, id, step, got + {x}, now)
  {
    hide Starts, SetOf, AssembleSet, Updated;
    UpdatedSet(packet, id, step, got, t, x, SetFor(m, id), now);
    SetAssembles(packet, step, got + {x}, now);
  }

  lemma SetTouched(packet: Bytes, step: nat, got: set<nat>, t: nat)
    requires forall x :: x in got ==> x < |packet|
    ensures SetOf(packet, step, got, t).touched == t
  {
  }

  // ---------------------------------------------------------------- whole runs

  /** A run of the reassembler: the states it passes through and what it answers. */
  ghost predicate IsRun(states: seq<InFlight>, arrivals: seq<Arrival>, outs: seq<Outcome>) {
    && |states| == |arrivals| + 1 && |outs| == |arrivals|
    && forall i :: 0 <= i < |arrivals| ==> Step(states[i], arrivals[i], outs[i], states[i + 1])
  }

  /** Over every run, whatever a peer sends, at most sixteen sets are in flight, every piece
      they hold ends within the MTU, and so does everything delivered. */
  lemma {:induction false} RunKeepsBounds(states: seq<InFlight>, arrivals: seq<Arrival>, outs: seq<Outcome>)
    requires IsRun(states, arrivals, outs) && Bounded(states[0])
    ensures forall i :: 0 <= i < |states| ==> Bounded(states[i])
    ensures forall i :: 0 <= i < |outs| ==> outs[i].Complete? ==> |outs[i].packet| <= TUN_MTU
  {
    hide Step, Bounded;
    var n := |arrivals|;
    if n > 0 {
      RunKeepsBounds(states[..n], arrivals[..n - 1], outs[..n - 1]);
      assert states[..n][n - 1] == states[n - 1];
      StepKeepsBounds(states[n - 1], arrivals[n - 1], outs[n - 1], states[n]);
      forall i | 0 <= i < n ensures Bounded(states[i]) {
        assert states[..n][i] == states[i];
      }
    }
  }

  /** The cut offset a datagram carries for this packet. */
  ghost predicate Carries(d: Bytes, packet: Bytes, id: u32, step: nat, x: nat)
    requires step > 0 && |packet| <= 0xFFFF
  {
    x in Starts(packet, step, 0) && d == Encode(EnvelopeAt(packet, id, step, x))
  }

  ghost predicate Own(d: Bytes, packet: Bytes, id: u32, step: nat)
    requires step > 0 && |packet| <= 0xFFFF
  {
    exists x :: Carries(d, packet, id, step, x)
  }

  /** The offsets of the packet that have arrived. */
  ghost function Arrived(arrivals: seq<Arrival>, packet: Bytes, id: u32, step: nat): set<nat>
    requires step > 0 && |packet| <= 0xFFFF
  {
    set i, x | 0 <= i < |arrivals| && x in Starts(packet, step, 0)
               && Carries(arrivals[i].datagram, packet, id, step, x) :: x
  }

  /** When the packet was last touched. */
  ghost function LastTouch(arrivals: seq<Arrival>, id: u32): nat {
    if arrivals == [] then 0
    else if !Foreign(arrivals[|arrivals| - 1].datagram, id) then arrivals[|arrivals| - 1].now
    else LastTouch(arrivals[..|arrivals| - 1], id)
  }

  /** Arrivals within the limits: the id is this packet's alone, no seventeenth set opens,
      and a set once begun is never left alone for five seconds. */
  ghost predicate WithinLimits(states: seq<InFlight>, arrivals: seq<Arrival>, packet: Bytes, id: u32, step: nat)
    requires step > 0 && |packet| <= 0xFFFF && |states| == |arrivals| + 1
  {
    forall i :: 0 <= i < |arrivals| ==>
      && (Foreign(arrivals[i].datagram, id) || Own(arrivals[i].datagram, packet, id, step))
      && HasRoom(states[i], arrivals[i])
      && (Arrived(arrivals[..i], packet, id, step) != {} ==> arrivals[i].now - LastTouch(arrivals[..i], id) < TIMEOUT)
  }

  lemma CarriesIsOwn(d: Bytes, packet: Bytes, id: u32, step: nat, x: nat, y: nat)
    requires step > 0 && |packet| <= 0xFFFF && Carries(d, packet, id, step, x)
    ensures !Foreign(d, id)
    ensures Carries(d, packet, id, step, y) ==> x == y
  {
    hide Decode, Encode, Starts;
    DecodeEncode(EnvelopeAt(packet, id, step, x));
    if Carries(d, packet, id, step, y) {
      DecodeEncode(EnvelopeAt(packet, id, step, y));
    }
  }

  /** What one more arrival adds. */
  lemma ArrivedOneMore(arrivals: seq<Arrival>, packet: Bytes, id: u32, step: nat)
    requires step > 0 && |packet| <= 0xFFFF && arrivals != []
    ensures var n := |arrivals| - 1; var d := arrivals[n].datagram;
            && Arrived(arrivals[..n], packet, id, step) <= Arrived(arrivals, packet, id, step)
            && (Foreign(d, id) ==> Arrived(arrivals, packet, id, step) == Arrived(arrivals[..n], packet, id, step))
            && (forall x :: Carries(d, packet, id, step, x) ==>
                  Arrived(arrivals, packet, id, step) == Arrived(arrivals[..n], packet, id, step) + {x})
  {
    hide Starts, Foreign, Carries;
    var n := |arrivals| - 1;
    var d := arrivals[n].datagram;
    var before := arrivals[..n];
    var then_, now_ := Arrived(before, packet, id, step), Arrived(arrivals, packet, id, step);
    forall y | y in then_ ensures y in now_ {
      var i :| 0 <= i < |before| && y in Starts(packet, step, 0) && Carries(before[i].datagram, packet, id, step, y);
      assert Carries(arrivals[i].datagram, packet, id, step, y);
    }
    forall y | y in now_ ensures y in then_ || Carries(d, packet, id, step, y) {
      var i :| 0 <= i < |arrivals| && y in Starts(packet, step, 0)
               && Carries(arrivals[i].datagram, packet, id, step, y);
      if i < n {
        assert Carries(before[i].datagram, packet, id, step, y);
      }
    }
    forall x | Carries(d, packet, id, step, x)
      ensures now_ == then_ + {x} && !Foreign(d, id)
    {
      assert Carries(arrivals[n].datagram, packet, id, step, x);
      CarriesStart(d, packet, id, step, x);
      CarriesIsOwn(d, packet, id, step, x, x);
      forall y | y in now_ ensures y in then_ + {x} {
        CarriesIsOwn(d, packet, id, step, x, y);
      }
    }
  }

  lemma CarriesStart(d: Bytes, packet: Bytes, id: u32, step: nat, x: nat)
    requires step > 0 && |packet| <= 0xFFFF && Carries(d, packet, id, step, x)
    ensures x in Starts(packet, step, 0)
  {
  }

  /** Until the last missing piece, the reassembler holds exactly what has arrived. */
  lemma {:induction false} RunTracks(states: seq<InFlight>, arrivals: seq<Arrival>, outs: seq<Outcome>,
                                     packet: Bytes, id: u32, step: nat)
    requires step > 0 && 0 < |packet| <= TUN_MTU
    requires IsRun(states, arrivals, outs) && id !in states[0]
    requires WithinLimits(states, arrivals, packet, id, step)
    requires Arrived(arrivals, packet, id, step) != Starts(packet, step, 0)
    ensures Tracks(states[|arrivals|], packet, id, step, Arrived(arrivals, packet, id, step), LastTouch(arrivals, id))
  {
    hide Starts, Foreign, Carries, Step, Arrived, Tracks, HasRoom;
    var n := |arrivals|;
    if n == 0 {
      TracksNothing(states[0], packet, id, step, LastTouch(arrivals, id), arrivals);
    } else {
      var before, a := arrivals[..n - 1], arrivals[n - 1];
      RunPrefix(states, arrivals, outs, packet, id, step);
      ArrivedOneMore(arrivals, packet, id, step);
      ArrivedAreStarts(arrivals, packet, id, step);
      RunTracks(states[..n], before, outs[..n - 1], packet, id, step);
      var got, t := Arrived(before, packet, id, step), LastTouch(before, id);
      if Foreign(a.datagram, id) {
        ForeignStep(states[n - 1], a, outs[n - 1], states[n], packet, id, step, got, t);
      } else {
        var x :| Carries(a.datagram, packet, id, step, x);
        OwnCarried(states[n - 1], a, outs[n - 1], states[n], packet, id, step, got, t, x);
      }
    }
  }

  lemma TracksNothing(m: InFlight, packet: Bytes, id: u32, step: nat, t: nat, arrivals: seq<Arrival>)
    requires step > 0 && |packet| <= 0xFFFF && id !in m && arrivals == []
    ensures Tracks(m, packet, id, step, Arrived(arrivals, packet, id, step), t)
  {
    assert Arrived(arrivals, packet, id, step) == {};
  }

  lemma ArrivedAreStarts(arrivals: seq<Arrival>, packet: Bytes, id: u32, step: nat)
    requires step > 0 && |packet| <= 0xFFFF
    ensures Arrived(arrivals, packet, id, step) <= Starts(packet, step, 0)
  {
  }

  lemma OwnCarried(m: InFlight, a: Arrival, out: Outcome, m': InFlight, packet: Bytes, id: u32, step: nat,
                   got: set<nat>, t: nat, x: nat)
    requires step > 0 && 0 < |packet| <= TUN_MTU && Tracks(m, packet, id, step, got, t)
    requires Carries(a.datagram, packet, id, step, x)
    requires HasRoom(m, a) && Step(m, a, out, m')
    requires got != {} ==> a.now - t < TIMEOUT
    ensures out == if got + {x} == Starts(packet, step, 0) then Complete(packet) else Waiting
    ensures if got + {x} == Starts(packet, step, 0) then id !in m' else Tracks(m', packet, id, step, got + {x}, a.now)
  {
    hide Starts, Step, Tracks, HasRoom, Encode;
    OwnStep(m, a, out, m', packet, id, step, got, t, x);
  }

  lemma RunPrefix(states: seq<InFlight>, arrivals: seq<Arrival>, outs: seq<Outcome>, packet: Bytes, id: u32, step: nat)
    requires step > 0 && |packet| <= 0xFFFF && arrivals != []
    requires IsRun(states, arrivals, outs) && WithinLimits(states, arrivals, packet, id, step)
    ensures var n := |arrivals| - 1;
            && IsRun(states[..n + 1], arrivals[..n], outs[..n])
            && WithinLimits(states[..n + 1], arrivals[..n], packet, id, step)
  {
    hide Starts, Foreign, Carries, Step, Arrived, HasRoom, LastTouch;
    var n := |arrivals| - 1;
    forall i | 0 <= i < n ensures arrivals[..n][..i] == arrivals[..i] {
    }
  }

  /** Envelopes of one packet, in any order, with duplicates, mixed with any other datagrams
      within the limits: each is answered by the whole packet exactly when it is the last
      one missing, and by "waiting" before that. */
  lemma CompletesExactlyAtLast(states: seq<InFlight>, arrivals: seq<Arrival>, outs: seq<Outcome>,
                               packet: Bytes, id: u32, step: nat, x: nat)
    requires step > 0 && 0 < |packet| <= TUN_MTU && arrivals != []
    requires IsRun(states, arrivals, outs) && id !in states[0]
    requires WithinLimits(states, arrivals, packet, id, step)
    requires Arrived(arrivals[..|arrivals| - 1], packet, id, step) != Starts(packet, step, 0)
    requires Carries(arrivals[|arrivals| - 1].datagram, packet, id, step, x)
    ensures outs[|arrivals| - 1] ==
              if Arrived(arrivals, packet, id, step) == Starts(packet, step, 0) then Complete(packet) else Waiting
  {
    hide Starts, Foreign, Carries, Step, Arrived, Tracks, HasRoom, LastTouch;
    var n := |arrivals| - 1;
    RunPrefix(states, arrivals, outs, packet, id, step);
    RunTracks(states[..n + 1], arrivals[..n], outs[..n], packet, id, step);
    ArrivedOneMore(arrivals, packet, id, step);
    OwnCarried(states[n], arrivals[n], outs[n], states[n + 1], packet, id, step,
               Arrived(arrivals[..n], packet, id, step), LastTouch(arrivals[..n], id), x);
  }

  // ---------------------------------------------------------------- delivery

  /** A state in which only one id is in flight. */
  ghost predicate Only(m: InFlight, id: u32) {
    m.Keys <= {id}
  }

  lemma OnlyHasRoom(m: InFlight, a: Arrival, id: u32)
    requires Only(m, id)
    ensures HasRoom(m, a)
  {
    FreshIsSmaller(m, a.now);
    SubsetIsSmaller(m.Keys, {id});
  }

  lemma OwnStepKeepsOnly(m: InFlight, a: Arrival, out: Outcome, m': InFlight, packet: Bytes, id: u32, step: nat, x: nat)
    requires step > 0 && |packet| <= 0xFFFF
    requires Only(m, id) && Carries(a.datagram, packet, id, step, x) && Step(m, a, out, m')
    ensures Only(m', id)
  {
    hide Decode, Encode, Starts, AssembleSet, Updated;
    DecodeEncode(EnvelopeAt(packet, id, step, x));
    OnlyHasRoom(m, a, id);
    if Storable(a.datagram) {
      var roomy :| MadeRoom(Fresh(m, a.now), id, roomy) && Stored(roomy, Decode(a.datagram).envelope, a.now, out, m');
      assert roomy == Fresh(m, a.now);
    }
  }

  /** Every arrival is an envelope of the packet. */
  ghost predicate AllOwn(arrivals: seq<Arrival>, packet: Bytes, id: u32, step: nat)
    requires step > 0 && |packet| <= 0xFFFF
  {
    forall i :: 0 <= i < |arrivals| ==> Own(arrivals[i].datagram, packet, id, step)
  }

  lemma {:induction false} OwnRunStaysOnly(states: seq<InFlight>, arrivals: seq<Arrival>, outs: seq<Outcome>,
                                           packet: Bytes, id: u32, step: nat, i: nat)
    requires step > 0 && |packet| <= 0xFFFF && i <= |arrivals|
    requires IsRun(states, arrivals, outs) && states[0] == map[] && AllOwn(arrivals, packet, id, step)
    ensures Only(states[i], id)
  {
    hide Step, Carries;
    if i > 0 {
      OwnRunStaysOnly(states, arrivals, outs, packet, id, step, i - 1);
      var x :| Carries(arrivals[i - 1].datagram, packet, id, step, x);
      OwnStepKeepsOnly(states[i - 1], arrivals[i - 1], outs[i - 1], states[i], packet, id, step, x);
    }
  }

  /** No gap between arrivals reaches the timeout. */
  ghost predicate InTime(arrivals: seq<Arrival>) {
    forall i :: 0 < i < |arrivals| ==> arrivals[i].now - arrivals[i - 1].now < TIMEOUT
  }

  lemma OwnRunWithinLimits(states: seq<InFlight>, arrivals: seq<Arrival>, outs: seq<Outcome>, packet: Bytes,
                           id: u32, step: nat)
    requires step > 0 && |packet| <= 0xFFFF
    requires IsRun(states, arrivals, outs) && states[0] == map[]
    requires AllOwn(arrivals, packet, id, step) && InTime(arrivals)
    ensures WithinLimits(states, arrivals, packet, id, step)
  {
    hide Step, Carries, Foreign, HasRoom, Arrived, Only;
    forall i | 0 <= i < |arrivals|
      ensures HasRoom(states[i], arrivals[i])
      ensures Arrived(arrivals[..i], packet, id, step) != {} ==>
                arrivals[i].now - LastTouch(arrivals[..i], id) < TIMEOUT
    {
      OwnRunStaysOnly(states, arrivals, outs, packet, id, step, i);
      OnlyHasRoom(states[i], arrivals[i], id);
      if i == 0 {
        NothingArrived(packet, id, step);
      } else {
        var x :| Carries(arrivals[i - 1].datagram, packet, id, step, x);
        CarriesIsOwn(arrivals[i - 1].datagram, packet, id, step, x, x);
      }
    }
  }

  lemma NothingArrived(packet: Bytes, id: u32, step: nat)
    requires step > 0 && |packet| <= 0xFFFF
    ensures Arrived([], packet, id, step) == {}
  {
  }

  /** The first point at which nothing is missing any more. */
  lemma {:induction false} FirstComplete(arrivals: seq<Arrival>, packet: Bytes, id: u32, step: nat) returns (n: nat)
    requires step > 0 && 0 < |packet| <= 0xFFFF && Arrived(arrivals, packet, id, step) == Starts(packet, step, 0)
    ensures n < |arrivals| && Arrived(arrivals[..n + 1], packet, id, step) == Starts(packet, step, 0)
    ensures forall k :: 0 <= k <= n ==> Arrived(arrivals[..k], packet, id, step) != Starts(packet, step, 0)
    decreases |arrivals|
  {
    hide Carries;
    var all := |arrivals|;
    if all == 0 {
      assert false;
    } else if Arrived(arrivals[..all - 1], packet, id, step) == Starts(packet, step, 0) {
      n := FirstComplete(arrivals[..all - 1], packet, id, step);
      assert arrivals[..all - 1][..n + 1] == arrivals[..n + 1];
      assert forall k :: 0 <= k <= n ==> arrivals[..all - 1][..k] == arrivals[..k];
    } else {
      n := all - 1;
      assert arrivals[..n + 1] == arrivals;
      ArrivedGrows(arrivals, packet, id, step);
    }
  }

  /** What is missing at some point was missing before. */
  lemma ArrivedGrows(arrivals: seq<Arrival>, packet: Bytes, id: u32, step: nat)
    requires step > 0 && |packet| <= 0xFFFF && arrivals != []
    requires Arrived(arrivals[..|arrivals| - 1], packet, id, step) != Starts(packet, step, 0)
    ensures forall k :: 0 <= k < |arrivals| ==> Arrived(arrivals[..k], packet, id, step) != Starts(packet, step, 0)
  {
    hide Carries, Starts;
    var long := arrivals[..|arrivals| - 1];
    ArrivedAreStarts(long, packet, id, step);
    forall k | 0 <= k < |arrivals| ensures Arrived(arrivals[..k], packet, id, step) <= Arrived(long, packet, id, step) {
      forall y | y in Arrived(arrivals[..k], packet, id, step) ensures y in Arrived(long, packet, id, step) {
        var i :| 0 <= i < k && y in Starts(packet, step, 0) && Carries(arrivals[..k][i].datagram, packet, id, step, y);
        assert Carries(long[i].datagram, packet, id, step, y);
      }
    }
  }

  lemma {:induction false} LimitsOfPrefix(states: seq<InFlight>, arrivals: seq<Arrival>, outs: seq<Outcome>,
                                          packet: Bytes, id: u32, step: nat, n: nat)
    requires step > 0 && |packet| <= 0xFFFF && n <= |arrivals|
    requires IsRun(states, arrivals, outs) && WithinLimits(states, arrivals, packet, id, step)
    ensures IsRun(states[..n + 1], arrivals[..n], outs[..n])
    ensures WithinLimits(states[..n + 1], arrivals[..n], packet, id, step)
    decreases |arrivals|
  {
    hide IsRun, WithinLimits;
    var all := |arrivals|;
    if n == all {
      RunLengths(states, arrivals, outs);
      assert states[..n + 1] == states && arrivals[..n] == arrivals && outs[..n] == outs;
    } else {
      RunLengths(states, arrivals, outs);
      RunPrefix(states, arrivals, outs, packet, id, step);
      LimitsOfPrefix(states[..all], arrivals[..all - 1], outs[..all - 1], packet, id, step, n);
      assert states[..all][..n + 1] == states[..n + 1];
      assert arrivals[..all - 1][..n] == arrivals[..n] && outs[..all - 1][..n] == outs[..n];
    }
  }

  lemma RunLengths(states: seq<InFlight>, arrivals: seq<Arrival>, outs: seq<Outcome>)
    requires IsRun(states, arrivals, outs)
    ensures |states| == |arrivals| + 1 && |outs| == |arrivals|
  {
  }

  lemma AnswerAt(states: seq<InFlight>, arrivals: seq<Arrival>, outs: seq<Outcome>, packet: Bytes, id: u32,
                 step: nat, i: nat)
    requires step > 0 && 0 < |packet| <= TUN_MTU && i < |arrivals|
    requires IsRun(states, arrivals, outs) && id !in states[0]
    requires WithinLimits(states, arrivals, packet, id, step) && Own(arrivals[i].datagram, packet, id, step)
    requires Arrived(arrivals[..i], packet, id, step) != Starts(packet, step, 0)
    ensures outs[i] ==
              if Arrived(arrivals[..i + 1], packet, id, step) == Starts(packet, step, 0)
              then Complete(packet) else Waiting
  {
    hide Starts, Step, Carries, Foreign, HasRoom, Arrived, WithinLimits;
    var now_ := arrivals[..i + 1];
    LimitsOfPrefix(states, arrivals, outs, packet, id, step, i + 1);
    assert now_[..i] == arrivals[..i];
    var x :| Carries(arrivals[i].datagram, packet, id, step, x);
    CompletesExactlyAtLast(states[..i + 2], now_, outs[..i + 1], packet, id, step, x);
  }

  /** Delivery: once all envelopes of a packet have arrived within the limits, in any order,
      with any repetitions and between any other datagrams, the packet has been delivered,
      and every envelope of it before that was answered "waiting". */
  lemma AnyOrderDelivers(states: seq<InFlight>, arrivals: seq<Arrival>, outs: seq<Outcome>, packet: Bytes,
                         id: u32, step: nat) returns (n: nat)
    requires step > 0 && 0 < |packet| <= TUN_MTU
    requires IsRun(states, arrivals, outs) && id !in states[0] && WithinLimits(states, arrivals, packet, id, step)
    requires Arrived(arrivals, packet, id, step) == Starts(packet, step, 0)
    ensures n < |arrivals| && outs[n] == Complete(packet)
    ensures forall i :: 0 <= i < n && Own(arrivals[i].datagram, packet, id, step) ==> outs[i] == Waiting
  {
    hide Starts, Step, Carries, Foreign, HasRoom, Arrived, WithinLimits, Own;
    n := FirstComplete(arrivals, packet, id, step);
    LastMissingIsOwn(states, arrivals, packet, id, step, n);
    forall i | 0 <= i <= n && Own(arrivals[i].datagram, packet, id, step)
      ensures outs[i] == if i == n then Complete(packet) else Waiting
    {
      AnswerAt(states, arrivals, outs, packet, id, step, i);
      assert i < n ==> Arrived(arrivals[..i + 1], packet, id, step) != Starts(packet, step, 0);
    }
  }

  lemma LastMissingIsOwn(states: seq<InFlight>, arrivals: seq<Arrival>, packet: Bytes, id: u32, step: nat, n: nat)
    requires step > 0 && |packet| <= 0xFFFF && |states| == |arrivals| + 1 && n < |arrivals|
    requires WithinLimits(states, arrivals, packet, id, step)
    requires Arrived(arrivals[..n + 1], packet, id, step) != Arrived(arrivals[..n], packet, id, step)
    ensures Own(arrivals[n].datagram, packet, id, step)
  {
    hide Starts, Carries, Foreign, HasRoom, Arrived, Own, LastTouch;
    ArrivedOneMore(arrivals[..n + 1], packet, id, step);
    assert arrivals[..n + 1][..n] == arrivals[..n];
  }

  /** A connection that carries nothing but envelopes of one packet is within the limits as
      long as no gap reaches the timeout, however long the whole transfer takes. */
  lemma QuietConnectionDelivers(states: seq<InFlight>, arrivals: seq<Arrival>, outs: seq<Outcome>, packet: Bytes,
                                id: u32, step: nat) returns (n: nat)
    requires step > 0 && 0 < |packet| <= TUN_MTU
    requires IsRun(states, arrivals, outs) && states[0] == map[]
    requires AllOwn(arrivals, packet, id, step) && InTime(arrivals)
    requires Arrived(arrivals, packet, id, step) == Starts(packet, step, 0)
    ensures n < |arrivals| && outs[n] == Complete(packet)
    ensures forall i :: 0 <= i < n ==> outs[i] == Waiting
  {
    hide Starts, Step, Arrived, WithinLimits, Own, InTime;
    OwnRunWithinLimits(states, arrivals, outs, packet, id, step);
    n := AnyOrderDelivers(states, arrivals, outs, packet, id, step);
  }

  /** Every sequence of datagrams has a run. */
  lemma {:induction false} RunExists(arrivals: seq<Arrival>) returns (states: seq<InFlight>, outs: seq<Outcome>)
    ensures IsRun(states, arrivals, outs) && states[0] == map[]
  {
    hide Step;
    var n := |arrivals|;
    if n == 0 {
      states, outs := [map[]], [];
    } else {
      var before, said := RunExists(arrivals[..n - 1]);
      var out, next := StepExists(before[n - 1], arrivals[n - 1]);
      states, outs := before + [next], said + [out];
      assert forall i :: 0 <= i < n - 1 ==> arrivals[..n - 1][i] == arrivals[i];
    }
  }

  lemma StepExists(m: InFlight, a: Arrival) returns (out: Outcome, m': InFlight)
    ensures Step(m, a, out, m')
  {
    hide Decode, Updated, AssembleSet, MadeRoom;
    if Decode(a.datagram).NotEnvelope? {
      out, m' := NotAFragment, m;
    } else if Decode(a.datagram).Malformed? {
      out, m' := Rejected, m;
    } else if !Storable(a.datagram) {
      out, m' := Rejected, Fresh(m, a.now) - {Decode(a.datagram).envelope.id};
    } else {
      var e := Decode(a.datagram).envelope;
      var roomy := RoomExists(Fresh(m, a.now), e.id);
      var s := Updated(SetFor(roomy, e.id), e, a.now);
      match AssembleSet(s) {
        case Some(packet) => out, m' := Complete(packet), roomy - {e.id};
        case None => out, m' := Waiting, roomy[e.id := s];
      }
      assert Stored(roomy, e, a.now, out, m');
    }
  }

  lemma RoomExists(m: InFlight, id: u32) returns (roomy: InFlight)
    ensures MadeRoom(m, id, roomy)
  {
    if id in m || |m| < MAX_IN_FLIGHT {
      roomy := m;
    } else {
      var victim := OldestExists(m);
      roomy := m - {victim};
    }
  }

  lemma {:induction false} OldestExists(m: InFlight) returns (victim: u32)
    requires |m| > 0
    ensures Oldest(m, victim)
    decreases |m|
  {
    var x :| x in m;
    var rest := m - {x};
    assert rest.Keys == m.Keys - {x};
    victim := x;
    if |rest| > 0 {
      var y := OldestExists(rest);
      if m[y].touched < m[x].touched {
        victim := y;
      }
    }
    assert forall other :: other in m && other != x ==> other in rest;
  }

  // ---------------------------------------------------------------- packets above the MTU

  /** The total of an id is not known. */
  ghost predicate EndUnknown(m: InFlight, id: u32) {
    id in m ==> m[id].total.None?
  }

  /** A piece that ends within the MTU is stored, any other refused. */
  function OversizeAnswer(packet: Bytes, step: nat, x: nat): Outcome {
    if x <= |packet| && x + PieceLen(packet, step, x) <= TUN_MTU then Waiting else Rejected
  }

  lemma RoomKeepsSets(m: InFlight, now: nat, id: u32, roomy: InFlight)
    requires MadeRoom(Fresh(m, now), id, roomy)
    ensures forall x :: x in roomy ==> x in m && roomy[x] == m[x]
  {
  }

  /** Of a packet above the MTU the pieces within it are stored and the others refused; as
      the last one is refused, the end stays unknown. */
  lemma OversizeStep(m: InFlight, a: Arrival, out: Outcome, m': InFlight, packet: Bytes, id: u32, step: nat, x: nat)
    requires step > 0 && TUN_MTU < |packet| <= 0xFFFF && EndUnknown(m, id)
    requires Carries(a.datagram, packet, id, step, x) && Step(m, a, out, m')
    ensures EndUnknown(m', id)
    ensures out == OversizeAnswer(packet, step, x)
  {
    hide Decode, Encode, Starts, Fresh, MadeRoom;
    var e := EnvelopeAt(packet, id, step, x);
    DecodeEncode(e);
    if Storable(a.datagram) {
      var roomy :| MadeRoom(Fresh(m, a.now), id, roomy) && Stored(roomy, e, a.now, out, m');
      RoomKeepsSets(m, a.now, id, roomy);
    }
  }

  lemma ForeignKeepsEndUnknown(m: InFlight, a: Arrival, out: Outcome, m': InFlight, id: u32)
    requires EndUnknown(m, id) && Foreign(a.datagram, id) && Step(m, a, out, m')
    ensures EndUnknown(m', id)
  {
    hide Decode, Fresh, MadeRoom, AssembleSet, Updated;
    FreshIsSmaller(m, a.now);
    if Storable(a.datagram) {
      var e := Decode(a.datagram).envelope;
      var roomy :| MadeRoom(Fresh(m, a.now), e.id, roomy) && Stored(roomy, e, a.now, out, m');
      RoomKeepsSets(m, a.now, e.id, roomy);
    }
  }

  /** Over every run, with any timing, repetitions, evictions and other datagrams, a packet
      above the MTU never completes: each of its envelopes is stored or refused. */
  lemma {:induction false} OversizeNeverCompletes(states: seq<InFlight>, arrivals: seq<Arrival>, outs: seq<Outcome>,
                                                  packet: Bytes, id: u32, step: nat)
    requires step > 0 && TUN_MTU < |packet| <= 0xFFFF
    requires IsRun(states, arrivals, outs) && id !in states[0]
    requires forall i :: 0 <= i < |arrivals| ==>
               Foreign(arrivals[i].datagram, id) || Own(arrivals[i].datagram, packet, id, step)
    ensures EndUnknown(states[|arrivals|], id)
    ensures forall i, x: nat :: 0 <= i < |arrivals| && Carries(arrivals[i].datagram, packet, id, step, x) ==>
              outs[i] == OversizeAnswer(packet, step, x)
  {
    hide Step, Carries, Foreign, EndUnknown, OversizeAnswer;
    var n := |arrivals|;
    if n == 0 {
      assert EndUnknown(states[0], id) by { NothingKnown(states[0], id); }
    } else {
      RunOfPrefix(states, arrivals, outs, n - 1);
      var before := arrivals[..n - 1];
      assert forall i :: 0 <= i < n - 1 ==> before[i] == arrivals[i];
      OversizeNeverCompletes(states[..n], before, outs[..n - 1], packet, id, step);
      forall x: nat | Carries(arrivals[n - 1].datagram, packet, id, step, x)
        ensures outs[n - 1] == OversizeAnswer(packet, step, x)
      {
        OversizeStep(states[n - 1], arrivals[n - 1], outs[n - 1], states[n], packet, id, step, x);
      }
      if Foreign(arrivals[n - 1].datagram, id) {
        ForeignKeepsEndUnknown(states[n - 1], arrivals[n - 1], outs[n - 1], states[n], id);
      } else {
        var x :| Carries(arrivals[n - 1].datagram, packet, id, step, x);
        OversizeStep(states[n - 1], arrivals[n - 1], outs[n - 1], states[n], packet, id, step, x);
      }
      forall i, x: nat | 0 <= i < n - 1 && Carries(arrivals[i].datagram, packet, id, step, x)
        ensures outs[i] == OversizeAnswer(packet, step, x)
      {
        assert Carries(before[i].datagram, packet, id, step, x) && outs[..n - 1][i] == outs[i];
      }
    }
  }

  lemma NothingKnown(m: InFlight, id: u32)
    requires id !in m
    ensures EndUnknown(m, id)
  {
  }

  lemma RunOfPrefix(states: seq<InFlight>, arrivals: seq<Arrival>, outs: seq<Outcome>, n: nat)
    requires IsRun(states, arrivals, outs) && n <= |arrivals|
    ensures IsRun(states[..n + 1], arrivals[..n], outs[..n])
  {
    hide Step;
  }
}
