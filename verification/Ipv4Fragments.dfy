/** Splitting IPv4 packets, and packets that are already fragments, at the byte level
    (section 3.2 of RFC 791). */
module Ipv4Fragments {
  import opened Options
  import opened Words
  import opened Counting
  import opened Checksum

  const LENGTH_WORD: nat := 1
  const FLAGS_WORD: nat := 3

  /** A packet with at least the fixed header. */
  type Packet = p: Bytes | |p| >= HEADER_LEN witness seq(20, _ => 0)

  predicate DontFragment(p: Packet) {
    (WordAt(p, FLAGS_WORD) / 0x4000) % 2 == 1
  }

  predicate MoreFragments(p: Packet) {
    (WordAt(p, FLAGS_WORD) / 0x2000) % 2 == 1
  }

  /** The fragment offset, in bytes. */
  function Offset(p: Packet): nat {
    8 * (WordAt(p, FLAGS_WORD) % 0x2000)
  }

  function PayloadLen(p: Packet): nat {
    |p| - HEADER_LEN
  }

  function Payload(p: Packet): (bytes: Bytes)
    ensures |bytes| == PayloadLen(p)
  {
    p[HEADER_LEN..]
  }

  /** The largest multiple of eight payload bytes that fits. */
  function MaxPayload(maxSize: nat): (m: nat)
    requires maxSize >= HEADER_LEN + 8
    ensures 8 <= m <= maxSize - HEADER_LEN && m % 8 == 0
  {
    (maxSize - HEADER_LEN) - (maxSize - HEADER_LEN) % 8
  }

  function PieceLen(p: Packet, step: nat, at: nat): nat
    requires at <= PayloadLen(p)
  {
    if step <= PayloadLen(p) - at then step else PayloadLen(p) - at
  }

  // ---------------------------------------------------------------- the plain splitter

  /** The header with its length rewritten, and one slice of the payload. */
  function Slice(p: Packet, at: nat, len: nat): (q: Packet)
    requires at + len <= PayloadLen(p)
    ensures |q| == HEADER_LEN + len
  {
    SetWord(p[..HEADER_LEN], LENGTH_WORD, (HEADER_LEN + len) % 0x1_0000) + p[HEADER_LEN + at..HEADER_LEN + at + len]
  }

  function SlicesFrom(p: Packet, step: nat, at: nat): seq<Packet>
    requires step > 0 && at <= PayloadLen(p)
    decreases PayloadLen(p) - at
  {
    if at == PayloadLen(p) then []
    else var len := PieceLen(p, step, at); [Slice(p, at, len)] + SlicesFrom(p, step, at + len)
  }

  /** The bench's reference splitter: payload slices under a copied header. */
  method FragmentAllocating(p: Packet, maxSize: nat) returns (r: Option<seq<Packet>>)
    ensures r == if |p| <= maxSize || maxSize < 28 then None
                 else Some(SlicesFrom(p, MaxPayload(maxSize), 0))
  {
    hide Slice, SlicesFrom;
    if |p| <= maxSize || maxSize < HEADER_LEN + 8 {
      return None;
    }
    var payloadLen := PayloadLen(p);
    var maxPayload := MaxPayload(maxSize);
    var fragments: seq<Packet> := [];
    var offset := 0;
    while offset < payloadLen
      invariant 0 <= offset <= payloadLen
      invariant fragments + SlicesFrom(p, maxPayload, offset) == SlicesFrom(p, maxPayload, 0)
      decreases payloadLen - offset
    {
      var len := if maxPayload <= payloadLen - offset then maxPayload else payloadLen - offset;
      var next := Slice(p, offset, len);
      SlicesUnfold(p, maxPayload, offset);
      assert (fragments + [next]) + SlicesFrom(p, maxPayload, offset + len)
          == fragments + SlicesFrom(p, maxPayload, offset);
      fragments := fragments + [next];
      offset := offset + len;
    }
    SlicesUnfold(p, maxPayload, offset);
    assert fragments + [] == fragments;
    return Some(fragments);
  }

  lemma SlicesUnfold(p: Packet, step: nat, at: nat)
    requires step > 0 && at <= PayloadLen(p)
    ensures SlicesFrom(p, step, at) ==
            if at == PayloadLen(p) then []
            else [Slice(p, at, PieceLen(p, step, at))] + SlicesFrom(p, step, at + PieceLen(p, step, at))
  {
  }

  /** What the slices carry, put back together. */
  function Joined(fs: seq<Packet>): Bytes {
    if fs == [] then [] else Payload(fs[0]) + Joined(fs[1..])
  }

  lemma SlicePayload(p: Packet, at: nat, len: nat)
    requires at + len <= PayloadLen(p)
    ensures Payload(Slice(p, at, len)) == Payload(p)[at..at + len]
  {
    hide SetWord;
  }

  /** The slices carry the payload from `at` on, in order, and each fits the limit. */
  lemma {:induction false} SlicesCarryPayload(p: Packet, step: nat, at: nat)
    requires step > 0 && at <= PayloadLen(p)
    ensures Joined(SlicesFrom(p, step, at)) == Payload(p)[at..]
    ensures forall q :: q in SlicesFrom(p, step, at) ==> HEADER_LEN < |q| <= HEADER_LEN + step
    decreases PayloadLen(p) - at
  {
    hide Slice, Payload;
    if at < PayloadLen(p) {
      var len := PieceLen(p, step, at);
      SlicesCarryPayload(p, step, at + len);
      SlicePayload(p, at, len);
      assert Payload(p)[at..] == Payload(p)[at..at + len] + Payload(p)[at + len..];
    }
  }

  // ---------------------------------------------------------------- the fragmenter

  const MAX_OFFSET: nat := 65528

  function FlagWord(p: Packet, at: nat, len: nat): u16
    requires Offset(p) + at <= MAX_OFFSET
  {
    (if DontFragment(p) then 0x4000 else 0)
    + (if MoreFragments(p) || at + len < PayloadLen(p) then 0x2000 else 0)
    + (Offset(p) + at) / 8
  }

  /** One sub-fragment: offsets absolute in the datagram, More-Fragments inherited, a fresh
      checksum. */
  function Piece(p: Packet, at: nat, len: nat): (q: Packet)
    requires at + len <= PayloadLen(p) && Offset(p) + at <= MAX_OFFSET
    ensures |q| == HEADER_LEN + len
  {
    WithChecksum(SetWord(Slice(p, at, len), FLAGS_WORD, FlagWord(p, at, len)))
  }

  /** No byte of the packet lies past the largest offset the header can carry. */
  predicate Addressable(p: Packet) {
    Offset(p) + PayloadLen(p) <= MAX_OFFSET + 1
  }

  /** All pieces from `at` on. */
  function Split(p: Packet, step: nat, at: nat): seq<Packet>
    requires step > 0 && at <= PayloadLen(p) && Addressable(p)
    decreases PayloadLen(p) - at
  {
    if at == PayloadLen(p) then []
    else var len := PieceLen(p, step, at); [Piece(p, at, len)] + Split(p, step, at + len)
  }

  /** A header without options (header length five words) whose checksum holds. */
  predicate Trusted(p: Packet) {
    p[0] % 16 == 5 && Accepts(p)
  }

  /** Anything but a trusted packet that exceeds a workable limit and whose bytes can all be
      addressed is left alone. */
  function Fragment(p: Bytes, maxSize: nat): Option<seq<Packet>> {
    if |p| <= maxSize || |p| < HEADER_LEN || maxSize < HEADER_LEN + 8 || !Trusted(p) || !Addressable(p) then None
    else Some(Split(p, MaxPayload(maxSize), 0))
  }

  method FragmentIpv4(p: Bytes, maxSize: nat) returns (r: Option<seq<Packet>>)
    ensures r == Fragment(p, maxSize)
  {
    hide Trusted, Piece, Offset, Split;
    if |p| <= maxSize || |p| < HEADER_LEN || maxSize < HEADER_LEN + 8 || !Trusted(p) {
      return None;
    }
    var payloadLen := PayloadLen(p);
    var maxPayload := MaxPayload(maxSize);
    if Offset(p) + (payloadLen - 1) > MAX_OFFSET {
      return None;
    }
    var fragments: seq<Packet> := [];
    var offset := 0;
    while offset < payloadLen
      invariant 0 <= offset <= payloadLen
      invariant fragments + Split(p, maxPayload, offset) == Split(p, maxPayload, 0)
      decreases payloadLen - offset
    {
      var len := if maxPayload <= payloadLen - offset then maxPayload else payloadLen - offset;
      var next := Piece(p, offset, len);
      SplitUnfold(p, maxPayload, offset);
      assert (fragments + [next]) + Split(p, maxPayload, offset + len)
          == fragments + Split(p, maxPayload, offset);
      fragments := fragments + [next];
      offset := offset + len;
    }
    SplitUnfold(p, maxPayload, offset);
    assert fragments + [] == fragments;
    return Some(fragments);
  }

  lemma SplitUnfold(p: Packet, step: nat, at: nat)
    requires step > 0 && at <= PayloadLen(p) && Addressable(p)
    ensures Split(p, step, at) ==
            if at == PayloadLen(p) then []
            else [Piece(p, at, PieceLen(p, step, at))] + Split(p, step, at + PieceLen(p, step, at))
  {
  }

  // ---------------------------------------------------------------- legal packets

  /** A packet or fragment that RFC 791 allows: a trusted header whose length is right, some
      payload, within the 65535 bytes of a datagram, and whole eight-byte units unless it
      ends the datagram. */
  ghost predicate Legal(p: Packet) {
    && Trusted(p)
    && HEADER_LEN < |p| && WordAt(p, LENGTH_WORD) == |p|
    && Offset(p) + |p| <= 0xFFFF
    && (MoreFragments(p) ==> PayloadLen(p) % 8 == 0)
  }

  /** Headers of one datagram agree except in length, More-Fragments, offset and checksum. */
  ghost predicate SameDatagram(p: Packet, q: Packet) {
    && p[..2] == q[..2] && p[4..6] == q[4..6] && p[8..10] == q[8..10] && p[12..HEADER_LEN] == q[12..HEADER_LEN]
    && (DontFragment(p) <==> DontFragment(q))
  }

  lemma FlagWordFields(p: Packet, at: nat, len: nat)
    requires Offset(p) + at <= MAX_OFFSET && at % 8 == 0
    ensures var w := FlagWord(p, at, len);
            && 8 * (w % 0x2000) == Offset(p) + at
            && ((w / 0x2000) % 2 == 1 <==> MoreFragments(p) || at + len < PayloadLen(p))
            && ((w / 0x4000) % 2 == 1 <==> DontFragment(p))
  {
    hide WordAt;
  }

  /** The flags the fragmenter wrote before it looked at the input's own: offsets relative to
      the packet being split, More-Fragments from the position alone. */
  function OldFlagWord(p: Packet, at: nat, len: nat): u16
    requires at <= MAX_OFFSET
  {
    (if DontFragment(p) then 0x4000 else 0) + (if at + len < PayloadLen(p) then 0x2000 else 0) + at / 8
  }

  /** The old flags were right for a sub-fragment exactly when its packet starts the datagram
      and is not a non-final fragment whose last piece this is. */
  lemma OldFlagsRightIff(p: Packet, at: nat, len: nat)
    requires Offset(p) + at <= MAX_OFFSET && at % 8 == 0
    ensures OldFlagWord(p, at, len) == FlagWord(p, at, len) <==>
              Offset(p) == 0 && (MoreFragments(p) ==> at + len < PayloadLen(p))
  {
    FlagWordFields(p, at, len);
    hide WordAt;
  }

  /** The words and bytes of one sub-fragment. */
  lemma PieceFields(p: Packet, at: nat, len: nat)
    requires at + len <= PayloadLen(p) && Offset(p) + at <= MAX_OFFSET
    ensures var q := Piece(p, at, len);
            && Accepts(q)
            && WordAt(q, LENGTH_WORD) == (HEADER_LEN + len) % 0x1_0000
            && WordAt(q, FLAGS_WORD) == FlagWord(p, at, len)
            && q[HEADER_LEN..] == p[HEADER_LEN + at..HEADER_LEN + at + len]
            && (forall i :: 0 <= i < HEADER_LEN && i / 2 !in {LENGTH_WORD, FLAGS_WORD, CHECKSUM_WORD} ==> q[i] == p[i])
  {
    hide HeaderChecksum, FlagWord, Accepts;
    var w := FlagWord(p, at, len);
    var s := Slice(p, at, len);
    var t := SetWord(s, FLAGS_WORD, w);
    WrittenIsAccepted(t);
  }

  lemma PieceSameDatagram(p: Packet, at: nat, len: nat)
    requires at + len <= PayloadLen(p) && Offset(p) + at <= MAX_OFFSET && at % 8 == 0
    ensures SameDatagram(p, Piece(p, at, len))
    ensures Payload(Piece(p, at, len)) == Payload(p)[at..at + len]
  {
    hide Accepts, WordAt, Piece, FlagWord;
    FlagWordFields(p, at, len);
    PieceFields(p, at, len);
    var q := Piece(p, at, len);
    assert forall i :: 0 <= i < 2 || 4 <= i < 6 || 8 <= i < 10 || 12 <= i < HEADER_LEN ==> q[i] == p[i];
    assert Payload(p)[at..at + len] == p[HEADER_LEN + at..HEADER_LEN + at + len];
  }

  /** A sub-fragment of a legal packet is a legal fragment of the same datagram. */
  lemma PieceIsLegal(p: Packet, at: nat, len: nat)
    requires Legal(p) && at % 8 == 0 && 0 < len && at + len <= PayloadLen(p)
    requires at + len < PayloadLen(p) ==> len % 8 == 0
    ensures Offset(p) + at <= MAX_OFFSET
    ensures var q := Piece(p, at, len);
            && Legal(q) && SameDatagram(p, q)
            && Offset(q) == Offset(p) + at
            && (MoreFragments(q) <==> MoreFragments(p) || at + len < PayloadLen(p))
            && Payload(q) == Payload(p)[at..at + len]
  {
    hide Accepts, WordAt, Piece, FlagWord, SameDatagram, Payload;
    FlagWordFields(p, at, len);
    PieceFields(p, at, len);
    PieceSameDatagram(p, at, len);
  }

  // ---------------------------------------------------------------- tilings

  /** `fs`, in order, tile the bytes `payload` starting at byte `from` of a datagram that
      goes on after them exactly when `more`: each is legal, offsets are consecutive, and
      More-Fragments is clear only on the end of the datagram. */
  ghost predicate Tiles(fs: seq<Packet>, payload: Bytes, from: nat, more: bool) {
    if fs == [] then payload == []
    else
      && Legal(fs[0]) && Offset(fs[0]) == from
      && Payload(fs[0]) <= payload
      && (MoreFragments(fs[0]) <==> |fs| > 1 || more)
      && Tiles(fs[1..], payload[PayloadLen(fs[0])..], from + PayloadLen(fs[0]), more)
  }

  lemma TilesCons(f: Packet, rest: seq<Packet>, payload: Bytes, from: nat, more: bool)
    requires Legal(f) && Offset(f) == from && Payload(f) <= payload
    requires MoreFragments(f) <==> rest != [] || more
    requires Tiles(rest, payload[PayloadLen(f)..], from + PayloadLen(f), more)
    ensures Tiles([f] + rest, payload, from, more)
  {
    hide Legal, Offset, MoreFragments, Payload;
    assert ([f] + rest)[1..] == rest;
  }

  lemma TilesUncons(fs: seq<Packet>, payload: Bytes, from: nat, more: bool)
    requires fs != [] && Tiles(fs, payload, from, more)
    ensures Legal(fs[0]) && Offset(fs[0]) == from && Payload(fs[0]) <= payload
    ensures MoreFragments(fs[0]) <==> fs[1..] != [] || more
    ensures Tiles(fs[1..], payload[PayloadLen(fs[0])..], from + PayloadLen(fs[0]), more)
    ensures fs[1..] == [] ==> payload == Payload(fs[0])
    ensures payload == Payload(fs[0]) + payload[PayloadLen(fs[0])..]
  {
    hide Legal, Offset, MoreFragments, Payload;
  }

  lemma LegalIsAddressable(p: Packet)
    requires Legal(p)
    ensures Addressable(p)
  {
  }

  /** The pieces of a legal packet from `at` on tile the rest of its byte range, fit the
      step, and belong to its datagram. */
  lemma {:induction false} SplitTiles(p: Packet, step: nat, at: nat)
    requires Legal(p) && Addressable(p) && step > 0 && step % 8 == 0 && at <= PayloadLen(p)
    requires at % 8 == 0 || at == PayloadLen(p)
    ensures var r := Split(p, step, at);
            && Tiles(r, Payload(p)[at..], Offset(p) + at, MoreFragments(p))
            && (forall q :: q in r ==> PayloadLen(q) <= step && SameDatagram(p, q))
            && (|r| == 0 <==> at == PayloadLen(p))
            && (at + step < PayloadLen(p) ==> |r| >= 2)
    decreases PayloadLen(p) - at
  {
    hide Legal, SameDatagram, Offset, MoreFragments, Piece, Payload, Tiles, Addressable;
    if at == PayloadLen(p) {
      assert Payload(p)[at..] == [];
      TilesNothing(Offset(p) + at, MoreFragments(p));
    } else {
      var len := PieceLen(p, step, at);
      PieceIsLegal(p, at, len);
      SplitTiles(p, step, at + len);
      var q, rest := Piece(p, at, len), Split(p, step, at + len);
      assert Split(p, step, at) == [q] + rest;
      assert Payload(p)[at..][len..] == Payload(p)[at + len..];
      TilesCons(q, rest, Payload(p)[at..], Offset(p) + at, MoreFragments(p));
    }
  }

  lemma TilesNothing(from: nat, more: bool)
    ensures Tiles([], [], from, more)
  {
  }

  /** The pieces of `step` bytes start where they should, in fields that hold the offset. */
  lemma {:induction false} SplitOffsets(p: Packet, step: nat, at: nat, i: nat)
    requires step > 0 && step % 8 == 0 && at % 8 == 0 && at <= PayloadLen(p) && Addressable(p)
    requires i < |Split(p, step, at)|
    ensures Offset(Split(p, step, at)[i]) == Offset(p) + at + i * step
    ensures at + i * step < PayloadLen(p)
    decreases i
  {
    hide Piece, FlagWord, WordAt, Split, MoreFragments, DontFragment;
    SplitUnfold(p, step, at);
    var len := PieceLen(p, step, at);
    if i == 0 {
      PieceFields(p, at, len);
      FlagWordFields(p, at, len);
    } else {
      if at + len == PayloadLen(p) {
        SplitUnfold(p, step, at + len);
      }
      SplitOffsets(p, step, at + len, i - 1);
      OneStepMore(at, i, step);
    }
  }

  /** Of the trusted packets that exceed the limit exactly those are refused whose last byte
      lies past 65528, the largest offset the header can carry. The pieces of all others
      start at their exact offsets: none is ever truncated to fit its field. */
  lemma FragmentRefusesIff(p: Packet, maxSize: nat)
    requires Trusted(p) && HEADER_LEN + 8 <= maxSize < |p|
    ensures Fragment(p, maxSize).None? <==> Offset(p) + PayloadLen(p) - 1 > MAX_OFFSET
    ensures Fragment(p, maxSize).Some? ==>
              forall i :: 0 <= i < |Fragment(p, maxSize).value| ==>
                Offset(Fragment(p, maxSize).value[i]) == Offset(p) + i * MaxPayload(maxSize) <= MAX_OFFSET
  {
    hide Trusted, Offset, Split, MaxPayload;
    if Addressable(p) {
      var pieces := Split(p, MaxPayload(maxSize), 0);
      forall i | 0 <= i < |pieces|
        ensures Offset(pieces[i]) == Offset(p) + i * MaxPayload(maxSize) <= MAX_OFFSET
      {
        SplitOffsets(p, MaxPayload(maxSize), 0, i);
      }
    }
  }

  /** The guard asks more than the fields need: this packet's pieces would all start within
      range, and it is refused for its last byte. Legal packets never are. */
  lemma GuardIsConservative(p: Packet)
    requires Trusted(p) && Offset(p) == 65520 && PayloadLen(p) == 10
    ensures Fragment(p, 28).None? && Offset(p) + 8 <= MAX_OFFSET && !Legal(p)
  {
  }

  /** Fragmenting any legal packet or fragment to any size from 28 up that it exceeds
      succeeds; the pieces tile exactly its byte range and fit the limit. */
  lemma FragmentTiles(p: Packet, maxSize: nat)
    requires Legal(p) && HEADER_LEN + 8 <= maxSize < |p|
    ensures var r := Fragment(p, maxSize);
            && r.Some? && |r.value| >= 2
            && Tiles(r.value, Payload(p), Offset(p), MoreFragments(p))
            && (forall q :: q in r.value ==> |q| <= maxSize && SameDatagram(p, q))
  {
    hide Legal, Offset, MoreFragments, SameDatagram, Split, Tiles;
    LegalHasPayload(p);
    LegalIsAddressable(p);
    SplitTiles(p, MaxPayload(maxSize), 0);
    assert Payload(p)[0..] == Payload(p);
  }

  // ---------------------------------------------------------------- on bytes

  /** Thirteen bits of bytes 6 and 7, in units of eight bytes. */
  function OffsetUnits(p: Bytes): nat
    requires |p| >= 20
  {
    256 * ((p[6] as int) % 32) + (p[7] as int)
  }

  /** When a packet is left alone, on its bytes: it fits, is shorter than a header, the limit
      is below 28, the header has options, its checksum does not hold, or its last byte lies
      past 65528. */
  lemma FragmentNoneIff(p: Bytes, maxSize: nat)
    ensures Fragment(p, maxSize).None? <==>
              || |p| <= maxSize || |p| < 20 || maxSize < 28
              || p[0] % 16 != 5 || !BytesHold(p)
              || 8 * OffsetUnits(p) + |p| - 21 > 65528
  {
    hide Accepts, BytesHold, Split;
    if |p| >= 20 {
      AcceptsIffBytesHold(p);
      FlagBytes(p);
    }
  }

  /** What bytes 6 and 7 say. */
  lemma FlagBytes(p: Packet)
    ensures Offset(p) == 8 * OffsetUnits(p)
    ensures MoreFragments(p) <==> (p[6] / 32) % 2 == 1
    ensures DontFragment(p) <==> (p[6] / 64) % 2 == 1
  {
    var w, a, b := WordAt(p, 3), p[6] as int, p[7] as int;
    DivModUnique(w, 0x2000, a / 32, 256 * (a % 32) + b);
    DivModUnique(w, 0x4000, a / 64, 256 * (a % 64) + b);
  }

  /** Every byte of one piece. */
  ghost predicate PieceBytes(p: Packet, q: Bytes, at: nat, len: nat) {
    var units := OffsetUnits(p) + at / 8;
    var more := at + len < |p| - 20 || (p[6] / 32) % 2 == 1;
    && at + len <= |p| - 20 && |q| == 20 + len
    && q[20..] == p[20 + at..20 + at + len]
    && Pair(q[2], q[3]) == |q| % 0x1_0000
    && q[6] == 64 * ((p[6] / 64) % 2) + (if more then 32 else 0) + units / 256
    && q[7] == units % 256
    && BytesHold(q)
    && forall i :: 0 <= i < 20 && i !in {2, 3, 6, 7, 10, 11} ==> q[i] == p[i]
  }

  lemma PieceHasBytes(p: Packet, at: nat, len: nat)
    requires at % 8 == 0 && at + len <= PayloadLen(p) && Offset(p) + at <= MAX_OFFSET
    ensures PieceBytes(p, Piece(p, at, len), at, len)
  {
    hide Piece, BytesHold, Accepts, FlagWord;
    var q := Piece(p, at, len);
    PieceFields(p, at, len);
    AcceptsIffBytesHold(q);
    FlagBytes(p);
    FlagWordBytes(p, at, len, q[6], q[7]);
  }

  lemma FlagWordBytes(p: Packet, at: nat, len: nat, high: u8, low: u8)
    requires at % 8 == 0 && Offset(p) + at <= MAX_OFFSET && Pair(high, low) == FlagWord(p, at, len)
    ensures var units := OffsetUnits(p) + at / 8;
            && high == 64 * ((p[6] / 64) % 2)
                       + (if at + len < PayloadLen(p) || (p[6] / 32) % 2 == 1 then 32 else 0) + units / 256
            && low == units % 256
  {
    FlagBytes(p);
    var units := OffsetUnits(p) + at / 8;
    assert (Offset(p) + at) / 8 == units by { DivModUnique(Offset(p) + at, 8, units, 0); }
    var flags := (if DontFragment(p) then 64 else 0)
                 + (if MoreFragments(p) || at + len < PayloadLen(p) then 32 else 0);
    assert Pair(high, low) == 256 * flags + units;
    DivMod(units, 256);
    DivModUnique(256 * flags + units, 256, flags + units / 256, units % 256);
    DivModUnique(Pair(high, low), 256, high, low);
  }

  /** Piece by piece, with the positions written out. */
  lemma {:induction false} SplitAt(p: Packet, step: nat, at: nat, i: nat)
    requires step > 0 && at <= PayloadLen(p) && Addressable(p)
    ensures var start := After(at, i, step);
            && (i < |Split(p, step, at)| <==> start < PayloadLen(p))
            && (i < |Split(p, step, at)| ==> Split(p, step, at)[i] == Piece(p, start, PieceLen(p, step, start)))
    decreases i
  {
    hide Piece, Offset, Split, After;
    FirstStep(at, step);
    SplitUnfold(p, step, at);
    if at < PayloadLen(p) && i > 0 {
      OneStepMore(at, i, step);
      if step <= PayloadLen(p) - at {
        SplitAt(p, step, at + step, i - 1);
      } else {
        SplitUnfold(p, step, PayloadLen(p));
      }
    }
  }

  /** The fragmenter on bytes: with `step` the largest multiple of eight bytes that fits, there
      is one piece for every `step` payload bytes begun, and piece `i` carries those from
      `i * step` on. Its length is in bytes 2 and 3, its flags and absolute offset in bytes 6
      and 7, its checksum in bytes 10 and 11, and the rest of the header is the packet's. */
  lemma FragmentBytes(p: Bytes, maxSize: nat, i: nat)
    requires Fragment(p, maxSize).Some?
    ensures 28 <= maxSize < |p|
    ensures var step := (maxSize - 20) - (maxSize - 20) % 8;
            var at := i * step;
            && (i < |Fragment(p, maxSize).value| <==> at < |p| - 20)
            && (at < |p| - 20 ==>
                  var len := if step <= |p| - 20 - at then step else |p| - 20 - at;
                  PieceBytes(p, Fragment(p, maxSize).value[i], at, len))
  {
    hide Split, Piece, Trusted, PieceBytes;
    var step := MaxPayload(maxSize);
    SplitAt(p, step, 0, i);
    var at := i * step;
    assert After(0, i, step) == at;
    if at < PayloadLen(p) {
      MultipleOfEight(i, step);
      PieceHasBytes(p, at, PieceLen(p, step, at));
    }
  }

  lemma MultipleOfEight(i: nat, step: nat)
    requires step % 8 == 0
    ensures (i * step) % 8 == 0
  {
    assert i * step == 8 * (i * (step / 8));
  }

  /** The length field holds a piece's length exactly up to 65535 bytes, so for every limit
      up to that. */
  lemma LengthFieldExactIff(p: Bytes, maxSize: nat, i: nat)
    requires Fragment(p, maxSize).Some? && i < |Fragment(p, maxSize).value|
    ensures var q := Fragment(p, maxSize).value[i];
            && (Pair(q[2], q[3]) == |q| <==> |q| <= 0xFFFF)
            && |q| <= maxSize
  {
    hide Fragment, BytesHold;
    FragmentBytes(p, maxSize, i);
  }

  /** Beyond, it is cut to sixteen bits: a piece of 65548 bytes says 12. */
  lemma LongPieceSaysTwelve(p: Packet)
    requires Trusted(p) && Offset(p) == 0 && |p| == 65549
    ensures var r := Fragment(p, 65548);
            r.Some? && |r.value| >= 1 && |r.value[0]| == 65548 && Pair(r.value[0][2], r.value[0][3]) == 12
  {
    hide Trusted, BytesHold, Split;
    FragmentBytes(p, 65548, 0);
  }

  /** The plain splitter on bytes: only the length in bytes 2 and 3 changes. */
  lemma SliceBytes(p: Packet, at: nat, len: nat)
    requires at + len <= PayloadLen(p)
    ensures var q := Slice(p, at, len);
            && Pair(q[2], q[3]) == |q| % 0x1_0000
            && q[20..] == p[20 + at..20 + at + len]
            && forall i :: 0 <= i < 20 && i != 2 && i != 3 ==> q[i] == p[i]
  {
  }

  // ---------------------------------------------------------------- chains of re-fragmentation

  /** Two tilings side by side. */
  lemma {:induction false} TilesAppend(a: seq<Packet>, b: seq<Packet>, pa: Bytes, pb: Bytes, from: nat, more: bool)
    requires b != [] && Tiles(a, pa, from, true) && Tiles(b, pb, from + |pa|, more)
    ensures Tiles(a + b, pa + pb, from, more)
  {
    hide Legal, Offset, MoreFragments, Payload, Tiles;
    if a == [] {
      assert pa == [] by { TilesOfNothing(pa, from, true); }
      assert a + b == b && pa + pb == pb;
    } else {
      TilesUncons(a, pa, from, true);
      var f, n := a[0], PayloadLen(a[0]);
      TilesAppend(a[1..], b, pa[n..], pb, from + n, more);
      assert (pa + pb)[n..] == pa[n..] + pb;
      TilesCons(f, a[1..] + b, pa + pb, from, more);
      assert a + b == [f] + (a[1..] + b);
    }
  }

  lemma TilesOfNothing(payload: Bytes, from: nat, more: bool)
    requires Tiles([], payload, from, more)
    ensures payload == []
  {
  }

  function Replaced(fs: seq<Packet>, i: nat, pieces: seq<Packet>): seq<Packet>
    requires i < |fs|
  {
    fs[..i] + pieces + fs[i + 1..]
  }

  /** Replacing one tile by a tiling of its own byte range. */
  lemma {:induction false} TilesReplace(fs: seq<Packet>, i: nat, pieces: seq<Packet>, payload: Bytes, from: nat,
                                        more: bool)
    requires i < |fs| && Tiles(fs, payload, from, more)
    requires pieces != [] && Tiles(pieces, Payload(fs[i]), Offset(fs[i]), MoreFragments(fs[i]))
    ensures Tiles(Replaced(fs, i, pieces), payload, from, more)
  {
    hide Legal, Offset, MoreFragments, Payload, Tiles;
    TilesUncons(fs, payload, from, more);
    var f, n, rest := fs[0], PayloadLen(fs[0]), fs[1..];
    if i == 0 && rest == [] {
      assert Replaced(fs, i, pieces) == pieces;
    } else if i == 0 {
      TilesAppend(pieces, rest, Payload(f), payload[n..], from, more);
      assert Replaced(fs, i, pieces) == pieces + rest;
    } else {
      TilesReplace(rest, i - 1, pieces, payload[n..], from + n, more);
      TilesCons(f, Replaced(rest, i - 1, pieces), payload, from, more);
      assert Replaced(fs, i, pieces) == [f] + Replaced(rest, i - 1, pieces);
    }
  }

  /** One hop: the fragment at some position meets a size limit and is split there if it
      exceeds it. */
  datatype Hop = Hop(which: nat, maxSize: nat)

  function ApplyHop(fs: seq<Packet>, h: Hop): seq<Packet> {
    if h.which < |fs| && Fragment(fs[h.which], h.maxSize).Some?
    then Replaced(fs, h.which, Fragment(fs[h.which], h.maxSize).value)
    else fs
  }

  function ApplyHops(fs: seq<Packet>, hops: seq<Hop>): seq<Packet> {
    if hops == [] then fs else ApplyHop(ApplyHops(fs, hops[..|hops| - 1]), hops[|hops| - 1])
  }

  /** A hop puts the two or more pieces of the fragment it meets in its place, if it splits it
      at all. */
  lemma HopMeaning(fs: seq<Packet>, h: Hop)
    ensures h.which < |fs| && Fragment(fs[h.which], h.maxSize).Some? ==>
              var pieces := Fragment(fs[h.which], h.maxSize).value;
              && |pieces| >= 2 && |ApplyHop(fs, h)| == |fs| - 1 + |pieces|
              && ApplyHop(fs, h)[..h.which] == fs[..h.which]
              && ApplyHop(fs, h)[h.which..h.which + |pieces|] == pieces
              && ApplyHop(fs, h)[h.which + |pieces|..] == fs[h.which + 1..]
    ensures !(h.which < |fs| && Fragment(fs[h.which], h.maxSize).Some?) ==> ApplyHop(fs, h) == fs
  {
    hide Fragment;
    if h.which < |fs| && Fragment(fs[h.which], h.maxSize).Some? {
      FragmentBytes(fs[h.which], h.maxSize, 1);
    }
  }

  lemma {:induction false} TileIsLegal(fs: seq<Packet>, i: nat, payload: Bytes, from: nat, more: bool)
    requires i < |fs| && Tiles(fs, payload, from, more)
    ensures Legal(fs[i])
  {
    hide Legal, Offset, MoreFragments;
    if i > 0 {
      TileIsLegal(fs[1..], i - 1, payload[PayloadLen(fs[0])..], from + PayloadLen(fs[0]), more);
    }
  }

  lemma SameDatagramTransitive(p: Packet, q: Packet, r: Packet)
    requires SameDatagram(p, q) && SameDatagram(q, r)
    ensures SameDatagram(p, r)
  {
  }

  ghost predicate OfDatagram(fs: seq<Packet>, head: Packet) {
    forall f :: f in fs ==> SameDatagram(head, f)
  }

  /** Start from any legal packet, or from fragments that already tile a byte range, as the
      host's kernel makes them: every chain of re-fragmentations, of any pieces to any sizes,
      leaves fragments of the same datagram that tile exactly the same byte range. */
  lemma {:induction false} ChainTiles(fs: seq<Packet>, payload: Bytes, from: nat, more: bool, head: Packet,
                                      hops: seq<Hop>)
    requires Tiles(fs, payload, from, more) && OfDatagram(fs, head)
    ensures Tiles(ApplyHops(fs, hops), payload, from, more) && OfDatagram(ApplyHops(fs, hops), head)
    ensures fs != [] ==> ApplyHops(fs, hops) != []
  {
    hide Legal, Tiles, SameDatagram, Fragment;
    if hops != [] {
      ChainTiles(fs, payload, from, more, head, hops[..|hops| - 1]);
      HopTiles(ApplyHops(fs, hops[..|hops| - 1]), payload, from, more, head, hops[|hops| - 1]);
    }
  }

  lemma HopTiles(fs: seq<Packet>, payload: Bytes, from: nat, more: bool, head: Packet, h: Hop)
    requires Tiles(fs, payload, from, more) && OfDatagram(fs, head)
    ensures Tiles(ApplyHop(fs, h), payload, from, more) && OfDatagram(ApplyHop(fs, h), head)
    ensures fs != [] ==> ApplyHop(fs, h) != []
  {
    hide Legal, Offset, MoreFragments, Tiles, SameDatagram, Fragment;
    if h.which < |fs| && Fragment(fs[h.which], h.maxSize).Some? {
      var f := fs[h.which];
      TileIsLegal(fs, h.which, payload, from, more);
      FragmentNeedsRoom(f, h.maxSize);
      FragmentTiles(f, h.maxSize);
      var pieces := Fragment(f, h.maxSize).value;
      TilesReplace(fs, h.which, pieces, payload, from, more);
      forall q | q in pieces ensures SameDatagram(head, q) {
        SameDatagramTransitive(head, f, q);
      }
    }
  }

  lemma OneTile(p: Packet)
    requires Legal(p)
    ensures Tiles([p], Payload(p), Offset(p), MoreFragments(p)) && OfDatagram([p], p)
  {
    hide Legal, Offset, MoreFragments;
    assert [p][1..] == [] && Payload(p)[PayloadLen(p)..] == [];
  }

  lemma FragmentNeedsRoom(p: Packet, maxSize: nat)
    requires Fragment(p, maxSize).Some?
    ensures HEADER_LEN + 8 <= maxSize < |p|
  {
  }

  // ---------------------------------------------------------------- reassembly

  /** Reassembly as a receiver does it, from fragments in any order: repeatedly the fragment
      that starts where the bytes so far end, until More-Fragments is clear. */
  ghost function Reassemble(pool: set<Packet>, from: nat): Option<Bytes> {
    if exists f :: f in pool && Offset(f) == from then
      var f :| f in pool && Offset(f) == from;
      if !MoreFragments(f) then Some(Payload(f))
      else
        match Reassemble(pool - {f}, from + PayloadLen(f))
        case None => None
        case Some(rest) => Some(Payload(f) + rest)
    else None
  }

  lemma {:induction false} TilesStartLater(fs: seq<Packet>, payload: Bytes, from: nat, more: bool)
    requires Tiles(fs, payload, from, more)
    ensures forall q :: q in fs ==> Offset(q) >= from
  {
    if fs != [] {
      hide Offset, MoreFragments;
      TilesStartLater(fs[1..], payload[PayloadLen(fs[0])..], from + PayloadLen(fs[0]), more);
    }
  }

  lemma {:induction false} TilingReassembles(fs: seq<Packet>, payload: Bytes, from: nat)
    requires fs != [] && Tiles(fs, payload, from, false)
    ensures Reassemble(Elements(fs), from) == Some(payload)
  {
    hide Legal, Offset, MoreFragments;
    var f, rest := fs[0], fs[1..];
    var n := PayloadLen(f);
    var pool := Elements(fs);
    assert n > 0 by { LegalHasPayload(f); }
    TilesStartLater(rest, payload[n..], from + n, false);
    forall g | g in pool && Offset(g) == from ensures g == f {
      assert g == f || g in rest;
    }
    assert f in pool;
    assert pool - {f} == Elements(rest);
    if rest == [] {
      assert Payload(f) == payload;
    } else {
      TilingReassembles(rest, payload[n..], from + n);
      assert Payload(f) + payload[n..] == payload;
    }
  }

  lemma LegalHasPayload(p: Packet)
    requires Legal(p)
    ensures PayloadLen(p) > 0 && Trusted(p)
  {
  }

  /** The payload of a datagram, whole or already in fragments, survives every chain of
      re-fragmentations, in whatever order the fragments arrive. */
  lemma ChainReassembles(fs: seq<Packet>, payload: Bytes, head: Packet, hops: seq<Hop>)
    requires fs != [] && Tiles(fs, payload, 0, false) && OfDatagram(fs, head)
    ensures Reassemble(Elements(ApplyHops(fs, hops)), 0) == Some(payload)
  {
    hide Tiles, SameDatagram, Reassemble, ApplyHops;
    ChainTiles(fs, payload, 0, false, head, hops);
    TilingReassembles(ApplyHops(fs, hops), payload, 0);
  }

  /** In particular of one whole packet. */
  lemma WholePacketReassembles(p: Packet, hops: seq<Hop>)
    requires Legal(p) && Offset(p) == 0 && !MoreFragments(p)
    ensures Reassemble(Elements(ApplyHops([p], hops)), 0) == Some(Payload(p))
  {
    hide Legal, Offset, MoreFragments, Tiles, SameDatagram, Reassemble, ApplyHops;
    OneTile(p);
    ChainReassembles([p], Payload(p), p, hops);
  }
}
