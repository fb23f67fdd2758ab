/** The internal IPv6 fragment envelope: its wire form and how a packet is cut into them. */
module Ipv6Envelopes {
  import opened Options
  import opened Words

  const MAGIC: u8 := 0xF6
  const ENVELOPE_LEN: nat := 8

  // ---------------------------------------------------------------- the envelope

  datatype Envelope = Envelope(id: u32, offset: u16, more: bool, payload: Bytes)

  datatype Decoded = NotEnvelope | Malformed | Good(envelope: Envelope)

  /** Magic, id, offset and the more-fragments flag, then the payload; numbers are written
      most significant byte first. */
  function Encode(e: Envelope): (d: Bytes)
    ensures |d| == ENVELOPE_LEN + |e.payload|
  {
    [MAGIC,
     e.id / 0x100_0000, (e.id / 0x1_0000) % 0x100, (e.id / 0x100) % 0x100, e.id % 0x100,
     e.offset / 0x100, e.offset % 0x100,
     if e.more then 1 else 0] + e.payload
  }

  /** Anything with the magic and a whole header is read, an empty payload included. */
  function Decode(d: Bytes): Decoded {
    if |d| == 0 || d[0] != MAGIC then NotEnvelope
    else if |d| < ENVELOPE_LEN then Malformed
    else
      var id := (d[1] as int) * 0x100_0000 + (d[2] as int) * 0x1_0000 + (d[3] as int) * 0x100 + (d[4] as int);
      var offset := (d[5] as int) * 0x100 + (d[6] as int);
      Good(Envelope(id, offset, d[7] != 0, d[ENVELOPE_LEN..]))
  }

  lemma DecodeEncode(e: Envelope)
    ensures Decode(Encode(e)) == Good(e)
  {
    var d := Encode(e);
    assert d[ENVELOPE_LEN..] == e.payload;
    WordOfBytes(e.id);
    assert d[5] == e.offset / 0x100 && d[6] == e.offset % 0x100;
  }

  /** What is read determines the datagram, up to the spelling of a set flag. */
  lemma EncodeDecode(d: Bytes)
    requires Decode(d).Good?
    ensures |d| >= ENVELOPE_LEN
    ensures Encode(Decode(d).envelope) == d[7 := if d[7] == 0 then 0 else 1]
  {
    var e := Decode(d).envelope;
    var back := Encode(e);
    BytesOfWord(d[1], d[2], d[3], d[4]);
    assert back[5] == d[5] && back[6] == d[6];
    assert forall i :: ENVELOPE_LEN <= i < |d| ==> back[i] == e.payload[i - ENVELOPE_LEN] == d[i];
  }

  /** A datagram that starts with an IP version nibble, 4 or 6, is never an envelope. */
  lemma IpPacketsAreNotEnvelopes(d: Bytes)
    requires d != [] && (d[0] / 16 == 4 || d[0] / 16 == 6)
    ensures Decode(d).NotEnvelope?
  {
  }

  // ---------------------------------------------------------------- splitting

  function PieceLen(packet: Bytes, step: nat, at: nat): nat
    requires at <= |packet|
  {
    if step <= |packet| - at then step else |packet| - at
  }

  /** The envelope of the bytes that start at `at`. */
  function EnvelopeAt(packet: Bytes, id: u32, step: nat, at: nat): (e: Envelope)
    requires at <= |packet| <= 0xFFFF
    ensures |e.payload| == PieceLen(packet, step, at)
  {
    var len := PieceLen(packet, step, at);
    Envelope(id, at, at + len < |packet|, packet[at..at + len])
  }

  function EnvelopesFrom(packet: Bytes, id: u32, step: nat, at: nat): seq<Bytes>
    requires step > 0 && at <= |packet| <= 0xFFFF
    decreases |packet| - at
  {
    if at == |packet| then []
    else [Encode(EnvelopeAt(packet, id, step, at))] + EnvelopesFrom(packet, id, step, at + PieceLen(packet, step, at))
  }

  method FragmentIpv6(packet: Bytes, id: u32, maxSize: nat) returns (r: Option<seq<Bytes>>)
    ensures r == if |packet| <= maxSize || maxSize <= 8 || |packet| > 65535 then None
                 else Some(EnvelopesFrom(packet, id, maxSize - 8, 0))
    ensures r.Some? ==> forall d :: d in r.value ==> |d| <= maxSize
  {
    hide Encode, EnvelopeAt, EnvelopesFrom;
    if |packet| <= maxSize || maxSize <= ENVELOPE_LEN || |packet| > 0xFFFF {
      return None;
    }
    var step := maxSize - ENVELOPE_LEN;
    var out: seq<Bytes> := [];
    var at := 0;
    while at < |packet|
      invariant 0 <= at <= |packet|
      invariant out + EnvelopesFrom(packet, id, step, at) == EnvelopesFrom(packet, id, step, 0)
      decreases |packet| - at
    {
      var next := Encode(EnvelopeAt(packet, id, step, at));
      EnvelopesUnfold(packet, id, step, at);
      assert (out + [next]) + EnvelopesFrom(packet, id, step, at + PieceLen(packet, step, at))
          == out + EnvelopesFrom(packet, id, step, at);
      out := out + [next];
      at := at + PieceLen(packet, step, at);
    }
    EnvelopesUnfold(packet, id, step, at);
    assert out + [] == out;
    EnvelopesFit(packet, id, step, 0);
    return Some(out);
  }

  lemma EnvelopesUnfold(packet: Bytes, id: u32, step: nat, at: nat)
    requires step > 0 && at <= |packet| <= 0xFFFF
    ensures EnvelopesFrom(packet, id, step, at) ==
            if at == |packet| then []
            else [Encode(EnvelopeAt(packet, id, step, at))]
                 + EnvelopesFrom(packet, id, step, at + PieceLen(packet, step, at))
  {
  }

  lemma {:induction false} EnvelopesFit(packet: Bytes, id: u32, step: nat, at: nat)
    requires step > 0 && at <= |packet| <= 0xFFFF
    ensures forall d :: d in EnvelopesFrom(packet, id, step, at) ==> ENVELOPE_LEN < |d| <= ENVELOPE_LEN + step
    decreases |packet| - at
  {
    hide Encode, EnvelopeAt;
    if at < |packet| {
      EnvelopesFit(packet, id, step, at + PieceLen(packet, step, at));
    }
  }

  /** Every byte of the envelope of `len` packet bytes from `at` on. */
  ghost predicate EnvelopeBytes(packet: Bytes, id: u32, d: Bytes, at: nat, len: nat) {
    && at + len <= |packet| && |d| == 8 + len && d[8..] == packet[at..at + len]
    && d[0] == 0xF6 && d[7] == (if at + len < |packet| then 1 else 0)
    && (d[1] as int) * 0x100_0000 + (d[2] as int) * 0x1_0000 + (d[3] as int) * 0x100 + (d[4] as int) == id
    && (d[5] as int) * 0x100 + (d[6] as int) == at
  }

  lemma EnvelopeAtBytes(packet: Bytes, id: u32, step: nat, at: nat)
    requires at <= |packet| <= 0xFFFF
    ensures EnvelopeBytes(packet, id, Encode(EnvelopeAt(packet, id, step, at)), at, PieceLen(packet, step, at))
  {
    var e := EnvelopeAt(packet, id, step, at);
    var d := Encode(e);
    assert d[8..] == e.payload;
    WordOfBytes(id);
    assert d[5] == e.offset / 0x100 && d[6] == e.offset % 0x100;
  }

  lemma {:induction false} EnvelopesAt(packet: Bytes, id: u32, step: nat, at: nat, i: nat)
    requires step > 0 && at <= |packet| <= 0xFFFF
    ensures var ds, start := EnvelopesFrom(packet, id, step, at), After(at, i, step);
            && (i < |ds| <==> start < |packet|)
            && (i < |ds| ==> ds[i] == Encode(EnvelopeAt(packet, id, step, start)))
    decreases i
  {
    hide Encode, EnvelopeAt, EnvelopesFrom, After;
    FirstStep(at, step);
    EnvelopesUnfold(packet, id, step, at);
    if at < |packet| && i > 0 {
      OneStepMore(at, i, step);
      if step <= |packet| - at {
        EnvelopesAt(packet, id, step, at + step, i - 1);
      } else {
        EnvelopesUnfold(packet, id, step, |packet|);
      }
    }
  }

  /** The splitter on bytes, with `step` the packet bytes that fit an envelope: one envelope
      for every `step` bytes begun, each but the last full, the flag clear on the last alone. */
  lemma SplitBytes(packet: Bytes, id: u32, step: nat, i: nat)
    requires step > 0 && |packet| <= 0xFFFF
    ensures var ds, at := EnvelopesFrom(packet, id, step, 0), i * step;
            && (i < |ds| <==> at < |packet|)
            && (i < |ds| ==>
                  EnvelopeBytes(packet, id, ds[i], at, if step <= |packet| - at then step else |packet| - at))
  {
    hide EnvelopeBytes, EnvelopesFrom, Encode, EnvelopeAt;
    EnvelopesAt(packet, id, step, 0, i);
    var at := i * step;
    assert After(0, i, step) == at;
    if at < |packet| {
      EnvelopeAtBytes(packet, id, step, at);
    }
  }

  /** The offsets at which a packet is cut, from `at` on. */
  ghost function Starts(packet: Bytes, step: nat, at: nat): (s: set<nat>)
    requires step > 0 && at <= |packet|
    ensures forall x :: x in s ==> at <= x < |packet|
    decreases |packet| - at
  {
    if at == |packet| then {} else {at} + Starts(packet, step, at + PieceLen(packet, step, at))
  }

  /** The envelopes sent are exactly those of the cut offsets. */
  lemma {:induction false} SentAreStarts(packet: Bytes, id: u32, step: nat, at: nat, d: Bytes)
    requires step > 0 && at <= |packet| <= 0xFFFF
    ensures d in EnvelopesFrom(packet, id, step, at)
       <==> exists x :: x in Starts(packet, step, at) && d == Encode(EnvelopeAt(packet, id, step, x))
    decreases |packet| - at
  {
    hide Encode, EnvelopeAt;
    if at < |packet| {
      SentAreStarts(packet, id, step, at + PieceLen(packet, step, at), d);
    }
  }
}
