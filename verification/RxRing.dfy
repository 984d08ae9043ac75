// The receive ring: packets as the chip stores them in the wrapping memory 0x0C00-0x3FFF.

module RxRing {
  import opened Bytes
  import opened BusMode

  const RX_START := 0x0C00
  const RX_END := 0x4000
  const RX_SIZE := 0x3400

  // The address k bytes further round the ring.
  function RxAdd(p: nat, k: nat): (q: nat)
    requires RX_START <= p < RX_END && k <= RX_SIZE
    ensures RX_START <= q < RX_END
  {
    if p + k < RX_END then p + k else p + k - RX_SIZE
  }

  // Any status bit but bit 6, which marks a multicast packet, makes the driver drop the packet.
  datatype Packet = Packet(status: byte, length: u16, payload: seq<byte>) {
    predicate Good() {
      status % 0x40 == 0 && status < 0x80
    }

    // What the chip promises: padding up to whole bus accesses, and room for the CRC in a good packet.
    predicate WellFormed(mode: Mode) {
      |payload| == Span(length, mode) && (Good() ==> length >= 4)
    }

    // The frame a good packet carries, without its 4-byte CRC.
    function Frame(): seq<byte> {
      if 4 <= length <= |payload| + 4 then payload[..length - 4] else []
    }

    // The four header bytes and the payload.
    function Image(): (s: seq<byte>)
      ensures |s| == 4 + |payload|
    {
      [1, status, Low(length), High(length)] + payload
    }
  }

  // No error bit is set. Bit 0x40 is not one of them.
  predicate NoError(status: byte) {
    && !Bit(status, 0x01) && !Bit(status, 0x02) && !Bit(status, 0x04) && !Bit(status, 0x08)
    && !Bit(status, 0x10) && !Bit(status, 0x20) && !Bit(status, 0x80)
  }

  lemma GoodBits(p: Packet)
    ensures p.Good() <==> NoError(p.status)
  {
    var x := p.status;
    var a, b := x / 2, x / 4;
    assert x / 4 == a / 2 && x / 8 == b / 2 && x / 0x10 == b / 2 / 2 && x / 0x20 == b / 2 / 2 / 2;
    assert x / 0x40 == x / 0x20 / 2 && x / 0x80 == x / 0x40 / 2;
  }

  // A multicast packet is as good as the same packet without the multicast bit.
  lemma MulticastBit(p: Packet)
    requires !Bit(p.status, 0x40)
    ensures p.status + 0x40 < 0x100 && p.(status := p.status + 0x40).Good() == p.Good()
  {
    assert p.status / 0x40 % 2 == 0;
  }

  function Encode(packets: seq<Packet>): seq<byte> {
    if packets == [] then [] else packets[0].Image() + Encode(packets[1..])
  }

  lemma {:induction false} EncodeConcat(a: seq<Packet>, b: seq<Packet>)
    ensures Encode(a + b) == Encode(a) + Encode(b)
  {
    if a == [] {
      assert a + b == b;
    } else {
      var first, rest := a[0].Image(), Encode(a[1..]);
      EncodeConcat(a[1..], b);
      assert (a + b)[0] == a[0] && (a + b)[1..] == a[1..] + b;
      assert Encode(a + b) == first + (rest + Encode(b));
      assert first + (rest + Encode(b)) == (first + rest) + Encode(b);
    }
  }

  ghost predicate AllWellFormed(packets: seq<Packet>, mode: Mode) {
    forall p <- packets :: p.WellFormed(mode)
  }

  // Round the ring from p, memory holds exactly `bytes`.
  ghost predicate Holds(sram: seq<byte>, p: nat, bytes: seq<byte>)
    requires |sram| == RX_END && RX_START <= p < RX_END
  {
    |bytes| <= RX_SIZE && forall k :: 0 <= k < |bytes| ==> sram[RxAdd(p, k)] == bytes[k]
  }

  lemma HoldsSplit(sram: seq<byte>, p: nat, a: seq<byte>, b: seq<byte>)
    requires |sram| == RX_END && RX_START <= p < RX_END
    requires Holds(sram, p, a + b)
    ensures Holds(sram, p, a)
    ensures Holds(sram, RxAdd(p, |a|), b)
  {
    forall k | 0 <= k < |a|
      ensures sram[RxAdd(p, k)] == a[k]
    {
      assert (a + b)[k] == a[k];
    }
    forall k | 0 <= k < |b|
      ensures sram[RxAdd(RxAdd(p, |a|), k)] == b[k]
    {
      assert RxAdd(RxAdd(p, |a|), k) == RxAdd(p, |a| + k);
      assert (a + b)[|a| + k] == b[k];
    }
  }

  lemma HoldsNothing(sram: seq<byte>, p: nat)
    requires |sram| == RX_END && RX_START <= p < RX_END
    ensures Holds(sram, p, [])
  {
  }

  // One access that does not cross the end of the ring extends what has been read.
  lemma HoldsNext(sram: seq<byte>, p: nat, bytes: seq<byte>, width: nat)
    requires |sram| == RX_END && RX_START <= p < RX_END
    requires Holds(sram, p, bytes) && 0 < width && |bytes| + width <= RX_SIZE
    requires RxAdd(p, |bytes|) + width <= RX_END
    ensures var q := RxAdd(p, |bytes|);
      && Holds(sram, p, bytes + sram[q..q + width])
      && RxAdd(p, |bytes| + width) == if q + width == RX_END then RX_START else q + width
  {
    var q := RxAdd(p, |bytes|);
    var more := bytes + sram[q..q + width];
    forall k | |bytes| <= k < |more|
      ensures sram[RxAdd(p, k)] == more[k]
    {
      assert RxAdd(p, k) == q + (k - |bytes|);
    }
  }

  // A ready byte ends the packets: 0 when the ring is drained, more than 1 when it is corrupt.
  type EndByte = b: byte | b != 1 witness 0

  // The ring at read pointer p: the packets not yet read, then the end byte.
  ghost predicate RingHolds(sram: seq<byte>, p: nat, mode: Mode, pending: seq<Packet>, end: EndByte)
  {
    && |sram| == RX_END && RX_START <= p < RX_END
    && Aligned(p, mode)
    && AllWellFormed(pending, mode)
    && Holds(sram, p, Encode(pending) + [end])
  }

  lemma RingEnd(sram: seq<byte>, p: nat, mode: Mode, end: EndByte)
    requires RingHolds(sram, p, mode, [], end)
    ensures sram[p] == end
  {
    assert sram[RxAdd(p, 0)] == (Encode([]) + [end])[0];
  }

  lemma ImageHeld(sram: seq<byte>, p: nat, first: Packet)
    requires |sram| == RX_END && RX_START <= p < RX_END
    requires Holds(sram, p, first.Image())
    ensures sram[p] == 1 && sram[RxAdd(p, 1)] == first.status
    ensures sram[RxAdd(p, 2)] == Low(first.length) && sram[RxAdd(p, 3)] == High(first.length)
    ensures Holds(sram, RxAdd(p, 4), first.payload)
  {
    var header: seq<byte> := [1, first.status, Low(first.length), High(first.length)];
    HoldsSplit(sram, p, header, first.payload);
    assert sram[RxAdd(p, 0)] == header[0] && sram[RxAdd(p, 1)] == header[1];
    assert sram[RxAdd(p, 2)] == header[2] && sram[RxAdd(p, 3)] == header[3];
  }

  // The byte at the read pointer tells whether a packet is pending.
  lemma FirstOrEnd(sram: seq<byte>, p: nat, mode: Mode, pending: seq<Packet>, end: EndByte)
    requires RingHolds(sram, p, mode, pending, end)
    ensures sram[p] == if pending == [] then end else 1
  {
    if pending == [] {
      RingEnd(sram, p, mode, end);
    } else {
      RingFirst(sram, p, mode, pending, end);
      ImageHeld(sram, p, pending[0]);
    }
  }

  // What the driver finds at the read pointer when a packet is pending, and what it finds behind it.
  lemma RingFirst(sram: seq<byte>, p: nat, mode: Mode, pending: seq<Packet>, end: EndByte)
    requires RingHolds(sram, p, mode, pending, end) && pending != []
    ensures pending[0].WellFormed(mode) && 4 + |pending[0].payload| <= RX_SIZE
    ensures Holds(sram, p, pending[0].Image())
    ensures RingHolds(sram, RxAdd(p, |pending[0].Image()|), mode, pending[1..], end)
  {
    hide Holds, AllWellFormed, RxAdd;
    var first := pending[0];
    SomeWellFormed(pending, mode);
    var image, rest := first.Image(), Encode(pending[1..]) + [end];
    assert Encode(pending) + [end] == image + rest;
    HoldsSplit(sram, p, image, rest);
    SpanCovers(first.length, mode);
    HoldsShort(sram, p, image);
    AlignedAdd(p, |image|, mode);
  }

  lemma SomeWellFormed(packets: seq<Packet>, mode: Mode)
    requires AllWellFormed(packets, mode) && packets != []
    ensures packets[0].WellFormed(mode) && AllWellFormed(packets[1..], mode)
  {
    assert packets[0] in packets;
    assert forall p <- packets[1..] :: p in packets;
  }

  lemma HoldsShort(sram: seq<byte>, p: nat, bytes: seq<byte>)
    requires |sram| == RX_END && RX_START <= p < RX_END && Holds(sram, p, bytes)
    ensures |bytes| <= RX_SIZE
  {
  }

  // The same, field by field.
  lemma FirstPacket(sram: seq<byte>, p: nat, mode: Mode, pending: seq<Packet>, end: EndByte)
    requires RingHolds(sram, p, mode, pending, end) && pending != []
    ensures pending[0].WellFormed(mode) && 4 + |pending[0].payload| <= RX_SIZE
    ensures sram[p] == 1 && sram[RxAdd(p, 1)] == pending[0].status
    ensures Join(sram[RxAdd(p, 2)], sram[RxAdd(p, 3)]) == pending[0].length
    ensures Holds(sram, RxAdd(p, 4), pending[0].payload)
    ensures Aligned(RxAdd(p, 4), mode)
    ensures RxAdd(RxAdd(p, 4), |pending[0].payload|) == RxAdd(p, |pending[0].Image()|)
    ensures RingHolds(sram, RxAdd(p, |pending[0].Image()|), mode, pending[1..], end)
  {
    hide Holds, Encode, AllWellFormed;
    RingFirst(sram, p, mode, pending, end);
    ImageHeld(sram, p, pending[0]);
    JoinHalves(pending[0].length);
    AlignedAdd(p, 4, mode);
  }

  lemma AlignedAdd(p: nat, k: nat, mode: Mode)
    requires RX_START <= p < RX_END && k <= RX_SIZE
    requires Aligned(p, mode) && Aligned(k, mode)
    ensures Aligned(RxAdd(p, k), mode)
  {
    match mode
    case ByteMode =>
    case WordMode =>
      var c := p / 2 + k / 2;
      assert p + k == 2 * c;
      EvenMultiple(if p + k < RX_END then c else c - 0x1A00);
    case DwordMode =>
      var c := p / 4 + k / 4;
      assert p + k == 4 * c;
      EvenMultiple(if p + k < RX_END then c else c - 0xD00);
  }

  lemma EvenMultiple(c: int)
    ensures 2 * c % 2 == 0 && 4 * c % 4 == 0
  {
  }

  // The ring depends on its own memory only.
  lemma RingUntouched(sram: seq<byte>, sram': seq<byte>, p: nat, mode: Mode, pending: seq<Packet>, end: EndByte)
    requires RingHolds(sram, p, mode, pending, end)
    requires |sram'| == RX_END && sram'[RX_START..] == sram[RX_START..]
    ensures RingHolds(sram', p, mode, pending, end)
  {
    forall i | RX_START <= i < RX_END
      ensures sram'[i] == sram[i]
    {
      assert sram'[i] == sram'[RX_START..][i - RX_START];
    }
  }

  // An empty ring.
  lemma EmptyHolds(sram: seq<byte>, mode: Mode)
    requires |sram| == RX_END && sram[RX_START] == 0
    ensures RingHolds(sram, RX_START, mode, [], 0)
  {
    assert Encode([]) + [0] == [0];
  }

  // No access crosses the end of the ring.
  lemma FitsBeforeEnd(p: nat, mode: Mode)
    requires p < RX_END && Aligned(p, mode)
    ensures p + Width(mode) <= RX_END
  {
    match mode
    case ByteMode =>
    case WordMode =>
    case DwordMode =>
  }

  // The chip's side ------------------------------------------------------------------------

  predicate Fits(pending: seq<Packet>, mode: Mode, p: Packet) {
    p.WellFormed(mode) && |Encode(pending)| + |p.Image()| + 1 <= RX_SIZE
  }

  // The chip stores arriving packets behind the pending ones and loses what does not fit.
  function Arrive(pending: seq<Packet>, mode: Mode, arriving: seq<Packet>): (r: seq<Packet>)
    ensures pending <= r && |r| <= |pending| + |arriving|
    decreases |arriving|
  {
    if arriving == [] then pending
    else if Fits(pending, mode, arriving[0]) then Arrive(pending + [arriving[0]], mode, arriving[1..])
    else Arrive(pending, mode, arriving[1..])
  }

  // Memory after `bytes` were written round the ring from p.
  function Fill(sram: seq<byte>, p: nat, bytes: seq<byte>): (r: seq<byte>)
    requires |sram| == RX_END && RX_START <= p < RX_END && |bytes| <= RX_SIZE
    ensures |r| == |sram|
  {
    seq(|sram|, i requires 0 <= i < |sram| =>
      if p <= i < p + |bytes| then bytes[i - p]
      else if RX_START <= i < p && i + RX_SIZE < p + |bytes| then bytes[i + RX_SIZE - p]
      else sram[i])
  }

  lemma FillHolds(sram: seq<byte>, p: nat, kept: seq<byte>, added: seq<byte>)
    requires |sram| == RX_END && RX_START <= p < RX_END
    requires |kept| + |added| <= RX_SIZE
    requires Holds(sram, p, kept)
    ensures Holds(Fill(sram, RxAdd(p, |kept|), added), p, kept + added)
    ensures Fill(sram, RxAdd(p, |kept|), added)[..RX_START] == sram[..RX_START]
  {
    var q := RxAdd(p, |kept|);
    var r := Fill(sram, q, added);
    forall k | 0 <= k < |kept + added|
      ensures r[RxAdd(p, k)] == (kept + added)[k]
    {
      if k >= |kept| {
        assert RxAdd(p, k) == RxAdd(q, k - |kept|);
      }
    }
  }

  // The chip keeps the ring in order when it stores packets behind the pending ones.
  lemma ArrivalHolds(sram: seq<byte>, p: nat, mode: Mode, pending: seq<Packet>, end: EndByte, added: seq<Packet>)
    requires RingHolds(sram, p, mode, pending, end)
    requires AllWellFormed(added, mode) && |Encode(pending + added)| < RX_SIZE
    ensures |Encode(pending)| + |Encode(added)| < RX_SIZE
    ensures var filled := Fill(sram, RxAdd(p, |Encode(pending)|), Encode(added) + [0]);
      RingHolds(filled, p, mode, pending + added, 0) && filled[..RX_START] == sram[..RX_START]
  {
    EncodeConcat(pending, added);
    HoldsSplit(sram, p, Encode(pending), [end]);
    FillHolds(sram, p, Encode(pending), Encode(added) + [0]);
    assert Encode(pending + added) + [0] == Encode(pending) + (Encode(added) + [0]);
  }

  lemma CorruptionHolds(sram: seq<byte>, p: nat, mode: Mode, pending: seq<Packet>, end: EndByte, end': EndByte)
    requires RingHolds(sram, p, mode, pending, end)
    ensures var filled := Fill(sram, RxAdd(p, |Encode(pending)|), [end']);
      RingHolds(filled, p, mode, pending, end') && filled[..RX_START] == sram[..RX_START]
  {
    HoldsSplit(sram, p, Encode(pending), [end]);
    FillHolds(sram, p, Encode(pending), [end']);
  }

  // Memory decides which packets it holds: no two lists have images one of which begins the other.
  lemma {:induction false} RingDecides(sram: seq<byte>, p: nat, mode: Mode,
                                       a: seq<Packet>, endA: EndByte, b: seq<Packet>, endB: EndByte)
    requires RingHolds(sram, p, mode, a, endA) && RingHolds(sram, p, mode, b, endB)
    ensures a == b && endA == endB
    decreases |a|
  {
    FirstOrEnd(sram, p, mode, a, endA);
    FirstOrEnd(sram, p, mode, b, endB);
    if a != [] {
      SameFirst(sram, p, mode, a, endA, b, endB);
      RingFirst(sram, p, mode, a, endA);
      RingFirst(sram, p, mode, b, endB);
      RingDecides(sram, RxAdd(p, |a[0].Image()|), mode, a[1..], endA, b[1..], endB);
      assert a == [a[0]] + a[1..] && b == [b[0]] + b[1..];
    }
  }

  lemma SameFirst(sram: seq<byte>, p: nat, mode: Mode,
                  a: seq<Packet>, endA: EndByte, b: seq<Packet>, endB: EndByte)
    requires RingHolds(sram, p, mode, a, endA) && RingHolds(sram, p, mode, b, endB)
    requires a != [] && b != []
    ensures a[0] == b[0]
  {
    FirstPacket(sram, p, mode, a, endA);
    FirstPacket(sram, p, mode, b, endB);
    var q := RxAdd(p, 4);
    forall k | 0 <= k < |a[0].payload|
      ensures a[0].payload[k] == b[0].payload[k]
    {
      assert sram[RxAdd(q, k)] == a[0].payload[k];
    }
    assert a[0].payload == b[0].payload;
  }
}
