// What reception keeps over whole runs, and what one call of the receive loop does to a ring of packets.

module ReceiveProperties {
  import opened Bytes
  import opened BusMode
  import opened RxRing
  import opened NetModel

  // What the stack must see of a list of packets, and what must be counted ------------------

  // The frames of the good packets, in order.
  function Frames(packets: seq<Packet>): seq<seq<byte>> {
    if packets == [] then []
    else (if NoError(packets[0].status) then [packets[0].Frame()] else []) + Frames(packets[1..])
  }

  function Count(packets: seq<Packet>, which: Packet -> bool): nat {
    if packets == [] then 0 else (if which(packets[0]) then 1 else 0) + Count(packets[1..], which)
  }

  function GoodBytes(packets: seq<Packet>): nat {
    if packets == [] then 0 else (if NoError(packets[0].status) then packets[0].length else 0) + GoodBytes(packets[1..])
  }

  lemma {:induction false} FramesConcat(a: seq<Packet>, b: seq<Packet>)
    ensures Frames(a + b) == Frames(a) + Frames(b)
  {
    if a == [] {
      assert a + b == b;
    } else {
      assert (a + b)[1..] == a[1..] + b;
      FramesConcat(a[1..], b);
    }
  }

  lemma {:induction false} CountConcat(a: seq<Packet>, b: seq<Packet>, which: Packet -> bool)
    ensures Count(a + b, which) == Count(a, which) + Count(b, which)
  {
    if a == [] {
      assert a + b == b;
    } else {
      assert (a + b)[1..] == a[1..] + b;
      CountConcat(a[1..], b, which);
    }
  }

  lemma {:induction false} GoodBytesConcat(a: seq<Packet>, b: seq<Packet>)
    ensures GoodBytes(a + b) == GoodBytes(a) + GoodBytes(b)
  {
    if a == [] {
      assert a + b == b;
    } else {
      assert (a + b)[1..] == a[1..] + b;
      GoodBytesConcat(a[1..], b);
    }
  }

  const IsGood: Packet -> bool := (p: Packet) => NoError(p.status)
  const IsDropped: Packet -> bool := (p: Packet) => !NoError(p.status)
  const HasFifoError: Packet -> bool := (p: Packet) => Bit(p.status, 0x01)
  const HasCrcError: Packet -> bool := (p: Packet) => Bit(p.status, 0x02)
  const HasLengthError: Packet -> bool := (p: Packet) => Bit(p.status, 0x80)

  // Every packet the chip stored was consumed once or is still waiting, in order; the stack has
  // got exactly the frames of the good ones among the consumed.
  ghost predicate ExactlyOnce(n: Net) {
    && n.taken + n.pending == n.stored
    && n.delivered == Frames(n.taken)
  }

  // The counters add up to the packets consumed.
  ghost predicate Accounted(n: Net) {
    && n.stats.rxPackets == Count(n.taken, IsGood)
    && n.stats.rxPackets + Count(n.taken, IsDropped) == |n.taken|
    && n.stats.rxBytes == GoodBytes(n.taken)
    && n.stats.rxFifoErrors == Count(n.taken, HasFifoError)
    && n.stats.rxCrcErrors == Count(n.taken, HasCrcError)
    && n.stats.rxLengthErrors == Count(n.taken, HasLengthError)
  }

  lemma TakeKeeps(n: Net)
    requires n.open && Sound(n) && n.pending != []
    requires ExactlyOnce(n) && Accounted(n)
    ensures ExactlyOnce(TakeStep(n)) && Accounted(TakeStep(n))
  {
    hide Frames, Count, GoodBytes, Sound, Encode;
    var p := n.pending[0];
    assert n.taken + n.pending == (n.taken + [p]) + n.pending[1..];
    OneMore(n.taken, p);
    CountOneMore(n.taken, p, IsGood);
    CountOneMore(n.taken, p, IsDropped);
    CountOneMore(n.taken, p, HasFifoError);
    CountOneMore(n.taken, p, HasCrcError);
    CountOneMore(n.taken, p, HasLengthError);
    GoodBits(p);
  }

  lemma OneMore(packets: seq<Packet>, p: Packet)
    ensures Frames(packets + [p]) == Frames(packets) + if NoError(p.status) then [p.Frame()] else []
    ensures GoodBytes(packets + [p]) == GoodBytes(packets) + if NoError(p.status) then p.length else 0
  {
    FramesConcat(packets, [p]);
    GoodBytesConcat(packets, [p]);
  }

  lemma CountOneMore(packets: seq<Packet>, p: Packet, which: Packet -> bool)
    ensures Count(packets + [p], which) == Count(packets, which) + if which(p) then 1 else 0
  {
    CountConcat(packets, [p], which);
  }

  // What taking the first packet means in memory: the header is at the read pointer, the payload 4 bytes on.
  // Without an error bit the payload, less its last four bytes, is delivered and counted; with one, each
  // kind of error the driver distinguishes is counted. Either way the pointer moves past both.
  lemma TakeReadsMemory(n: Net, sram: seq<byte>)
    requires n.open && Sound(n) && n.pending != []
    requires RingHolds(sram, n.rxPos, n.mode, n.pending, n.end)
    ensures var t, p, status := TakeStep(n), n.rxPos, sram[RxAdd(n.rxPos, 1)];
      var length := Join(sram[RxAdd(p, 2)], sram[RxAdd(p, 3)]);
      && 4 + Span(length, n.mode) <= 0x3400 && t.rxPos == RxAdd(p, 4 + Span(length, n.mode))
      && if !Bit(status, 0x01) && !Bit(status, 0x02) && !Bit(status, 0x04) && !Bit(status, 0x08)
            && !Bit(status, 0x10) && !Bit(status, 0x20) && !Bit(status, 0x80)
         then
           && 4 <= length && |t.delivered| == |n.delivered| + 1 && t.delivered[..|n.delivered|] == n.delivered
           && |t.delivered[|n.delivered|]| == length - 4
           && (forall k :: 0 <= k < length - 4 ==> t.delivered[|n.delivered|][k] == sram[RxAdd(RxAdd(p, 4), k)])
           && t.stats == n.stats.(rxPackets := n.stats.rxPackets + 1, rxBytes := n.stats.rxBytes + length)
           && t.cont == n.cont + 1
         else
           && t.delivered == n.delivered && t.cont == n.cont
           && t.stats == n.stats.(
                rxFifoErrors := n.stats.rxFifoErrors + (if Bit(status, 0x01) then 1 else 0),
                rxCrcErrors := n.stats.rxCrcErrors + (if Bit(status, 0x02) then 1 else 0),
                rxLengthErrors := n.stats.rxLengthErrors + (if Bit(status, 0x80) then 1 else 0))
  {
    hide Bit, Encode, AllWellFormed;
    FirstPacket(sram, n.rxPos, n.mode, n.pending, n.end);
    GoodBits(n.pending[0]);
    SpanCovers(n.pending[0].length, n.mode);
  }

  lemma ArrivalKeeps(n: Net, packets: seq<Packet>)
    requires n.open && Sound(n)
    requires ExactlyOnce(n) && Accounted(n)
    ensures ExactlyOnce(ArrivalStep(n, packets)) && Accounted(ArrivalStep(n, packets))
  {
    hide Accounted, Frames, Sound, Encode;
    var q := Arrive(n.pending, n.mode, packets);
    assert q == n.pending + q[|n.pending|..];
    StatsFrame(n, ArrivalStep(n, packets));
  }

  lemma StatsFrame(n: Net, m: Net)
    requires m.taken == n.taken && m.stats == n.stats
    ensures Accounted(m) == Accounted(n)
  {
  }

  lemma {:induction false} DrainKeeps(n: Net, ticks: seq<RxTick>)
    requires n.open && Sound(n)
    requires ExactlyOnce(n) && Accounted(n)
    ensures ExactlyOnce(Drain(n, ticks).0) && Accounted(Drain(n, ticks).0)
    decreases |n.pending| + Arriving(ticks)
  {
    hide ArrivalStep, TakeStep, Encode, ExactlyOnce, Accounted;
    var m := ArrivalStep(n, FirstTick(ticks).arriving);
    ArrivalKeeps(n, FirstTick(ticks).arriving);
    if m.pending != [] && (m.pending[0].Good() ==> FirstTick(ticks).alloc) {
      TakeKeeps(m);
      if !(m.pending[0].Good() && TakeStep(m).cont >= CONT_RX_PKT_CNT) {
        DrainKeeps(TakeStep(m), LaterTicks(ticks));
      }
    }
  }

  // One call ----------------------------------------------------------------------------------

  // What the loop consumed: the packets taken since n.
  function Consumed(n: Net, m: Net): seq<Packet>
    requires n.taken <= m.taken
  {
    m.taken[|n.taken|..]
  }

  // The loop ends for one of four reasons, each visible in the state it leaves; it stops before the
  // ring is drained only for want of memory or at the quota, which the last packet taken completes.
  ghost predicate EndsAs(n: Net, m: Net, outcome: Outcome)
    requires n.taken <= m.taken
  {
    && m.cont == n.cont + Count(Consumed(n, m), IsGood)
    && match outcome
       case Drained => m.pending == [] && m.end == 0 && m.cont < CONT_RX_PKT_CNT
       case Corrupt => m.pending == [] && m.end > 1 && m.cont < CONT_RX_PKT_CNT
       case NoMemory => m.pending != [] && m.pending[0].Good() && m.cont < CONT_RX_PKT_CNT
       case Quota => m.cont == CONT_RX_PKT_CNT && Consumed(n, m) != [] && Consumed(n, m)[|Consumed(n, m)| - 1].Good()
  }

  lemma TakeConsumes(n: Net, packets: seq<Packet>)
    requires n.open && Sound(n) && ArrivalStep(n, packets).pending != []
    ensures var m := ArrivalStep(n, packets);
      && TakeStep(m).taken == n.taken + [m.pending[0]]
      && TakeStep(m).cont == n.cont + (if m.pending[0].Good() then 1 else 0)
  {
  }

  // Taking p first and then reaching m is reaching m.
  lemma EndsAfter(n: Net, p: Packet, t: Net, m: Net, outcome: Outcome)
    requires t.taken == n.taken + [p] && t.cont == n.cont + (if p.Good() then 1 else 0)
    requires t.taken <= m.taken && EndsAs(t, m, outcome)
    ensures EndsAs(n, m, outcome)
  {
    GoodBits(p);
    assert Consumed(n, m) == [p] + Consumed(t, m);
  }

  lemma {:induction false} DrainEnds(n: Net, ticks: seq<RxTick>)
    requires n.open && Sound(n) && n.cont < CONT_RX_PKT_CNT
    ensures EndsAs(n, Drain(n, ticks).0, Drain(n, ticks).1)
    decreases |n.pending| + Arriving(ticks)
  {
    hide ArrivalStep, TakeStep, Encode;
    var r := Drain(n, ticks);
    var m := ArrivalStep(n, FirstTick(ticks).arriving);
    if m.pending == [] || (m.pending[0].Good() && !FirstTick(ticks).alloc) {
      assert Consumed(n, r.0) == [];
    } else {
      TakeConsumes(n, FirstTick(ticks).arriving);
      var t := TakeStep(m);
      if m.pending[0].Good() && t.cont >= CONT_RX_PKT_CNT {
        GoodBits(m.pending[0]);
        assert r == (t, Quota) && Consumed(n, t) == [m.pending[0]];
        assert Count([m.pending[0]], IsGood) == 1;
      } else {
        DrainEnds(t, LaterTicks(ticks));
        EndsAfter(n, m.pending[0], t, r.0, r.1);
      }
    }
  }

  // No packet arrives and every buffer is available.
  ghost predicate Calm(ticks: seq<RxTick>) {
    forall t <- ticks :: t.arriving == [] && t.alloc
  }

  lemma CalmTick(n: Net, ticks: seq<RxTick>)
    requires n.open && Sound(n) && Calm(ticks)
    ensures FirstTick(ticks).alloc && Calm(LaterTicks(ticks))
    ensures ArrivalStep(n, FirstTick(ticks).arriving) == n
  {
    if ticks != [] {
      assert ticks[0] in ticks;
    }
    assert forall t <- LaterTicks(ticks) :: t in ticks;
    assert n.stored + [] == n.stored;
  }

  lemma {:induction false} CalmTake(n: Net, ticks: seq<RxTick>)
    requires n.open && Sound(n) && Calm(ticks) && n.pending != []
    requires n.cont + 1 < CONT_RX_PKT_CNT || !n.pending[0].Good()
    ensures Drain(n, ticks) == Drain(TakeStep(n), LaterTicks(ticks))
  {
    CalmTick(n, ticks);
  }

  // Taking a packet moves it from one side of each sum to the other.
  lemma TakeBalance(n: Net)
    requires n.open && Sound(n) && n.pending != []
    ensures var t := TakeStep(n);
      && |t.pending| < |n.pending| && t.end == n.end
      && t.taken + t.pending == n.taken + n.pending
      && t.delivered + Frames(t.pending) == n.delivered + Frames(n.pending)
      && t.cont + Count(t.pending, IsGood) == n.cont + Count(n.pending, IsGood)
      && RxAdd(t.rxPos, |Encode(t.pending)|) == RxAdd(n.rxPos, |Encode(n.pending)|)
  {
    GoodBits(n.pending[0]);
    var t := TakeStep(n);
    assert n.taken + n.pending == t.taken + t.pending;
    assert |Encode(n.pending)| == |n.pending[0].Image()| + |Encode(t.pending)|;
  }

  // On a ring that holds a list of packets ended by a 0 ready byte, one call takes all of them,
  // delivers the frames of the good ones in order and leaves the read pointer just behind the last.
  lemma {:induction false} DrainInvertsEncoding(n: Net, ticks: seq<RxTick>)
    requires n.open && Sound(n) && n.end == 0 && Calm(ticks)
    requires n.cont + Count(n.pending, IsGood) < CONT_RX_PKT_CNT
    ensures var (m, outcome) := Drain(n, ticks);
      && outcome == Drained
      && m.pending == [] && m.taken == n.taken + n.pending
      && m.delivered == n.delivered + Frames(n.pending)
      && m.rxPos == RxAdd(n.rxPos, |Encode(n.pending)|)
    decreases |n.pending|
  {
    if n.pending == [] {
      CalmTick(n, ticks);
      assert n.taken + n.pending == n.taken && n.delivered + Frames(n.pending) == n.delivered;
    } else {
      hide TakeStep, Drain, Encode, Frames;
      CalmTake(n, ticks);
      CalmTick(n, ticks);
      TakeBalance(n);
      DrainInvertsEncoding(TakeStep(n), LaterTicks(ticks));
    }
  }

  // A failed allocation leaves the packet, the pointer and every counter as they were.
  lemma NoMemoryChangesNothing(n: Net, tick: RxTick, later: seq<RxTick>)
    requires n.open && Sound(n)
    requires tick.arriving == [] && !tick.alloc
    requires n.pending != [] && n.pending[0].Good()
    ensures Drain(n, [tick] + later) == (n, NoMemory)
  {
    assert n.stored + [] == n.stored;
    assert ArrivalStep(n, []) == n;
  }

  // What was delivered is a prefix of the frames of the good packets stored: none lost, none repeated.
  lemma DeliveredIsPrefix(n: Net)
    requires ExactlyOnce(n)
    ensures n.delivered <= Frames(n.stored)
    ensures Frames(n.stored) == n.delivered + Frames(n.pending)
  {
    FramesConcat(n.taken, n.pending);
  }
}
