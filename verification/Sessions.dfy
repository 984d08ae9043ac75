// A board from probing on, through any events: what the driver's own fields then satisfy.

module Sessions {
  import opened Bytes
  import opened BusMode
  import opened TxRing
  import opened RxRing
  import opened TxHistory
  import opened Dm9000
  import opened MulticastFilter
  import opened NetModel
  import opened ReceiveProperties
  import opened RunProperties
  import opened TransmitProperties
  import opened DriverTheorems
  import opened Driver

  // Everything the network stack relies on, in terms of the board's fields.
  ghost predicate Trustworthy(board: Board)
    reads board, board.dev
  {
    && board.Valid()
    // delivery: a prefix of the good packets, each exactly once, and every packet accounted for
    && board.taken + board.pending == board.stored
    && Frames(board.stored) == board.received + Frames(board.pending)
    && Accounted(board.Abs())
    // the transmit counter, every value of which is accounted for by what passed between the driver and
    // the chip: it is zeroed only when the transmitter was seen idle or was reset
    && Lawful(board.chip.trace, board.counts) && Latest(board.counts) == board.txPktCnt
    && (board.open ==>
          && 0 <= board.txPktCnt <= 2
          // the queue flag, exact unless a link change left the limit reached and it still is
          && (board.queueStopped ==> board.txPktCnt == FrameLimit(board))
          && (board.linkOk <==> (board.queueStopped <==> board.txPktCnt >= FrameLimit(board)))
          // the multicast filter is exact for the stack's latest list
          && board.FilterCurrent()
          // reception is masked only until the armed timer fires
          && board.timerArmed
          && (board.chip.regs[0xFF] == 0xA3 || (board.chip.regs[0xFF] == 0xA2 && board.contRxPktCnt == 0xFFFF)))
    // every frame taken was followed by a transmit command that found it in memory, with its length, unless
    // the chip was reset between; frames and bytes are counted
    && (forall s <- board.sent :: exists i :: StartedAt(board.chip.trace, s, i))
    && board.stats.txPackets == |board.sent| && board.stats.txBytes == Lengths(board.sent)
  }

  // One frame at a time at 10 Mbit/s on any chip but revision 0x1A, otherwise two.
  function FrameLimit(board: Board): nat
    reads board
  {
    if board.chipRevision != 0x1A && board.speed == 10 then 1 else 2
  }

  method Session(dev: Device, chip: Chip, hwCsum: bool, events: seq<Event>) returns (board: Board)
    requires chip.Ok() && |dev.mcList| <= 0xFFFF
    modifies dev
    ensures fresh(board) && board.dev == dev && Trustworthy(board)
    // the filter registers are exact for the list the stack handed down last, whatever was reset since
    ensures var wanted := Wanted(events, old(dev.Wants()));
      && dev.Wants() == wanted
      && (board.open && !wanted.promisc ==> FilterExact(board.Registers(MAR, 8), wanted.addresses))
    ensures (forall e <- events :: SmallFrame(e)) ==> InFlight(board.Abs())
    ensures (forall e <- events :: AllowedEvent(e, true)) ==> board.linkOk
    // the chip was told to transmit once for each frame taken
    ensures Starts(board.chip.trace) == Starts(chip.trace) + |board.sent|
  {
    hide Reaches, InFlight, Frames, Starts, Lawful, StartedAt, Resets;
    board := new Board(dev, chip, hwCsum);
    ghost var n := board.Abs();
    assert Fresh(n);
    var happened := board.Run(events);
    ghost var m := board.Abs();
    RunInvariant(n, happened, m);
    DeliveryExactlyOnce(n, happened, m);
    OneStartPerFrame(n, happened, m);
    RunSends(n, happened, m, Starts(n.trace));
    if forall e <- events :: AllowedEvent(e, true) {
      LinkFreeRun(n, happened, m);
    }
    if forall e <- events :: SmallFrame(e) {
      FreshInvariant(n);
      RunFlies(n, happened, m);
    }
  }

  // Reception inverts the ring's encoding: whatever packets memory holds at the read pointer, ended by
  // a 0 ready byte, one call passes up the frames of the good ones and steps over all of them.
  method ReceiveRing(board: Board, packets: seq<Packet>, reset: LinkAnswer, quota: TxAnswer)
    requires board.Valid() && board.open
    requires RingHolds(board.chip.sram, board.chip.rptr, board.chip.mode, packets, 0)
    modifies board
    ensures board.Valid()
    ensures board.received == old(board.received) + Frames(packets)
    ensures board.taken == old(board.taken) + packets && board.pending == []
    ensures board.chip.rptr == RxAdd(old(board.chip).rptr, |Encode(packets)|)
    ensures board.contRxPktCnt == Count(packets, IsGood)
    ensures board.resetCounter == old(board.resetCounter)
  {
    hide Frames, Encode, Count, Drain, Holds;
    RingDecides(board.chip.sram, board.chip.rptr, board.chip.mode, packets, 0, board.pending, board.end);
    QuotaOutOfReach(board.chip.sram, board.chip.rptr, board.chip.mode, packets, 0);
    ghost var n := board.Abs().(cont := 0);
    DrainInvertsEncoding(n, []);
    DrainEnds(n, []);
    assert Consumed(n, Drain(n, []).0) == packets;
    board.PacketReceive([], reset, quota);
  }

  // The one byte beyond the buffer is really written: a 32-bit ring can hold a good packet of 65 bytes, and
  // copying that packet writes 68 bytes where its buffer has 67 left.
  lemma OverrunReceivable(payload: seq<byte>)
    requires |payload| == 68
    ensures var packet := Packet(0, 65, payload);
      && packet.Good() && Span(packet.length, DwordMode) == packet.length + 3
      && exists sram :: RingHolds(sram, RX_START, DwordMode, [packet], 0)
  {
    hide RingHolds, Fill;
    var packet := Packet(0, 65, payload);
    assert Encode([packet]) == packet.Image() + Encode([]);
    var empty := seq(RX_END, _ => 0);
    EmptyHolds(empty, DwordMode);
    ArrivalHolds(empty, RX_START, DwordMode, [], 0, [packet]);
    assert [] + [packet] == [packet];
    var filled := Fill(empty, RxAdd(RX_START, |Encode([])|), Encode([packet]) + [0]);
    assert RingHolds(filled, RX_START, DwordMode, [packet], 0);
  }

  lemma {:induction false} FourBytesEach(packets: seq<Packet>)
    ensures 4 * Count(packets, IsGood) <= |Encode(packets)|
  {
    if packets != [] {
      FourBytesEach(packets[1..]);
    }
  }

  // A header takes four bytes, so the ring cannot hold enough packets to reach the receive quota: only
  // packets that arrive during the call can.
  lemma QuotaOutOfReach(sram: seq<byte>, p: nat, mode: Mode, packets: seq<Packet>, end: EndByte)
    requires RingHolds(sram, p, mode, packets, end)
    ensures Count(packets, IsGood) < CONT_RX_PKT_CNT
  {
    FourBytesEach(packets);
  }

  // Transmission puts the frame in the ring whatever interrupts come between the port accesses, as long
  // as none of them resets the chip, and leaves its length in the length registers.
  method SendFrame(board: Board, frame: seq<byte>, slack: Slack, gaps: seq<seq<IrqAnswer>>) returns (rc: nat)
    requires board.Valid() && board.open
    modifies board
    ensures board.Valid() && board.open
    ensures rc == if old(board.txPktCnt) >= old(FrameLimit(board)) then 1 else 0
    ensures rc == 1 ==> board.Abs() == old(board.Abs())
    ensures rc == 0 ==>
      && board.stats.txPackets == old(board.stats).txPackets + 1
      && board.stats.txBytes == old(board.stats).txBytes + |frame|
    // one transmit command, and unless a handler reset the chip before it, it finds the frame and its length
    ensures rc == 0 ==>
      var from, trace := |old(board.chip).trace|, board.chip.trace;
      exists i ::
        && from <= i < |trace| && trace[i].TxStart?
        && (forall j :: from <= j < |trace| && j != i ==> !trace[j].TxStart?)
        && ((forall j :: from <= j < i ==> trace[j] != ChipReset) ==>
              && trace[i].length == |frame| % 0x1_0000 && |trace[i].mem| == 0xC00
              && (Span(|frame|, old(board.chip).mode) <= 0xC00 ==>
                    forall k :: 0 <= k < |frame| ==> trace[i].mem[(old(board.chip).wptr + k) % 0xC00] == frame[k]))
    ensures rc == 0 && board.resetCounter == old(board.resetCounter) ==>
      && |frame| % 0x1_0000 == Join(board.chip.regs[TXPLL], board.chip.regs[TXPLH])
      && board.chip.wptr == TxAdd(old(board.chip).wptr, Span(|frame|, old(board.chip).mode))
      && (Span(|frame|, old(board.chip).mode) <= TX_SIZE ==>
            Arc(board.chip.sram[..TX_SIZE], old(board.chip).wptr, |frame|) == frame)
  {
    hide Transmit, TxFill, XmitStep, Starts, Resets;
    ghost var n := board.Abs();
    rc := board.StartXmit(frame, slack, gaps);
    XmitTaken(n, frame, slack, gaps);
    if rc == 0 {
      XmitFinds(n, frame, slack, gaps);
    }
    if rc == 0 && board.resetCounter == n.resets {
      XmitPutsFrame(n, frame, slack, gaps);
      JoinLength(|frame|);
    }
  }

  // The command of one call, in terms of the frame.
  lemma XmitFinds(n: Net, frame: seq<byte>, slack: Slack, gaps: seq<seq<IrqAnswer>>)
    requires n.open && Sound(n) && n.txCnt < Limit(n)
    ensures var from, trace := |n.trace|, XmitStep(n, frame, slack, gaps).trace;
      exists i ::
        && from <= i < |trace| && trace[i].TxStart?
        && (forall j :: from <= j < |trace| && j != i ==> !trace[j].TxStart?)
        && ((forall j :: from <= j < i ==> trace[j] != ChipReset) ==>
              && trace[i].length == |frame| % 0x1_0000 && |trace[i].mem| == 0xC00
              && (Span(|frame|, n.mode) <= 0xC00 ==>
                    forall k :: 0 <= k < |frame| ==> trace[i].mem[(n.txPos + k) % 0xC00] == frame[k]))
  {
    hide XmitStep, Starts, Resets;
    SpanCovers(|frame|, n.mode);
    XmitCommands(n, frame, slack, gaps);
    XmitTaken(n, frame, slack, gaps);
    var trace := XmitStep(n, frame, slack, gaps).trace;
    var i :| StartedAt(trace, Taken(n, frame, slack), i);
    assert trace[..|n.trace|] == n.trace;
    OnlyStart(trace, |n.trace|, i);
  }

  // A handler, on the board's own fields: what the interrupt status asks for is served, and nothing else.
  method ServeInterrupt(board: Board, a: IrqAnswer)
    requires board.Valid() && board.open
    modifies board
    ensures board.Valid() && board.open && board.chip.index == old(board.chip).index
    ensures board.chip.regs[0xFF] == if board.contRxPktCnt >= 0xFFFF then 0xA2 else 0xA3
    ensures Bit(a.isr, 0x02) || Bit(a.isr, 0x20) ==> !board.queueStopped
    ensures !Bit(a.isr, 0x01) ==>
      && board.received == old(board.received) && board.pending == old(board.pending)
      && board.stats == old(board.stats) && board.chip.rptr == old(board.chip).rptr
      && board.resetCounter == old(board.resetCounter)
      && board.txPktCnt == (if Bit(a.isr, 0x02) then Remaining(old(board.txPktCnt), a.tx.nsr)
                            else old(board.txPktCnt))
      && board.queueStopped == (old(board.queueStopped) && !Bit(a.isr, 0x02) && !Bit(a.isr, 0x20))
    // a ring ended by a 0 ready byte, with no arrival and every buffer available, is emptied
    ensures Bit(a.isr, 0x01) && a.ticks == [] && old(board.end) == 0 ==>
      && board.received == old(board.received) + Frames(old(board.pending)) && board.pending == []
      && board.taken == old(board.taken) + old(board.pending)
      && board.txPktCnt == (if Bit(a.isr, 0x02) then Remaining(old(board.txPktCnt), a.tx.nsr)
                            else old(board.txPktCnt))
  {
    hide Frames, Encode, Count, Drain, Holds, IrqStep, Remaining, Resets;
    ghost var n := board.Abs();
    HandlerReceives(n, a);
    HandlerCompletes(n, a);
    HandlerEnds(n, a);
    if Bit(a.isr, 0x01) && a.ticks == [] && board.end == 0 {
      QuotaOutOfReach(board.chip.sram, board.chip.rptr, board.chip.mode, board.pending, 0);
      DrainInvertsEncoding(n.(cont := 0), []);
    }
    board.Interrupt(a);
  }

  lemma XmitTaken(n: Net, frame: seq<byte>, slack: Slack, gaps: seq<seq<IrqAnswer>>)
    requires n.open && Sound(n)
    ensures var m := XmitStep(n, frame, slack, gaps);
      if n.txCnt >= Limit(n) then m == n
      else
        && Starts(m.trace) == Starts(n.trace) + 1
        && m.stats.txPackets == n.stats.txPackets + 1 && m.stats.txBytes == n.stats.txBytes + |frame|
  {
    hide Transmit, Starts;
    if n.txCnt < Limit(n) {
      var sent := Taken(n, frame, slack);
      TransmitContiguous(Admitted(n, |frame|), sent, Accesses(|frame|, n.mode), gaps);
    }
  }
}
