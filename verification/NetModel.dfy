// The network interface as one abstract machine: what each driver event does to the driver's
// counters and flags, to the list of packets waiting in the receive ring and to the transmit ring.
// Class Board (Board.dfy) is proved to follow it; RunProperties.dfy proves what its runs keep.

module NetModel {
  import opened Bytes
  import opened Tapes
  import opened BusMode
  import opened RxRing
  import opened TxRing
  import opened TxHistory
  import opened MulticastFilter

  const CONT_RX_PKT_CNT := 0xFFFF
  const IMR_ALL := 0xA3
  const IMR_NO_RX := 0xA2
  const IMR_NONE := 0x80
  const REVISION_B := 0x1A

  datatype Stats = Stats(
    rxPackets: nat, rxBytes: nat, rxFifoErrors: nat, rxCrcErrors: nat, rxLengthErrors: nat,
    txPackets: nat, txBytes: nat, txErrors: nat)

  // A frame as it was put on the bus, padded to whole accesses, its own length, where it starts in the
  // ring, and how much had passed between driver and transmitter when it was taken.
  datatype Sent = Sent(start: nat, bytes: seq<byte>, length: nat, from: nat)

  // `stored` and `taken` are histories: the packets the chip put in the ring (less those a reset
  // flushed), and the packets the driver consumed. So are `trace`, what passed between the driver and
  // the transmitter, and `counts`, the values txCnt was given. `linkOk` tells that since the last link
  // change that left txCnt at the limit, if there was one, a handler, the watchdog or a reset has left it
  // below; `filter`, that the filter registers are those of the stack's latest multicast list.
  datatype Net = Net(
    rev: byte, mode: Mode,
    open: bool, stopped: bool, timer: bool,
    txCnt: int, cont: int, speed: nat, resets: nat, timeouts: nat,
    stats: Stats, delivered: seq<seq<byte>>, imr: byte,
    pending: seq<Packet>, end: EndByte, rxPos: nat, stored: seq<Packet>, taken: seq<Packet>,
    txPos: nat, txMem: seq<byte>, txLow: byte, txHigh: byte, sent: seq<Sent>,
    trace: seq<TxEvent>, counts: seq<Setting>, linkOk: bool, filter: bool)

  // What the hardware and the memory allocator answer during an event ----------------------

  type Status = s: nat | s < 0x40

  datatype TxAnswer = TxAnswer(nsr: byte, polls: seq<bool>)
  datatype LinkAnswer = LinkAnswer(polls: seq<bool>, control: u16)
  // One round of the receive loop: the packets that arrived meanwhile, and whether a buffer is available.
  datatype RxTick = RxTick(arriving: seq<Packet>, alloc: bool)
  datatype IrqAnswer = IrqAnswer(
    isr: Status, link: LinkAnswer, ticks: seq<RxTick>, reset: LinkAnswer, quota: TxAnswer, tx: TxAnswer)

  // The memory behind a frame: the wider bus accesses read up to three bytes past its end.
  type Slack = s: seq<byte> | |s| == 3 witness [0, 0, 0]

  // What the stack wants received: everything, all multicast frames, or those of a list of addresses.
  datatype Listing = Listing(promisc: bool, allMulti: bool, addresses: Addresses)

  datatype Event =
    | Open(irqOk: bool, nsr: seq<byte>)
    | Close
    | Xmit(frame: seq<byte>, slack: Slack, gaps: seq<seq<IrqAnswer>>)
    | Irq(answer: IrqAnswer)
    | Watchdog(polls: seq<bool>, link: LinkAnswer)
    | Tick
    | Filter(listing: Listing)
    | Arrival(packets: seq<Packet>)
    | Corruption(end: EndByte)

  ghost predicate Sound(n: Net) {
    && |n.txMem| == TX_SIZE
    && (n.open ==>
          && RX_START <= n.rxPos < RX_END
          && AllWellFormed(n.pending, n.mode)
          && |Encode(n.pending)| < RX_SIZE
          && n.txPos < TX_SIZE)
  }

  // Same chip, and the step leads to a sound state in which nothing consumed or delivered is
  // forgotten; what is stored is lost by a reset only, and every reset is on record.
  ghost predicate Follows(n: Net, m: Net) {
    && m.rev == n.rev && m.mode == n.mode && Sound(m)
    && n.taken <= m.taken && n.delivered <= m.delivered
    && (n.open ==> n.resets <= m.resets && (m.resets == n.resets ==> n.stored <= m.stored))
    && n.trace <= m.trace
    && (n.open ==> m.resets - n.resets <= Resets(m.trace) - Resets(n.trace))
  }

  // How many unacknowledged frames the driver allows.
  function Limit(n: Net): nat {
    if n.rev != REVISION_B && n.speed == 10 then 1 else 2
  }

  // Without a reset the transmit ring and the length registers are left alone.
  ghost predicate TxKept(n: Net, m: Net) {
    && m.sent == n.sent
    && m.stats.txPackets == n.stats.txPackets && m.stats.txBytes == n.stats.txBytes
    && (m.resets == n.resets ==>
          m.txPos == n.txPos && m.txMem == n.txMem && m.txLow == n.txLow && m.txHigh == n.txHigh)
  }

  // Transmission ---------------------------------------------------------------------------

  function Wire(frame: seq<byte>, slack: Slack, mode: Mode): (bytes: seq<byte>)
    ensures |bytes| == Span(|frame|, mode)
  {
    SpanCovers(|frame|, mode);
    (frame + slack)[..Span(|frame|, mode)]
  }

  // Something passes between the driver and the transmitter.
  function Saw(n: Net, events: seq<TxEvent>): (m: Net)
    ensures n.trace <= m.trace && Resets(m.trace) == Resets(n.trace) + Resets(events)
  {
    ResetsConcat(n.trace, events);
    n.(trace := n.trace + events)
  }

  // The packet counter is set.
  function Counted(n: Net, value: int): Net {
    n.(txCnt := value, counts := n.counts + [Setting(|n.trace|, value)])
  }

  // The counter loses the frames NSR reports done. Without a report, or when it falls below zero, the
  // transmitter is polled until it is idle and the counter is zeroed.
  function Settled(n: Net, a: TxAnswer): (m: Net)
    ensures m == n.(txCnt := Left(n.txCnt, a.nsr), trace := m.trace, counts := m.counts)
    ensures n.trace <= m.trace && Resets(n.trace) <= Resets(m.trace)
  {
    var c := if Done(a.nsr) == 0 then n else Counted(n, n.txCnt - Done(a.nsr));
    if Done(a.nsr) == 0 || c.txCnt < 0 then Counted(Saw(c, Polls(a.polls)), 0) else c
  }

  // dmfe_tx_done: NSR is read, the counter settled, and the queue runs again.
  function TxDoneStep(n: Net, a: TxAnswer): (m: Net)
    ensures m == n.(txCnt := Left(n.txCnt, a.nsr), stopped := false, trace := m.trace, counts := m.counts)
    ensures n.trace <= m.trace && Resets(n.trace) <= Resets(m.trace)
  {
    Settled(Saw(n, [NsrRead(a.nsr)]), a).(stopped := false)
  }

  // How many frames are left of `count` when NSR reads `nsr`.
  function Left(count: int, nsr: byte): int {
    if Done(nsr) == 0 || count < Done(nsr) then 0 else count - Done(nsr)
  }

  // Reset and link -------------------------------------------------------------------------

  // The k-th answer of a tape is at the head of what k polls have left of it.
  lemma LaterHead(polls: seq<bool>, k: nat)
    ensures Head(Later(polls, k), false) == Up(polls, k)
    ensures Tail(Later(polls, k)) == Later(polls, k + 1)
  {
  }

  lemma LaterNothing(polls: seq<bool>)
    ensures Later(polls, 0) == polls
  {
  }

  ghost predicate UpWithin(polls: seq<bool>, n: nat) {
    exists i :: 0 <= i < n && Up(polls, i)
  }

  // Every attempt polls twice and looks at the second answer.
  ghost predicate UpOnSecondRead(polls: seq<bool>, n: nat) {
    exists i :: 0 <= i < n && Up(polls, 2 * i + 1)
  }

  function SpeedOf(control: u16): nat {
    if Bit(control, 0x2000) then 100 else 10
  }

  ghost function ResetStep(n: Net, link: LinkAnswer): (m: Net)
    ensures n.open && Sound(n) ==> m.open && Follows(n, m)
    ensures m.resets == n.resets + 1 && m.sent == n.sent && m.stats == n.stats
  {
    Initialised(n).(
      resets := n.resets + 1,
      speed := if UpWithin(link.polls, 1000) then SpeedOf(link.control) else 10,
      stopped := false)
  }

  // dmfe_init_dm9000: the chip is reset, the receive ring is flushed, nothing is in flight.
  function Initialised(n: Net): (m: Net)
    ensures n.trace <= m.trace && Resets(m.trace) == Resets(n.trace) + 2
  {
    ResetsConcat([ChipReset], [ChipReset]);
    assert [ChipReset] + [ChipReset] == [ChipReset, ChipReset] && [ChipReset][..0] == [];
    Counted(Saw(n, [ChipReset, ChipReset]), 0).(
      pending := [], end := 0, rxPos := RX_START, stored := n.taken, txPos := 0, imr := IMR_ALL,
      linkOk := true, filter := true)
  }

  ghost function LinkStep(n: Net, link: LinkAnswer): Net {
    n.(speed := if UpOnSecondRead(link.polls, 500) then SpeedOf(link.control) else n.speed,
       stopped := false)
  }

  // Reception ------------------------------------------------------------------------------

  function Account(s: Stats, p: Packet): Stats {
    if p.Good() then s.(rxPackets := s.rxPackets + 1, rxBytes := s.rxBytes + p.length)
    else s.(rxFifoErrors := s.rxFifoErrors + (if Bit(p.status, 0x01) then 1 else 0),
            rxCrcErrors := s.rxCrcErrors + (if Bit(p.status, 0x02) then 1 else 0),
            rxLengthErrors := s.rxLengthErrors + (if Bit(p.status, 0x80) then 1 else 0))
  }

  ghost function ArrivalStep(n: Net, packets: seq<Packet>): (m: Net)
    requires n.open && Sound(n)
    ensures m.open && Follows(n, m)
    ensures m == n.(pending := m.pending, stored := m.stored, end := m.end)
    ensures |m.pending| <= |n.pending| + |packets|
  {
    var q := Arrive(n.pending, n.mode, packets);
    ArriveSound(n.pending, n.mode, packets);
    n.(pending := q, stored := n.stored + q[|n.pending|..],
       end := if |q| > |n.pending| then 0 else n.end)
  }

  lemma {:induction false} ArriveSound(pending: seq<Packet>, mode: Mode, arriving: seq<Packet>)
    requires AllWellFormed(pending, mode) && |Encode(pending)| < RX_SIZE
    ensures AllWellFormed(Arrive(pending, mode, arriving), mode)
    ensures |Encode(Arrive(pending, mode, arriving))| < RX_SIZE
    decreases |arriving|
  {
    if arriving != [] {
      if Fits(pending, mode, arriving[0]) {
        EncodeConcat(pending, [arriving[0]]);
        assert Encode([arriving[0]]) == arriving[0].Image();
        ArriveSound(pending + [arriving[0]], mode, arriving[1..]);
      } else {
        ArriveSound(pending, mode, arriving[1..]);
      }
    }
  }

  // The first pending packet is read to its end: delivered if good, dropped otherwise.
  ghost function TakeStep(n: Net): (m: Net)
    requires n.open && Sound(n) && n.pending != []
    ensures m.open && Follows(n, m)
    ensures m == n.(pending := n.pending[1..], taken := m.taken, rxPos := m.rxPos, stats := m.stats,
                    delivered := m.delivered, cont := m.cont)
    ensures m.stats.txPackets == n.stats.txPackets && m.stats.txBytes == n.stats.txBytes
  {
    var p := n.pending[0];
    assert p in n.pending;
    assert |Encode(n.pending)| == |p.Image()| + |Encode(n.pending[1..])|;
    SpanCovers(p.length, n.mode);
    n.(pending := n.pending[1..], taken := n.taken + [p],
       rxPos := RxAdd(n.rxPos, |p.Image()|),
       stats := Account(n.stats, p),
       delivered := if p.Good() then n.delivered + [p.Frame()] else n.delivered,
       cont := if p.Good() then n.cont + 1 else n.cont)
  }

  function Arriving(ticks: seq<RxTick>): nat {
    if ticks == [] then 0 else |ticks[0].arriving| + Arriving(ticks[1..])
  }

  function FirstTick(ticks: seq<RxTick>): RxTick {
    if ticks == [] then RxTick([], true) else ticks[0]
  }

  function LaterTicks(ticks: seq<RxTick>): seq<RxTick> {
    if ticks == [] then [] else ticks[1..]
  }

  // Why the receive loop ended.
  datatype Outcome = Drained | Corrupt | NoMemory | Quota

  // The receive loop on the list of pending packets.
  ghost function Drain(n: Net, ticks: seq<RxTick>): (r: (Net, Outcome))
    requires n.open && Sound(n)
    ensures Follows(n, r.0)
    ensures r.0.open && r.0 == n.(pending := r.0.pending, end := r.0.end, rxPos := r.0.rxPos, stored := r.0.stored,
                                  taken := r.0.taken, stats := r.0.stats, delivered := r.0.delivered, cont := r.0.cont)
    ensures r.0.stats.txPackets == n.stats.txPackets && r.0.stats.txBytes == n.stats.txBytes
    decreases |n.pending| + Arriving(ticks)
  {
    hide Encode, AllWellFormed, ArrivalStep, TakeStep;
    var m := ArrivalStep(n, FirstTick(ticks).arriving);
    if m.pending == [] then (m, if m.end == 0 then Drained else Corrupt)
    else if m.pending[0].Good() && !FirstTick(ticks).alloc then (m, NoMemory)
    else
      var t := TakeStep(m);
      if m.pending[0].Good() && t.cont >= CONT_RX_PKT_CNT then (t, Quota)
      else Drain(t, LaterTicks(ticks))
  }

  // One round of the loop.
  lemma DrainRound(n: Net, ticks: seq<RxTick>)
    requires n.open && Sound(n)
    ensures var m := ArrivalStep(n, FirstTick(ticks).arriving);
      if m.pending == [] then Drain(n, ticks) == (m, if m.end == 0 then Drained else Corrupt)
      else if m.pending[0].Good() && !FirstTick(ticks).alloc then Drain(n, ticks) == (m, NoMemory)
      else
        var t := TakeStep(m);
        && |t.pending| + Arriving(LaterTicks(ticks)) < |n.pending| + Arriving(ticks)
        && Drain(n, ticks) == if m.pending[0].Good() && t.cont >= CONT_RX_PKT_CNT then (t, Quota)
                              else Drain(t, LaterTicks(ticks))
  {
  }

  ghost function ReceiveStep(n: Net, ticks: seq<RxTick>, reset: LinkAnswer, quota: TxAnswer): (m: Net)
    requires n.open && Sound(n)
    ensures m.open && Follows(n, m) && TxKept(n, m)
  {
    hide Drain, ResetStep, TxDoneStep, Resets;
    var r := Drain(n.(cont := 0), ticks);
    match r.1
    case Drained => r.0
    case NoMemory => r.0
    case Corrupt => ResetStep(r.0, reset)
    case Quota => TxDoneStep(r.0, quota)
  }

  // The interrupt handler ------------------------------------------------------------------

  ghost function IrqLink(n: Net, a: IrqAnswer): (m: Net)
    requires n.open && Sound(n)
    ensures m.open && Follows(n, m) && TxKept(n, m)
  {
    if Bit(a.isr, 0x20) then LinkStep(n, a.link) else n
  }

  ghost function IrqReceive(n: Net, a: IrqAnswer): (m: Net)
    requires n.open && Sound(n)
    ensures m.open && Follows(n, m) && TxKept(n, m)
  {
    if Bit(a.isr, 0x01) then ReceiveStep(n, a.ticks, a.reset, a.quota) else n
  }

  ghost function IrqTxDone(n: Net, a: IrqAnswer): (m: Net)
    requires n.open && Sound(n)
    ensures m.open && Follows(n, m) && TxKept(n, m)
  {
    if Bit(a.isr, 0x02) then TxDoneStep(n, a.tx) else n
  }

  function Unmasked(n: Net): Net {
    n.(imr := if n.cont >= CONT_RX_PKT_CNT then IMR_NO_RX else IMR_ALL)
  }

  // What a handler leaves is noted: a counter below the limit, or a link change that came without.
  function Noted(n: Net, a: IrqAnswer): Net {
    n.(linkOk := n.txCnt < Limit(n) || (n.linkOk && !Bit(a.isr, 0x20)))
  }

  ghost function IrqStep(n: Net, a: IrqAnswer): (m: Net)
    requires n.open && Sound(n)
    ensures m.open && Follows(n, m) && TxKept(n, m)
  {
    hide IrqLink, IrqReceive, IrqTxDone;
    Noted(Unmasked(IrqTxDone(IrqReceive(IrqLink(n.(imr := IMR_NONE), a), a), a)), a)
  }

  // Handlers running one after the other.
  ghost function Irqs(n: Net, answers: seq<IrqAnswer>): (m: Net)
    requires n.open && Sound(n)
    ensures m.open && Follows(n, m) && TxKept(n, m)
    decreases |answers|
  {
    if answers == [] then n else Irqs(IrqStep(n, answers[0]), answers[1..])
  }

  // Transmission, interrupted ----------------------------------------------------------------
  //
  // dmfe_start_xmit is a sequence of port accesses; gaps[k] lists the interrupts taken between the
  // k-th access and the next.

  function Gap(gaps: seq<seq<IrqAnswer>>, k: nat): seq<IrqAnswer> {
    if k < |gaps| then gaps[k] else []
  }

  ghost function Gaps(n: Net, gaps: seq<seq<IrqAnswer>>, k: nat, count: nat): (m: Net)
    requires n.open && Sound(n)
    ensures m.open && Follows(n, m) && TxKept(n, m)
    decreases count
  {
    if count == 0 then n else Gaps(Irqs(n, Gap(gaps, k)), gaps, k + 1, count - 1)
  }

  // The frame counted in, before the first port access.
  function Admitted(n: Net, length: nat): Net {
    Counted(n, n.txCnt + 1).(
       stats := n.stats.(txPackets := n.stats.txPackets + 1, txBytes := n.stats.txBytes + length),
       stopped := n.stopped || n.txCnt + 1 >= Limit(n))
  }

  // One data access at the memory write command.
  function Put(n: Net, bytes: seq<byte>): (m: Net)
    requires |n.txMem| == TX_SIZE && n.txPos < TX_SIZE
    ensures |m.txMem| == TX_SIZE && m.txPos < TX_SIZE
  {
    n.(txMem := TxFill(n.txMem, n.txPos, bytes), txPos := TxAdd(n.txPos, |bytes|))
  }

  // The data accesses, the k-th gap following the first of them.
  ghost function Puts(n: Net, bytes: seq<byte>, width: nat, gaps: seq<seq<IrqAnswer>>, k: nat): (m: Net)
    requires n.open && Sound(n) && width > 0
    ensures m.open && Follows(n, m)
    decreases |bytes|
  {
    if |bytes| < width then n
    else Puts(Irqs(Put(n, bytes[..width]), Gap(gaps, k)), bytes[width..], width, gaps, k + 1)
  }

  // The port accesses before the frame's data: interrupts are masked, ...
  ghost function Masked(n: Net, gaps: seq<seq<IrqAnswer>>): (m: Net)
    requires n.open && Sound(n)
    ensures m.open && Follows(n, m)
  {
    Gaps(Gaps(n, gaps, 0, 1).(imr := IMR_NONE), gaps, 1, 1)
  }

  // ... two registers are read, with two gaps each, ...
  ghost function TwoRegisters(n: Net, gaps: seq<seq<IrqAnswer>>, k: nat): (m: Net)
    requires n.open && Sound(n)
    ensures m.open && Follows(n, m) && TxKept(n, m)
  {
    Gaps(Gaps(n, gaps, k, 2), gaps, k + 2, 2)
  }

  // One of the two length registers is written.
  function Lengthened(n: Net, low: bool, v: byte): Net {
    if low then n.(txLow := v) else n.(txHigh := v)
  }

  // ... the two length registers are written, ...
  ghost function Measured(n: Net, length: nat, gaps: seq<seq<IrqAnswer>>): (m: Net)
    requires n.open && Sound(n)
    ensures m.open && Follows(n, m)
  {
    hide Gaps;
    var low := Gaps(Lengthened(Gaps(n, gaps, 6, 1), true, Low(length)), gaps, 7, 1);
    Gaps(Lengthened(Gaps(low, gaps, 8, 1), false, High(length)), gaps, 9, 1)
  }

  // ... and the memory write command is selected.
  ghost function Prepared(n: Net, length: nat, gaps: seq<seq<IrqAnswer>>): (m: Net)
    requires n.open && Sound(n)
    ensures m.open && Follows(n, m)
  {
    hide Gaps, TwoRegisters, Measured, Masked;
    Gaps(Measured(TwoRegisters(Masked(n, gaps), gaps, 2), length, gaps), gaps, 10, 1)
  }

  // What the transmitter finds when it is started.
  function StartOf(n: Net): TxEvent {
    TxStart(n.txMem, Join(n.txLow, n.txHigh))
  }

  // The transmit command, after which the transmitter sends what was loaded.
  ghost function Started(n: Net, gaps: seq<seq<IrqAnswer>>, k: nat): (m: Net)
    requires n.open && Sound(n)
    ensures m.open && Follows(n, m) && TxKept(n, m)
  {
    hide Gaps;
    var m := Gaps(n, gaps, k, 1);
    Gaps(Saw(m, [StartOf(m)]), gaps, k + 1, 1)
  }

  // The port accesses after it: transmission started, the receive quota cleared, interrupts enabled.
  ghost function Finished(n: Net, gaps: seq<seq<IrqAnswer>>, k: nat, frame: Sent): (m: Net)
    requires n.open && Sound(n)
    ensures m.open && Follows(n, m)
  {
    Gaps(Started(n, gaps, k).(cont := 0), gaps, k + 2, 1).(imr := IMR_ALL, sent := n.sent + [frame])
  }

  // The port accesses up to the last of the frame's data.
  ghost function Loaded(n: Net, length: nat, bytes: seq<byte>, gaps: seq<seq<IrqAnswer>>): (m: Net)
    requires n.open && Sound(n)
    ensures m.open && Follows(n, m)
  {
    Puts(Prepared(n, length, gaps), bytes, Width(n.mode), gaps, 11)
  }

  // All port accesses of one frame.
  ghost function Transmit(n: Net, frame: Sent, count: nat, gaps: seq<seq<IrqAnswer>>): (m: Net)
    requires n.open && Sound(n)
    ensures m.open && Follows(n, m)
  {
    Finished(Loaded(n, frame.length, frame.bytes, gaps), gaps, 11 + count, frame)
  }

  lemma AdmittedFollows(n: Net, length: nat)
    requires n.open && Sound(n)
    ensures Sound(Admitted(n, length)) && Follows(n, Admitted(n, length))
  {
  }

  lemma FollowsOn(n: Net, m: Net, p: Net)
    requires n.open && m.open && Follows(n, m) && Follows(m, p)
    ensures Follows(n, p)
  {
    hide Sound, Resets;
  }

  // The frame as it is going to be sent.
  function Taken(n: Net, frame: seq<byte>, slack: Slack): Sent {
    Sent(n.txPos, Wire(frame, slack, n.mode), |frame|, |n.trace|)
  }

  ghost function XmitStep(n: Net, frame: seq<byte>, slack: Slack, gaps: seq<seq<IrqAnswer>>): (m: Net)
    requires n.open && Sound(n)
    ensures m.open && Follows(n, m)
  {
    if n.txCnt >= Limit(n) then n
    else
      hide Transmit, Follows, Sound;
      AdmittedFollows(n, |frame|);
      var m := Transmit(Admitted(n, |frame|), Taken(n, frame, slack), Accesses(|frame|, n.mode), gaps);
      FollowsOn(n, Admitted(n, |frame|), m);
      m
  }

  // Watchdog, timer, open and close --------------------------------------------------------

  // The first n polls all see the transmitter busy.
  ghost predicate BusyFor(polls: seq<bool>, n: nat) {
    forall i :: 0 <= i < n ==> Up(polls, i)
  }

  function TimedOut(n: Net): Net {
    n.(timeouts := n.timeouts + 1, stats := n.stats.(txErrors := n.stats.txErrors + 1))
  }

  ghost function WatchdogStep(n: Net, polls: seq<bool>, link: LinkAnswer): (m: Net)
    requires n.open && Sound(n)
    ensures m.open && Follows(n, m)
  {
    hide PollsWithin, BusyFor, Resets, ResetStep;
    var t := Saw(TimedOut(n), PollsWithin(polls, 0, 100));
    if BusyFor(polls, 99) then ResetStep(t, link)
    else Counted(t, 0).(stopped := false, linkOk := true)
  }

  function TickStep(n: Net): Net {
    if n.cont >= CONT_RX_PKT_CNT then n.(cont := 0, imr := IMR_ALL, timer := true) else n.(timer := true)
  }

  function NsrAt(nsr: seq<byte>, k: nat): byte {
    if k < |nsr| then nsr[k] else 0
  }

  // The first of at most `budget` polls from the k-th that shows the link decides the speed.
  function OpenSpeed(nsr: seq<byte>, k: nat, budget: nat): nat
    decreases budget
  {
    if budget == 0 then 10
    else if Bit(NsrAt(nsr, k), 0x40) then if Bit(NsrAt(nsr, k + 1), 0x80) then 10 else 100
    else OpenSpeed(nsr, k + 1, budget - 1)
  }

  // The first poll that shows the link decides, with the read that follows it.
  lemma {:induction false} OpenSpeedDecided(nsr: seq<byte>, k: nat, budget: nat, first: nat)
    requires forall j :: k <= j < first && j < k + budget ==> !Bit(NsrAt(nsr, j), 0x40)
    requires k <= first && (first < k + budget ==> Bit(NsrAt(nsr, first), 0x40))
    ensures OpenSpeed(nsr, k, budget) ==
      if first < k + budget && !Bit(NsrAt(nsr, first + 1), 0x80) then 100 else 10
    decreases budget
  {
    if budget > 0 && first > k {
      OpenSpeedDecided(nsr, k + 1, budget - 1, first);
    }
  }

  // What those polls read.
  function OpenReads(nsr: seq<byte>, k: nat, budget: nat): seq<TxEvent>
    decreases budget
  {
    if budget == 0 then []
    else if Bit(NsrAt(nsr, k), 0x40) then [NsrRead(NsrAt(nsr, k)), NsrRead(NsrAt(nsr, k + 1))]
    else [NsrRead(NsrAt(nsr, k))] + OpenReads(nsr, k + 1, budget - 1)
  }

  lemma OpenReadsNext(before: seq<TxEvent>, nsr: seq<byte>, k: nat, budget: nat)
    requires budget > 0
    ensures before + OpenReads(nsr, k, budget) ==
      if Bit(NsrAt(nsr, k), 0x40) then before + [NsrRead(NsrAt(nsr, k))] + [NsrRead(NsrAt(nsr, k + 1))]
      else before + [NsrRead(NsrAt(nsr, k))] + OpenReads(nsr, k + 1, budget - 1)
  {
    if !Bit(NsrAt(nsr, k), 0x40) {
      var rest := OpenReads(nsr, k + 1, budget - 1);
      assert before + ([NsrRead(NsrAt(nsr, k))] + rest) == before + [NsrRead(NsrAt(nsr, k))] + rest;
    }
  }

  lemma OpenReadsNothing(nsr: seq<byte>, k: nat)
    ensures OpenReads(nsr, k, 0) == []
  {
  }

  ghost function OpenStep(n: Net, irqOk: bool, nsr: seq<byte>): (m: Net)
    requires !n.open && Sound(n)
    ensures Follows(n, m)
  {
    if !irqOk then n
    else Saw(Initialised(n), OpenReads(nsr, 0, 3000)).(open := true, resets := 0, timeouts := 0, cont := 0,
                         speed := OpenSpeed(nsr, 0, 3000), timer := true, stopped := false)
  }

  function CloseStep(n: Net): Net {
    n.(open := false, timer := false, stopped := true, imr := IMR_NONE)
  }

  // Runs -----------------------------------------------------------------------------------

  // When an event can happen: the stack opens a closed interface and uses an open one, and the
  // timer fires only while it is armed.
  predicate Enabled(n: Net, e: Event) {
    match e
    case Open(_, _) => !n.open
    case Tick => n.open && n.timer
    case Filter(_) => true
    case _ => n.open
  }

  // The latest listing the stack handed down.
  function Wanted(events: seq<Event>, before: Listing): Listing {
    if events == [] then before
    else
      var last := events[|events| - 1];
      if last.Filter? then last.listing else Wanted(events[..|events| - 1], before)
  }

  ghost function Step(n: Net, e: Event): (m: Net)
    requires Sound(n) && Enabled(n, e)
    ensures Follows(n, m)
  {
    match e
    case Open(irqOk, nsr) => OpenStep(n, irqOk, nsr)
    case Close => CloseStep(n)
    case Xmit(frame, slack, gaps) => XmitStep(n, frame, slack, gaps)
    case Irq(answer) => IrqStep(n, answer)
    case Watchdog(polls, link) => WatchdogStep(n, polls, link)
    case Tick => TickStep(n)
    case Filter(_) => n.(filter := true)
    case Arrival(packets) => ArrivalStep(n, packets)
    case Corruption(end) => n.(end := end)
  }

  // A run: each event happens where it is enabled.
  ghost predicate Reaches(n: Net, events: seq<Event>, m: Net)
    requires Sound(n)
    decreases |events|
  {
    if events == [] then m == n
    else Enabled(n, events[0]) && Reaches(Step(n, events[0]), events[1..], m)
  }

  // Of a list of events those that can happen, one after the other.
  ghost function Feasible(n: Net, events: seq<Event>): seq<Event>
    requires Sound(n)
    decreases |events|
  {
    if events == [] then []
    else if Enabled(n, events[0]) then [events[0]] + Feasible(Step(n, events[0]), events[1..])
    else Feasible(n, events[1..])
  }

  lemma NothingFeasible(n: Net)
    requires Sound(n)
    ensures Feasible(n, []) == []
  {
  }

  lemma FeasibleNext(n: Net, before: seq<Event>, events: seq<Event>, i: nat)
    requires Sound(n) && i < |events|
    ensures before + Feasible(n, events[i..]) ==
      if Enabled(n, events[i]) then before + [events[i]] + Feasible(Step(n, events[i]), events[i + 1..])
      else before + Feasible(n, events[i + 1..])
  {
    hide Step;
    assert events[i..][0] == events[i] && events[i..][1..] == events[i + 1..];
    if Enabled(n, events[i]) {
      var rest := Feasible(Step(n, events[i]), events[i + 1..]);
      assert before + ([events[i]] + rest) == before + [events[i]] + rest;
    }
  }

  lemma StaysThere(m: Net)
    requires Sound(m)
    ensures Reaches(m, [], m)
  {
  }

  lemma {:induction false} ReachesOneMore(n: Net, events: seq<Event>, m: Net, e: Event)
    requires Sound(n) && Reaches(n, events, m)
    requires Sound(m) && Enabled(m, e)
    ensures Reaches(n, events + [e], Step(m, e))
    decreases |events|
  {
    hide Step;
    if events == [] {
      assert ([] + [e])[1..] == [];
    } else {
      ReachesOneMore(Step(n, events[0]), events[1..], m, e);
      assert (events + [e])[1..] == events[1..] + [e];
    }
  }
}
