// The driver's main theorems, for every run from a board as probing leaves it.

module DriverTheorems {
  import opened Bytes
  import opened BusMode
  import opened RxRing
  import opened TxRing
  import opened TxHistory
  import opened NetModel
  import opened ReceiveProperties
  import opened RunProperties
  import opened TransmitProperties

  // Nothing received, nothing sent, the interface down.
  ghost predicate Fresh(n: Net) {
    && !n.open && Sound(n)
    && n.pending == [] && n.stored == [] && n.taken == [] && n.delivered == []
    && n.stats == Stats(0, 0, 0, 0, 0, 0, 0, 0)
    && n.txCnt == 0 && n.counts == [] && n.linkOk && n.sent == []
  }

  lemma FreshInvariant(n: Net)
    requires Fresh(n)
    ensures Invariant(n, true) && InFlight(n)
  {
  }

  lemma {:induction false} WeakerEvents(events: seq<Event>)
    ensures forall e <- events :: AllowedEvent(e, false)
  {
  }

  lemma RunInvariant(n: Net, events: seq<Event>, m: Net)
    requires Fresh(n) && Reaches(n, events, m)
    ensures Sound(m) && Invariant(m, false)
  {
    FreshInvariant(n);
    WeakerEvents(events);
    RunKeeps(n, events, m, false);
  }

  // Delivery is exactly once, under any pattern of arrivals, allocation failures, corruption and
  // resets: the stack has seen a prefix of the good packets the chip stored and did not flush, the
  // rest is still waiting, and the counters account for every packet consumed.
  lemma {:induction false} DeliveryExactlyOnce(n: Net, events: seq<Event>, m: Net)
    requires Fresh(n) && Reaches(n, events, m)
    ensures m.taken + m.pending == m.stored
    ensures m.delivered == Frames(m.taken)
    ensures Frames(m.stored) == m.delivered + Frames(m.pending)
    ensures Accounted(m)
  {
    RunInvariant(n, events, m);
    DeliveredIsPrefix(m);
  }

  // Without a reset the list of stored packets only grows, so no packet is forgotten.
  lemma {:induction false} NothingForgotten(n: Net, events: seq<Event>, m: Net)
    requires n.open && Sound(n) && Reaches(n, events, m)
    requires forall e <- events :: !e.Open? && !e.Close?
    ensures m.open && n.resets <= m.resets
    ensures n.taken <= m.taken && n.delivered <= m.delivered
    ensures m.resets == n.resets ==> n.stored <= m.stored
    decreases |events|
  {
    hide XmitStep, IrqStep, WatchdogStep, ArrivalStep, Sound;
    if events != [] {
      assert events[0] in events;
      assert forall e <- events[1..] :: e in events;
      NothingForgotten(Step(n, events[0]), events[1..], m);
    }
  }

  // No lost wakeup: while the interface is open, a stopped queue means that exactly as many frames are
  // unacknowledged as the driver allows; there are never more than two of them.
  lemma {:induction false} NoLostWakeup(n: Net, events: seq<Event>, m: Net)
    requires Fresh(n) && Reaches(n, events, m) && m.open
    ensures 0 <= m.txCnt <= 2
    ensures m.stopped ==> m.txCnt == if m.rev != 0x1A && m.speed == 10 then 1 else 2
  {
    RunInvariant(n, events, m);
  }

  // The transmit counter is zeroed only after the transmitter was seen idle or was reset: whenever it
  // falls, over any run and between any two port accesses, NSR had just reported as many frames done, or
  // the last thing that passed was an idle poll or a reset, with no transmission started since.
  lemma {:induction false} CounterFallsJustified(n: Net, events: seq<Event>, m: Net, i: nat)
    requires Fresh(n) && Reaches(n, events, m) && i < |m.counts|
    ensures m.counts[i].at <= |m.trace| && Latest(m.counts) == m.txCnt
    ensures var before, now := Latest(m.counts[..i]), m.counts[i].value;
      now <= before ==>
        || (now < before && JustReported(m.trace[..m.counts[i].at], before - now))
        || (now == 0 && Idle(m.trace[..m.counts[i].at]))
  {
    RunInvariant(n, events, m);
  }

  // Over any run the transmitter is started once for every frame taken, and by nothing else.
  lemma {:induction false} OneStartPerFrame(n: Net, events: seq<Event>, m: Net)
    requires Fresh(n) && Reaches(n, events, m)
    ensures Starts(m.trace) - Starts(n.trace) == |m.sent| - |n.sent|
  {
    RunStarts(n, events, m);
  }

  // The transmitter is started on every frame after the frame's length and data were loaded: the j-th frame
  // taken has the command that follows j others, and unless the chip was reset between, the transmitter
  // then finds that frame and its length. The statistics count the frames and their bytes.
  lemma {:induction false} StartedOnItsFrame(n: Net, events: seq<Event>, m: Net, j: nat)
    requires Fresh(n) && Reaches(n, events, m) && j < |m.sent|
    ensures var s := m.sent[j];
      && s.from <= |m.trace| && Starts(m.trace[..s.from]) == Starts(n.trace) + j
      && exists i :: StartedAt(m.trace, s, i)
    ensures m.stats.txPackets == |m.sent| && m.stats.txBytes == Lengths(m.sent)
  {
    hide Reaches, StartedAt, Starts;
    RunSends(n, events, m, Starts(n.trace));
    assert m.sent[j] in m.sent;
  }

  // The queue flag tells whether a frame would be taken, unless a link change left the counter at the limit
  // and no handler, watchdog or reset has left it below since; then, and only then, the queue runs and the
  // frame is refused. (LinkChangeQueue tells which link changes do.)
  lemma {:induction false} QueueFlagExact(n: Net, events: seq<Event>, m: Net,
                                          frame: seq<byte>, slack: Slack, gaps: seq<seq<IrqAnswer>>)
    requires Fresh(n) && Reaches(n, events, m) && m.open
    ensures Sound(m) && (m.linkOk <==> QueueExact(m))
    ensures m.linkOk <==> (m.stopped <==> m.txCnt >= if m.rev != 0x1A && m.speed == 10 then 1 else 2)
    ensures var taken := |XmitStep(m, frame, slack, gaps).sent| - |m.sent|;
      && (m.linkOk ==> taken == if m.stopped then 0 else 1)
      && (!m.linkOk ==> !m.stopped && taken == 0)
  {
    RunInvariant(n, events, m);
    if m.txCnt < Limit(m) {
      var sent := Taken(m, frame, slack);
      TransmitContiguous(Admitted(m, |frame|), sent, Accesses(|frame|, m.mode), gaps);
    }
  }

  // In particular without link changes.
  lemma {:induction false} LinkFreeRun(n: Net, events: seq<Event>, m: Net)
    requires Fresh(n) && Reaches(n, events, m)
    requires forall e <- events :: AllowedEvent(e, true)
    ensures m.linkOk && (m.open ==> (m.stopped <==> m.txCnt >= Limit(m)))
  {
    FreshInvariant(n);
    RunKeeps(n, events, m, true);
  }

  // Masked reception recovers: interrupts are on at every event boundary, reception is masked only
  // with the quota used up, and then the armed timer unmasks it and arms itself again.
  lemma {:induction false} MaskedReceiveRecovers(n: Net, events: seq<Event>, m: Net)
    requires Fresh(n) && Reaches(n, events, m) && m.open
    ensures m.imr == 0xA3 || (m.imr == 0xA2 && m.cont == 0xFFFF)
    ensures 0 <= m.cont <= 0xFFFF
    ensures Enabled(m, Tick) && TickStep(m).imr == 0xA3 && Enabled(TickStep(m), Tick)
  {
    RunInvariant(n, events, m);
  }

  // Unacknowledged frames never overlap: with frames of at most 1536 bytes, each of the last txCnt
  // frames taken is in the ring byte for byte, and two of them share no address.
  lemma {:induction false} UnacknowledgedFramesIntact(n: Net, events: seq<Event>, m: Net)
    requires Fresh(n) && Reaches(n, events, m) && m.open
    requires forall e <- events :: SmallFrame(e)
    ensures |m.txMem| == TX_SIZE && 0 <= m.txCnt <= 2 && m.txCnt <= |m.sent|
    ensures forall j :: |m.sent| - m.txCnt <= j < |m.sent| ==> Intact(m.txMem, m.sent[j])
    ensures m.txCnt == 2 ==> Disjoint(m.sent[|m.sent| - 2], m.sent[|m.sent| - 1])
  {
    hide Reaches, Intact, Disjoint;
    FreshInvariant(n);
    RunFlies(n, events, m);
    FlyingIntact(m);
  }

  lemma FlyingIntact(m: Net)
    requires InFlight(m) && m.open
    ensures |m.txMem| == TX_SIZE && 0 <= m.txCnt <= 2 && m.txCnt <= |m.sent|
    ensures forall j :: |m.sent| - m.txCnt <= j < |m.sent| ==> Intact(m.txMem, m.sent[j])
    ensures m.txCnt == 2 ==> Disjoint(m.sent[|m.sent| - 2], m.sent[|m.sent| - 1])
  {
    hide Intact, Disjoint;
    if m.txCnt == 2 {
      InFlightDisjoint(m);
    }
  }

  // The watchdog counts itself and a transmit error, and resets the chip exactly when its first 99 polls
  // all see the transmitter busy; either way nothing is counted in flight and the queue runs.
  lemma WatchdogServes(n: Net, polls: seq<bool>, link: LinkAnswer)
    requires n.open && Sound(n)
    ensures var m, busy := WatchdogStep(n, polls, link), forall i :: 0 <= i < 99 ==> Up(polls, i);
      && m.timeouts == n.timeouts + 1 && m.stats == n.stats.(txErrors := n.stats.txErrors + 1)
      && m.txCnt == 0 && !m.stopped && m.taken == n.taken && m.delivered == n.delivered && m.cont == n.cont
      && if busy then
           && m.resets == n.resets + 1 && m.pending == [] && m.end == 0 && m.rxPos == 0xC00 && m.txPos == 0
           && m.imr == 0xA3
           && m.speed == if exists i :: 0 <= i < 1000 && Up(link.polls, i)
                         then if Bit(link.control, 0x2000) then 100 else 10 else 10
         else
           && m.resets == n.resets && m.pending == n.pending && m.end == n.end && m.rxPos == n.rxPos
           && m.txPos == n.txPos && m.txMem == n.txMem && m.imr == n.imr && m.speed == n.speed
  {
    hide PollsWithin, Up, Follows, Sound, Resets;
  }

  // Opening brings up an empty interface with everything counted from zero, interrupts on and the speed of
  // the first of 3000 polls that shows the link; a refused interrupt line leaves it as it was.
  lemma OpenServes(n: Net, irqOk: bool, nsr: seq<byte>, first: nat)
    requires !n.open && Sound(n)
    requires forall j :: 0 <= j < first && j < 3000 ==> !Bit(NsrAt(nsr, j), 0x40)
    requires first < 3000 ==> Bit(NsrAt(nsr, first), 0x40)
    ensures var m := OpenStep(n, irqOk, nsr);
      if !irqOk then m == n
      else
        && m.open && m.timer && !m.stopped && m.filter && m.imr == 0xA3
        && m.txCnt == 0 && m.cont == 0 && m.resets == 0 && m.timeouts == 0
        && m.pending == [] && m.end == 0 && m.rxPos == 0xC00 && m.txPos == 0
        && m.stats == n.stats && m.taken == n.taken && m.delivered == n.delivered
        && m.speed == if first < 3000 && !Bit(NsrAt(nsr, first + 1), 0x80) then 100 else 10
  {
    hide OpenReads, OpenSpeed, Follows, Sound, Resets;
    OpenSpeedDecided(nsr, 0, 3000, first);
  }

  // The hundredth poll and any later ones are on record, and change nothing else.
  lemma WatchdogPollsTooOften(n: Net, polls: seq<bool>, link: LinkAnswer)
    requires n.open && Sound(n) && |polls| > 99
    ensures var m, cut := WatchdogStep(n, polls, link), WatchdogStep(n, polls[..99], link);
      m == cut.(trace := m.trace, counts := m.counts)
  {
    hide PollsWithin, BusyFor;
    BusyCut(polls);
  }

  lemma BusyCut(polls: seq<bool>)
    requires |polls| > 99
    ensures BusyFor(polls, 99) == BusyFor(polls[..99], 99)
  {
    assert forall i :: 0 <= i < 99 ==> Up(polls, i) == Up(polls[..99], i);
  }

  // Link changes ------------------------------------------------------------------------------

  // n with what a link change touches taken from m.
  function Linked(n: Net, m: Net): Net {
    n.(imr := m.imr, speed := m.speed, stopped := m.stopped)
  }

  lemma ArrivalBlind(n: Net, m: Net, packets: seq<Packet>)
    requires n.open && Sound(n)
    ensures Sound(Linked(n, m)) && ArrivalStep(Linked(n, m), packets) == Linked(ArrivalStep(n, packets), m)
  {
  }

  lemma TakeBlind(n: Net, m: Net)
    requires n.open && Sound(n) && n.pending != []
    ensures Sound(Linked(n, m)) && TakeStep(Linked(n, m)) == Linked(TakeStep(n), m)
  {
  }

  // How the receive loop ends does not depend on what a link change touched.
  lemma {:induction false} DrainBlind(n: Net, m: Net, ticks: seq<RxTick>)
    requires n.open && Sound(n) && Sound(Linked(n, m))
    ensures Drain(Linked(n, m), ticks) == (Linked(Drain(n, ticks).0, m), Drain(n, ticks).1)
    decreases |n.pending| + Arriving(ticks)
  {
    hide ArrivalStep, TakeStep, Sound;
    ArrivalBlind(n, m, FirstTick(ticks).arriving);
    var a := ArrivalStep(n, FirstTick(ticks).arriving);
    if a.pending != [] && (a.pending[0].Good() ==> FirstTick(ticks).alloc) {
      TakeBlind(a, m);
      if !(a.pending[0].Good() && TakeStep(a).cont >= CONT_RX_PKT_CNT) {
        TakenLess(n, ticks);
        DrainBlind(TakeStep(a), m, LaterTicks(ticks));
      }
    }
  }

  // Each round takes a packet off what is pending or still to arrive.
  lemma TakenLess(n: Net, ticks: seq<RxTick>)
    requires n.open && Sound(n)
    ensures var a := ArrivalStep(n, FirstTick(ticks).arriving);
      a.pending != [] ==> |TakeStep(a).pending| + Arriving(LaterTicks(ticks)) < |n.pending| + Arriving(ticks)
  {
  }

  // What a handler serves ------------------------------------------------------------------------

  // How the receive loop of the handler ends, if it runs.
  ghost predicate Ends(n: Net, a: IrqAnswer, outcome: Outcome)
    requires n.open && Sound(n)
  {
    Bit(a.isr, 0x01) && Drain(n.(cont := 0), a.ticks).1 == outcome
  }

  // The frames left of `count` when NSR's two completion bits are counted off; none without a report or
  // when more are reported than were counted.
  function Remaining(count: int, nsr: byte): int {
    var done := (if Bit(nsr, 0x04) then 1 else 0) + (if Bit(nsr, 0x08) then 1 else 0);
    if done == 0 || count < done then 0 else count - done
  }

  // The frames left when the handler has served reception (at the quota) and completion.
  ghost function LeftAfter(n: Net, a: IrqAnswer): int
    requires n.open && Sound(n)
  {
    var received := if Ends(n, a, Quota) then Remaining(n.txCnt, a.quota.nsr) else n.txCnt;
    if Bit(a.isr, 0x02) then Remaining(received, a.tx.nsr) else received
  }

  // The speed the handler leaves: a reset looks at up to 1000 answers, a link change at every second of up
  // to 1000; without a link a reset assumes 10 Mbit/s and a link change keeps the speed.
  ghost function SpeedAfter(n: Net, a: IrqAnswer): nat
    requires n.open && Sound(n)
  {
    if Ends(n, a, Corrupt) then
      if exists i :: 0 <= i < 1000 && Up(a.reset.polls, i) then if Bit(a.reset.control, 0x2000) then 100 else 10 else 10
    else if Bit(a.isr, 0x20) && exists i :: 0 <= i < 500 && Up(a.link.polls, 2 * i + 1) then
      if Bit(a.link.control, 0x2000) then 100 else 10
    else n.speed
  }

  // A handler serves what the interrupt status asks for and nothing else, whatever comes together.
  //
  // Reception: the packets are those of the receive loop on the waiting ring, which is emptied by a reset
  // if the loop finds it corrupt.
  lemma HandlerReceives(n: Net, a: IrqAnswer)
    requires n.open && Sound(n)
    ensures var m, loop := IrqStep(n, a), Drain(n.(cont := 0), a.ticks).0;
      if !Bit(a.isr, 0x01) then
        && m.taken == n.taken && m.delivered == n.delivered && m.stats == n.stats && m.cont == n.cont
        && m.pending == n.pending && m.end == n.end && m.rxPos == n.rxPos && m.stored == n.stored
        && m.resets == n.resets
      else
        && m.taken == loop.taken && m.delivered == loop.delivered && m.stats == loop.stats && m.cont == loop.cont
        && if Ends(n, a, Corrupt) then
             && m.pending == [] && m.end == 0 && m.rxPos == 0xC00 && m.stored == m.taken
             && m.resets == n.resets + 1
           else
             && m.pending == loop.pending && m.end == loop.end && m.rxPos == loop.rxPos && m.stored == loop.stored
             && m.resets == n.resets
  {
    hide Drain, IrqLink, IrqReceive, IrqTxDone, Up, Follows, Sound, Remaining;
    HandlerSteps(n, a);
  }

  // Completion: the frames left are those the NSR reads leave, and it, the quota, a reset and a link change
  // each restart the queue.
  lemma HandlerCompletes(n: Net, a: IrqAnswer)
    requires n.open && Sound(n)
    ensures var m := IrqStep(n, a);
      var served := Bit(a.isr, 0x02) || Ends(n, a, Quota) || Ends(n, a, Corrupt);
      && m.txCnt == (if Ends(n, a, Corrupt) then 0 else LeftAfter(n, a))
      && (!served ==> m.counts == n.counts && m.trace == n.trace)
      && m.stopped == (n.stopped && !served && !Bit(a.isr, 0x20))
  {
    hide Drain, IrqLink, IrqReceive, IrqTxDone, Up, Follows, Sound, Remaining;
    HandlerSteps(n, a);
    NoneRemaining(a.tx.nsr);
  }

  // Interrupts are on again, but for reception when the quota is used up, and the speed is the link's.
  lemma HandlerEnds(n: Net, a: IrqAnswer)
    requires n.open && Sound(n)
    ensures var m := IrqStep(n, a);
      m.imr == (if m.cont >= 0xFFFF then 0xA2 else 0xA3) && m.speed == SpeedAfter(n, a)
  {
    hide Drain, IrqLink, IrqReceive, IrqTxDone, Up, Follows, Sound, Remaining;
    HandlerSteps(n, a);
  }

  // The handler step by step.
  lemma HandlerSteps(n: Net, a: IrqAnswer)
    requires n.open && Sound(n)
    ensures Sound(n.(imr := IMR_NONE))
    ensures var m := IrqLink(n.(imr := IMR_NONE), a);
      && LinkServed(n, m, a)
      && m.open && Sound(m) && Sound(n.(cont := 0)) && Sound(m.(cont := 0))
      && Drain(m.(cont := 0), a.ticks) ==
         (Linked(Drain(n.(cont := 0), a.ticks).0, m), Drain(n.(cont := 0), a.ticks).1)
      && ReceptionServed(m, IrqReceive(m, a), a)
      && CompletionServed(IrqReceive(m, a), IrqTxDone(IrqReceive(m, a), a), a)
  {
    hide Drain, IrqReceive, IrqTxDone, Sound, Resets, LinkServed, ReceptionServed, CompletionServed;
    LinkedSound(n, n.(imr := IMR_NONE));
    LinkStepServes(n, a);
    var m := IrqLink(n.(imr := IMR_NONE), a);
    LinkedSound(n, m);
    assert m.(cont := 0) == Linked(n.(cont := 0), m);
    DrainBlind(n.(cont := 0), m, a.ticks);
    ReceptionServes(m, a);
    CompletionServes(IrqReceive(m, a), a);
  }

  lemma NoneRemaining(nsr: byte)
    ensures Remaining(0, nsr) == 0
  {
  }

  lemma LinkedSound(n: Net, m: Net)
    requires Sound(n)
    ensures Sound(n.(cont := 0)) && Sound(Linked(n, m)) && Sound(Linked(n.(cont := 0), m))
    ensures Sound(n.(imr := m.imr))
  {
  }

  // What a link change makes of the state before it.
  ghost predicate LinkServed(n: Net, m: Net, a: IrqAnswer) {
    && m == n.(imr := m.imr, speed := m.speed, stopped := n.stopped && !Bit(a.isr, 0x20))
    && m.speed == if Bit(a.isr, 0x20) && exists i :: 0 <= i < 500 && Up(a.link.polls, 2 * i + 1) then
         if Bit(a.link.control, 0x2000) then 100 else 10
       else n.speed
  }

  lemma LinkStepServes(n: Net, a: IrqAnswer)
    requires n.open && Sound(n) && Sound(n.(imr := IMR_NONE))
    ensures LinkServed(n, IrqLink(n.(imr := IMR_NONE), a), a)
  {
    hide Up, Sound, Resets;
  }

  // What reception makes of the state the receive loop leaves.
  ghost predicate ReceptionServed(n: Net, m: Net, a: IrqAnswer)
    requires n.open && Sound(n.(cont := 0))
  {
    var (d, outcome) := Drain(n.(cont := 0), a.ticks);
    if !Bit(a.isr, 0x01) then m == n
    else if outcome == Corrupt then
      m == d.(txCnt := 0, stopped := false, pending := [], end := 0, rxPos := 0xC00, stored := d.taken,
              resets := d.resets + 1, linkOk := true, filter := true, imr := m.imr, txPos := m.txPos,
              speed := if exists i :: 0 <= i < 1000 && Up(a.reset.polls, i)
                       then if Bit(a.reset.control, 0x2000) then 100 else 10 else 10,
              trace := m.trace, counts := m.counts)
    else if outcome == Quota then
      m == d.(txCnt := Remaining(d.txCnt, a.quota.nsr), stopped := false, trace := m.trace, counts := m.counts)
    else m == d
  }

  lemma ReceptionServes(n: Net, a: IrqAnswer)
    requires n.open && Sound(n) && Sound(n.(cont := 0))
    ensures ReceptionServed(n, IrqReceive(n, a), a)
  {
    hide Drain, Up, Sound, Resets, Settled;
  }

  ghost predicate CompletionServed(n: Net, m: Net, a: IrqAnswer) {
    if !Bit(a.isr, 0x02) then m == n
    else m == n.(txCnt := Remaining(n.txCnt, a.tx.nsr), stopped := false, trace := m.trace, counts := m.counts)
  }

  lemma CompletionServes(n: Net, a: IrqAnswer)
    requires n.open && Sound(n)
    ensures CompletionServed(n, IrqTxDone(n, a), a)
  {
    hide Follows, Sound, Resets, Settled;
  }

  // Link changes ------------------------------------------------------------------------------------

  // The limit at the speed the link came back with.
  ghost function NewLimit(n: Net, a: IrqAnswer): nat
    requires n.open && Sound(n)
  {
    if n.rev != 0x1A && SpeedAfter(n, a) == 10 then 1 else 2
  }

  // A link change restarts the queue without looking at the counter, and what the handler serves after it
  // restarts it too. So afterwards the flag is exact if and only if the chip was reset for a corrupt ready
  // byte or the frames left are below the limit of the new speed.
  lemma LinkChangeQueue(n: Net, a: IrqAnswer)
    requires n.open && Sound(n) && Steady(n)
    requires Bit(a.isr, 0x20)
    ensures !IrqStep(n, a).stopped
    ensures QueueExact(IrqStep(n, a)) <==> Ends(n, a, Corrupt) || LeftAfter(n, a) < NewLimit(n, a)
    ensures IrqStep(n, a).linkOk <==> Ends(n, a, Corrupt) || LeftAfter(n, a) < NewLimit(n, a)
  {
    hide IrqReceive, IrqTxDone, IrqLink, Resets, Sound, SpeedAfter, LeftAfter, Ends;
    HandlerCompletes(n, a);
    HandlerEnds(n, a);
  }

  // 60 bytes, the shortest frame a stack hands over.
  const FRAME := seq(60, _ => 0xFF)
  const SEND_FRAME := Xmit(FRAME, [0, 0, 0], [])

  lemma OpensAt100(n: Net)
    requires Fresh(n) && n.rev != REVISION_B
    ensures var m := Step(n, Open(true, [0x40]));
      m.open && m.speed == 100 && m.txCnt == 0 && m.rev == n.rev
  {
    hide OpenReads;
    assert OpenSpeed([0x40], 0, 3000) == 100;
  }

  lemma SendsOne(n: Net)
    requires n.open && Sound(n) && 0 <= n.txCnt < 2 && n.speed == 100
    ensures var m := Step(n, SEND_FRAME);
      m.open && m.speed == 100 && m.txCnt == n.txCnt + 1 && m.rev == n.rev
  {
    hide Puts, Prepared, Finished;
    QuietXmit(n, FRAME, [0, 0, 0]);
  }

  // The link is up again on the first second read; the PHY's control register does not show 100 Mbit/s.
  function SlowLink(): Event {
    Irq(IrqAnswer(0x20, LinkAnswer([false, true], 0), [], LinkAnswer([], 0), TxAnswer(0, []), TxAnswer(0, [])))
  }

  lemma ComesBackSlow(n: Net)
    requires n.open && Sound(n)
    ensures var m := Step(n, SlowLink());
      m.open && m.speed == 10 && !m.stopped && m.txCnt == n.txCnt && m.rev == n.rev
  {
    hide ReceiveStep, TxDoneStep, Sound;
    assert Up([false, true], 2 * 0 + 1);
  }

  lemma {:induction false} ReachesThrough(n: Net, e: Event, events: seq<Event>, m: Net)
    requires Sound(n) && Enabled(n, e) && Reaches(Step(n, e), events, m)
    ensures Reaches(n, [e] + events, m)
  {
    hide Step;
    assert ([e] + events)[1..] == events;
  }

  // A run that ends with the queue running and the next frame refused: two frames of 60 bytes go out at 100 Mbit/s,
  // then the link comes back at 10.
  lemma LinkChangeRefuses(n: Net)
    requires Fresh(n) && n.rev != REVISION_B
    ensures exists events, m ::
      Reaches(n, events, m) && m.open && !m.stopped && m.txCnt >= Limit(m)
  {
    hide Step, Reaches;
    var up := Open(true, [0x40]);
    OpensAt100(n);
    var n0 := Step(n, up);
    SendsOne(n0);
    var n1 := Step(n0, SEND_FRAME);
    SendsOne(n1);
    var n2 := Step(n1, SEND_FRAME);
    ComesBackSlow(n2);
    var m := Step(n2, SlowLink());
    StaysThere(m);
    ReachesThrough(n2, SlowLink(), [], m);
    ReachesThrough(n1, SEND_FRAME, [SlowLink()] + [], m);
    ReachesThrough(n0, SEND_FRAME, [SEND_FRAME] + ([SlowLink()] + []), m);
    ReachesThrough(n, up, [SEND_FRAME] + ([SEND_FRAME] + ([SlowLink()] + [])), m);
  }
}
