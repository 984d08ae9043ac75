// What every run of the interface keeps: exactly-once delivery, accounting, the transmit counter,
// the queue flag, the receive quota and the timer.

module RunProperties {
  import opened Bytes
  import opened BusMode
  import opened RxRing
  import opened TxHistory
  import opened NetModel
  import opened ReceiveProperties

  // While open: the counters are in range, the timer is armed, the filter is the stack's, and a stopped
  // queue means that the counter is at the limit, so an acknowledgement is still to come.
  ghost predicate Steady(n: Net) {
    n.open ==>
      && 0 <= n.txCnt <= 2
      && 0 <= n.cont <= CONT_RX_PKT_CNT
      && n.timer && n.filter
      && (n.stopped ==> n.txCnt == Limit(n))
  }

  // The queue flag tells exactly whether the next frame would be taken.
  ghost predicate QueueExact(n: Net) {
    n.open ==> n.txCnt <= Limit(n) && (n.stopped <==> n.txCnt >= Limit(n))
  }

  // Interrupts are enabled, and reception is masked only when the quota is used up.
  ghost predicate Unmasking(n: Net) {
    n.open ==> n.imr == IMR_ALL || (n.imr == IMR_NO_RX && n.cont == CONT_RX_PKT_CNT)
  }

  predicate NoLinkChange(a: IrqAnswer) {
    !Bit(a.isr, 0x20)
  }

  // The packet counter is what the record says, and the record is lawful: no value was given to it but
  // by counting a frame in, by counting out the frames NSR had just reported, or, with the transmitter
  // idle, by zeroing it.
  ghost predicate OnRecord(n: Net) {
    Lawful(n.trace, n.counts) && Latest(n.counts) == n.txCnt
  }

  // What holds at every moment, also while a frame is being put on the bus.
  ghost predicate Sane(n: Net) {
    ExactlyOnce(n) && Accounted(n) && Steady(n) && OnRecord(n)
  }

  // With the queue flag, which is wrong exactly from a link change that leaves the limit reached until the
  // counter is seen below it; `exact` adds that there was no link change.
  ghost predicate Kept(n: Net, exact: bool) {
    Sane(n) && (n.open ==> (n.linkOk <==> QueueExact(n))) && (exact ==> n.linkOk)
  }

  ghost predicate Allowed(answers: seq<IrqAnswer>, exact: bool) {
    exact ==> forall a <- answers :: NoLinkChange(a)
  }

  ghost predicate AllowedGaps(gaps: seq<seq<IrqAnswer>>, exact: bool) {
    forall g <- gaps :: Allowed(g, exact)
  }

  // The record ----------------------------------------------------------------------------------

  lemma SawKeeps(n: Net, events: seq<TxEvent>)
    requires OnRecord(n)
    ensures OnRecord(Saw(n, events))
  {
    LawfulLater(n.trace, events, n.counts);
  }

  lemma CountedKeeps(n: Net, value: int)
    requires OnRecord(n) && Justified(n.trace, n.txCnt, value)
    ensures OnRecord(Counted(n, value))
  {
    LawfulCount(n.trace, n.counts, value);
  }

  // Idle polls or resets, then the counter zeroed.
  lemma ZeroedKeeps(n: Net, events: seq<TxEvent>)
    requires OnRecord(n) && Idle(events)
    ensures OnRecord(Counted(Saw(n, events), 0))
  {
    SawKeeps(n, events);
    IdleLater(n.trace, events);
    CountedKeeps(Saw(n, events), 0);
  }

  lemma TxDoneRecord(n: Net, a: TxAnswer)
    requires OnRecord(n)
    ensures OnRecord(TxDoneStep(n, a))
  {
    hide OnRecord, Polls, Done, Resets;
    var r := Saw(n, [NsrRead(a.nsr)]);
    SawKeeps(n, [NsrRead(a.nsr)]);
    if Done(a.nsr) == 0 {
      ZeroedKeeps(r, Polls(a.polls));
    } else {
      CountedKeeps(r, n.txCnt - Done(a.nsr));
      ZeroedKeeps(Counted(r, n.txCnt - Done(a.nsr)), Polls(a.polls));
    }
    SameRecord(Settled(r, a), TxDoneStep(n, a));
  }

  lemma SameRecord(n: Net, m: Net)
    requires OnRecord(n) && m.trace == n.trace && m.counts == n.counts && m.txCnt == n.txCnt
    ensures OnRecord(m)
  {
  }

  lemma InitialisedRecord(n: Net)
    requires OnRecord(n)
    ensures OnRecord(Initialised(n))
  {
    hide OnRecord;
    ZeroedKeeps(n, [ChipReset, ChipReset]);
    SameRecord(Counted(Saw(n, [ChipReset, ChipReset]), 0), Initialised(n));
  }

  lemma WatchdogRecord(n: Net, polls: seq<bool>, link: LinkAnswer)
    requires n.open && Sound(n) && OnRecord(n)
    ensures OnRecord(WatchdogStep(n, polls, link))
  {
    hide OnRecord, PollsWithin;
    var t := TimedOut(n);
    SameRecord(n, t);
    var seen := PollsWithin(polls, 0, 100);
    if BusyFor(polls, 99) {
      SawKeeps(t, seen);
      InitialisedRecord(Saw(t, seen));
      SameRecord(Initialised(Saw(t, seen)), WatchdogStep(n, polls, link));
    } else {
      var idle :| 0 <= idle < 99 && !Up(polls, idle);
      PollsEndIdle(polls, 0, 100, idle);
      ZeroedKeeps(t, seen);
      SameRecord(Counted(Saw(t, seen), 0), WatchdogStep(n, polls, link));
    }
  }

  // Handlers ----------------------------------------------------------------------------------

  lemma {:induction false} DrainCount(n: Net, ticks: seq<RxTick>)
    requires n.open && Sound(n) && 0 <= n.cont < CONT_RX_PKT_CNT
    ensures 0 <= Drain(n, ticks).0.cont <= CONT_RX_PKT_CNT
    ensures Drain(n, ticks).1 != Quota ==> Drain(n, ticks).0.cont < CONT_RX_PKT_CNT
    decreases |n.pending| + Arriving(ticks)
  {
    hide ArrivalStep, TakeStep, Encode;
    var m := ArrivalStep(n, FirstTick(ticks).arriving);
    if m.pending != [] && (m.pending[0].Good() ==> FirstTick(ticks).alloc) {
      TakeConsumes(n, FirstTick(ticks).arriving);
      if !(m.pending[0].Good() && TakeStep(m).cont >= CONT_RX_PKT_CNT) {
        DrainCount(TakeStep(m), LaterTicks(ticks));
      }
    }
  }

  // What reception and completion keep: they never stop the queue, and leave the flag exact if it was or
  // if they reset the chip.
  ghost predicate Onward(n: Net, m: Net) {
    && (Sane(n) ==> Sane(m))
    && (QueueExact(n) ==> QueueExact(m))
    && (!n.stopped ==> !m.stopped)
    && (n.linkOk ==> m.linkOk) && (m.linkOk ==> n.linkOk || QueueExact(m))
  }

  lemma ResetOnward(n: Net, link: LinkAnswer)
    requires n.open && Sound(n)
    ensures Onward(n, ResetStep(n, link))
  {
    hide OnRecord;
    if OnRecord(n) {
      InitialisedRecord(n);
      SameRecord(Initialised(n), ResetStep(n, link));
    }
    assert n.taken + [] == n.taken;
  }

  lemma TxDoneOnward(n: Net, a: TxAnswer)
    requires n.open && Sound(n)
    ensures Onward(n, TxDoneStep(n, a))
  {
    hide Accounted, ExactlyOnce, OnRecord, Settled;
    if OnRecord(n) {
      TxDoneRecord(n, a);
    }
    AccountFrame(n, TxDoneStep(n, a));
  }

  // Delivery and accounting are about reception alone.
  lemma AccountFrame(n: Net, m: Net)
    requires m.taken == n.taken && m.pending == n.pending && m.stored == n.stored
    requires m.delivered == n.delivered && m.stats == n.stats
    ensures ExactlyOnce(m) == ExactlyOnce(n) && Accounted(m) == Accounted(n)
  {
  }

  lemma DrainOnward(n: Net, ticks: seq<RxTick>)
    requires n.open && Sound(n)
    ensures Onward(n, Drain(n.(cont := 0), ticks).0)
  {
    hide Drain, Accounted, ExactlyOnce, OnRecord;
    DrainCount(n.(cont := 0), ticks);
    AccountFrame(n, n.(cont := 0));
    if Sane(n) {
      DrainKeeps(n.(cont := 0), ticks);
      SameRecord(n, Drain(n.(cont := 0), ticks).0);
    }
  }

  lemma ReceiveOnward(n: Net, ticks: seq<RxTick>, reset: LinkAnswer, quota: TxAnswer)
    requires n.open && Sound(n)
    ensures Onward(n, ReceiveStep(n, ticks, reset, quota))
  {
    hide Drain, Sane, QueueExact, TxDoneStep, ResetStep;
    DrainOnward(n, ticks);
    var r := Drain(n.(cont := 0), ticks);
    if r.1 == Corrupt {
      ResetOnward(r.0, reset);
    } else if r.1 == Quota {
      TxDoneOnward(r.0, quota);
    }
  }

  // Reception, then completion, after the link was looked at.
  lemma ServedOnward(n: Net, a: IrqAnswer)
    requires n.open && Sound(n)
    ensures Onward(n, IrqTxDone(IrqReceive(n, a), a))
  {
    hide ReceiveStep, TxDoneStep, Sane, QueueExact;
    var m := IrqReceive(n, a);
    if Bit(a.isr, 0x01) {
      ReceiveOnward(n, a.ticks, a.reset, a.quota);
    }
    if Bit(a.isr, 0x02) {
      TxDoneOnward(m, a.tx);
    }
  }

  lemma LinkKeeps(n: Net, a: IrqAnswer)
    requires n.open && Sound(n) && Sane(n)
    ensures Sane(IrqLink(n.(imr := IMR_NONE), a))
  {
    hide Accounted, ExactlyOnce, OnRecord;
    var m := IrqLink(n.(imr := IMR_NONE), a);
    AccountFrame(n, m);
    SameRecord(n, m);
  }

  // A handler that serves a link change always leaves the queue running.
  lemma LinkRuns(n: Net, a: IrqAnswer)
    requires n.open && Sound(n) && Bit(a.isr, 0x20)
    ensures !IrqStep(n, a).stopped
  {
    hide ReceiveStep, TxDoneStep, Sane, QueueExact, LinkStep;
    ServedOnward(IrqLink(n.(imr := IMR_NONE), a), a);
    assert !LinkStep(n.(imr := IMR_NONE), a.link).stopped by { LinkRunsOn(n.(imr := IMR_NONE), a.link); }
  }

  lemma LinkRunsOn(n: Net, link: LinkAnswer)
    ensures !LinkStep(n, link).stopped
  {
  }

  lemma {:induction false} IrqKeeps(n: Net, a: IrqAnswer, exact: bool)
    requires n.open && Sound(n) && Kept(n, exact)
    requires exact ==> NoLinkChange(a)
    ensures Kept(IrqStep(n, a), exact) && Unmasking(IrqStep(n, a))
  {
    hide IrqReceive, IrqTxDone, LinkStep, Accounted, ExactlyOnce, OnRecord;
    var m := IrqLink(n.(imr := IMR_NONE), a);
    LinkKeeps(n, a);
    ServedOnward(m, a);
    var r := IrqTxDone(IrqReceive(m, a), a);
    AccountFrame(r, IrqStep(n, a));
    SameRecord(r, IrqStep(n, a));
    if Bit(a.isr, 0x20) {
      LinkRuns(n, a);
    }
  }

  lemma {:induction false} IrqsKeep(n: Net, answers: seq<IrqAnswer>, exact: bool)
    requires n.open && Sound(n) && Kept(n, exact) && Allowed(answers, exact)
    ensures Kept(Irqs(n, answers), exact)
    decreases |answers|
  {
    hide IrqStep, Kept;
    if answers != [] {
      assert answers[0] in answers;
      IrqKeeps(n, answers[0], exact);
      assert forall a <- answers[1..] :: a in answers;
      IrqsKeep(IrqStep(n, answers[0]), answers[1..], exact);
    }
  }

  // Transmission with handlers in its gaps ------------------------------------------------------

  lemma GapAllowed(gaps: seq<seq<IrqAnswer>>, k: nat, exact: bool)
    requires AllowedGaps(gaps, exact)
    ensures Allowed(Gap(gaps, k), exact)
  {
    if k < |gaps| {
      assert gaps[k] in gaps;
    }
  }

  lemma {:induction false} GapsKeep(n: Net, gaps: seq<seq<IrqAnswer>>, k: nat, count: nat, exact: bool)
    requires n.open && Sound(n) && Kept(n, exact) && AllowedGaps(gaps, exact)
    ensures Kept(Gaps(n, gaps, k, count), exact)
    decreases count
  {
    hide Irqs, Kept, Sound;
    if count > 0 {
      GapAllowed(gaps, k, exact);
      IrqsKeep(n, Gap(gaps, k), exact);
      GapsKeep(Irqs(n, Gap(gaps, k)), gaps, k + 1, count - 1, exact);
    }
  }

  lemma PutKeeps(n: Net, bytes: seq<byte>, exact: bool)
    requires n.open && Sound(n) && Kept(n, exact)
    ensures Kept(Put(n, bytes), exact)
  {
    hide Accounted, ExactlyOnce, OnRecord;
    AccountFrame(n, Put(n, bytes));
    SameRecord(n, Put(n, bytes));
  }

  lemma {:induction false} PutsKeep(n: Net, bytes: seq<byte>, width: nat, gaps: seq<seq<IrqAnswer>>, k: nat,
                                    exact: bool)
    requires n.open && Sound(n) && width > 0 && Kept(n, exact) && AllowedGaps(gaps, exact)
    ensures Kept(Puts(n, bytes, width, gaps, k), exact)
    decreases |bytes|
  {
    hide Kept, Irqs;
    if |bytes| >= width {
      GapAllowed(gaps, k, exact);
      PutKeeps(n, bytes[..width], exact);
      IrqsKeep(Put(n, bytes[..width]), Gap(gaps, k), exact);
      PutsKeep(Irqs(Put(n, bytes[..width]), Gap(gaps, k)), bytes[width..], width, gaps, k + 1, exact);
    }
  }

  lemma MaskedKeeps(n: Net, gaps: seq<seq<IrqAnswer>>, exact: bool)
    requires n.open && Sound(n) && Kept(n, exact) && AllowedGaps(gaps, exact)
    ensures Kept(Masked(n, gaps), exact)
  {
    hide Gaps, Kept;
    GapsKeep(n, gaps, 0, 1, exact);
    var m := Gaps(n, gaps, 0, 1);
    KeptFrame(m, m.(imr := IMR_NONE), exact);
    GapsKeep(m.(imr := IMR_NONE), gaps, 1, 1, exact);
  }

  lemma TwoRegistersKeep(n: Net, gaps: seq<seq<IrqAnswer>>, k: nat, exact: bool)
    requires n.open && Sound(n) && Kept(n, exact) && AllowedGaps(gaps, exact)
    ensures Kept(TwoRegisters(n, gaps, k), exact)
  {
    GapsKeep(n, gaps, k, 2, exact);
    GapsKeep(Gaps(n, gaps, k, 2), gaps, k + 2, 2, exact);
  }

  // One register written between two gaps.
  lemma LengthKeeps(n: Net, low: bool, v: byte, gaps: seq<seq<IrqAnswer>>, k: nat, exact: bool)
    requires n.open && Sound(n) && Kept(n, exact) && AllowedGaps(gaps, exact)
    ensures var m := Lengthened(Gaps(n, gaps, k, 1), low, v);
      m.open && Sound(m) && Kept(Gaps(m, gaps, k + 1, 1), exact)
  {
    hide Gaps, Kept;
    GapsKeep(n, gaps, k, 1, exact);
    var m := Gaps(n, gaps, k, 1);
    KeptFrame(m, Lengthened(m, low, v), exact);
    GapsKeep(Lengthened(m, low, v), gaps, k + 1, 1, exact);
  }

  lemma MeasuredKeeps(n: Net, length: nat, gaps: seq<seq<IrqAnswer>>, exact: bool)
    requires n.open && Sound(n) && Kept(n, exact) && AllowedGaps(gaps, exact)
    ensures Kept(Measured(n, length, gaps), exact)
  {
    hide Gaps, Kept;
    LengthKeeps(n, true, Low(length), gaps, 6, exact);
    var m := Gaps(Lengthened(Gaps(n, gaps, 6, 1), true, Low(length)), gaps, 7, 1);
    LengthKeeps(m, false, High(length), gaps, 8, exact);
  }

  lemma {:induction false} PreparedKeeps(n: Net, length: nat, gaps: seq<seq<IrqAnswer>>, exact: bool)
    requires n.open && Sound(n) && Kept(n, exact) && AllowedGaps(gaps, exact)
    ensures Kept(Prepared(n, length, gaps), exact)
  {
    hide Gaps, Kept, Masked, TwoRegisters, Measured;
    MaskedKeeps(n, gaps, exact);
    var m := Masked(n, gaps);
    TwoRegistersKeep(m, gaps, 2, exact);
    MeasuredKeeps(TwoRegisters(m, gaps, 2), length, gaps, exact);
    GapsKeep(Measured(TwoRegisters(m, gaps, 2), length, gaps), gaps, 10, 1, exact);
  }

  lemma StartedKeeps(n: Net, gaps: seq<seq<IrqAnswer>>, k: nat, exact: bool)
    requires n.open && Sound(n) && Kept(n, exact) && AllowedGaps(gaps, exact)
    ensures Kept(Started(n, gaps, k), exact)
  {
    hide Gaps, Accounted, ExactlyOnce, OnRecord;
    GapsKeep(n, gaps, k, 1, exact);
    var m := Gaps(n, gaps, k, 1);
    SawKeeps(m, [StartOf(m)]);
    AccountFrame(m, Saw(m, [StartOf(m)]));
    GapsKeep(Saw(m, [StartOf(m)]), gaps, k + 1, 1, exact);
  }

  // Neither the receive quota nor the interrupt mask, the length registers and the frames sent matter.
  lemma KeptFrame(n: Net, m: Net, exact: bool)
    requires Kept(n, exact)
    requires m == n.(cont := m.cont, imr := m.imr, sent := m.sent, txLow := m.txLow, txHigh := m.txHigh)
    requires m.cont == n.cont || m.cont == 0
    ensures Kept(m, exact)
  {
    hide Accounted, ExactlyOnce, OnRecord;
    AccountFrame(n, m);
    SameRecord(n, m);
  }

  lemma FinishedKeeps(n: Net, gaps: seq<seq<IrqAnswer>>, k: nat, frame: Sent, exact: bool)
    requires n.open && Sound(n) && Kept(n, exact) && AllowedGaps(gaps, exact)
    ensures Kept(Finished(n, gaps, k, frame), exact)
  {
    hide Gaps, Started, Kept;
    StartedKeeps(n, gaps, k, exact);
    var m := Started(n, gaps, k);
    KeptFrame(m, m.(cont := 0), exact);
    GapsKeep(m.(cont := 0), gaps, k + 2, 1, exact);
    KeptFrame(Gaps(m.(cont := 0), gaps, k + 2, 1), Finished(n, gaps, k, frame), exact);
  }

  lemma {:induction false} TransmitKeeps(n: Net, frame: Sent, count: nat, gaps: seq<seq<IrqAnswer>>, exact: bool)
    requires n.open && Sound(n) && Kept(n, exact) && AllowedGaps(gaps, exact)
    ensures Kept(Transmit(n, frame, count, gaps), exact) && Unmasking(Transmit(n, frame, count, gaps))
  {
    PreparedKeeps(n, frame.length, gaps, exact);
    PutsKeep(Prepared(n, frame.length, gaps), frame.bytes, Width(n.mode), gaps, 11, exact);
    FinishedKeeps(Loaded(n, frame.length, frame.bytes, gaps), gaps, 11 + count, frame, exact);
  }

  lemma AdmittedKeeps(n: Net, length: nat, exact: bool)
    requires n.open && Sound(n) && Kept(n, exact) && n.txCnt < Limit(n)
    ensures Kept(Admitted(n, length), exact)
  {
    hide OnRecord, Count, Frames, GoodBytes;
    CountedKeeps(n, n.txCnt + 1);
    SameRecord(Counted(n, n.txCnt + 1), Admitted(n, length));
  }

  lemma {:induction false} XmitKeeps(n: Net, frame: seq<byte>, slack: Slack, gaps: seq<seq<IrqAnswer>>, exact: bool)
    requires n.open && Sound(n) && Kept(n, exact) && Unmasking(n) && AllowedGaps(gaps, exact)
    ensures Kept(XmitStep(n, frame, slack, gaps), exact) && Unmasking(XmitStep(n, frame, slack, gaps))
  {
    hide Transmit, Kept;
    if n.txCnt < Limit(n) {
      var sent := Taken(n, frame, slack);
      AdmittedKeeps(n, |frame|, exact);
      TransmitKeeps(Admitted(n, |frame|), sent, Accesses(|frame|, n.mode), gaps, exact);
    }
  }

  // Whole runs --------------------------------------------------------------------------------

  ghost predicate AllowedEvent(e: Event, exact: bool) {
    match e
    case Xmit(_, _, gaps) => AllowedGaps(gaps, exact)
    case Irq(a) => exact ==> NoLinkChange(a)
    case _ => true
  }

  ghost predicate Invariant(n: Net, exact: bool) {
    Kept(n, exact) && Unmasking(n)
  }

  lemma OpenKeeps(n: Net, irqOk: bool, nsr: seq<byte>, exact: bool)
    requires !n.open && Sound(n) && Invariant(n, exact)
    ensures Invariant(OpenStep(n, irqOk, nsr), exact)
  {
    hide OnRecord, OpenReads, OpenSpeed;
    InitialisedRecord(n);
    SawKeeps(Initialised(n), OpenReads(nsr, 0, 3000));
    if irqOk {
      SameRecord(Saw(Initialised(n), OpenReads(nsr, 0, 3000)), OpenStep(n, irqOk, nsr));
    }
    assert n.taken + [] == n.taken;
  }

  lemma WatchdogKeeps(n: Net, polls: seq<bool>, link: LinkAnswer, exact: bool)
    requires n.open && Sound(n) && Invariant(n, exact)
    ensures Invariant(WatchdogStep(n, polls, link), exact)
  {
    hide OnRecord, PollsWithin, BusyFor;
    WatchdogRecord(n, polls, link);
    assert n.taken + [] == n.taken;
  }

  lemma ArrivalStepKeeps(n: Net, packets: seq<Packet>, exact: bool)
    requires n.open && Sound(n) && Invariant(n, exact)
    ensures Invariant(ArrivalStep(n, packets), exact)
  {
    hide OnRecord;
    ArrivalKeeps(n, packets);
    SameRecord(n, ArrivalStep(n, packets));
  }

  // Closing, the timer, the filter and a spoilt ready byte.
  lemma OtherKeeps(n: Net, e: Event, exact: bool)
    requires Sound(n) && Enabled(n, e) && Invariant(n, exact) && (e.Close? || e.Tick? || e.Filter? || e.Corruption?)
    ensures Invariant(Step(n, e), exact)
  {
    hide OnRecord, Accounted, ExactlyOnce, Sound;
    AccountFrame(n, Step(n, e));
    SameRecord(n, Step(n, e));
  }

  lemma {:induction false} StepKeeps(n: Net, e: Event, exact: bool)
    requires Sound(n) && Enabled(n, e) && Invariant(n, exact) && AllowedEvent(e, exact)
    ensures Invariant(Step(n, e), exact)
  {
    hide Kept, Unmasking, OpenStep, XmitStep, IrqStep, WatchdogStep, TickStep, ArrivalStep;
    match e
    case Open(irqOk, nsr) => OpenKeeps(n, irqOk, nsr, exact);
    case Xmit(frame, slack, gaps) => XmitKeeps(n, frame, slack, gaps, exact);
    case Irq(a) => IrqKeeps(n, a, exact);
    case Watchdog(polls, link) => WatchdogKeeps(n, polls, link, exact);
    case Arrival(packets) => ArrivalStepKeeps(n, packets, exact);
    case _ => OtherKeeps(n, e, exact);
  }

  lemma {:induction false} RunKeeps(n: Net, events: seq<Event>, m: Net, exact: bool)
    requires Sound(n) && Reaches(n, events, m) && Invariant(n, exact)
    requires forall e <- events :: AllowedEvent(e, exact)
    ensures Sound(m) && Invariant(m, exact)
    decreases |events|
  {
    if events != [] {
      assert events[0] in events;
      StepKeeps(n, events[0], exact);
      assert forall e <- events[1..] :: e in events;
      RunKeeps(Step(n, events[0]), events[1..], m, exact);
    }
  }
}
