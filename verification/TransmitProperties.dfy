// What transmission puts in the ring, with and without interrupts between its port accesses, and
// why unacknowledged frames never overlap.

module TransmitProperties {
  import opened Bytes
  import opened BusMode
  import opened TxRing
  import opened TxHistory
  import opened NetModel

  // Frames in flight ---------------------------------------------------------------------------

  const MAX_FRAME := 1536

  // The ring still holds these bytes from `start`.
  ghost predicate Intact(mem: seq<byte>, s: Sent)
    requires |mem| == TX_SIZE
  {
    s.start < TX_SIZE && |s.bytes| <= MAX_FRAME && Arc(mem, s.start, |s.bytes|) == s.bytes
  }

  // The place just behind a frame.
  function Behind(s: Sent): nat
    requires s.start < TX_SIZE
  {
    TxAdd(s.start, |s.bytes|)
  }

  function Last(n: Net): Sent
    requires n.sent != []
  {
    n.sent[|n.sent| - 1]
  }

  // The last txCnt frames taken are in the ring byte for byte, one behind the other, the newest
  // ending at the write pointer.
  ghost predicate InFlight(n: Net) {
    n.open ==>
      && |n.txMem| == TX_SIZE
      && 0 <= n.txCnt <= 2 && n.txCnt <= |n.sent|
      && (n.txCnt >= 1 ==> Intact(n.txMem, Last(n)) && Behind(Last(n)) == n.txPos)
      && (n.txCnt == 2 ==>
            var before := n.sent[|n.sent| - 2];
            Intact(n.txMem, before) && Behind(before) == Last(n).start)
  }

  // The same while the newest of them is being written: `done` of it is in the ring.
  ghost predicate Writing(n: Net, start: nat, done: seq<byte>) {
    && |n.txMem| == TX_SIZE && start < TX_SIZE && |done| <= MAX_FRAME
    && 0 <= n.txCnt <= 2 && n.txCnt <= |n.sent| + 1
    && (n.txCnt >= 1 ==> Arc(n.txMem, start, |done|) == done && TxAdd(start, |done|) == n.txPos)
    && (n.txCnt == 2 ==> Intact(n.txMem, Last(n)) && Behind(Last(n)) == start)
  }

  // No address of the ring belongs to both.
  ghost predicate Disjoint(a: Sent, b: Sent) {
    && a.start < TX_SIZE && b.start < TX_SIZE
    && forall i: nat :: i < TX_SIZE && InArc(i, a.start, |a.bytes|) ==> !InArc(i, b.start, |b.bytes|)
  }

  // Two frames in flight share no byte of the ring.
  lemma InFlightDisjoint(n: Net)
    requires InFlight(n) && n.open && n.txCnt == 2
    ensures Disjoint(n.sent[|n.sent| - 2], Last(n))
  {
    NeighboursDisjoint(n.sent[|n.sent| - 2], Last(n));
  }

  lemma NeighboursDisjoint(a: Sent, b: Sent)
    requires a.start < TX_SIZE && |a.bytes| <= MAX_FRAME && |b.bytes| <= MAX_FRAME
    requires b.start == Behind(a)
    ensures Disjoint(a, b)
  {
    assert b.start == if a.start + |a.bytes| < TX_SIZE then a.start + |a.bytes| else a.start + |a.bytes| - TX_SIZE;
  }

  // Acknowledging frames: the counter falls or is zeroed, as long as frames are left nothing in the ring
  // moves, and no transmission is started.
  ghost predicate Completes(n: Net, m: Net) {
    && (m.txCnt <= n.txCnt || m.txCnt == 0) && (n.txCnt >= 0 ==> m.txCnt >= 0) && m.sent == n.sent
    && (m.txCnt > 0 ==> m.txPos == n.txPos && m.txMem == n.txMem)
    && Starts(m.trace) == Starts(n.trace)
  }

  // Transmissions started -------------------------------------------------------------------------

  lemma NothingStarts()
    ensures Starts([]) == 0
  {
  }

  lemma NoStart(e: TxEvent)
    requires !e.TxStart?
    ensures Starts([e]) == 0
  {
    assert Starts([e]) == Starts([]);
  }

  lemma {:induction false} PollsStart(tape: seq<bool>)
    ensures Starts(Polls(tape)) == 0
  {
    hide Starts;
    if tape != [] && tape[0] {
      PollsStart(tape[1..]);
      StartsConcat([TcrPoll(true)], Polls(tape[1..]));
      NoStart(TcrPoll(true));
    } else {
      NoStart(TcrPoll(false));
    }
  }

  lemma {:induction false} PollsWithinStart(tape: seq<bool>, k: nat, budget: nat)
    ensures Starts(PollsWithin(tape, k, budget)) == 0
    decreases budget
  {
    hide Starts;
    if budget == 0 {
      NothingStarts();
    } else if Up(tape, k) {
      PollsWithinStart(tape, k + 1, budget - 1);
      StartsConcat([TcrPoll(true)], PollsWithin(tape, k + 1, budget - 1));
      NoStart(TcrPoll(true));
    } else {
      NoStart(TcrPoll(false));
    }
  }

  lemma {:induction false} OpenReadsStart(nsr: seq<byte>, k: nat, budget: nat)
    ensures Starts(OpenReads(nsr, k, budget)) == 0
    decreases budget
  {
    hide Starts;
    if budget == 0 {
      NothingStarts();
    } else {
      var now, next := [NsrRead(NsrAt(nsr, k))], [NsrRead(NsrAt(nsr, k + 1))];
      NoStart(now[0]);
      NoStart(next[0]);
      if Bit(NsrAt(nsr, k), 0x40) {
        StartsConcat(now, next);
        assert OpenReads(nsr, k, budget) == now + next;
      } else {
        OpenReadsStart(nsr, k + 1, budget - 1);
        StartsConcat(now, OpenReads(nsr, k + 1, budget - 1));
      }
    }
  }

  lemma TxDoneCompletes(n: Net, a: TxAnswer)
    ensures Completes(n, TxDoneStep(n, a))
  {
    hide Polls, Starts, Settled;
    var r := Saw(n, [NsrRead(a.nsr)]);
    SettledTrace(r, a);
    NoStart(NsrRead(a.nsr));
    StartsConcat(n.trace, [NsrRead(a.nsr)]);
    StartsConcat(r.trace, Polls(a.polls));
    PollsStart(a.polls);
  }

  // Settling the counter adds the polls of one wait to what passed, or nothing.
  lemma SettledTrace(n: Net, a: TxAnswer)
    ensures Settled(n, a).trace == n.trace || Settled(n, a).trace == n.trace + Polls(a.polls)
  {
  }

  lemma InitialisedStarts(n: Net)
    ensures Starts(Initialised(n).trace) == Starts(n.trace)
  {
    hide Starts;
    StartsConcat(n.trace, [ChipReset, ChipReset]);
    StartsConcat([ChipReset], [ChipReset]);
    assert [ChipReset, ChipReset] == [ChipReset] + [ChipReset];
    NoStart(ChipReset);
  }

  lemma ReceiveCompletes(n: Net, ticks: seq<RxTick>, reset: LinkAnswer, quota: TxAnswer)
    requires n.open && Sound(n)
    ensures Completes(n, ReceiveStep(n, ticks, reset, quota))
  {
    hide Starts, Drain, Follows, Resets, Settled, UpWithin;
    var r := Drain(n.(cont := 0), ticks).0;
    InitialisedStarts(r);
    TxDoneCompletes(r, quota);
  }

  lemma IrqCompletes(n: Net, a: IrqAnswer)
    requires n.open && Sound(n)
    ensures Completes(n, IrqStep(n, a))
  {
    hide ReceiveStep, TxDoneStep, Starts;
    var m := IrqLink(n.(imr := IMR_NONE), a);
    ReceiveCompletes(m, a.ticks, a.reset, a.quota);
    TxDoneCompletes(IrqReceive(m, a), a.tx);
  }

  lemma {:induction false} IrqsComplete(n: Net, answers: seq<IrqAnswer>)
    requires n.open && Sound(n)
    ensures Completes(n, Irqs(n, answers))
    decreases |answers|
  {
    hide IrqStep;
    if answers != [] {
      IrqCompletes(n, answers[0]);
      IrqsComplete(IrqStep(n, answers[0]), answers[1..]);
    }
  }

  lemma {:induction false} GapsComplete(n: Net, gaps: seq<seq<IrqAnswer>>, k: nat, count: nat)
    requires n.open && Sound(n)
    ensures Completes(n, Gaps(n, gaps, k, count))
    decreases count
  {
    hide Irqs;
    if count > 0 {
      IrqsComplete(n, Gap(gaps, k));
      GapsComplete(Irqs(n, Gap(gaps, k)), gaps, k + 1, count - 1);
    }
  }

  lemma WritingCompletes(n: Net, m: Net, start: nat, done: seq<byte>)
    requires Writing(n, start, done) && Completes(n, m) && |m.txMem| == TX_SIZE
    ensures Writing(m, start, done)
  {
  }

  // One more access extends the part written and touches nothing else in flight.
  lemma PutExtends(n: Net, start: nat, done: seq<byte>, chunk: seq<byte>)
    requires n.txPos < TX_SIZE && Writing(n, start, done) && |done| + |chunk| <= MAX_FRAME
    ensures Writing(Put(n, chunk), start, done + chunk)
  {
    if n.txCnt >= 1 {
      ExtendArc(n.txMem, start, done, chunk);
    }
    if n.txCnt == 2 {
      KeepEarlier(n.txMem, Last(n), |done|, chunk);
    }
  }

  lemma ExtendArc(mem: seq<byte>, start: nat, done: seq<byte>, chunk: seq<byte>)
    requires |mem| == TX_SIZE && start < TX_SIZE && |done| + |chunk| <= MAX_FRAME
    requires Arc(mem, start, |done|) == done
    ensures Arc(TxFill(mem, TxAdd(start, |done|), chunk), start, |done + chunk|) == done + chunk
    ensures TxAdd(start, |done + chunk|) == TxAdd(TxAdd(start, |done|), |chunk|)
  {
    var after := TxFill(mem, TxAdd(start, |done|), chunk);
    TxFillKeepsArc(mem, start, |done|, chunk);
    TxAddAdd(start, |done|, |chunk|);
    forall k | 0 <= k < |done + chunk|
      ensures Arc(after, start, |done + chunk|)[k] == (done + chunk)[k]
    {
      if k < |done| {
        assert Arc(after, start, |done|)[k] == done[k];
      } else {
        TxFillInside(mem, TxAdd(start, |done|), chunk, k - |done|);
        TxAddAdd(start, |done|, k - |done|);
      }
    }
  }

  // The frame before the one being written, `gap` bytes of which lie between.
  lemma KeepEarlier(mem: seq<byte>, s: Sent, gap: nat, chunk: seq<byte>)
    requires |mem| == TX_SIZE && Intact(mem, s) && gap + |chunk| <= MAX_FRAME
    ensures Intact(TxFill(mem, TxAdd(Behind(s), gap), chunk), s)
  {
    var p := TxAdd(Behind(s), gap);
    TxAddAdd(s.start, |s.bytes|, gap);
    forall k | 0 <= k < |s.bytes|
      ensures TxFill(mem, p, chunk)[TxAdd(s.start, k)] == s.bytes[k]
    {
      ArcAddress(s.start, |s.bytes|, k);
      OutsideLater(s.start, k, |s.bytes| + gap, |chunk|);
      TxFillOutside(mem, p, chunk, TxAdd(s.start, k));
      assert Arc(mem, s.start, |s.bytes|)[k] == s.bytes[k];
    }
  }

  lemma PutThenIrqs(n: Net, start: nat, done: seq<byte>, chunk: seq<byte>, answers: seq<IrqAnswer>)
    requires n.open && Sound(n) && Writing(n, start, done) && |done| + |chunk| <= MAX_FRAME
    ensures Writing(Irqs(Put(n, chunk), answers), start, done + chunk)
  {
    hide Irqs;
    PutExtends(n, start, done, chunk);
    IrqsComplete(Put(n, chunk), answers);
  }

  lemma {:induction false} PutsWrite(n: Net, bytes: seq<byte>, count: nat, mode: Mode,
                                     gaps: seq<seq<IrqAnswer>>, k: nat, start: nat, done: seq<byte>)
    requires n.open && Sound(n) && |bytes| == Times(count, mode)
    requires Writing(n, start, done) && |done| + |bytes| <= MAX_FRAME
    ensures Writing(Puts(n, bytes, Width(mode), gaps, k), start, done + bytes)
    decreases |bytes|
  {
    hide Irqs, Writing, TxFill, TxAdd, Resets, Starts;
    if count == 0 {
      assert done + bytes == done;
    } else {
      TimesStep(count - 1, count, mode);
      var chunk, rest := bytes[..Width(mode)], bytes[Width(mode)..];
      PutThenIrqs(n, start, done, chunk, Gap(gaps, k));
      PutsWrite(Irqs(Put(n, chunk), Gap(gaps, k)), rest, count - 1, mode, gaps, k + 1, start, done + chunk);
      assert done + bytes == done + chunk + rest;
    }
  }

  lemma MaskedCompletes(n: Net, gaps: seq<seq<IrqAnswer>>)
    requires n.open && Sound(n)
    ensures Completes(n, Masked(n, gaps))
  {
    hide Gaps;
    GapsComplete(n, gaps, 0, 1);
    GapsComplete(Gaps(n, gaps, 0, 1).(imr := IMR_NONE), gaps, 1, 1);
  }

  lemma TwoRegistersComplete(n: Net, gaps: seq<seq<IrqAnswer>>, k: nat)
    requires n.open && Sound(n)
    ensures Completes(n, TwoRegisters(n, gaps, k))
  {
    hide Gaps;
    GapsComplete(n, gaps, k, 2);
    GapsComplete(Gaps(n, gaps, k, 2), gaps, k + 2, 2);
  }

  lemma MeasuredCompletes(n: Net, length: nat, gaps: seq<seq<IrqAnswer>>)
    requires n.open && Sound(n)
    ensures Completes(n, Measured(n, length, gaps))
  {
    hide Gaps, Starts, Resets;
    GapsComplete(n, gaps, 6, 1);
    var low := Lengthened(Gaps(n, gaps, 6, 1), true, Low(length));
    GapsComplete(low, gaps, 7, 1);
    var m := Gaps(low, gaps, 7, 1);
    GapsComplete(m, gaps, 8, 1);
    GapsComplete(Lengthened(Gaps(m, gaps, 8, 1), false, High(length)), gaps, 9, 1);
  }

  lemma PreparedCompletes(n: Net, length: nat, gaps: seq<seq<IrqAnswer>>)
    requires n.open && Sound(n)
    ensures Completes(n, Prepared(n, length, gaps))
  {
    hide Gaps, Masked, TwoRegisters, Measured, Starts, Resets;
    MaskedCompletes(n, gaps);
    var m := Masked(n, gaps);
    TwoRegistersComplete(m, gaps, 2);
    MeasuredCompletes(TwoRegisters(m, gaps, 2), length, gaps);
    GapsComplete(Measured(TwoRegisters(m, gaps, 2), length, gaps), gaps, 10, 1);
  }

  // The transmit command starts one transmission.
  lemma StartedOnce(n: Net, gaps: seq<seq<IrqAnswer>>, k: nat)
    requires n.open && Sound(n)
    ensures var m := Started(n, gaps, k);
      Completes(n, m.(trace := n.trace)) && Starts(m.trace) == Starts(n.trace) + 1
  {
    hide Gaps;
    GapsComplete(n, gaps, k, 1);
    var m := Gaps(n, gaps, k, 1);
    StartsConcat(m.trace, [StartOf(m)]);
    assert Starts([StartOf(m)]) == 1 by { assert [StartOf(m)][..0] == []; }
    GapsComplete(Saw(m, [StartOf(m)]), gaps, k + 1, 1);
  }

  lemma FinishedFlies(n: Net, gaps: seq<seq<IrqAnswer>>, k: nat, frame: Sent)
    requires n.open && Sound(n) && Writing(n, frame.start, frame.bytes)
    ensures InFlight(Finished(n, gaps, k, frame))
  {
    hide Gaps, Started, Starts;
    StartedOnce(n, gaps, k);
    var m := Gaps(Started(n, gaps, k).(cont := 0), gaps, k + 2, 1);
    GapsComplete(Started(n, gaps, k).(cont := 0), gaps, k + 2, 1);
    assert Completes(n, m.(trace := n.trace));
    WritingCompletes(n, m.(trace := n.trace), frame.start, frame.bytes);
    var r := Finished(n, gaps, k, frame);
    assert Last(r) == frame;
    assert n.sent != [] ==> r.sent[|r.sent| - 2] == Last(n);
  }

  lemma {:induction false} TransmitFlies(n: Net, frame: Sent, count: nat, gaps: seq<seq<IrqAnswer>>)
    requires n.open && Sound(n) && Writing(n, frame.start, [])
    requires |frame.bytes| == Times(count, n.mode) <= MAX_FRAME
    ensures InFlight(Transmit(n, frame, count, gaps))
  {
    hide Prepared, Puts, Finished, InFlight;
    PreparedCompletes(n, frame.length, gaps);
    var ready := Prepared(n, frame.length, gaps);
    WritingCompletes(n, ready, frame.start, []);
    PutsWrite(ready, frame.bytes, count, n.mode, gaps, 11, frame.start, []);
    assert [] + frame.bytes == frame.bytes;
    FinishedFlies(Loaded(n, frame.length, frame.bytes, gaps), gaps, 11 + count, frame);
  }

  lemma AdmittedWrites(n: Net, length: nat)
    requires n.open && Sound(n) && InFlight(n) && n.txCnt < Limit(n)
    ensures Writing(Admitted(n, length), n.txPos, [])
  {
    assert Arc(n.txMem, n.txPos, 0) == [];
    assert TxAdd(n.txPos, 0) == n.txPos;
  }

  lemma SmallSpan(length: nat, mode: Mode)
    requires length <= MAX_FRAME
    ensures Span(length, mode) <= MAX_FRAME
  {
    match mode
    case ByteMode =>
    case WordMode => assert (length + 1) / 2 <= 768;
    case DwordMode => assert (length + 3) / 4 <= 384;
  }

  lemma {:induction false} XmitFlies(n: Net, frame: seq<byte>, slack: Slack, gaps: seq<seq<IrqAnswer>>)
    requires n.open && Sound(n) && InFlight(n) && |frame| <= MAX_FRAME
    ensures InFlight(XmitStep(n, frame, slack, gaps))
  {
    hide Transmit, InFlight, Writing;
    if n.txCnt < Limit(n) {
      SmallSpan(|frame|, n.mode);
      AdmittedWrites(n, |frame|);
      var sent := Taken(n, frame, slack);
      TransmitFlies(Admitted(n, |frame|), sent, Accesses(|frame|, n.mode), gaps);
    }
  }

  lemma WatchdogZeroes(n: Net, polls: seq<bool>, link: LinkAnswer)
    requires n.open && Sound(n)
    ensures WatchdogStep(n, polls, link).txCnt == 0
  {
    hide PollsWithin, BusyFor;
  }

  predicate SmallFrame(e: Event) {
    e.Xmit? ==> |e.frame| <= MAX_FRAME
  }

  lemma {:induction false} StepFlies(n: Net, e: Event)
    requires Sound(n) && Enabled(n, e) && InFlight(n) && SmallFrame(e)
    ensures InFlight(Step(n, e))
  {
    hide IrqStep, XmitStep, WatchdogStep, ArrivalStep, Intact, Starts;
    match e
    case Xmit(frame, slack, gaps) => XmitFlies(n, frame, slack, gaps);
    case Irq(a) => IrqCompletes(n, a);
    case Watchdog(polls, link) => WatchdogZeroes(n, polls, link);
    case _ =>
  }

  // In every state a run reaches, at most two frames are in flight, and the ring holds them intact.
  lemma {:induction false} RunFlies(n: Net, events: seq<Event>, m: Net)
    requires Sound(n) && Reaches(n, events, m) && InFlight(n)
    requires forall e <- events :: SmallFrame(e)
    ensures Sound(m) && InFlight(m)
    decreases |events|
  {
    hide Step, InFlight;
    if events != [] {
      assert events[0] in events;
      StepFlies(n, events[0]);
      assert forall e <- events[1..] :: e in events;
      RunFlies(Step(n, events[0]), events[1..], m);
    }
  }

  // Every frame taken is started once, and nothing else starts the transmitter.
  lemma {:induction false} XmitStarts(n: Net, frame: seq<byte>, slack: Slack, gaps: seq<seq<IrqAnswer>>)
    requires n.open && Sound(n)
    ensures var m := XmitStep(n, frame, slack, gaps);
      |n.sent| <= |m.sent| && Starts(m.trace) == Starts(n.trace) + (|m.sent| - |n.sent|)
  {
    hide Transmit, Starts;
    if n.txCnt < Limit(n) {
      var sent := Taken(n, frame, slack);
      TransmitContiguous(Admitted(n, |frame|), sent, Accesses(|frame|, n.mode), gaps);
    }
  }

  lemma {:induction false} StepStarts(n: Net, e: Event)
    requires Sound(n) && Enabled(n, e)
    ensures var m := Step(n, e);
      |n.sent| <= |m.sent| && Starts(m.trace) == Starts(n.trace) + (|m.sent| - |n.sent|)
  {
    hide IrqStep, XmitStep, Starts, Resets, PollsWithin, BusyFor, OpenReads, OpenSpeed;
    match e
    case Open(irqOk, nsr) =>
      InitialisedStarts(n);
      OpenReadsStart(nsr, 0, 3000);
      StartsConcat(Initialised(n).trace, OpenReads(nsr, 0, 3000));
    case Xmit(frame, slack, gaps) => XmitStarts(n, frame, slack, gaps);
    case Irq(a) => IrqCompletes(n, a);
    case Watchdog(polls, link) =>
      var t := Saw(TimedOut(n), PollsWithin(polls, 0, 100));
      PollsWithinStart(polls, 0, 100);
      StartsConcat(n.trace, PollsWithin(polls, 0, 100));
      InitialisedStarts(t);
    case _ =>
  }

  lemma {:induction false} RunStarts(n: Net, events: seq<Event>, m: Net)
    requires Sound(n) && Reaches(n, events, m)
    ensures |n.sent| <= |m.sent| && Starts(m.trace) == Starts(n.trace) + (|m.sent| - |n.sent|)
    decreases |events|
  {
    hide Step, Starts;
    if events != [] {
      StepStarts(n, events[0]);
      RunStarts(Step(n, events[0]), events[1..], m);
    }
  }

  // The frame in the ring ------------------------------------------------------------------------

  // Whatever handlers run between the data accesses, without a reset the bytes land one behind the other.
  lemma {:induction false} PutsContiguous(n: Net, bytes: seq<byte>, count: nat, mode: Mode,
                                          gaps: seq<seq<IrqAnswer>>, k: nat)
    requires n.open && Sound(n) && |bytes| == Times(count, mode)
    ensures var m := Puts(n, bytes, Width(mode), gaps, k);
      m.resets == n.resets ==> m.txMem == TxFill(n.txMem, n.txPos, bytes) && m.txPos == TxAdd(n.txPos, |bytes|)
    decreases |bytes|
  {
    hide Irqs, TxFill, TxAdd, Resets;
    if count == 0 {
      TxNothing(n.txMem, n.txPos);
      assert bytes == [];
    } else {
      TimesStep(count - 1, count, mode);
      var chunk, rest := bytes[..Width(mode)], bytes[Width(mode)..];
      PutsContiguous(Irqs(Put(n, chunk), Gap(gaps, k)), rest, count - 1, mode, gaps, k + 1);
      TxFillConcat(n.txMem, n.txPos, chunk, rest);
      TxAddAdd(n.txPos, |chunk|, |rest|);
      assert bytes == chunk + rest;
    }
  }

  // Before the data, the length registers get the frame's length, and the ring is left alone.
  lemma MeasuredLength(n: Net, length: nat, gaps: seq<seq<IrqAnswer>>)
    requires n.open && Sound(n)
    ensures var m := Measured(n, length, gaps);
      && TxKept(n, m.(txLow := n.txLow, txHigh := n.txHigh))
      && (m.resets == n.resets ==> m.txLow == Low(length) && m.txHigh == High(length))
  {
    hide Gaps, Starts, Resets;
  }

  lemma PreparedKeepsRing(n: Net, length: nat, gaps: seq<seq<IrqAnswer>>)
    requires n.open && Sound(n)
    ensures var m := Prepared(n, length, gaps);
      && TxKept(n, m.(txLow := n.txLow, txHigh := n.txHigh))
      && (m.resets == n.resets ==> m.txLow == Low(length) && m.txHigh == High(length))
  {
    hide Gaps, TwoRegisters, Measured, Starts, Resets;
    MeasuredLength(TwoRegisters(Masked(n, gaps), gaps, 2), length, gaps);
  }

  lemma TransmitContiguous(n: Net, frame: Sent, count: nat, gaps: seq<seq<IrqAnswer>>)
    requires n.open && Sound(n) && |frame.bytes| == Times(count, n.mode)
    ensures var m := Transmit(n, frame, count, gaps);
      && m.sent == n.sent + [frame]
      && m.stats.txPackets == n.stats.txPackets && m.stats.txBytes == n.stats.txBytes
      && Starts(m.trace) == Starts(n.trace) + 1
      && (m.resets == n.resets ==>
            m.txMem == TxFill(n.txMem, n.txPos, frame.bytes) && m.txPos == TxAdd(n.txPos, |frame.bytes|))
  {
    hide Prepared, Puts, Gaps, Started, Starts, Resets;
    PreparedKeepsRing(n, frame.length, gaps);
    PreparedCompletes(n, frame.length, gaps);
    var ready := Prepared(n, frame.length, gaps);
    PutsContiguous(ready, frame.bytes, count, n.mode, gaps, 11);
    PutsKeepSent(ready, frame.bytes, Width(n.mode), gaps, 11);
    var loaded := Loaded(n, frame.length, frame.bytes, gaps);
    StartedOnce(loaded, gaps, 11 + count);
    GapsComplete(Started(loaded, gaps, 11 + count).(cont := 0), gaps, 13 + count, 1);
  }

  lemma {:induction false} PutsKeepSent(n: Net, bytes: seq<byte>, width: nat, gaps: seq<seq<IrqAnswer>>, k: nat)
    requires n.open && Sound(n) && width > 0
    ensures Puts(n, bytes, width, gaps, k).sent == n.sent
    ensures Puts(n, bytes, width, gaps, k).stats.txPackets == n.stats.txPackets
    ensures Puts(n, bytes, width, gaps, k).stats.txBytes == n.stats.txBytes
    ensures Starts(Puts(n, bytes, width, gaps, k).trace) == Starts(n.trace)
    decreases |bytes|
  {
    hide Irqs, Starts;
    if |bytes| >= width {
      IrqsComplete(Put(n, bytes[..width]), Gap(gaps, k));
      PutsKeepSent(Irqs(Put(n, bytes[..width]), Gap(gaps, k)), bytes[width..], width, gaps, k + 1);
    }
  }

  // A frame that was taken is in the ring from the old write pointer, with less than one bus access of
  // padding behind it: the bus width and the handlers that ran in between make no difference.
  lemma XmitPutsFrame(n: Net, frame: seq<byte>, slack: Slack, gaps: seq<seq<IrqAnswer>>)
    requires n.open && Sound(n) && n.txCnt < Limit(n)
    requires XmitStep(n, frame, slack, gaps).resets == n.resets
    ensures var m, bytes := XmitStep(n, frame, slack, gaps), Wire(frame, slack, n.mode);
      && m.sent == n.sent + [Taken(n, frame, slack)] && Starts(m.trace) == Starts(n.trace) + 1
      && m.txMem == TxFill(n.txMem, n.txPos, bytes) && m.txPos == TxAdd(n.txPos, |bytes|)
      && frame <= bytes && |bytes| < |frame| + Width(n.mode)
      && (|bytes| <= TX_SIZE ==> Arc(m.txMem, n.txPos, |frame|) == frame)
  {
    hide Transmit, Starts;
    var bytes := Wire(frame, slack, n.mode);
    SpanCovers(|frame|, n.mode);
    TransmitContiguous(Admitted(n, |frame|), Taken(n, frame, slack), Accesses(|frame|, n.mode), gaps);
    if |bytes| <= TX_SIZE {
      TxFillArc(n.txMem, n.txPos, bytes);
      var mem := TxFill(n.txMem, n.txPos, bytes);
      assert Arc(mem, n.txPos, |frame|) == Arc(mem, n.txPos, |bytes|)[..|frame|];
    }
  }

  // The undisturbed event --------------------------------------------------------------------------

  lemma {:induction false} QuietGaps(n: Net, k: nat, count: nat)
    requires n.open && Sound(n)
    ensures Gaps(n, [], k, count) == n
    decreases count
  {
    if count > 0 {
      assert Irqs(n, []) == n;
      QuietGaps(n, k + 1, count - 1);
    }
  }

  lemma {:induction false} QuietPuts(n: Net, bytes: seq<byte>, count: nat, mode: Mode, k: nat)
    requires n.open && Sound(n) && |bytes| == Times(count, mode)
    ensures Puts(n, bytes, Width(mode), [], k) == Put(n, bytes)
    decreases |bytes|
  {
    hide Irqs, TxFill, TxAdd, Follows, Resets;
    if count == 0 {
      assert bytes == [];
      TxNothing(n.txMem, n.txPos);
    } else {
      TimesStep(count - 1, count, mode);
      var chunk, rest := bytes[..Width(mode)], bytes[Width(mode)..];
      NoIrqs(Put(n, chunk));
      assert Sound(Put(n, chunk));
      QuietPuts(Put(n, chunk), rest, count - 1, mode, k + 1);
      TxFillConcat(n.txMem, n.txPos, chunk, rest);
      TxAddAdd(n.txPos, |chunk|, |rest|);
      assert bytes == chunk + rest;
    }
  }

  lemma NoIrqs(n: Net)
    requires n.open && Sound(n)
    ensures Irqs(n, []) == n
  {
  }

  lemma QuietMeasured(n: Net, length: nat)
    requires n.open && Sound(n)
    ensures Measured(n, length, []) == n.(txLow := Low(length), txHigh := High(length))
  {
    hide Gaps;
    QuietGaps(n, 6, 1);
    var low := n.(txLow := Low(length));
    QuietGaps(low, 7, 1);
    QuietGaps(low, 8, 1);
    QuietGaps(low.(txHigh := High(length)), 9, 1);
  }

  lemma QuietPrepared(n: Net, length: nat)
    requires n.open && Sound(n)
    ensures Prepared(n, length, []) == n.(imr := 0x80, txLow := Low(length), txHigh := High(length))
  {
    hide Gaps, Measured;
    QuietGaps(n, 0, 1);
    var m := n.(imr := IMR_NONE);
    QuietGaps(m, 1, 1);
    QuietGaps(m, 2, 2);
    QuietGaps(m, 4, 2);
    QuietMeasured(m, length);
    QuietGaps(m.(txLow := Low(length), txHigh := High(length)), 10, 1);
  }

  // Without interrupts a transmit call is one atomic step: the frame is counted in, the queue stops if the
  // limit is reached now, and the transmitter is started on the frame's bytes and length.
  lemma QuietXmit(n: Net, frame: seq<byte>, slack: Slack)
    requires n.open && Sound(n) && n.txCnt < Limit(n)
    ensures var bytes := Wire(frame, slack, n.mode);
      var mem := TxFill(n.txMem, n.txPos, bytes);
      XmitStep(n, frame, slack, []) == n.(
        txCnt := n.txCnt + 1, counts := n.counts + [Setting(|n.trace|, n.txCnt + 1)],
        stats := n.stats.(txPackets := n.stats.txPackets + 1, txBytes := n.stats.txBytes + |frame|),
        stopped := n.stopped || n.txCnt + 1 >= if n.rev != 0x1A && n.speed == 10 then 1 else 2,
        txMem := mem, txPos := (n.txPos + |bytes|) % 0xC00,
        txLow := |frame| % 0x100, txHigh := |frame| / 0x100 % 0x100,
        sent := n.sent + [Sent(n.txPos, bytes, |frame|, |n.trace|)],
        trace := n.trace + [TxStart(mem, |frame| % 0x1_0000)],
        cont := 0, imr := 0xA3)
  {
    hide Gaps, Prepared, Puts, TxFill, Follows, Resets, Wire;
    var bytes, count := Wire(frame, slack, n.mode), Accesses(|frame|, n.mode);
    var m := Admitted(n, |frame|);
    QuietPrepared(m, |frame|);
    var ready := m.(imr := IMR_NONE, txLow := Low(|frame|), txHigh := High(|frame|));
    QuietPuts(ready, bytes, count, n.mode, 11);
    var written := Put(ready, bytes);
    JoinLength(|frame|);
    QuietGaps(written, 11 + count, 1);
    var started := Saw(written, [StartOf(written)]);
    QuietGaps(started, 12 + count, 1);
    QuietGaps(started.(cont := 0), 13 + count, 1);
  }

  // The transmit command ---------------------------------------------------------------------------

  // The command the transmitter gets for a frame, the i-th event of what passed: the first since the frame was
  // taken. Unless the chip was reset meanwhile, it finds the frame in memory and its length in the registers.
  ghost predicate StartedAt(trace: seq<TxEvent>, s: Sent, i: nat) {
    && s.from <= i < |trace| && trace[i].TxStart?
    && (forall j :: s.from <= j < i ==> !trace[j].TxStart?)
    && ((forall j :: s.from <= j < i ==> trace[j] != ChipReset) ==> FindsFrame(trace[i], s))
  }

  ghost predicate FindsFrame(e: TxEvent, s: Sent)
    requires e.TxStart?
  {
    && e.length == s.length % 0x1_0000 && s.start < 0xC00 && s.length <= |s.bytes| && |e.mem| == 0xC00
    && (|s.bytes| <= 0xC00 ==> forall k :: 0 <= k < s.length ==> e.mem[(s.start + k) % 0xC00] == s.bytes[k])
  }

  // Every frame taken was started.
  ghost predicate AllStarted(n: Net) {
    forall s <- n.sent :: exists i :: StartedAt(n.trace, s, i)
  }

  // At the command, the frame is in the ring.
  lemma CommandFinds(n: Net, m: Net, s: Sent)
    requires |n.txMem| == TX_SIZE && n.txPos < TX_SIZE && s.start == n.txPos && s.length <= |s.bytes|
    requires m.txMem == TxFill(n.txMem, n.txPos, s.bytes)
    requires m.txLow == Low(s.length) && m.txHigh == High(s.length)
    ensures FindsFrame(StartOf(m), s)
  {
    hide TxFill;
    JoinLength(s.length);
    if |s.bytes| <= TX_SIZE {
      forall k | 0 <= k < s.length
        ensures m.txMem[TxAdd(s.start, k)] == s.bytes[k]
      {
        TxFillInside(n.txMem, n.txPos, s.bytes, k);
      }
    }
  }

  // What was loaded is what the command finds, unless a handler resets the chip before it.
  lemma LoadedFor(n: Net, s: Sent, count: nat, gaps: seq<seq<IrqAnswer>>)
    requires n.open && Sound(n) && |s.bytes| == Times(count, n.mode)
    requires s.start == n.txPos && s.length <= |s.bytes|
    ensures var l := Loaded(n, s.length, s.bytes, gaps);
      && n.trace <= l.trace && n.resets <= l.resets
      && l.resets - n.resets <= Resets(l.trace) - Resets(n.trace)
      && Starts(l.trace) == Starts(n.trace)
      && (l.resets == n.resets ==> |l.txMem| == TX_SIZE && FindsFrame(StartOf(l), s))
  {
    hide Prepared, Puts, Starts, Resets, TxFill, FindsFrame;
    PreparedKeepsRing(n, s.length, gaps);
    PreparedCompletes(n, s.length, gaps);
    var ready := Prepared(n, s.length, gaps);
    PutsContiguous(ready, s.bytes, count, n.mode, gaps, 11);
    PutsKeepSent(ready, s.bytes, Width(n.mode), gaps, 11);
    PutsKeepLength(ready, s.bytes, Width(n.mode), gaps, 11);
    var l := Loaded(n, s.length, s.bytes, gaps);
    if l.resets == n.resets {
      CommandFinds(n, l, s);
    }
  }

  lemma {:induction false} PutsKeepLength(n: Net, bytes: seq<byte>, width: nat, gaps: seq<seq<IrqAnswer>>, k: nat)
    requires n.open && Sound(n) && width > 0
    ensures var m := Puts(n, bytes, width, gaps, k);
      m.resets == n.resets ==> m.txLow == n.txLow && m.txHigh == n.txHigh
    decreases |bytes|
  {
    hide Irqs, Resets;
    if |bytes| >= width {
      PutsKeepLength(Irqs(Put(n, bytes[..width]), Gap(gaps, k)), bytes[width..], width, gaps, k + 1);
    }
  }

  // The transmit command comes after the frame's length and data.
  lemma TransmitStarts(n: Net, s: Sent, count: nat, gaps: seq<seq<IrqAnswer>>)
    requires n.open && Sound(n) && |s.bytes| == Times(count, n.mode)
    requires s.start == n.txPos && s.length <= |s.bytes| && s.from == |n.trace|
    ensures exists i :: StartedAt(Transmit(n, s, count, gaps).trace, s, i)
  {
    hide Loaded, Gaps, Starts, Resets, FindsFrame;
    LoadedFor(n, s, count, gaps);
    var l := Loaded(n, s.length, s.bytes, gaps);
    GapsComplete(l, gaps, 11 + count, 1);
    var c := Gaps(l, gaps, 11 + count, 1);
    var m := Transmit(n, s, count, gaps);
    assert Saw(c, [StartOf(c)]).trace <= m.trace;
    CommandAt(n.trace, c.trace, StartOf(c), m.trace, s);
  }

  // With one command more than before, the others are not.
  lemma OnlyStart(trace: seq<TxEvent>, from: nat, i: nat)
    requires from <= i < |trace| && trace[i].TxStart? && Starts(trace) == Starts(trace[..from]) + 1
    ensures forall j :: i < j < |trace| ==> !trace[j].TxStart?
  {
    assert trace[..i + 1][..i] == trace[..i] && trace[..i][..from] == trace[..from];
    StartsGrow(trace[..i], from);
    StartsGrow(trace, i + 1);
    NoneStarted(trace, i + 1);
  }

  lemma CommandAt(before: seq<TxEvent>, now: seq<TxEvent>, e: TxEvent, all: seq<TxEvent>, s: Sent)
    requires before <= now && now + [e] <= all && e.TxStart? && s.from == |before|
    requires Starts(now) == Starts(before) && (Resets(now) == Resets(before) ==> FindsFrame(e, s))
    ensures StartedAt(all, s, |now|)
  {
    hide Starts, Resets, FindsFrame;
    assert now[..|before|] == before;
    NoneStarted(now, |before|);
    assert all[|now|] == (now + [e])[|now|] == e;
    assert forall j :: 0 <= j < |now| ==> all[j] == (now + [e])[j] == now[j];
    if forall j :: |before| <= j < |now| ==> all[j] != ChipReset {
      NoneReset(now, |before|);
    }
  }

  lemma XmitCommands(n: Net, frame: seq<byte>, slack: Slack, gaps: seq<seq<IrqAnswer>>)
    requires n.open && Sound(n) && n.txCnt < Limit(n)
    ensures exists i :: StartedAt(XmitStep(n, frame, slack, gaps).trace, Taken(n, frame, slack), i)
  {
    hide Transmit, Starts, Resets, StartedAt;
    SpanCovers(|frame|, n.mode);
    var m, s, count := Admitted(n, |frame|), Taken(n, frame, slack), Accesses(|frame|, n.mode);
    TransmitStarts(m, s, count, gaps);
    var i :| StartedAt(Transmit(m, s, count, gaps).trace, s, i);
    assert StartedAt(XmitStep(n, frame, slack, gaps).trace, s, i);
  }

  // Over runs: every frame taken was started, as the command behind those of the frames before it, and the
  // statistics count the frames and their lengths.
  ghost predicate Sending(n: Net, base: nat) {
    && AllStarted(n)
    && Starts(n.trace) == base + |n.sent|
    && (forall j :: 0 <= j < |n.sent| ==>
          n.sent[j].from <= |n.trace| && Starts(n.trace[..n.sent[j].from]) == base + j)
    && n.stats.txPackets == |n.sent| && n.stats.txBytes == Lengths(n.sent)
  }

  function Lengths(sent: seq<Sent>): nat {
    if sent == [] then 0 else sent[|sent| - 1].length + Lengths(sent[..|sent| - 1])
  }

  lemma StartedLater(trace: seq<TxEvent>, all: seq<TxEvent>, s: Sent)
    requires trace <= all && exists i :: StartedAt(trace, s, i)
    ensures exists i :: StartedAt(all, s, i)
  {
    hide FindsFrame;
    var i :| StartedAt(trace, s, i);
    assert forall j :: 0 <= j < |trace| ==> all[j] == trace[j];
    assert StartedAt(all, s, i);
  }

  lemma SendingOn(n: Net, m: Net, base: nat)
    requires Sending(n, base) && n.trace <= m.trace
    requires m.sent == n.sent && Starts(m.trace) == Starts(n.trace)
    requires m.stats.txPackets == n.stats.txPackets && m.stats.txBytes == n.stats.txBytes
    ensures Sending(m, base)
  {
    hide StartedAt, Starts;
    forall s | s in m.sent
      ensures exists i :: StartedAt(m.trace, s, i)
    {
      StartedLater(n.trace, m.trace, s);
    }
    forall j | 0 <= j < |m.sent|
      ensures m.trace[..m.sent[j].from] == n.trace[..n.sent[j].from]
    {
    }
  }

  lemma SendingOne(n: Net, m: Net, s: Sent, base: nat)
    requires Sending(n, base) && n.trace <= m.trace
    requires m.sent == n.sent + [s] && s.from == |n.trace| && Starts(m.trace) == Starts(n.trace) + 1
    requires exists i :: StartedAt(m.trace, s, i)
    requires m.stats.txPackets == n.stats.txPackets + 1 && m.stats.txBytes == n.stats.txBytes + s.length
    ensures Sending(m, base)
  {
    hide StartedAt, Starts;
    forall t | t in m.sent
      ensures exists i :: StartedAt(m.trace, t, i)
    {
      if t in n.sent {
        StartedLater(n.trace, m.trace, t);
      }
    }
    assert m.trace[..|n.trace|] == n.trace;
    forall j | 0 <= j < |n.sent|
      ensures m.trace[..m.sent[j].from] == n.trace[..n.sent[j].from]
    {
    }
    assert m.sent[..|n.sent|] == n.sent;
  }

  lemma XmitSends(n: Net, frame: seq<byte>, slack: Slack, gaps: seq<seq<IrqAnswer>>, base: nat)
    requires n.open && Sound(n) && Sending(n, base)
    ensures Sending(XmitStep(n, frame, slack, gaps), base)
  {
    hide Transmit, Starts, Sending, StartedAt, Resets;
    if n.txCnt < Limit(n) {
      XmitCommands(n, frame, slack, gaps);
      TransmitContiguous(Admitted(n, |frame|), Taken(n, frame, slack), Accesses(|frame|, n.mode), gaps);
      SendingOne(n, XmitStep(n, frame, slack, gaps), Taken(n, frame, slack), base);
    }
  }

  lemma WatchdogSends(n: Net, polls: seq<bool>, link: LinkAnswer)
    requires n.open && Sound(n)
    ensures var m := WatchdogStep(n, polls, link);
      m.sent == n.sent && m.stats.txPackets == n.stats.txPackets && m.stats.txBytes == n.stats.txBytes
  {
    hide PollsWithin, BusyFor, Follows, Sound, Resets;
  }

  lemma {:induction false} StepSends(n: Net, e: Event, base: nat)
    requires Sound(n) && Enabled(n, e) && Sending(n, base)
    ensures Sending(Step(n, e), base)
  {
    hide IrqStep, XmitStep, WatchdogStep, Starts, Sending, OpenReads, OpenSpeed, Sound, Resets;
    if e.Xmit? {
      XmitSends(n, e.frame, e.slack, e.gaps, base);
    } else {
      StepStarts(n, e);
      if e.Watchdog? {
        WatchdogSends(n, e.polls, e.link);
      }
      SendingOn(n, Step(n, e), base);
    }
  }

  lemma {:induction false} RunSends(n: Net, events: seq<Event>, m: Net, base: nat)
    requires Sound(n) && Reaches(n, events, m) && Sending(n, base)
    ensures Sending(m, base)
    decreases |events|
  {
    hide Step, Sending;
    if events != [] {
      StepSends(n, events[0], base);
      RunSends(Step(n, events[0]), events[1..], m, base);
    }
  }
}
