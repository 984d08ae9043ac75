// What passes between the driver and the transmitter, in order, and what the driver's count of
// unacknowledged frames may make of it.

module TxHistory {
  import opened Bytes
  import opened Tapes

  // A read of NSR, a poll of TCR bit 0, a transmit command, a software reset. The command comes with what
  // the transmitter finds then: the transmit memory and the length registers.
  datatype TxEvent =
    | NsrRead(nsr: byte)
    | TcrPoll(busy: bool)
    | TxStart(mem: seq<byte>, length: u16)
    | ChipReset

  // A value given to the packet counter, and how many events had passed by then.
  datatype Setting = Setting(at: nat, value: int)

  // What the counter holds: probing clears it.
  function Latest(counts: seq<Setting>): int {
    if counts == [] then 0 else counts[|counts| - 1].value
  }

  // The frames NSR reports done.
  function Done(nsr: byte): (n: nat)
    ensures n <= 2
  {
    (if Bit(nsr, 0x04) then 1 else 0) + (if Bit(nsr, 0x08) then 1 else 0)
  }

  // The transmitter is known to be idle: the last thing that passed was an idle poll or a reset, so no
  // transmission was started since.
  predicate Idle(seen: seq<TxEvent>) {
    seen != [] && (seen[|seen| - 1] == TcrPoll(false) || seen[|seen| - 1] == ChipReset)
  }

  // NSR was just read and reported n frames done.
  predicate JustReported(seen: seq<TxEvent>, n: nat) {
    seen != [] && seen[|seen| - 1].NsrRead? && Done(seen[|seen| - 1].nsr) == n
  }

  // Why the counter may go from `before` to `value`: a frame was counted in, NSR reported as many done,
  // or the transmitter was idle and the counter was zeroed.
  predicate Justified(seen: seq<TxEvent>, before: int, value: int) {
    || value == before + 1
    || (value < before && JustReported(seen, before - value))
    || (value == 0 && Idle(seen))
  }

  ghost predicate Lawful(trace: seq<TxEvent>, counts: seq<Setting>) {
    forall i :: 0 <= i < |counts| ==>
      counts[i].at <= |trace| && Justified(trace[..counts[i].at], Latest(counts[..i]), counts[i].value)
  }

  lemma LawfulLater(trace: seq<TxEvent>, more: seq<TxEvent>, counts: seq<Setting>)
    requires Lawful(trace, counts)
    ensures Lawful(trace + more, counts)
  {
    forall i | 0 <= i < |counts|
      ensures Justified((trace + more)[..counts[i].at], Latest(counts[..i]), counts[i].value)
    {
      assert (trace + more)[..counts[i].at] == trace[..counts[i].at];
    }
  }

  lemma LawfulCount(trace: seq<TxEvent>, counts: seq<Setting>, value: int)
    requires Lawful(trace, counts) && Justified(trace, Latest(counts), value)
    ensures Lawful(trace, counts + [Setting(|trace|, value)])
    ensures Latest(counts + [Setting(|trace|, value)]) == value
  {
    var more := counts + [Setting(|trace|, value)];
    forall i | 0 <= i < |more|
      ensures more[i].at <= |trace| && Justified(trace[..more[i].at], Latest(more[..i]), more[i].value)
    {
      if i < |counts| {
        assert more[..i] == counts[..i];
      } else {
        assert more[..i] == counts && trace[..|trace|] == trace;
      }
    }
  }

  // Waiting until a poll sees the transmitter idle.
  function Polls(tape: seq<bool>): (seen: seq<TxEvent>)
    ensures Idle(seen)
  {
    if tape != [] && tape[0] then [TcrPoll(true)] + Polls(tape[1..]) else [TcrPoll(false)]
  }

  // One more poll, behind what passed before.
  lemma PollsNext(before: seq<TxEvent>, tape: seq<bool>)
    ensures var busy := Head(tape, false);
      before + Polls(tape) == before + [TcrPoll(busy)] + if busy then Polls(Tail(tape)) else []
  {
    if Head(tape, false) {
      assert before + ([TcrPoll(true)] + Polls(tape[1..])) == before + [TcrPoll(true)] + Polls(tape[1..]);
    }
  }

  lemma PollsWithinNext(before: seq<TxEvent>, tape: seq<bool>, k: nat, budget: nat)
    requires budget > 0
    ensures var busy := Up(tape, k);
      before + PollsWithin(tape, k, budget) ==
        before + [TcrPoll(busy)] + if busy then PollsWithin(tape, k + 1, budget - 1) else []
  {
    if Up(tape, k) {
      var rest := PollsWithin(tape, k + 1, budget - 1);
      assert before + ([TcrPoll(true)] + rest) == before + [TcrPoll(true)] + rest;
    }
  }

  lemma PollsWithinNothing(tape: seq<bool>, k: nat)
    ensures PollsWithin(tape, k, 0) == []
  {
  }

  // Whether the k-th answer of a tape is there and is `true`.
  predicate Up(polls: seq<bool>, k: nat) {
    k < |polls| && polls[k]
  }

  // At most `budget` polls from the k-th, until one sees the transmitter idle.
  function PollsWithin(tape: seq<bool>, k: nat, budget: nat): seq<TxEvent>
    decreases budget
  {
    if budget == 0 then []
    else if Up(tape, k) then [TcrPoll(true)] + PollsWithin(tape, k + 1, budget - 1)
    else [TcrPoll(false)]
  }

  // If one of them does, it is the last.
  lemma {:induction false} PollsEndIdle(tape: seq<bool>, k: nat, budget: nat, idle: nat)
    requires k <= idle < k + budget && !Up(tape, idle)
    ensures Idle(PollsWithin(tape, k, budget))
    decreases budget
  {
    if Up(tape, k) {
      PollsEndIdle(tape, k + 1, budget - 1, idle);
    }
  }

  lemma IdleLater(trace: seq<TxEvent>, more: seq<TxEvent>)
    requires Idle(more)
    ensures Idle(trace + more)
  {
  }

  // The transmit commands given.
  function Starts(trace: seq<TxEvent>): nat {
    if trace == [] then 0 else (if trace[|trace| - 1].TxStart? then 1 else 0) + Starts(trace[..|trace| - 1])
  }

  // The software resets.
  function Resets(trace: seq<TxEvent>): nat {
    if trace == [] then 0 else (if trace[|trace| - 1] == ChipReset then 1 else 0) + Resets(trace[..|trace| - 1])
  }

  lemma {:induction false} ResetsConcat(a: seq<TxEvent>, b: seq<TxEvent>)
    ensures Resets(a + b) == Resets(a) + Resets(b)
  {
    if b == [] {
      assert a + b == a;
    } else {
      assert (a + b)[..|a + b| - 1] == a + b[..|b| - 1];
      ResetsConcat(a, b[..|b| - 1]);
    }
  }

  // Counting says whether there was one since.
  lemma {:induction false} NoneStarted(trace: seq<TxEvent>, from: nat)
    requires from <= |trace| && Starts(trace) == Starts(trace[..from])
    ensures forall j :: from <= j < |trace| ==> !trace[j].TxStart?
    decreases |trace|
  {
    if from < |trace| {
      var before := trace[..|trace| - 1];
      assert before[..from] == trace[..from];
      StartsGrow(before, from);
      NoneStarted(before, from);
      forall j | from <= j < |trace|
        ensures !trace[j].TxStart?
      {
        if j < |before| {
          assert before[j] == trace[j];
        }
      }
    }
  }

  lemma {:induction false} StartsGrow(trace: seq<TxEvent>, from: nat)
    requires from <= |trace|
    ensures Starts(trace[..from]) <= Starts(trace)
  {
    assert trace == trace[..from] + trace[from..];
    StartsConcat(trace[..from], trace[from..]);
  }

  lemma {:induction false} NoneReset(trace: seq<TxEvent>, from: nat)
    requires from <= |trace| && forall j :: from <= j < |trace| ==> trace[j] != ChipReset
    ensures Resets(trace) == Resets(trace[..from])
    decreases |trace|
  {
    if from == |trace| {
      assert trace[..from] == trace;
    } else {
      var before := trace[..|trace| - 1];
      assert before[..from] == trace[..from];
      NoneReset(before, from);
    }
  }

  lemma {:induction false} StartsConcat(a: seq<TxEvent>, b: seq<TxEvent>)
    ensures Starts(a + b) == Starts(a) + Starts(b)
  {
    if b == [] {
      assert a + b == a;
    } else {
      assert (a + b)[..|a + b| - 1] == a + b[..|b| - 1];
      StartsConcat(a, b[..|b| - 1]);
    }
  }
}
