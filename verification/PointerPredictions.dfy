// The pointer checks the driver has under TDBUG and RDBG predict, with one subtraction in 16 bits,
// where the memory pointers are after a frame. This is when they are right.

module PointerPredictions {
  import opened Bytes
  import opened BusMode
  import opened RxRing
  import opened TxRing

  // Stepping the pointers access by access ------------------------------------------------------

  function TxSteps(p: nat, accesses: nat, mode: Mode): nat
    decreases accesses
  {
    if accesses == 0 then p
    else TxSteps(if p + Width(mode) == TX_SIZE then 0 else p + Width(mode), accesses - 1, mode)
  }

  function RxSteps(p: nat, accesses: nat, mode: Mode): nat
    decreases accesses
  {
    if accesses == 0 then p
    else RxSteps(if p + Width(mode) == RX_END then RX_START else p + Width(mode), accesses - 1, mode)
  }

  // The distance round the receive ring, for any number of bytes.
  function RxFar(p: nat, k: nat): (q: nat)
    requires RX_START <= p < RX_END
    ensures RX_START <= q < RX_END
  {
    RX_START + (p - RX_START + k) % RX_SIZE
  }

  lemma TimesPrevious(n: nat, mode: Mode)
    requires n > 0
    ensures Times(n, mode) == Times(n - 1, mode) + Width(mode)
  {
    TimesStep(n - 1, n, mode);
  }

  lemma {:induction false} TxStepsAdd(p: nat, n: nat, mode: Mode)
    requires p < TX_SIZE && Aligned(p, mode)
    ensures TxSteps(p, n, mode) == TxAdd(p, Times(n, mode))
    decreases n
  {
    if n > 0 {
      TxFits(p, mode);
      TxStepsAdd(TxAdd(p, Width(mode)), n - 1, mode);
      TimesPrevious(n, mode);
      TxAddAdd(p, Width(mode), Times(n - 1, mode));
    }
  }

  lemma RxFarStep(p: nat, mode: Mode, k: nat)
    requires RX_START <= p < RX_END && Aligned(p, mode)
    ensures var q := if p + Width(mode) == RX_END then RX_START else p + Width(mode);
      RX_START <= q < RX_END && Aligned(q, mode) && RxFar(q, k) == RxFar(p, Width(mode) + k)
  {
    FitsBeforeEnd(p, mode);
    if p + Width(mode) == RX_END {
      assert (RX_SIZE + k) % RX_SIZE == k % RX_SIZE;
    } else {
      AlignedAdd(p, Width(mode), mode);
      assert p + Width(mode) - RX_START + k == p - RX_START + (Width(mode) + k);
    }
  }

  lemma {:induction false} RxStepsAdd(p: nat, n: nat, mode: Mode)
    requires RX_START <= p < RX_END && Aligned(p, mode)
    ensures RxSteps(p, n, mode) == RxFar(p, Times(n, mode))
    decreases n
  {
    if n > 0 {
      var q := if p + Width(mode) == RX_END then RX_START else p + Width(mode);
      RxFarStep(p, mode, Times(n - 1, mode));
      RxStepsAdd(q, n - 1, mode);
      TimesPrevious(n, mode);
    }
  }

  // The predictions -----------------------------------------------------------------------------

  function TxPredicted(p: nat, advance: nat): nat {
    var t := (p + advance) % 0x1_0000;
    if t > 0x0BFF then t - 0x0C00 else t
  }

  function RxPredicted(p: nat, advance: nat): nat {
    var t := (p + advance) % 0x1_0000;
    if t >= 0x4000 then t - 0x4000 + 0xC00 else t
  }

  lemma TxPredictedAdd(p: nat, advance: nat)
    requires p < TX_SIZE && advance <= 0x1_0003
    ensures TxPredicted(p, advance) == TxAdd(p, advance) <==> p + advance < 2 * TX_SIZE
  {
  }

  lemma RxPredictedAdd(p: nat, advance: nat)
    requires RX_START <= p < RX_END && advance <= 0x1_0007
    ensures RxPredicted(p, advance) == RxFar(p, advance) <==> p + advance < RX_END + RX_SIZE
  {
  }

  // The transmit check is right exactly when the frame ends before the ring's second turn is over,
  // which holds for every frame that fits the ring.
  lemma TxPredictionExact(p: nat, length: u16, mode: Mode)
    requires p < TX_SIZE && Aligned(p, mode)
    ensures TxPredicted(p, Span(length, mode)) == TxSteps(p, Accesses(length, mode), mode)
            <==> p + Span(length, mode) < 2 * TX_SIZE
    ensures Span(length, mode) <= TX_SIZE ==> p + Span(length, mode) < 2 * TX_SIZE
  {
    SpanCovers(length, mode);
    TxStepsAdd(p, Accesses(length, mode), mode);
    TxPredictedAdd(p, Span(length, mode));
  }

  // The receive check counts the four header bytes too.
  lemma RxPredictionExact(p: nat, length: u16, mode: Mode)
    requires RX_START <= p < RX_END && Aligned(p, mode)
    ensures RxPredicted(p, Span(length, mode) + 4) == RxSteps(p, Accesses(length + 4, mode), mode)
            <==> p + Span(length, mode) + 4 < RX_END + RX_SIZE
    ensures Span(length, mode) + 4 <= RX_SIZE ==> p + Span(length, mode) + 4 < RX_END + RX_SIZE
  {
    SpanCovers(length, mode);
    HeaderSpan(length, mode);
    RxStepsAdd(p, Accesses(length + 4, mode), mode);
    RxPredictedAdd(p, Span(length, mode) + 4);
  }

  lemma HeaderSpan(length: nat, mode: Mode)
    ensures Span(length + 4, mode) == Span(length, mode) + 4
  {
    match mode
    case ByteMode =>
    case WordMode => assert (length + 4 + 1) / 2 == (length + 1) / 2 + 2;
    case DwordMode => assert (length + 4 + 3) / 4 == (length + 3) / 4 + 1;
  }
}
