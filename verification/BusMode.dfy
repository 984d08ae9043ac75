// The three data-bus widths of the chip (io_mode 0, 1 and 2) and the number
// of bus accesses one frame takes in each of them.

module BusMode {
  datatype Mode = WordMode | DwordMode | ByteMode

  // io_mode as ISR bits 7:6 encode it.
  function Code(mode: Mode): nat {
    match mode
    case WordMode => 0
    case DwordMode => 1
    case ByteMode => 2
  }

  // The bytes n data accesses move.
  function Times(n: nat, mode: Mode): nat {
    match mode
    case ByteMode => n
    case WordMode => 2 * n
    case DwordMode => 4 * n
  }

  // The bytes one of them moves.
  function Width(mode: Mode): (w: nat)
    ensures w == 1 || w == 2 || w == 4
  {
    Times(1, mode)
  }

  // The loop bound the driver computes for `length` bytes.
  function Accesses(length: nat, mode: Mode): nat {
    match mode
    case ByteMode => length
    case WordMode => (length + 1) / 2
    case DwordMode => (length + 3) / 4
  }

  // The bytes a frame of `length` bytes takes on the bus.
  function Span(length: nat, mode: Mode): nat {
    Times(Accesses(length, mode), mode)
  }

  // An address every access of this width may start at.
  predicate Aligned(p: nat, mode: Mode) {
    match mode
    case ByteMode => true
    case WordMode => p % 2 == 0
    case DwordMode => p % 4 == 0
  }

  // The span covers the frame, is a whole number of accesses, and wastes less than one of them.
  lemma SpanCovers(length: nat, mode: Mode)
    ensures length <= Span(length, mode) < length + Width(mode)
    ensures Aligned(Span(length, mode), mode)
  {
    match mode
    case ByteMode =>
    case WordMode =>
      var n := (length + 1) / 2;
      assert Span(length, mode) == 2 * n && 2 * n <= length + 1 < 2 * n + 2;
    case DwordMode =>
      var n := (length + 3) / 4;
      assert Span(length, mode) == 4 * n && 4 * n <= length + 3 < 4 * n + 4;
  }

  lemma TimesStep(i: nat, n: nat, mode: Mode)
    requires i < n
    ensures Times(i + 1, mode) == Times(i, mode) + Width(mode) <= Times(n, mode)
    ensures Aligned(Times(i, mode), mode)
  {
    match mode
    case ByteMode =>
    case WordMode =>
    case DwordMode =>
  }

  // How far a copy in whole accesses runs past `length` bytes: beyond length + 2 only in 32-bit mode, for
  // lengths one above a multiple of four, and then by one byte.
  lemma SpanPast(length: nat, mode: Mode)
    ensures Span(length, mode) <= length + 2 <==> !(mode == DwordMode && length % 4 == 1)
    ensures mode == DwordMode && length % 4 == 1 ==> Span(length, mode) == length + 3
  {
    match mode
    case ByteMode =>
    case WordMode =>
    case DwordMode =>
      var q := length / 4;
      assert (length + 3) / 4 == if length % 4 == 0 then q else q + 1;
  }
}
