// The DM9000 as the driver sees it through its two ports: an index port and a data port.
// The driver's source does not contain the chip; the assumptions made here are listed in README.md.

module Dm9000 {
  import opened Bytes
  import opened Bits
  import opened Tapes
  import opened BusMode
  import opened RxRing
  import opened TxRing
  import opened TxHistory

  const NCR := 0x00
  const NSR := 0x01
  const TCR := 0x02
  const RXCR := 0x05
  const BPTR := 0x08
  const EPCR := 0x0B
  const EPAR := 0x0C
  const EPDRL := 0x0D
  const EPDRH := 0x0E
  const PAR := 0x10
  const MAR := 0x16
  const GPR := 0x1F
  const CHIPR := 0x2C
  const TCR2 := 0x2D
  const SMCR := 0x2F
  const TCCR := 0x31
  const RCSR := 0x32
  const BUSCR := 0x38
  const MRCMDX := 0xF0
  const MRCMD := 0xF2
  const MDRAL := 0xF4
  const MDRAH := 0xF5
  const MWCMD := 0xF8
  const MDWAL := 0xFA
  const MDWAH := 0xFB
  const TXPLL := 0xFC
  const TXPLH := 0xFD
  const ISR := 0xFE
  const IMR := 0xFF

  const PHY := 0x40
  const PHY_READ := 0x0C
  const PHY_WRITE := 0x0A

  // The bits of a (a 6-bit status) that are clear in b.
  function Without(a: nat, b: nat): (r: nat)
    ensures r <= a
  {
    if a == 0 then 0 else (if a % 2 == 1 && b % 2 == 0 then 1 else 0) + 2 * Without(a / 2, b / 2)
  }

  // Writing a status back clears it, whatever the bits above it.
  lemma {:induction false} WithoutSelf(a: nat, high: nat, n: nat)
    requires a < Pow2(n)
    ensures Without(a, Pow2(n) * high + a) == 0
  {
    if a != 0 {
      var half := Pow2(n - 1) * high;
      assert Pow2(n) * high + a == 2 * half + a;
      WithoutSelf(a / 2, high, n - 1);
    }
  }

  // Writing 0x0F clears the four low bits.
  lemma WithoutLow(a: nat)
    ensures Without(a, 0x0F) == a / 0x10 * 0x10
  {
    assert Without(a, 0x0F) == 2 * Without(a / 2, 7);
    assert Without(a / 2, 7) == 2 * Without(a / 2 / 2, 3);
    assert Without(a / 2 / 2, 3) == 2 * Without(a / 2 / 2 / 2, 1);
    assert Without(a / 2 / 2 / 2, 1) == 2 * Without(a / 2 / 2 / 2 / 2, 0);
    WithoutNothing(a / 2 / 2 / 2 / 2);
    assert a / 2 / 2 / 2 / 2 == a / 0x10;
  }

  lemma {:induction false} WithoutNothing(a: nat)
    ensures Without(a, 0) == a
  {
    if a != 0 {
      WithoutNothing(a / 2);
    }
  }

  // The bus width in the two top bits does not hide the interrupt bits.
  lemma StatusBits(isr: nat, code: nat)
    requires isr < 0x40 && code < 3
    ensures Bit(0x40 * code + isr, 0x01) == Bit(isr, 0x01)
    ensures Bit(0x40 * code + isr, 0x02) == Bit(isr, 0x02)
    ensures Bit(0x40 * code + isr, 0x20) == Bit(isr, 0x20)
  {
    assert (0x40 + isr) / 0x20 == 2 + isr / 0x20;
    assert (0x80 + isr) / 0x20 == 4 + isr / 0x20;
  }

  // `trace` is what passed between the driver and the transmitter so far.
  // `nsr`, `tcrBusy`, `epcrBusy` and `linkUp` are the answers the hardware will give to the coming
  // polls of NSR, of TCR bit 0, of EPCR bit 0 and of the link bit of PHY register 1; when a tape runs
  // out, NSR reads 0, nothing is busy and the link is down.
  datatype Chip = Chip(
    mode: Mode,
    index: byte,
    regs: seq<byte>,
    sram: seq<byte>,
    rptr: u16,
    wptr: u16,
    isr: nat,
    phy: seq<u16>,
    nsr: seq<byte>,
    tcrBusy: seq<bool>,
    epcrBusy: seq<bool>,
    linkUp: seq<bool>,
    trace: seq<TxEvent>)
  {
    predicate Ok() {
      |regs| == 0x100 && |sram| == RX_END && |phy| == 0x20 && isr < 0x40
    }

    // IMR bit 7 makes the memory pointers return to the start of their ring by themselves.
    predicate Wraps()
      requires Ok()
    {
      regs[IMR] >= 0x80
    }

    function Select(reg: byte): Chip {
      this.(index := reg)
    }

    // A register read through the data port: the byte it shows, then what the read changes.
    function Shows(): byte
      requires Ok()
    {
      if index == NSR then Head(nsr, 0)
      else if index == TCR then if Head(tcrBusy, false) then 1 else 0
      else if index == EPCR then if Head(epcrBusy, false) then 1 else 0
      else if index == MRCMDX then if rptr < RX_END then sram[rptr] else 0
      else if index == MDRAH then High(rptr)
      else if index == MDRAL then Low(rptr)
      else if index == MDWAH then High(wptr)
      else if index == MDWAL then Low(wptr)
      else if index == ISR then 0x40 * Code(mode) + isr
      else regs[index]
    }

    function AfterShow(): Chip {
      if index == NSR then this.(nsr := Tail(nsr), trace := trace + [NsrRead(Head(nsr, 0))])
      else if index == TCR then this.(tcrBusy := Tail(tcrBusy), trace := trace + [TcrPoll(Head(tcrBusy, false))])
      else if index == EPCR then this.(epcrBusy := Tail(epcrBusy))
      else this
    }

    // The memory read command: `width` bytes at the read pointer, which then moves on.
    function Fetch(width: nat): nat
      requires Ok() && rptr + width <= RX_END
    {
      LittleEndian(sram[rptr..rptr + width])
    }

    function AfterFetch(width: nat): Chip
      requires Ok() && rptr + width <= RX_END
    {
      this.(rptr := if rptr + width == RX_END && Wraps() then RX_START else rptr + width)
    }

    // The memory write command.
    function AfterStore(width: nat, v: nat): Chip
      requires Ok() && wptr + width <= TX_SIZE
    {
      this.(
        sram := sram[..wptr] + Store(v, width) + sram[wptr + width..],
        wptr := if wptr + width == TX_SIZE && Wraps() then 0 else wptr + width)
    }

    // A transmit command as the transmitter finds it.
    function Command(): TxEvent
      requires Ok()
    {
      TxStart(sram[..TX_SIZE], Join(regs[TXPLL], regs[TXPLH]))
    }

    // A byte written to any other register.
    function AfterWrite(v: byte): Chip
      requires Ok()
    {
      if index == NCR && v % 2 == 1 then SoftReset()
      else if index == TCR && v % 2 == 1 then this.(regs := regs[TCR := v], trace := trace + [Command()])
      else if index == ISR then this.(isr := Without(isr, v))
      else if index == MDRAH then this.(rptr := Join(Low(rptr), v))
      else if index == MDRAL then this.(rptr := Join(v, High(rptr)))
      else if index == MDWAH then this.(wptr := Join(Low(wptr), v))
      else if index == MDWAL then this.(wptr := Join(v, High(wptr)))
      else if index == EPCR && v == PHY_READ then PhyRead()
      else if index == EPCR && v == PHY_WRITE then PhyWrite()
      else this.(regs := regs[index := v])
    }

    // A software reset empties the receive ring, rewinds both pointers and masks every interrupt.
    function SoftReset(): Chip
      requires Ok()
    {
      this.(rptr := RX_START, wptr := 0, isr := 0,
            sram := sram[RX_START := 0], regs := regs[IMR := 0], trace := trace + [ChipReset])
    }

    // The PHY register EPAR selects.
    function PhyReg(): nat
      requires Ok()
    {
      regs[EPAR] % 0x20
    }

    // What PHY register `reg` answers; bit 2 of register 1 is the link.
    function PhyValue(reg: nat): u16
      requires Ok() && reg < 0x20
    {
      if reg == 1 then if Head(linkUp, false) then 4 else 0 else phy[reg]
    }

    function PhyShows(): u16
      requires Ok()
    {
      PhyValue(PhyReg())
    }

    function PhyRead(): Chip
      requires Ok()
    {
      this.(regs := regs[EPDRL := Low(PhyShows())][EPDRH := High(PhyShows())],
            linkUp := if PhyReg() == 1 then Tail(linkUp) else linkUp)
    }

    function PhyWrite(): Chip
      requires Ok()
    {
      this.(phy := phy[PhyReg() := Join(regs[EPDRL], regs[EPDRH])])
    }
  }
  // A write below the receive ring, seen from the two halves of memory.
  lemma StoreSlices(sram: seq<byte>, p: nat, chunk: seq<byte>)
    requires |sram| == RX_END && p + |chunk| <= TX_SIZE
    ensures var after, mem := sram[..p] + chunk + sram[p + |chunk|..], sram[..TX_SIZE];
      && after[RX_START..] == sram[RX_START..]
      && after[..TX_SIZE] == mem[..p] + chunk + mem[p + |chunk|..]
  {
  }

  // c' differs from c in its index and in registers (and interrupt status) only.
  ghost predicate RegistersOnly(c: Chip, c': Chip) {
    c'.Ok() && c' == c.(index := c'.index, regs := c'.regs, isr := c'.isr)
  }

  // c' differs from c in its index, the mailbox registers and what the PHY answers only.
  ghost predicate MailboxOnly(c: Chip, c': Chip)
    requires c.Ok()
  {
    && c'.Ok()
    && c' == c.(index := c'.index, regs := c'.regs, phy := c'.phy, epcrBusy := c'.epcrBusy, linkUp := c'.linkUp)
    && forall r :: 0 <= r < 0x100 && !(EPCR <= r <= EPDRH) ==> c'.regs[r] == c.regs[r]
  }
}
