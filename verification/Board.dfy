// The driver: one object holding the fields of board_info and net_device the driver updates, and the
// chip it reaches through its two ports. Each event method is proved to follow NetModel.

module Driver {
  import opened Bytes
  import opened Bits
  import opened Tapes
  import opened BusMode
  import opened RxRing
  import opened TxRing
  import opened TxHistory
  import opened Dm9000
  import opened NetModel
  import opened MulticastFilter

  // The bytes kept free at the head of a socket buffer.
  const RESERVED := 2

  // What the network stack sets: struct net_device.
  class Device {
    var promisc: bool
    var allMulti: bool
    var devAddr: Address
    var mcList: seq<Address>

    // What is to be received.
    function Wants(): Listing
      reads this
      requires |mcList| <= 0xFFFF
    {
      Listing(promisc, allMulti, mcList)
    }

    method Want(listing: Listing)
      modifies this
      ensures |mcList| <= 0xFFFF && Wants() == listing && devAddr == old(devAddr)
    {
      promisc, allMulti, mcList := listing.promisc, listing.allMulti, listing.addresses;
    }
  }

  class Board {
    const dev: Device
    var chip: Chip

    const chipRevision: byte
    var ioMode: nat
    var speed: nat
    var txPktCnt: int
    var contRxPktCnt: int
    var resetCounter: nat
    var resetTxTimeout: nat
    const rxCsum: bool
    const hwCsum: bool
    var stats: Stats

    var open: bool
    var queueStopped: bool
    var timerArmed: bool
    // the frames passed to the network stack
    var received: seq<seq<byte>>

    // the chip's receive side: the packets it holds and the byte behind them
    var pending: seq<Packet>
    var end: EndByte

    ghost var stored: seq<Packet>
    ghost var taken: seq<Packet>
    ghost var sent: seq<Sent>
    ghost var counts: seq<Setting>
    ghost var linkOk: bool

    // The bus width is known, memory pointers wrap, the ring holds the pending packets.
    ghost predicate Ready()
      reads `chip, `ioMode, `pending, `end
    {
      && chip.Ok()
      && ioMode == Code(chip.mode)
      && chip.Wraps()
      && RingHolds(chip.sram, chip.rptr, chip.mode, pending, end)
      && chip.wptr < TX_SIZE && Aligned(chip.wptr, chip.mode)
    }

    ghost predicate Valid()
      reads `chip, `ioMode, `pending, `end, `open, dev
    {
      && chip.Ok()
      && |dev.mcList| <= 0xFFFF
      && (open ==> Ready())
    }

    // The filter registers are exact for the stack's list, unless everything is received anyway.
    ghost predicate FilterCurrent()
      reads `chip, dev
      requires chip.Ok()
    {
      !dev.promisc ==> FilterExact(Registers(MAR, 8), dev.mcList)
    }

    ghost function Abs(): (n: Net)
      reads this, dev
      requires chip.Ok()
      ensures Valid() ==> Sound(n)
    {
      Net(chipRevision, chip.mode, open, queueStopped, timerArmed,
          txPktCnt, contRxPktCnt, speed, resetCounter, resetTxTimeout,
          stats, received, chip.regs[IMR],
          pending, end, chip.rptr, stored, taken,
          chip.wptr, chip.sram[..TX_SIZE], chip.regs[TXPLL], chip.regs[TXPLH], sent,
          chip.trace, counts, linkOk, FilterCurrent())
    }

    // A board as probing leaves it: everything cleared, the revision read from the chip.
    constructor (dev: Device, chip: Chip, hwCsum: bool)
      requires chip.Ok() && |dev.mcList| <= 0xFFFF
      ensures Valid() && !open && Sound(Abs())
      ensures this.dev == dev && this.chip == chip && chipRevision == chip.regs[CHIPR]
      ensures pending == [] && taken == [] && stored == [] && received == [] && stats == Stats(0, 0, 0, 0, 0, 0, 0, 0)
      ensures txPktCnt == 0 && contRxPktCnt == 0 && speed == 0 && resetCounter == 0 && resetTxTimeout == 0
      ensures !timerArmed && !queueStopped && sent == [] && counts == [] && linkOk
    {
      this.dev, this.chip, this.hwCsum, rxCsum := dev, chip, hwCsum, false;
      chipRevision := chip.regs[CHIPR];
      ioMode, speed, txPktCnt, contRxPktCnt, resetCounter, resetTxTimeout := 0, 0, 0, 0, 0, 0;
      stats := Stats(0, 0, 0, 0, 0, 0, 0, 0);
      open, queueStopped, timerArmed, received := false, false, false, [];
      pending, end, stored, taken, sent, counts, linkOk := [], 0, [], [], [], [], true;
    }

    // The ports ----------------------------------------------------------------------------

    method OutAddr(reg: byte)
      modifies `chip
      ensures chip == old(chip).Select(reg)
    {
      chip := chip.Select(reg);
    }

    method InAddr() returns (reg: byte)
      ensures reg == chip.index
    {
      reg := chip.index;
    }

    method Inb() returns (v: byte)
      requires chip.Ok() && chip.index != MRCMD
      modifies `chip
      ensures v == old(chip).Shows() && chip == old(chip).AfterShow()
    {
      v := chip.Shows();
      chip := chip.AfterShow();
    }

    method Outb(v: byte)
      requires chip.Ok() && chip.index != MWCMD && (chip.index == NCR ==> v % 2 == 0)
      modifies `chip
      ensures chip == old(chip).AfterWrite(v)
    {
      chip := chip.AfterWrite(v);
    }

    // A data access at the memory read command, `width` bytes wide (inb, inw or inl).
    method In(width: nat) returns (v: nat)
      requires chip.Ok() && chip.Wraps() && chip.index == MRCMD
      requires RX_START <= chip.rptr && 0 < width && chip.rptr + width <= RX_END
      modifies `chip
      ensures v == LittleEndian(old(chip).sram[old(chip).rptr..old(chip).rptr + width])
      ensures chip == old(chip).(rptr := RxAdd(old(chip).rptr, width))
    {
      v := chip.Fetch(width);
      chip := chip.AfterFetch(width);
    }

    // A data access at the memory write command.
    method Out(width: nat, v: nat)
      requires chip.Ok() && chip.index == MWCMD && chip.wptr + width <= TX_SIZE
      modifies `chip
      ensures chip == old(chip).AfterStore(width, v)
    {
      chip := chip.AfterStore(width, v);
    }

    method Ior(reg: byte) returns (v: byte)
      requires chip.Ok() && reg != MRCMD
      modifies `chip
      ensures v == old(chip).Select(reg).Shows()
      ensures chip == old(chip).Select(reg).AfterShow()
    {
      OutAddr(reg);
      v := Inb();
    }

    method Iow(reg: byte, v: byte)
      requires chip.Ok() && reg != MWCMD && (reg == NCR ==> v % 2 == 0)
      modifies `chip
      ensures chip == old(chip).Select(reg).AfterWrite(v)
    {
      OutAddr(reg);
      Outb(v);
    }

    // Reading the receive ring ---------------------------------------------------------------

    // `count` data accesses, each stored where the one before it ended, behind the two bytes reserved at
    // the head of the buffer.
    method ReadFrame(count: nat, skb: array<byte>) returns (ghost bytes: seq<byte>)
      requires chip.Ok() && chip.Wraps() && chip.index == MRCMD
      requires RX_START <= chip.rptr < RX_END && Aligned(chip.rptr, chip.mode)
      requires Times(count, chip.mode) <= RX_SIZE && RESERVED + Times(count, chip.mode) <= skb.Length
      modifies `chip, skb
      ensures |bytes| == Times(count, old(chip.mode))
      ensures Holds(old(chip.sram), old(chip.rptr), bytes)
      ensures skb[..] == Splice(old(skb[..]), RESERVED, bytes)
      ensures chip == old(chip).(rptr := RxAdd(old(chip.rptr), |bytes|))
    {
      hide Holds, LittleEndian, Store, Aligned, Splice;
      ghost var c := chip;
      ghost var before := skb[..];
      var width := Width(chip.mode);
      bytes := [];
      HoldsNothing(c.sram, c.rptr);
      SpliceNothing(before, RESERVED);
      for i := 0 to count
        invariant |bytes| == Times(i, c.mode) <= Times(count, c.mode)
        invariant chip == c.(rptr := RxAdd(c.rptr, |bytes|))
        invariant Holds(c.sram, c.rptr, bytes)
        invariant skb[..] == Splice(before, RESERVED, bytes)
      {
        TimesStep(i, count, c.mode);
        AlignedAdd(c.rptr, |bytes|, c.mode);
        FitsBeforeEnd(chip.rptr, c.mode);
        HoldsNext(c.sram, c.rptr, bytes, width);
        StoreLoad(c.sram[chip.rptr..chip.rptr + width]);
        var v := In(width);
        SpliceOn(before, RESERVED, bytes, Store(v, width));
        StoreBytes(skb, RESERVED + Times(i, chip.mode), Store(v, width));
        bytes := bytes + Store(v, width);
      }
    }

    // Dropping a packet: the same accesses, the data ignored.
    method SkipFrame(count: nat)
      requires chip.Ok() && chip.Wraps() && chip.index == MRCMD
      requires RX_START <= chip.rptr < RX_END && Aligned(chip.rptr, chip.mode)
      requires Times(count, chip.mode) <= RX_SIZE
      modifies `chip
      ensures chip == old(chip).(rptr := RxAdd(old(chip.rptr), Times(count, old(chip.mode))))
    {
      ghost var c := chip;
      for i := 0 to count
        invariant Times(i, c.mode) <= Times(count, c.mode)
        invariant chip == c.(rptr := RxAdd(c.rptr, Times(i, c.mode)))
      {
        TimesStep(i, count, c.mode);
        AlignedAdd(c.rptr, Times(i, c.mode), c.mode);
        FitsBeforeEnd(chip.rptr, c.mode);
        var _ := In(Width(chip.mode));
      }
    }

    method InByte() returns (v: byte)
      requires chip.Ok() && chip.Wraps() && chip.index == MRCMD && RX_START <= chip.rptr < RX_END
      modifies `chip
      ensures v == old(chip).sram[old(chip).rptr]
      ensures chip == old(chip).(rptr := RxAdd(old(chip).rptr, 1))
    {
      LittleEndianWidths(chip.sram[chip.rptr..chip.rptr + 1]);
      v := In(1);
    }

    method InWord() returns (v: u16)
      requires chip.Ok() && chip.Wraps() && chip.index == MRCMD && RX_START <= chip.rptr <= RX_END - 2
      modifies `chip
      ensures v == Join(old(chip).sram[old(chip).rptr], old(chip).sram[old(chip).rptr + 1])
      ensures chip == old(chip).(rptr := RxAdd(old(chip).rptr, 2))
    {
      LittleEndianWidths(chip.sram[chip.rptr..chip.rptr + 2]);
      v := In(2);
    }

    // Two byte accesses, the low byte first.
    method InBytePair() returns (v: u16)
      requires chip.Ok() && chip.Wraps() && chip.index == MRCMD && RX_START <= chip.rptr < RX_END
      modifies `chip
      ensures v == Join(old(chip).sram[old(chip).rptr], old(chip).sram[RxAdd(old(chip).rptr, 1)])
      ensures chip == old(chip).(rptr := RxAdd(old(chip).rptr, 2))
    {
      var low := InByte();
      var high := InByte();
      v := Join(low, high);
    }

    method InDword() returns (low: u16, high: u16)
      requires chip.Ok() && chip.Wraps() && chip.index == MRCMD && RX_START <= chip.rptr <= RX_END - 4
      modifies `chip
      ensures low == Join(old(chip).sram[old(chip).rptr], old(chip).sram[old(chip).rptr + 1])
      ensures high == Join(old(chip).sram[old(chip).rptr + 2], old(chip).sram[old(chip).rptr + 3])
      ensures chip == old(chip).(rptr := RxAdd(old(chip).rptr, 4))
    {
      LittleEndianWidths(chip.sram[chip.rptr..chip.rptr + 4]);
      var both := In(4);
      low, high := both % 0x1_0000, both / 0x1_0000;
    }

    // The four header bytes, as two 16-bit words, in each bus mode.
    method HeaderBytes() returns (word0: u16, word1: u16)
      requires chip.Ok() && chip.Wraps() && chip.index == MRCMD && RX_START <= chip.rptr < RX_END
      modifies `chip
      ensures word0 == Join(old(chip).sram[old(chip).rptr], old(chip).sram[RxAdd(old(chip).rptr, 1)])
      ensures word1 == Join(old(chip).sram[RxAdd(old(chip).rptr, 2)], old(chip).sram[RxAdd(old(chip).rptr, 3)])
      ensures chip == old(chip).(rptr := RxAdd(old(chip).rptr, 4))
    {
      word0 := InBytePair();
      word1 := InBytePair();
    }

    method HeaderWords() returns (word0: u16, word1: u16)
      requires chip.Ok() && chip.Wraps() && chip.index == MRCMD && RX_START <= chip.rptr < RX_END
      requires Aligned(chip.rptr, WordMode)
      modifies `chip
      ensures word0 == Join(old(chip).sram[old(chip).rptr], old(chip).sram[RxAdd(old(chip).rptr, 1)])
      ensures word1 == Join(old(chip).sram[RxAdd(old(chip).rptr, 2)], old(chip).sram[RxAdd(old(chip).rptr, 3)])
      ensures chip == old(chip).(rptr := RxAdd(old(chip).rptr, 4))
    {
      FitsBeforeEnd(chip.rptr, WordMode);
      AlignedAdd(chip.rptr, 2, WordMode);
      FitsBeforeEnd(RxAdd(chip.rptr, 2), WordMode);
      word0 := InWord();
      word1 := InWord();
    }

    method HeaderDword() returns (word0: u16, word1: u16)
      requires chip.Ok() && chip.Wraps() && chip.index == MRCMD && RX_START <= chip.rptr < RX_END
      requires Aligned(chip.rptr, DwordMode)
      modifies `chip
      ensures word0 == Join(old(chip).sram[old(chip).rptr], old(chip).sram[RxAdd(old(chip).rptr, 1)])
      ensures word1 == Join(old(chip).sram[RxAdd(old(chip).rptr, 2)], old(chip).sram[RxAdd(old(chip).rptr, 3)])
      ensures chip == old(chip).(rptr := RxAdd(old(chip).rptr, 4))
    {
      FitsBeforeEnd(chip.rptr, DwordMode);
      word0, word1 := InDword();
    }

    // Status and length, from the words that hold ready byte and status, and length.
    method ReadHeader() returns (status: byte, length: u16)
      requires chip.Ok() && chip.Wraps() && chip.index == MRCMD && ioMode == Code(chip.mode)
      requires RX_START <= chip.rptr < RX_END && Aligned(chip.rptr, chip.mode)
      modifies `chip
      ensures status == old(chip).sram[RxAdd(old(chip).rptr, 1)]
      ensures length == Join(old(chip).sram[RxAdd(old(chip).rptr, 2)], old(chip).sram[RxAdd(old(chip).rptr, 3)])
      ensures chip == old(chip).(rptr := RxAdd(old(chip).rptr, 4))
    {
      var word0: u16, word1: u16;
      if ioMode == 2 {
        word0, word1 := HeaderBytes();
      } else if ioMode == 0 {
        word0, word1 := HeaderWords();
      } else {
        word0, word1 := HeaderDword();
      }
      JoinParts(old(chip).sram[old(chip).rptr], old(chip).sram[RxAdd(old(chip).rptr, 1)]);
      status, length := High(word0), word1;
    }

    // The ready byte at the read pointer, which these reads do not move, and the pointer itself.
    method Peek() returns (mdrah: byte, mdral: byte, rxbyte: byte)
      requires chip.Ok() && RX_START <= chip.rptr < RX_END
      modifies `chip
      ensures Join(mdral, mdrah) == old(chip.rptr)
      ensures rxbyte == old(chip).sram[old(chip).rptr]
      ensures chip == old(chip).Select(MRCMDX)
    {
      mdrah := Ior(MDRAH);
      mdral := Ior(MDRAL);
      var _ := Ior(MRCMDX);
      rxbyte := Inb();
    }

    // Putting the read pointer back.
    method Rewind(mdrah: byte, mdral: byte)
      requires chip.Ok()
      modifies `chip
      ensures chip == old(chip).(index := MDRAL, rptr := Join(mdral, mdrah))
    {
      Iow(MDRAH, mdrah);
      JoinParts(Low(old(chip).rptr), mdrah);
      Iow(MDRAL, mdral);
    }

    // The hardware's moves -----------------------------------------------------------------------

    // Packets arrive.
    method Arrival(packets: seq<Packet>)
      requires Valid() && open
      modifies `chip, `pending, `end, `stored
      ensures Valid()
      ensures Abs() == ArrivalStep(old(Abs()), packets)
      ensures chip == old(chip).(sram := chip.sram)
    {
      hide FilterCurrent, RingHolds, Encode;
      assert Sound(Abs());
      var all := Arrive(pending, chip.mode, packets);
      var added := all[|pending|..];
      assert all == pending + added;
      ArriveSound(pending, chip.mode, packets);
      if added == [] {
        assert all == pending && stored + added == stored;
      } else {
        assert AllWellFormed(added, chip.mode) by {
          assert forall p <- added :: p in all;
        }
        StorePackets(added);
      }
    }

    method StorePackets(added: seq<Packet>)
      requires Valid() && open
      requires added != [] && AllWellFormed(added, chip.mode) && |Encode(pending + added)| < RX_SIZE
      modifies `chip, `pending, `end, `stored
      ensures Valid()
      ensures pending == old(pending) + added
      ensures Abs() == old(Abs()).(pending := pending, end := 0, stored := old(stored) + added)
      ensures chip == old(chip).(sram := chip.sram)
    {
      hide FilterExact, Sound, Encode, Holds;
      ArrivalHolds(chip.sram, chip.rptr, chip.mode, pending, end, added);
      chip := chip.(sram := Fill(chip.sram, RxAdd(chip.rptr, |Encode(pending)|), Encode(added) + [0]));
      pending, end := pending + added, 0;
      stored := stored + added;
    }

    // The ready byte behind the last packet is spoilt.
    method Corruption(end': EndByte)
      requires Valid() && open
      modifies `chip, `end
      ensures Valid()
      ensures Abs() == old(Abs()).(end := end')
    {
      CorruptionHolds(chip.sram, chip.rptr, chip.mode, pending, end, end');
      chip := chip.(sram := Fill(chip.sram, RxAdd(chip.rptr, |Encode(pending)|), [end']));
      end := end';
    }

    // New answers on the PHY's registers and on the transmitter's.
    method LinkAnswers(a: LinkAnswer)
      requires chip.Ok()
      modifies `chip
      ensures chip == old(chip).(linkUp := a.polls, phy := old(chip).phy[0 := a.control])
    {
      chip := chip.(linkUp := a.polls, phy := chip.phy[0 := a.control]);
    }

    method TxAnswers(a: TxAnswer)
      modifies `chip
      ensures chip == old(chip).(nsr := [a.nsr], tcrBusy := a.polls)
    {
      chip := chip.(nsr := [a.nsr], tcrBusy := a.polls);
    }

    // The PHY mailbox ------------------------------------------------------------------------------

    method WaitEpcr()
      requires chip.Ok()
      modifies `chip
      ensures chip == old(chip).(index := EPCR, epcrBusy := chip.epcrBusy)
    {
      var busy := Ior(EPCR);
      while busy % 2 == 1
        invariant chip == old(chip).(index := EPCR, epcrBusy := chip.epcrBusy)
        decreases |chip.epcrBusy|, busy
      {
        busy := Ior(EPCR);
      }
    }

    method PhyRead(reg: byte) returns (v: u16)
      requires chip.Ok() && reg < 0x20
      modifies `chip
      ensures v == old(chip).PhyValue(reg)
      ensures MailboxOnly(old(chip), chip) && chip.phy == old(chip).phy
      ensures chip.linkUp == if reg == 1 then Tail(old(chip).linkUp) else old(chip).linkUp
    {
      Iow(EPAR, PHY + reg);
      Iow(EPCR, PHY_READ);
      WaitEpcr();
      Iow(EPCR, 0);
      var high := Ior(EPDRH);
      var low := Ior(EPDRL);
      v := Join(low, high);
    }

    method PhyWrite(reg: byte, value: u16)
      requires chip.Ok() && reg < 0x20
      modifies `chip
      ensures MailboxOnly(old(chip), chip)
      ensures chip.phy == old(chip).phy[reg := value] && chip.linkUp == old(chip).linkUp
    {
      Iow(EPAR, PHY + reg);
      Iow(EPDRL, Low(value));
      Iow(EPDRH, High(value));
      Iow(EPCR, PHY_WRITE);
      WaitEpcr();
      Iow(EPCR, 0);
    }

    // The address filter ---------------------------------------------------------------------------

    method BuildTable() returns (table: array<u16>)
      requires |dev.mcList| <= 0xFFFF
      ensures fresh(table) && table.Length == 4 && TableExact(table[..], dev.mcList)
    {
      table := new u16[4](_ => 0);
      table[3] := 0x8000;
      EmptyTable();
      assert table[..] == [0, 0, 0, 0x8000];
      assert dev.mcList[..0] == [];
      var i: u16 := 0;
      while i < |dev.mcList|
        invariant i <= |dev.mcList|
        invariant TableExact(table[..], dev.mcList[..i])
      {
        var h := Hash(dev.mcList[i]);
        MarkTable(table[..], dev.mcList[..i], dev.mcList[i]);
        assert dev.mcList[..i + 1] == dev.mcList[..i] + [dev.mcList[i]];
        table[h / 16] := Mark(table[h / 16], h % 16);
        i := i + 1;
      }
      assert dev.mcList[..i] == dev.mcList;
    }

    // Registers r to r + n - 1.
    ghost function Registers(r: nat, n: nat): (s: seq<byte>)
      reads `chip
      requires chip.Ok() && r + n <= 0x100
      ensures |s| == n
    {
      chip.regs[r..r + n]
    }

    method WriteAddress()
      requires chip.Ok()
      modifies `chip
      ensures RegistersOnly(old(chip), chip)
      ensures Registers(PAR, 6) == dev.devAddr
      ensures forall r :: 0 <= r < 0x100 && !(PAR <= r < PAR + 6) ==> chip.regs[r] == old(chip).regs[r]
    {
      for i := 0 to 6
        invariant RegistersOnly(old(chip), chip)
        invariant forall k :: 0 <= k < i ==> chip.regs[PAR + k] == dev.devAddr[k]
        invariant forall r :: 0 <= r < 0x100 && !(PAR <= r < PAR + 6) ==> chip.regs[r] == old(chip).regs[r]
      {
        Iow(PAR + i, dev.devAddr[i]);
      }
    }

    method WriteTable(table: array<u16>)
      requires chip.Ok() && table.Length == 4 && TableExact(table[..], dev.mcList)
      modifies `chip
      ensures RegistersOnly(old(chip), chip)
      ensures FilterExact(Registers(MAR, 8), dev.mcList)
      ensures forall r :: 0 <= r < 0x100 && !(MAR <= r < MAR + 8) ==> chip.regs[r] == old(chip).regs[r]
    {
      var oft := MAR;
      for i := 0 to 4
        invariant oft == MAR + 2 * i
        invariant RegistersOnly(old(chip), chip)
        invariant forall k :: 0 <= k < i ==>
          chip.regs[MAR + 2 * k] == Low(table[k]) && chip.regs[MAR + 2 * k + 1] == High(table[k])
        invariant forall r :: 0 <= r < 0x100 && !(MAR <= r < MAR + 8) ==> chip.regs[r] == old(chip).regs[r]
      {
        Iow(oft, Low(table[i]));
        oft := oft + 1;
        Iow(oft, High(table[i]));
        oft := oft + 1;
      }
      SplitTable(table[..], Registers(MAR, 8), dev.mcList);
    }

    // One bit of RXCR, set or cleared by reading the register and writing it back.
    method ChangeRxcr(weight: nat, on: bool)
      requires chip.Ok() && (weight == 2 || weight == 8)
      modifies `chip
      ensures RegistersOnly(old(chip), chip)
      ensures Bit(chip.regs[RXCR], weight) == on
      ensures Bit(chip.regs[RXCR], 10 - weight) == Bit(old(chip).regs[RXCR], 10 - weight)
      ensures forall r :: 0 <= r < 0x100 && r != RXCR ==> chip.regs[r] == old(chip).regs[r]
    {
      var x := Ior(RXCR);
      Iow(RXCR, if on then SetBit(x, weight) else ClearBit(x, weight));
    }

    // dm9000_hash_table: what the filter registers hold afterwards.
    ghost predicate Filtered(before: Chip)
      reads `chip, dev
      requires before.Ok()
    {
      && RegistersOnly(before, chip)
      && (forall r :: 0 <= r < 0x100 && r != 0x05 && !(0x10 <= r < 0x1E) ==> chip.regs[r] == before.regs[r])
      && Bit(chip.regs[0x05], 2) == dev.promisc
      && if dev.promisc then
           forall r :: 0x10 <= r < 0x1E ==> chip.regs[r] == before.regs[r]
         else
           && Bit(chip.regs[0x05], 8) == dev.allMulti
           && Registers(0x10, 6) == dev.devAddr
           && FilterExact(Registers(0x16, 8), dev.mcList)
    }

    method HashTable()
      requires chip.Ok() && |dev.mcList| <= 0xFFFF
      modifies `chip
      ensures Filtered(old(chip))
    {
      ChangeRxcr(2, dev.promisc);
      if dev.promisc {
        return;
      }
      ChangeRxcr(8, dev.allMulti);
      WriteAddress();
      var table := BuildTable();
      ghost var addr := Registers(PAR, 6);
      WriteTable(table);
      assert Registers(PAR, 6) == addr;
    }

    // Initialisation and reset -----------------------------------------------------------------------

    // The chip is reset by its network control register.
    method SoftwareReset()
      requires chip.Ok()
      modifies `chip, `pending, `end, `stored
      ensures chip == old(chip).Select(NCR).SoftReset()
      ensures pending == [] && end == 0 && stored == taken
    {
      OutAddr(NCR);
      chip := chip.AfterWrite(3);
      pending, end, stored := [], 0, taken;
    }

    // The packet counter is set, and when that was.
    method SetTxPktCnt(value: int)
      modifies `txPktCnt, `counts
      ensures txPktCnt == value && counts == old(counts) + [Setting(|chip.trace|, value)]
    {
      txPktCnt := value;
      counts := counts + [Setting(|chip.trace|, value)];
    }

    // The operating registers as dmfe_init_dm9000 programs them.
    ghost predicate Programmed()
      reads `chip
    {
      && chip.Ok()
      && chip.regs[0x00] == 0 && chip.regs[0x02] == 0 && chip.regs[0x08] == 0x3F && chip.regs[0x2F] == 0
      && chip.regs[0x2D] == 0x80 && chip.regs[0x01] == 0x2C
      && (chipRevision == 0x1A ==> chip.regs[0x38] == 0x01)
      && (hwCsum ==> chip.regs[0x31] == 0x07) && (rxCsum ==> chip.regs[0x32] == 0x02)
    }

    method ProgramRegisters()
      requires chip.Ok()
      modifies `chip
      ensures RegistersOnly(old(chip), chip) && Programmed()
      ensures chip.isr == old(chip).isr / 0x10 * 0x10
      ensures forall r :: 0 <= r < 0x100 && r !in {0x00, 0x01, 0x02, 0x08, 0x2D, 0x2F, 0x31, 0x32, 0x38} ==>
        chip.regs[r] == old(chip).regs[r]
    {
      hide Without;
      WithoutLow(chip.isr);
      Iow(NCR, 0);
      Iow(TCR, 0);
      Iow(BPTR, 0x3F);
      Iow(SMCR, 0);
      Iow(NSR, 0x2C);
      Iow(ISR, 0x0F);
      Iow(TCR2, 0x80);
      ProgramOptions();
    }

    // The registers only some boards need.
    method ProgramOptions()
      requires chip.Ok()
      modifies `chip
      ensures RegistersOnly(old(chip), chip) && chip.isr == old(chip).isr
      ensures forall r :: 0 <= r < 0x100 && r !in {0x31, 0x32, 0x38} ==> chip.regs[r] == old(chip).regs[r]
      ensures chipRevision == 0x1A ==> chip.regs[0x38] == 0x01
      ensures (hwCsum ==> chip.regs[0x31] == 0x07) && (rxCsum ==> chip.regs[0x32] == 0x02)
    {
      if chipRevision == REVISION_B {
        Iow(BUSCR, 0x01);
      }
      if hwCsum {
        Iow(TCCR, 0x07);
      }
      if rxCsum {
        Iow(RCSR, 0x02);
      }
    }

    // The first half of dmfe_init_dm9000: the chip is reset and its bus width read back.
    method ResetChip()
      requires chip.Ok()
      modifies `chip, `ioMode, `pending, `end, `stored
      ensures chip.Ok() && ioMode == Code(chip.mode)
      ensures chip == old(chip).(index := ISR, regs := chip.regs, rptr := RX_START, wptr := 0, isr := 0,
                                 sram := chip.sram, trace := old(chip).trace + [ChipReset, ChipReset])
      ensures RingHolds(chip.sram, RX_START, chip.mode, [], 0)
      ensures chip.sram[..TX_SIZE] == old(chip).sram[..TX_SIZE] && SameLength(old(chip))
      ensures chip.regs[0x1F] == 0
      ensures pending == [] && end == 0 && stored == taken
    {
      Iow(GPR, 0);
      SoftwareReset();
      SoftwareReset();
      EmptyHolds(chip.sram, chip.mode);
      var isr := Ior(ISR);
      ioMode := isr / 0x40;
    }

    // The second half: registers, filter, interrupts on.
    method StartChip()
      requires chip.Ok() && |dev.mcList| <= 0xFFFF
      modifies `chip
      ensures RegistersOnly(old(chip), chip) && Programmed() && SameLength(old(chip))
      // reception is enabled by a constant: what the filter did to RXCR does not last
      ensures chip.regs[0xFF] == 0xA3 && chip.regs[0x05] == 0x31 && chip.regs[0x1F] == old(chip).regs[0x1F]
      ensures FilterCurrent()
    {
      ProgramRegisters();
      HashTable();
      ghost var filter := Registers(MAR, 8);
      Iow(IMR, IMR_ALL);
      Iow(RXCR, 0x31);
      assert Registers(MAR, 8) == filter;
    }

    method Rebuild()
      requires chip.Ok() && |dev.mcList| <= 0xFFFF
      modifies `chip, `ioMode, `pending, `end, `stored
      ensures Ready()
      ensures Abs() == Saw(old(Abs()), [ChipReset, ChipReset]).(
        pending := [], end := 0, rxPos := RX_START, stored := taken, txPos := 0, imr := IMR_ALL, filter := true)
      ensures Programmed() && chip.regs[0x05] == 0x31 && chip.regs[0x1F] == 0
      ensures chip.nsr == old(chip).nsr
    {
      hide RingHolds, FilterExact, Sound;
      ResetChip();
      StartChip();
    }

    method InitDm9000()
      requires chip.Ok() && |dev.mcList| <= 0xFFFF
      modifies `chip, `ioMode, `txPktCnt, `pending, `end, `stored, `counts, `linkOk
      ensures Ready()
      ensures Abs() == Initialised(old(Abs()))
      ensures Programmed() && chip.regs[0x05] == 0x31 && chip.regs[0x1F] == 0 && FilterCurrent()
      ensures chip.nsr == old(chip).nsr
    {
      hide RingHolds, FilterCurrent, Sound, Programmed;
      Rebuild();
      SetTxPktCnt(0);
      linkOk := true;
    }

    // The link is polled until it is up, at most 1000 times.
    method LinkAfterReset()
      requires chip.Ok()
      modifies `chip, `speed
      ensures MailboxOnly(old(chip), chip)
      ensures speed == if UpWithin(old(chip).linkUp, 1000) then SpeedOf(old(chip).phy[0]) else 10
    {
      hide Later, Head, Tail;
      ghost var c := chip;
      LaterNothing(c.linkUp);
      speed := 10;
      var i := 0;
      while i < 1000
        invariant 0 <= i <= 1000
        invariant MailboxOnly(c, chip) && chip.phy == c.phy
        invariant chip.linkUp == Later(c.linkUp, i)
        invariant speed == 10
        invariant forall k :: 0 <= k < i ==> !Up(c.linkUp, k)
      {
        LaterHead(c.linkUp, i);
        var bmsr := PhyRead(1);
        if Bit(bmsr, 0x4) {
          var bmcr := PhyRead(0);
          speed := if Bit(bmcr, 0x2000) then 100 else 10;
          return;
        }
        i := i + 1;
      }
    }

    // The link is polled until it is up, at most 500 times; the first of two reads is thrown away.
    method LinkAfterInterrupt()
      requires chip.Ok()
      modifies `chip, `speed
      ensures MailboxOnly(old(chip), chip)
      ensures speed == if UpOnSecondRead(old(chip).linkUp, 500) then SpeedOf(old(chip).phy[0]) else old(speed)
    {
      hide Later, Head, Tail;
      ghost var c := chip;
      LaterNothing(c.linkUp);
      var i := 0;
      while i < 500
        invariant 0 <= i <= 500
        invariant MailboxOnly(c, chip) && chip.phy == c.phy
        invariant chip.linkUp == Later(c.linkUp, 2 * i)
        invariant speed == old(speed)
        invariant forall k :: 0 <= k < i ==> !Up(c.linkUp, 2 * k + 1)
      {
        LaterHead(c.linkUp, 2 * i);
        LaterHead(c.linkUp, 2 * i + 1);
        var _ := PhyRead(1);
        var bmsr := PhyRead(1);
        if Bit(bmsr, 0x4) {
          var bmcr := PhyRead(0);
          speed := if Bit(bmcr, 0x2000) then 100 else 10;
          return;
        }
        i := i + 1;
      }
    }

    // dmfe_reset between saving and restoring the index: the chip is initialised, then the link looked at.
    method Reinitialise()
      requires Valid() && open
      modifies this
      ensures Valid()
      ensures Abs() == Initialised(old(Abs())).(resets := old(resetCounter) + 1, stopped := true)
    {
      queueStopped := true;
      resetCounter := resetCounter + 1;
      InitDm9000();
    }

    method LookAtLink(link: LinkAnswer)
      requires Valid() && open
      modifies `chip, `speed, `queueStopped
      ensures Valid()
      ensures Abs() == old(Abs()).(
        speed := if UpWithin(link.polls, 1000) then SpeedOf(link.control) else 10, stopped := false)
    {
      hide UpWithin, FilterExact, RingHolds, Sound;
      LinkAnswers(link);
      LinkAfterReset();
      queueStopped := false;
      assert Registers(MAR, 8) == old(Registers(MAR, 8));
    }

    method Restart(link: LinkAnswer)
      requires Valid() && open
      modifies this
      ensures Valid()
      ensures Abs() == ResetStep(old(Abs()), link)
    {
      Reinitialise();
      LookAtLink(link);
    }

    method Reset(link: LinkAnswer)
      requires Valid() && open
      modifies this
      ensures Valid()
      ensures Abs() == ResetStep(old(Abs()), link)
      ensures chip.index == old(chip).index
      ensures resetCounter == old(resetCounter) + 1 && txPktCnt == 0 && !queueStopped && pending == []
      ensures chip.regs[0xFF] == 0xA3 && chip.rptr == 0xC00 && chip.wptr == 0
      ensures speed ==
        if exists i :: 0 <= i < 1000 && Up(link.polls, i) then if Bit(link.control, 0x2000) then 100 else 10 else 10
    {
      var regSave := InAddr();
      Restart(link);
      OutAddr(regSave);
    }

    // Transmission done ----------------------------------------------------------------------------

    // One poll of the transmitter.
    method PollTcr() returns (busy: bool)
      requires chip.Ok()
      modifies `chip
      ensures busy == Head(old(chip).tcrBusy, false)
      ensures chip == old(chip).(
        index := TCR, tcrBusy := Tail(old(chip).tcrBusy), trace := old(chip).trace + [TcrPoll(busy)])
    {
      var v := Ior(TCR);
      busy := Bit(v, 0x1);
    }

    // The transmitter is polled until it is idle.
    method WaitTcr()
      requires chip.Ok()
      modifies `chip
      ensures chip == old(chip).(
        index := TCR, tcrBusy := chip.tcrBusy, trace := old(chip).trace + Polls(old(chip).tcrBusy))
    {
      hide Polls;
      PollsNext(chip.trace, chip.tcrBusy);
      var busy := PollTcr();
      while busy
        invariant chip == old(chip).(index := TCR, tcrBusy := chip.tcrBusy, trace := chip.trace)
        invariant chip.trace + (if busy then Polls(chip.tcrBusy) else []) == old(chip).trace + Polls(old(chip).tcrBusy)
        decreases |chip.tcrBusy|, busy
      {
        PollsNext(chip.trace, chip.tcrBusy);
        busy := PollTcr();
      }
    }

    // The counter loses the frames NSR reports done; without a report, or below zero, it waits and is
    // zeroed. Either way, what was polled and when the counter was set is on record.
    method CountDone(nsr: byte)
      requires chip.Ok()
      modifies `chip, `txPktCnt, `counts
      ensures chip == old(chip).(index := chip.index, tcrBusy := chip.tcrBusy, trace := chip.trace)
      ensures txPktCnt == Left(old(txPktCnt), nsr)
      ensures var done := (if Bit(nsr, 0x04) then 1 else 0) + (if Bit(nsr, 0x08) then 1 else 0);
        txPktCnt == if done == 0 || old(txPktCnt) < done then 0 else old(txPktCnt) - done
      ensures
        if Done(nsr) == 0 then
          && chip.trace == old(chip).trace + Polls(old(chip).tcrBusy)
          && counts == old(counts) + [Setting(|chip.trace|, 0)]
        else if old(txPktCnt) < Done(nsr) then
          && chip.trace == old(chip).trace + Polls(old(chip).tcrBusy)
          && counts == old(counts) + [Setting(|old(chip).trace|, old(txPktCnt) - Done(nsr))]
                                   + [Setting(|chip.trace|, 0)]
        else
          && chip.trace == old(chip).trace
          && counts == old(counts) + [Setting(|chip.trace|, old(txPktCnt) - Done(nsr))]
    {
      if Bit(nsr, 0x04) || Bit(nsr, 0x08) {
        var left := txPktCnt;
        if Bit(nsr, 0x04) {
          left := left - 1;
        }
        if Bit(nsr, 0x08) {
          left := left - 1;
        }
        SetTxPktCnt(left);
        if txPktCnt < 0 {
          WaitTcr();
          SetTxPktCnt(0);
        }
      } else {
        WaitTcr();
        SetTxPktCnt(0);
      }
    }

    // The status is read as the transmitter answers it.
    method ReadNsr(a: TxAnswer) returns (nsr: byte)
      requires Valid() && open
      modifies `chip
      ensures Valid() && nsr == a.nsr
      ensures Abs() == Saw(old(Abs()), [NsrRead(a.nsr)])
      ensures chip == old(chip).(index := NSR, nsr := [], tcrBusy := a.polls, trace := chip.trace)
    {
      TxAnswers(a);
      nsr := Ior(NSR);
    }

    // The counter as the status read says.
    method Settle(nsr: byte, a: TxAnswer)
      requires Valid() && open && nsr == a.nsr && chip.tcrBusy == a.polls
      modifies `chip, `txPktCnt, `counts
      ensures Valid()
      ensures Abs() == Settled(old(Abs()), a)
      ensures chip == old(chip).(index := chip.index, tcrBusy := chip.tcrBusy, trace := chip.trace)
    {
      hide Polls, RingHolds, Sound;
      CountDone(nsr);
    }

    method TxDone(a: TxAnswer)
      requires Valid() && open
      modifies `chip, `txPktCnt, `queueStopped, `counts
      ensures Valid()
      ensures Abs() == TxDoneStep(old(Abs()), a)
      ensures chip == old(chip).(index := chip.index, nsr := [], tcrBusy := chip.tcrBusy, trace := chip.trace)
    {
      hide RingHolds, Sound, Settled;
      var nsr := ReadNsr(a);
      Settle(nsr, a);
      queueStopped := false;
    }

    // Reception ------------------------------------------------------------------------------------

    // The header at the read pointer.
    method TakeHeader() returns (status: byte, length: u16)
      requires chip.Ok() && chip.Wraps() && ioMode == Code(chip.mode)
      requires RX_START <= chip.rptr < RX_END && Aligned(chip.rptr, chip.mode)
      modifies `chip
      ensures status == old(chip).sram[RxAdd(old(chip).rptr, 1)]
      ensures length == Join(old(chip).sram[RxAdd(old(chip).rptr, 2)], old(chip).sram[RxAdd(old(chip).rptr, 3)])
      ensures chip == old(chip).(index := MRCMD, rptr := RxAdd(old(chip).rptr, 4))
    {
      OutAddr(MRCMD);
      status, length := ReadHeader();
    }

    // The payload left in the receive ring is dropped.
    method DropPayload(length: u16)
      requires chip.Ok() && chip.Wraps() && chip.index == MRCMD && ioMode == Code(chip.mode)
      requires RX_START <= chip.rptr < RX_END && Aligned(chip.rptr, chip.mode)
      requires Span(length, chip.mode) <= RX_SIZE
      modifies `chip
      ensures chip == old(chip).(rptr := RxAdd(old(chip).rptr, Span(length, old(chip).mode)))
    {
      var accesses := if ioMode == 2 then length else if ioMode == 0 then (length + 1) / 2 else (length + 3) / 4;
      SkipFrame(accesses);
    }

    // The payload is copied into a socket buffer of length + 4 bytes, behind its reserve; all but the last
    // four bytes of the frame are kept. The copy stays inside the buffer but for one byte in 32-bit mode,
    // when the length is one above a multiple of four: that byte is the last the ring pads the payload with.
    method CopyPayload(length: u16, skb: array<byte>) returns (frame: seq<byte>)
      requires chip.Ok() && chip.Wraps() && chip.index == MRCMD && ioMode == Code(chip.mode)
      requires RX_START <= chip.rptr < RX_END && Aligned(chip.rptr, chip.mode)
      requires 4 <= length && Span(length, chip.mode) <= RX_SIZE && length + 5 <= skb.Length
      modifies `chip, skb
      ensures chip == old(chip).(rptr := RxAdd(old(chip.rptr), Span(length, old(chip).mode)))
      ensures |frame| == length - 4 && Holds(chip.sram, old(chip).rptr, frame)
      ensures skb[RESERVED..RESERVED + |frame|] == frame && skb[..RESERVED] == old(skb[..RESERVED])
      ensures
        if chip.mode == DwordMode && length % 4 == 1 then
          && Span(length, chip.mode) == length + 3
          && skb[length + 4] == chip.sram[RxAdd(old(chip).rptr, length + 2)]
          && skb[length + 5..] == old(skb[length + 5..])
        else
          Span(length, chip.mode) <= length + 2 && skb[length + 4..] == old(skb[length + 4..])
    {
      SpanCovers(length, chip.mode);
      SpanPast(length, chip.mode);
      var accesses := if ioMode == 2 then length else if ioMode == 0 then (length + 1) / 2 else (length + 3) / 4;
      ghost var bytes := ReadFrame(accesses, skb);
      SpliceParts(old(skb[..]), bytes, length);
      frame := skb[RESERVED..RESERVED + length - 4];
    }

    method CountErrors(status: byte)
      modifies `stats
      ensures stats == old(stats).(
        rxFifoErrors := old(stats).rxFifoErrors + (if Bit(status, 0x01) then 1 else 0),
        rxCrcErrors := old(stats).rxCrcErrors + (if Bit(status, 0x02) then 1 else 0),
        rxLengthErrors := old(stats).rxLengthErrors + (if Bit(status, 0x80) then 1 else 0))
    {
      if Bit(status, 0x01) {
        stats := stats.(rxFifoErrors := stats.rxFifoErrors + 1);
      }
      if Bit(status, 0x02) {
        stats := stats.(rxCrcErrors := stats.rxCrcErrors + 1);
      }
      if Bit(status, 0x80) {
        stats := stats.(rxLengthErrors := stats.rxLengthErrors + 1);
      }
    }

    // The header of the packet at p was read; its payload was not.
    ghost predicate HeaderTaken(p: nat)
      reads `chip, `ioMode, `pending, `end
    {
      && pending != []
      && chip.Ok() && chip.Wraps() && chip.index == MRCMD && ioMode == Code(chip.mode)
      && RX_START <= p < RX_END && chip.rptr == RxAdd(p, 4)
      && RingHolds(chip.sram, p, chip.mode, pending, end)
    }

    // A packet whose status shows an error is read to its end and dropped.
    method Drop(status: byte, length: u16, ghost p: nat)
      requires HeaderTaken(p) && !pending[0].Good()
      requires status == pending[0].status && length == pending[0].length
      modifies `chip, `stats
      ensures |pending[0].Image()| <= RX_SIZE
      ensures chip == old(chip).(rptr := RxAdd(p, |pending[0].Image()|))
      ensures stats == Account(old(stats), pending[0])
    {
      FirstPacket(chip.sram, p, chip.mode, pending, end);
      CountErrors(status);
      DropPayload(length);
    }

    // A good packet is copied, cut to its frame and passed up.
    method Deliver(length: u16, ghost p: nat)
      requires HeaderTaken(p) && pending[0].Good()
      requires length == pending[0].length
      modifies `chip, `stats, `received, `contRxPktCnt
      ensures |pending[0].Image()| <= RX_SIZE && length - 4 <= |pending[0].payload|
      ensures chip == old(chip).(rptr := RxAdd(p, |pending[0].Image()|))
      ensures received == old(received) + [pending[0].Frame()]
      ensures stats == Account(old(stats), pending[0])
      ensures contRxPktCnt == old(contRxPktCnt) + 1
    {
      hide RingHolds, Holds;
      FirstPacket(chip.sram, p, chip.mode, pending, end);
      SpanCovers(length, chip.mode);
      var skb := new byte[length + 5](_ => 0);
      var frame := CopyPayload(length, skb);
      SameBytes(chip.sram, RxAdd(p, 4), frame, pending[0]);
      received := received + [frame];
      stats := stats.(rxPackets := stats.rxPackets + 1, rxBytes := stats.rxBytes + length);
      contRxPktCnt := contRxPktCnt + 1;
    }

    // The chip is done with the first pending packet.
    method Advance(ghost p: nat)
      requires chip.Ok() && RX_START <= p < RX_END && pending != []
      requires RingHolds(chip.sram, p, chip.mode, pending, end)
      requires |pending[0].Image()| <= RX_SIZE && chip.rptr == RxAdd(p, |pending[0].Image()|)
      modifies `pending, `taken
      ensures pending == old(pending)[1..] && taken == old(taken) + [old(pending)[0]]
      ensures RingHolds(chip.sram, chip.rptr, chip.mode, pending, end)
    {
      FirstPacket(chip.sram, p, chip.mode, pending, end);
      taken := taken + [pending[0]];
      pending := pending[1..];
    }

    // Between the header and the payload of the packet at p the board is otherwise in order.
    ghost predicate MidPacket(p: nat)
      reads this, dev
    {
      && open && HeaderTaken(p)
      && |dev.mcList| <= 0xFFFF
      && chip.wptr < TX_SIZE && Aligned(chip.wptr, chip.mode)
      && Sound(Abs().(rxPos := p))
    }

    method DropPacket(status: byte, length: u16, ghost p: nat)
      requires MidPacket(p) && !pending[0].Good()
      requires status == pending[0].status && length == pending[0].length
      modifies `chip, `stats, `pending, `taken
      ensures Valid()
      ensures Abs() == TakeStep(old(Abs()).(rxPos := p))
      ensures chip == old(chip).(rptr := chip.rptr)
    {
      hide FilterExact, Encode, Holds;
      Drop(status, length, p);
      Advance(p);
    }

    method DeliverPacket(length: u16, ghost p: nat)
      requires MidPacket(p) && pending[0].Good()
      requires length == pending[0].length
      modifies `chip, `stats, `pending, `taken, `received, `contRxPktCnt
      ensures Valid()
      ensures Abs() == TakeStep(old(Abs()).(rxPos := p))
      ensures chip == old(chip).(rptr := chip.rptr)
    {
      hide Encode, Holds;
      Deliver(length, p);
      Advance(p);
    }

    // The packet at p is left for later.
    method PutBack(mdrah: byte, mdral: byte, ghost p: nat)
      requires MidPacket(p) && Join(mdral, mdrah) == p
      modifies `chip
      ensures Valid()
      ensures Abs() == old(Abs()).(rxPos := p)
      ensures chip == old(chip).(index := MDRAL, rptr := p)
    {
      Rewind(mdrah, mdral);
    }

    // The header of the first pending packet.
    method OpenPacket() returns (status: byte, length: u16)
      requires Valid() && open && pending != []
      modifies `chip
      ensures MidPacket(old(chip).rptr)
      ensures status == pending[0].status && length == pending[0].length
      ensures old(chip).Ok() && RX_START <= old(chip).rptr < RX_END
      ensures status == old(chip).sram[RxAdd(old(chip).rptr, 1)]
      ensures chip == old(chip).(index := MRCMD, rptr := chip.rptr)
    {
      FirstPacket(chip.sram, chip.rptr, chip.mode, pending, end);
      status, length := TakeHeader();
    }

    // The first pending packet is dropped, or delivered, or left where it is when no buffer is available.
    method TakePacket(mdrah: byte, mdral: byte, alloc: bool) returns (noMemory: bool, delivered: bool)
      requires Valid() && open && pending != []
      requires Join(mdral, mdrah) == chip.rptr
      modifies `chip, `stats, `received, `contRxPktCnt, `pending, `taken
      ensures Valid()
      ensures noMemory == (old(pending)[0].Good() && !alloc)
      ensures delivered == (old(pending)[0].Good() && alloc)
      // the status byte decides: every bit of it but 0x40 stands for an error
      ensures old(chip).Ok() && RX_START <= old(chip).rptr < RX_END
      ensures var status := old(chip).sram[RxAdd(old(chip).rptr, 1)];
        delivered || noMemory <==>
          && !Bit(status, 0x01) && !Bit(status, 0x02) && !Bit(status, 0x04) && !Bit(status, 0x08)
          && !Bit(status, 0x10) && !Bit(status, 0x20) && !Bit(status, 0x80)
      ensures Abs() == if noMemory then old(Abs()) else TakeStep(old(Abs()))
      ensures chip == old(chip).(index := chip.index, rptr := chip.rptr)
    {
      hide FilterExact, RingHolds, Sound, HeaderTaken, TakeStep, Bit;
      ghost var p := chip.rptr;
      GoodBits(pending[0]);
      var status, length := OpenPacket();
      var goodPacket := status % 0x40 == 0 && status < 0x80;
      if !goodPacket {
        DropPacket(status, length, p);
        return false, false;
      }
      if !alloc {
        PutBack(mdrah, mdral, p);
        return true, false;
      }
      DeliverPacket(length, p);
      return false, true;
    }

    // With the ring in order, the ready byte tells whether a packet is pending.
    method PeekReady() returns (mdrah: byte, mdral: byte, rxbyte: byte)
      requires Valid() && open
      modifies `chip
      ensures Valid() && Abs() == old(Abs())
      ensures Join(mdral, mdrah) == chip.rptr
      ensures rxbyte == if pending == [] then end else 1
      ensures chip == old(chip).(index := MRCMDX)
    {
      hide FilterExact, Holds, Encode, AllWellFormed, Sound;
      FirstOrEnd(chip.sram, chip.rptr, chip.mode, pending, end);
      mdrah, mdral, rxbyte := Peek();
    }

    // The receive loop up to the reason it ends; the chip goes on receiving meanwhile.
    method ReceiveLoop(ticks: seq<RxTick>) returns (outcome: Outcome)
      requires Valid() && open
      modifies `chip, `stats, `received, `contRxPktCnt, `pending, `end, `stored, `taken
      ensures Valid()
      ensures (Abs(), outcome) == Drain(old(Abs()), ticks)
      ensures chip.regs == old(chip).regs
    {
      hide Ready, Sound, Drain, ArrivalStep, TakeStep, FilterCurrent;
      var rest := ticks;
      while true
        invariant Valid()
        invariant Drain(Abs(), rest) == Drain(old(Abs()), ticks)
        invariant chip.regs == old(chip).regs
        decreases |pending| + Arriving(rest)
      {
        DrainRound(Abs(), rest);
        var tick := FirstTick(rest);
        Arrival(tick.arriving);
        rest := LaterTicks(rest);
        var mdrah, mdral, rxbyte := PeekReady();
        if rxbyte == 0 {
          return Drained;
        }
        if rxbyte > 1 {
          return Corrupt;
        }
        var noMemory, delivered := TakePacket(mdrah, mdral, tick.alloc);
        if noMemory {
          return NoMemory;
        }
        if delivered && contRxPktCnt >= CONT_RX_PKT_CNT {
          return Quota;
        }
      }
    }

    method PacketReceive(ticks: seq<RxTick>, reset: LinkAnswer, quota: TxAnswer)
      requires Valid() && open
      modifies this
      ensures Valid()
      ensures Abs() == ReceiveStep(old(Abs()), ticks, reset, quota)
      ensures resetCounter == old(resetCounter) ==> chip.regs == old(chip).regs
    {
      hide FilterCurrent, RingHolds, Sound, Follows, Drain, ResetStep, TxDoneStep, Up;
      contRxPktCnt := 0;
      var outcome := ReceiveLoop(ticks);
      if outcome == Corrupt {
        Reset(reset);
      } else if outcome == Quota {
        TxDone(quota);
      }
    }

    // The interrupt handler --------------------------------------------------------------------------

    method LinkChange(link: LinkAnswer)
      requires Valid() && open
      modifies `chip, `speed, `queueStopped
      ensures Valid()
      ensures Abs() == LinkStep(old(Abs()), link)
      ensures forall r :: 0 <= r < 0x100 && !(EPCR <= r <= EPDRH) ==> chip.regs[r] == old(chip).regs[r]
    {
      hide FilterCurrent, Ready, Sound;
      queueStopped := true;
      FollowLink(link);
      queueStopped := false;
    }

    method FollowLink(link: LinkAnswer)
      requires Valid() && open
      modifies `chip, `speed
      ensures Valid()
      ensures Abs() == old(Abs()).(
        speed := if UpOnSecondRead(link.polls, 500) then SpeedOf(link.control) else old(speed))
      ensures forall r :: 0 <= r < 0x100 && !(EPCR <= r <= EPDRH) ==> chip.regs[r] == old(chip).regs[r]
    {
      hide UpOnSecondRead, FilterExact, RingHolds, Sound;
      LinkAnswers(link);
      LinkAfterInterrupt();
      assert Registers(MAR, 8) == old(Registers(MAR, 8));
    }

    // Interrupts are masked, the status is read and written back, which clears it.
    method Acknowledge(isr: Status) returns (status: byte)
      requires Valid() && open
      modifies `chip
      ensures Valid()
      ensures Abs() == old(Abs()).(imr := IMR_NONE)
      ensures status == 0x40 * Code(chip.mode) + isr
      ensures chip.isr == 0
      ensures chip.regs == old(chip).regs[0xFF := 0x80]
    {
      chip := chip.(isr := isr);
      Iow(IMR, IMR_NONE);
      status := Ior(ISR);
      Iow(ISR, status);
      assert Pow2(6) == 0x40 by { assert Pow2(3) == 8; }
      WithoutSelf(isr, Code(chip.mode), 6);
    }

    method Unmask()
      requires Valid() && open
      modifies `chip
      ensures Valid()
      ensures Abs() == Unmasked(old(Abs()))
      ensures chip.regs == old(chip).regs[IMR := chip.regs[IMR]]
    {
      if contRxPktCnt >= CONT_RX_PKT_CNT {
        Iow(IMR, IMR_NO_RX);
      } else {
        Iow(IMR, IMR_ALL);
      }
    }

    method HandleLink(status: byte, a: IrqAnswer)
      requires Valid() && open && status == 0x40 * Code(chip.mode) + a.isr
      modifies `chip, `speed, `queueStopped
      ensures Valid()
      ensures Abs() == IrqLink(old(Abs()), a)
      ensures chip.regs[TXPLL] == old(chip).regs[TXPLL] && chip.regs[TXPLH] == old(chip).regs[TXPLH]
    {
      StatusBits(a.isr, Code(chip.mode));
      if Bit(status, 0x20) {
        LinkChange(a.link);
      }
    }

    method HandleReceive(status: byte, a: IrqAnswer)
      requires Valid() && open && status == 0x40 * Code(chip.mode) + a.isr
      modifies this
      ensures Valid()
      ensures Abs() == IrqReceive(old(Abs()), a)
      ensures resetCounter == old(resetCounter) ==> chip.regs == old(chip).regs
    {
      StatusBits(a.isr, Code(chip.mode));
      if Bit(status, 0x01) {
        PacketReceive(a.ticks, a.reset, a.quota);
      }
    }

    method HandleTxDone(status: byte, a: IrqAnswer)
      requires Valid() && open && status == 0x40 * Code(chip.mode) + a.isr
      modifies `chip, `txPktCnt, `queueStopped, `counts
      ensures Valid()
      ensures Abs() == IrqTxDone(old(Abs()), a)
      ensures chip.regs == old(chip).regs
    {
      StatusBits(a.isr, Code(chip.mode));
      if Bit(status, 0x02) {
        TxDone(a.tx);
      }
    }

    // The handler between saving and restoring the index.
    method Handle(a: IrqAnswer)
      requires Valid() && open
      modifies this
      ensures Valid()
      ensures Abs() == IrqStep(old(Abs()), a)
      ensures resetCounter == old(resetCounter) ==>
        chip.regs[TXPLL] == old(chip).regs[TXPLL] && chip.regs[TXPLH] == old(chip).regs[TXPLH]
    {
      var status := Acknowledge(a.isr);
      HandleLink(status, a);
      HandleReceive(status, a);
      HandleTxDone(status, a);
      Unmask();
      Note(a);
    }

    // Whether the handler leaves the counter below the limit is kept for the proofs.
    ghost method Note(a: IrqAnswer)
      requires Valid() && open
      modifies `linkOk
      ensures Valid() && Abs() == Noted(old(Abs()), a)
    {
      linkOk := txPktCnt < Limit(Abs()) || (linkOk && !Bit(a.isr, 0x20));
    }

    // dmfe_interrupt: the index port of the interrupted code is put back.
    method Interrupt(a: IrqAnswer)
      requires Valid() && open
      modifies this
      ensures Valid()
      ensures Abs() == IrqStep(old(Abs()), a)
      ensures chip.index == old(chip).index
      ensures resetCounter == old(resetCounter) ==>
        chip.regs[TXPLL] == old(chip).regs[TXPLL] && chip.regs[TXPLH] == old(chip).regs[TXPLH]
    {
      var regSave := InAddr();
      Handle(a);
      OutAddr(regSave);
    }

    // Transmission -----------------------------------------------------------------------------------

    // The interrupts taken between two port accesses of the transmit code.
    method Preempt(irqs: seq<IrqAnswer>)
      requires Valid() && open
      modifies this
      ensures Valid()
      ensures Abs() == Irqs(old(Abs()), irqs)
      ensures chip.index == old(chip).index
      ensures old(resetCounter) <= resetCounter
      ensures resetCounter == old(resetCounter) ==> SameLength(old(chip))
    {
      for i := 0 to |irqs|
        invariant Valid() && open
        invariant Irqs(Abs(), irqs[i..]) == Irqs(old(Abs()), irqs)
        invariant chip.index == old(chip).index
        invariant old(resetCounter) <= resetCounter
        invariant resetCounter == old(resetCounter) ==> SameLength(old(chip))
      {
        Interrupt(irqs[i]);
      }
    }

    // The length registers hold the low 16 bits of `length`.
    ghost predicate LengthIs(length: nat)
      reads `chip
    {
      chip.Ok() && chip.regs[TXPLL] == Low(length) && chip.regs[TXPLH] == High(length)
    }

    // The length registers are as they were.
    ghost predicate SameLength(before: Chip)
      reads `chip
    {
      && chip.Ok() && before.Ok()
      && chip.regs[TXPLL] == before.regs[TXPLL] && chip.regs[TXPLH] == before.regs[TXPLH]
    }

    // One write to the index port, then a gap.
    method OutAddrPreempted(reg: byte, irqs: seq<IrqAnswer>)
      requires Valid() && open
      modifies this
      ensures Valid() && open
      ensures Abs() == Irqs(old(Abs()), irqs)
      ensures chip.index == reg
      ensures old(resetCounter) <= resetCounter
      ensures resetCounter == old(resetCounter) ==> SameLength(old(chip))
    {
      OutAddr(reg);
      Preempt(irqs);
    }

    // One write to a length register, then a gap.
    method OutbPreempted(v: byte, irqs: seq<IrqAnswer>)
      requires Valid() && open
      requires chip.index == TXPLL || chip.index == TXPLH
      modifies this
      ensures Valid() && open
      ensures Abs() == Irqs(Lengthened(old(Abs()), old(chip).index == TXPLL, v), irqs)
      ensures old(resetCounter) <= resetCounter
      ensures resetCounter == old(resetCounter) ==>
        SameLength(old(chip).(regs := old(chip).regs[old(chip).index := v]))
    {
      WriteLength(v);
      Preempt(irqs);
    }

    method WriteLength(v: byte)
      requires Valid() && open && (chip.index == TXPLL || chip.index == TXPLH)
      modifies `chip
      ensures Valid() && Abs() == Lengthened(old(Abs()), chip.index == TXPLL, v)
      ensures chip == old(chip).(regs := old(chip).regs[chip.index := v])
    {
      hide FilterExact, RingHolds, Sound;
      Outb(v);
      assert Registers(MAR, 8) == old(Registers(MAR, 8));
    }

    method IowPreempted(reg: byte, v: byte, gaps: seq<seq<IrqAnswer>>, k: nat)
      requires Valid() && open
      requires reg == TXPLL || reg == TXPLH
      modifies this
      ensures Valid() && open
      ensures Abs() == Gaps(Lengthened(Gaps(old(Abs()), gaps, k, 1), reg == TXPLL, v), gaps, k + 1, 1)
      ensures old(resetCounter) <= resetCounter
      ensures resetCounter == old(resetCounter) ==>
        SameLength(old(chip).(regs := old(chip).regs[reg := v]))
    {
      OutAddrPreempted(reg, Gap(gaps, k));
      OutbPreempted(v, Gap(gaps, k + 1));
    }

    method InbPreempted(irqs: seq<IrqAnswer>) returns (v: byte)
      requires Valid() && open
      requires chip.index == MDWAH || chip.index == MDWAL
      modifies this
      ensures Valid() && open
      ensures Abs() == Irqs(old(Abs()), irqs)
      ensures old(resetCounter) <= resetCounter
      ensures resetCounter == old(resetCounter) ==> SameLength(old(chip))
    {
      hide FilterExact, RingHolds, Sound, Follows, Irqs;
      v := Inb();
      Preempt(irqs);
    }

    method IorPreempted(reg: byte, gaps: seq<seq<IrqAnswer>>, k: nat) returns (v: byte)
      requires Valid() && open
      requires reg == MDWAH || reg == MDWAL
      modifies this
      ensures Valid() && open
      ensures Abs() == Gaps(old(Abs()), gaps, k, 2)
      ensures old(resetCounter) <= resetCounter
      ensures resetCounter == old(resetCounter) ==> SameLength(old(chip))
    {
      OutAddrPreempted(reg, Gap(gaps, k));
      v := InbPreempted(Gap(gaps, k + 1));
    }

    // One data access of a frame, with the value a little-endian memory gives.
    method OutChunk(chunk: seq<byte>)
      requires Valid() && open && chip.index == MWCMD && |chunk| == Width(chip.mode)
      modifies `chip
      ensures Valid()
      ensures Abs() == Put(old(Abs()), chunk)
      ensures chip.index == MWCMD && chip.regs == old(chip).regs
    {
      hide TxFill, Holds, LittleEndian, Store, Aligned, AllWellFormed;
      ghost var before := chip.sram;
      TxAccess(before[..TX_SIZE], chip.wptr, chunk, chip.mode);
      StoreLoad(chunk);
      StoreSlices(before, chip.wptr, chunk);
      Out(|chunk|, LittleEndian(chunk));
      RingUntouched(before, chip.sram, chip.rptr, chip.mode, pending, end);
    }

    method WriteFrame(bytes: seq<byte>, count: nat, gaps: seq<seq<IrqAnswer>>, k: nat)
      requires Valid() && open && chip.index == MWCMD && |bytes| == Times(count, chip.mode)
      modifies this
      ensures Valid() && open
      ensures Abs() == Puts(old(Abs()), bytes, Width(old(chip).mode), gaps, k)
      ensures chip.index == MWCMD
      ensures old(resetCounter) <= resetCounter
      ensures resetCounter == old(resetCounter) ==> SameLength(old(chip))
    {
      hide FilterCurrent, Ready, Sound, Follows, Irqs, Put;
      var width := Width(chip.mode);
      var left := bytes;
      for i := 0 to count
        invariant Valid() && open && chip.mode == old(chip).mode
        invariant chip.index == MWCMD
        invariant |left| == Times(count - i, chip.mode)
        invariant Puts(Abs(), left, width, gaps, k + i) == Puts(old(Abs()), bytes, width, gaps, k)
        invariant old(resetCounter) <= resetCounter
        invariant resetCounter == old(resetCounter) ==> SameLength(old(chip))
      {
        TimesStep(count - i - 1, count - i, chip.mode);
        WriteChunk(left[..width], Gap(gaps, k + i));
        left := left[width..];
      }
    }

    method WriteChunk(chunk: seq<byte>, irqs: seq<IrqAnswer>)
      requires Valid() && open && chip.index == MWCMD && |chunk| == Width(chip.mode)
      modifies this
      ensures Valid() && open && chip.mode == old(chip).mode && chip.index == MWCMD
      ensures Abs() == Irqs(Put(old(Abs()), chunk), irqs)
      ensures old(resetCounter) <= resetCounter
      ensures resetCounter == old(resetCounter) ==> SameLength(old(chip))
    {
      hide FilterCurrent, RingHolds, Sound, Resets, Irqs, Put;
      OutChunk(chunk);
      Preempt(irqs);
    }

    // The port accesses before the frame's data, up to the index left at the memory write command.
    method Prepare(length: nat, gaps: seq<seq<IrqAnswer>>)
      requires Valid() && open
      modifies this
      ensures Valid() && open
      ensures Abs() == Prepared(old(Abs()), length, gaps)
      ensures chip.index == MWCMD
      ensures old(resetCounter) <= resetCounter
      ensures resetCounter == old(resetCounter) ==> LengthIs(length)
    {
      Mask(gaps);
      ReadPointer(gaps);
      SetLength(length, gaps);
      OutAddrPreempted(MWCMD, Gap(gaps, 10));
    }

    method Mask(gaps: seq<seq<IrqAnswer>>)
      requires Valid() && open
      modifies this
      ensures Valid() && open
      ensures Abs() == Masked(old(Abs()), gaps)
      ensures old(resetCounter) <= resetCounter
    {
      OutAddrPreempted(IMR, Gap(gaps, 0));
      WriteImr(IMR_NONE);
      Preempt(Gap(gaps, 1));
    }

    // The write pointer is read, for a check that is compiled out.
    method ReadPointer(gaps: seq<seq<IrqAnswer>>)
      requires Valid() && open
      modifies this
      ensures Valid() && open
      ensures Abs() == TwoRegisters(old(Abs()), gaps, 2)
      ensures old(resetCounter) <= resetCounter
    {
      var _ := IorPreempted(MDWAH, gaps, 2);
      var _ := IorPreempted(MDWAL, gaps, 4);
    }

    method SetLength(length: nat, gaps: seq<seq<IrqAnswer>>)
      requires Valid() && open
      modifies this
      ensures Valid() && open
      ensures Abs() == Measured(old(Abs()), length, gaps)
      ensures old(resetCounter) <= resetCounter
      ensures resetCounter == old(resetCounter) ==> LengthIs(length)
    {
      IowPreempted(TXPLL, Low(length), gaps, 6);
      IowPreempted(TXPLH, High(length), gaps, 8);
    }

    method WriteImr(v: byte)
      requires Valid() && open && chip.index == IMR && v >= 0x80
      modifies `chip
      ensures Valid() && Abs() == old(Abs()).(imr := v)
      ensures chip.regs == old(chip).regs[IMR := v]
    {
      Outb(v);
    }

    method ClearQuota()
      requires Valid() && open
      modifies `contRxPktCnt
      ensures Valid() && Abs() == old(Abs()).(cont := 0)
    {
      contRxPktCnt := 0;
    }

    ghost method Record(frame: Sent)
      requires Valid() && open
      modifies `sent
      ensures Valid() && Abs() == old(Abs()).(sent := old(sent) + [frame])
    {
      sent := sent + [frame];
    }

    // Interrupts are enabled as the last port access.
    method Enable(irqs: seq<IrqAnswer>)
      requires Valid() && open
      modifies this
      ensures Valid() && open
      ensures Abs() == Irqs(old(Abs()), irqs).(imr := IMR_ALL)
      ensures old(resetCounter) <= resetCounter
      ensures resetCounter == old(resetCounter) ==> SameLength(old(chip))
    {
      OutAddrPreempted(IMR, irqs);
      WriteImr(IMR_ALL);
    }

    // The transmit command, and the gaps round it.
    method Start(gaps: seq<seq<IrqAnswer>>, k: nat)
      requires Valid() && open
      modifies this
      ensures Valid() && open
      ensures Abs() == Started(old(Abs()), gaps, k)
      ensures old(resetCounter) <= resetCounter
      ensures resetCounter == old(resetCounter) ==> SameLength(old(chip))
    {
      OutAddrPreempted(TCR, Gap(gaps, k));
      Command();
      Preempt(Gap(gaps, k + 1));
    }

    method Command()
      requires Valid() && open && chip.index == TCR
      modifies `chip
      ensures Valid() && Abs() == Saw(old(Abs()), [StartOf(old(Abs()))])
      ensures chip.regs == old(chip).regs[TCR := 0x1]
    {
      Outb(0x1);
    }

    method StartTransmission(gaps: seq<seq<IrqAnswer>>, k: nat, ghost frame: Sent)
      requires Valid() && open
      modifies this
      ensures Valid() && open
      ensures Abs() == Finished(old(Abs()), gaps, k, frame)
      ensures old(resetCounter) <= resetCounter
      ensures resetCounter == old(resetCounter) ==> SameLength(old(chip))
    {
      Start(gaps, k);
      ClearQuota();
      Enable(Gap(gaps, k + 2));
      Record(frame);
    }

    // The port accesses up to the last of the frame's data.
    method Load(length: nat, bytes: seq<byte>, gaps: seq<seq<IrqAnswer>>)
      requires Valid() && open && |bytes| == Span(length, chip.mode)
      modifies this
      ensures Valid() && open && chip.mode == old(chip).mode
      ensures Abs() == Loaded(old(Abs()), length, bytes, gaps)
      ensures old(resetCounter) <= resetCounter
      ensures resetCounter == old(resetCounter) ==> LengthIs(length)
    {
      Prepare(length, gaps);
      WriteFrame(bytes, Accesses(length, chip.mode), gaps, 11);
    }

    // All port accesses of one frame, `count` of them moving its data.
    method Transmit(length: nat, count: nat, bytes: seq<byte>, ghost frame: Sent, gaps: seq<seq<IrqAnswer>>)
      requires Valid() && open
      requires count == Accesses(length, chip.mode) && |bytes| == Span(length, chip.mode)
      requires frame.bytes == bytes && frame.length == length
      modifies this
      ensures Valid() && open
      ensures Abs() == NetModel.Transmit(old(Abs()), frame, count, gaps)
      ensures resetCounter == old(resetCounter) ==> LengthIs(length)
    {
      hide Finished, Loaded;
      Load(length, bytes, gaps);
      StartTransmission(gaps, 11 + count, frame);
    }

    // dmfe_start_xmit: 1 when the frame is refused, 0 when it was taken.
    method StartXmit(frame: seq<byte>, slack: Slack, gaps: seq<seq<IrqAnswer>>) returns (rc: nat)
      requires Valid() && open
      modifies this
      ensures Valid() && open
      ensures Abs() == XmitStep(old(Abs()), frame, slack, gaps)
      ensures rc == if old(txPktCnt) >= Limit(old(Abs())) then 1 else 0
      ensures rc == 0 && resetCounter == old(resetCounter) ==> LengthIs(|frame|)
    {
      var refused := Admit(|frame|);
      if refused {
        return 1;
      }
      ghost var sent := Taken(Abs(), frame, slack);
      Transmit(|frame|, Accesses(|frame|, chip.mode), Wire(frame, slack, chip.mode), sent, gaps);
      return 0;
    }

    // As many frames are unacknowledged as the chip and its speed allow.
    method LimitReached() returns (full: bool)
      requires chip.Ok()
      ensures full == (txPktCnt >= Limit(Abs()))
    {
      if chipRevision != REVISION_B {
        if speed == 10 {
          full := txPktCnt >= 1;
        } else {
          full := txPktCnt >= 2;
        }
      } else {
        full := txPktCnt >= 2;
      }
    }

    method CountIn(length: nat)
      requires Valid() && open
      modifies `txPktCnt, `stats, `counts
      ensures Valid()
      ensures Abs() == Counted(old(Abs()), old(txPktCnt) + 1).(
        stats := old(stats).(txPackets := old(stats).txPackets + 1, txBytes := old(stats).txBytes + length))
    {
      SetTxPktCnt(txPktCnt + 1);
      stats := stats.(txPackets := stats.txPackets + 1, txBytes := stats.txBytes + length);
    }

    // The frame is counted in unless the limit is reached; the queue stops when it is reached now.
    method Admit(length: nat) returns (refused: bool)
      requires Valid() && open
      modifies `txPktCnt, `stats, `queueStopped, `counts
      ensures Valid()
      ensures refused == (old(txPktCnt) >= Limit(old(Abs())))
      ensures Abs() == if refused then old(Abs()) else Admitted(old(Abs()), length)
    {
      hide FilterCurrent, Ready, Sound;
      refused := LimitReached();
      if refused {
        return;
      }
      CountIn(length);
      var full := LimitReached();
      if full {
        queueStopped := true;
      }
    }

    // Watchdog, timer, open and close ------------------------------------------------------------------

    // The transmitter is polled at most 100 times, until it is idle. The counter is raised once more by the
    // test that ends the loop, so that only an idle poll among the first 99 counts.
    method TransmitterIdle(polls: seq<bool>) returns (idle: bool)
      requires chip.Ok()
      modifies `chip
      ensures chip == old(chip).(
        index := TCR, tcrBusy := chip.tcrBusy, trace := old(chip).trace + PollsWithin(polls, 0, 100))
      ensures idle == !BusyFor(polls, 99)
    {
      hide PollsWithin;
      chip := chip.(tcrBusy := polls);
      ghost var c := chip;
      PollsWithinNothing(polls, 100);
      var i := 0;
      var busy := true;
      while busy
        invariant 0 <= i <= 101
        invariant chip == c.(index := if i == 0 then c.index else TCR,
                             tcrBusy := Later(polls, if i == 101 then 100 else i), trace := chip.trace)
        invariant busy ==> i <= 100 && BusyFor(polls, i)
        invariant chip.trace + (if busy then PollsWithin(polls, i, 100 - i) else [])
               == c.trace + PollsWithin(polls, 0, 100)
        invariant !busy && i <= 100 ==> i > 0 && BusyFor(polls, i - 1) && !Up(polls, i - 1)
        invariant !busy && i == 101 ==> BusyFor(polls, 100)
        decreases 101 - i, busy
      {
        i := i + 1;
        if i <= 100 {
          PollsWithinNext(chip.trace, polls, i - 1, 101 - i);
          busy := PollTcr();
          assert busy == Up(polls, i - 1);
        } else {
          busy := false;
        }
      }
      idle := i < 100;
      assert idle ==> !Up(polls, i - 1) && i - 1 < 99;
    }

    method CountTimeout()
      requires Valid() && open
      modifies `resetTxTimeout, `stats
      ensures Valid()
      ensures Abs() == TimedOut(old(Abs()))
    {
      resetTxTimeout := resetTxTimeout + 1;
      stats := stats.(txErrors := stats.txErrors + 1);
    }

    method PollIdle(polls: seq<bool>) returns (idle: bool)
      requires Valid() && open
      modifies `chip
      ensures Valid()
      ensures Abs() == Saw(old(Abs()), PollsWithin(polls, 0, 100))
      ensures idle == !BusyFor(polls, 99)
    {
      hide PollsWithin;
      idle := TransmitterIdle(polls);
    }

    // The counter is zeroed and the queue runs again.
    method GiveUp()
      requires Valid() && open
      modifies `txPktCnt, `queueStopped, `counts, `linkOk
      ensures Valid() && Abs() == Counted(old(Abs()), 0).(stopped := false, linkOk := true)
    {
      SetTxPktCnt(0);
      queueStopped, linkOk := false, true;
    }

    // dmfe_timeout: the chip is reset exactly when the first 99 polls all see the transmitter busy.
    method Timeout(polls: seq<bool>, link: LinkAnswer)
      requires Valid() && open
      modifies this
      ensures Valid()
      ensures Abs() == WatchdogStep(old(Abs()), polls, link)
      ensures resetCounter == old(resetCounter) + (if BusyFor(polls, 99) then 1 else 0)
      ensures txPktCnt == 0 && !queueStopped && resetTxTimeout == old(resetTxTimeout) + 1
    {
      hide PollsWithin, BusyFor;
      CountTimeout();
      var idle := PollIdle(polls);
      if idle {
        GiveUp();
      } else {
        Reset(link);
      }
    }

    method Timer()
      requires Valid() && open && timerArmed
      modifies this
      ensures Valid() && Abs() == TickStep(old(Abs()))
      ensures timerArmed && contRxPktCnt == (if old(contRxPktCnt) >= 0xFFFF then 0 else old(contRxPktCnt))
      ensures chip.regs[0xFF] == if old(contRxPktCnt) >= 0xFFFF then 0xA3 else old(chip).regs[0xFF]
    {
      hide FilterExact, RingHolds, Sound;
      timerArmed := false;
      if contRxPktCnt >= CONT_RX_PKT_CNT {
        contRxPktCnt := 0;
        Iow(IMR, IMR_ALL);
      }
      timerArmed := true;
    }

    // The link and its speed, polled at most 3000 times.
    method LinkAtOpen()
      requires chip.Ok()
      modifies `chip, `speed
      ensures chip == old(chip).(
        index := NSR, nsr := chip.nsr, trace := old(chip).trace + OpenReads(old(chip).nsr, 0, 3000))
      ensures speed == OpenSpeed(old(chip).nsr, 0, 3000)
    {
      hide OpenReads;
      ghost var tape := chip.nsr;
      OpenReadsNothing(tape, 3000);
      speed := 10;
      var i := 0;
      while i < 3000
        invariant 0 <= i <= 3000
        invariant chip == old(chip).(index := chip.index, nsr := Later(tape, i), trace := chip.trace)
        invariant chip.trace + OpenReads(tape, i, 3000 - i) == old(chip).trace + OpenReads(tape, 0, 3000)
        invariant i > 0 ==> chip.index == NSR
        invariant OpenSpeed(tape, 0, 3000) == OpenSpeed(tape, i, 3000 - i)
        invariant speed == 10
      {
        OpenReadsNext(chip.trace, tape, i, 3000 - i);
        var nsr := Ior(NSR);
        if Bit(nsr, 0x40) {
          nsr := Ior(NSR);
          speed := if Bit(nsr, 0x80) then 10 else 100;
          return;
        }
        i := i + 1;
      }
    }

    // The chip is initialised and its link looked at.
    method BringUp(nsr: seq<byte>)
      requires Valid() && !open
      modifies this
      ensures Valid() && Ready() && !open
      ensures Abs() == Saw(Initialised(old(Abs())), OpenReads(nsr, 0, 3000)).(
        resets := 0, timeouts := 0, cont := 0, speed := OpenSpeed(nsr, 0, 3000))
      ensures FilterCurrent()
    {
      hide RingHolds, FilterCurrent, Sound, Programmed, OpenReads, OpenSpeed, Initialised;
      NsrAnswers(nsr);
      InitDm9000();
      ClearVariables();
      FindLink();
    }

    method NsrAnswers(nsr: seq<byte>)
      requires chip.Ok()
      modifies `chip
      ensures chip.Ok() && Abs() == old(Abs())
      ensures chip == old(chip).(nsr := nsr)
    {
      chip := chip.(nsr := nsr);
    }

    method FindLink()
      requires Ready()
      modifies `chip, `speed
      ensures Ready()
      ensures Abs() == Saw(old(Abs()), OpenReads(old(chip).nsr, 0, 3000)).(speed := OpenSpeed(old(chip).nsr, 0, 3000))
    {
      hide RingHolds, Sound, FilterExact, OpenReads, OpenSpeed;
      LinkAtOpen();
    }

    method ClearVariables()
      requires chip.Ok()
      modifies `resetCounter, `resetTxTimeout, `contRxPktCnt
      ensures Abs() == old(Abs()).(resets := 0, timeouts := 0, cont := 0)
    {
      hide Sound;
      resetCounter, resetTxTimeout, contRxPktCnt := 0, 0, 0;
    }

    // dmfe_open: true when the interface is up.
    method Open(irqOk: bool, nsr: seq<byte>) returns (ok: bool)
      requires Valid() && !open
      modifies this
      ensures Valid() && ok == irqOk
      ensures Abs() == OpenStep(old(Abs()), irqOk, nsr)
      ensures ok ==> FilterCurrent()
    {
      hide Ready, Sound, FilterCurrent, OpenReads, OpenSpeed, Initialised;
      if !irqOk {
        return false;
      }
      BringUp(nsr);
      StartQueue();
      return true;
    }

    // The timer armed and the queue started.
    method StartQueue()
      requires chip.Ok() && Ready() && !open && |dev.mcList| <= 0xFFFF
      modifies `timerArmed, `queueStopped, `open
      ensures Valid() && Abs() == old(Abs()).(timer := true, stopped := false, open := true)
    {
      hide Ready, FilterCurrent, Sound;
      timerArmed, queueStopped, open := true, false, true;
    }

    // PHY reset, interrupts and reception off.
    method ShutDown()
      requires Valid() && !open
      modifies `chip
      ensures Valid() && Abs() == old(Abs()).(imr := IMR_NONE)
      ensures chip.regs[IMR] == IMR_NONE && chip.regs[RXCR] == 0 && chip.phy == old(chip).phy[0 := 0x8000]
    {
      PhyWrite(0, 0x8000);
      Iow(IMR, IMR_NONE);
      Iow(RXCR, 0x00);
      assert Registers(MAR, 8) == old(Registers(MAR, 8));
    }

    // Timer and queue stopped, the interrupt line given back.
    method LetGo()
      requires Valid() && open
      modifies `timerArmed, `queueStopped, `open
      ensures Valid() && Abs() == old(Abs()).(timer := false, stopped := true, open := false)
    {
      hide Sound;
      timerArmed, queueStopped, open := false, true, false;
    }

    // dmfe_stop
    method Stop()
      requires Valid() && open
      modifies this
      ensures Valid() && !open
      ensures Abs() == CloseStep(old(Abs())) && !timerArmed && queueStopped
      ensures chip.regs[0xFF] == 0x80 && chip.regs[0x05] == 0 && chip.phy == old(chip).phy[0 := 0x8000]
    {
      LetGo();
      ShutDown();
    }

    // set_multicast_list while the interface runs
    method SetMulticastList()
      requires Valid()
      modifies `chip
      ensures Valid() && Abs() == old(Abs()).(filter := true)
      ensures Filtered(old(chip))
    {
      HashTable();
    }

    // Events ---------------------------------------------------------------------------------------------

    // The stack's list changes, and the driver is told.
    method Relist(listing: Listing)
      requires Valid()
      modifies `chip, dev
      ensures Valid() && Abs() == old(Abs()).(filter := true)
      ensures dev.Wants() == listing && Filtered(old(chip))
    {
      dev.Want(listing);
      SetMulticastList();
    }

    method Handover(e: Event)
      requires Valid() && Enabled(Abs(), e)
      modifies this, dev
      ensures Valid() && Abs() == Step(old(Abs()), e)
      ensures dev.Wants() == if e.Filter? then e.listing else old(dev.Wants())
    {
      match e
      case Open(irqOk, nsr) => var ok := Open(irqOk, nsr);
      case Close => Stop();
      case Xmit(frame, slack, gaps) => var rc := StartXmit(frame, slack, gaps);
      case Irq(answer) => Interrupt(answer);
      case Watchdog(polls, link) => Timeout(polls, link);
      case Tick => Timer();
      case Filter(listing) => Relist(listing);
      case Arrival(packets) => Arrival(packets);
      case Corruption(end) => Corruption(end);
    }

    // The events that can happen, one after the other; the others are passed over.
    method Run(events: seq<Event>) returns (happened: seq<Event>)
      requires Valid()
      modifies this, dev
      ensures Valid() && Reaches(old(Abs()), happened, Abs())
      ensures happened == Feasible(old(Abs()), events) && forall e <- happened :: e in events
      ensures dev.Wants() == Wanted(events, old(dev.Wants()))
    {
      hide Abs, Step, Reaches, Feasible;
      happened := [];
      StaysThere(Abs());
      assert events[0..] == events && [] + Feasible(Abs(), events) == Feasible(Abs(), events);
      for i := 0 to |events|
        invariant Valid() && Reaches(old(Abs()), happened, Abs())
        invariant forall e <- happened :: e in events
        invariant happened + Feasible(Abs(), events[i..]) == Feasible(old(Abs()), events)
        invariant dev.Wants() == Wanted(events[..i], old(dev.Wants()))
      {
        var e := events[i];
        FeasibleNext(Abs(), happened, events, i);
        assert events[..i + 1][..i] == events[..i];
        var enabled := Accepts(e);
        if enabled {
          ReachesOneMore(old(Abs()), happened, Abs(), e);
          Handover(e);
          happened := happened + [e];
        }
      }
      assert events[..|events|] == events && events[|events|..] == [];
      NothingFeasible(Abs());
      assert happened + [] == happened;
    }

    method Accepts(e: Event) returns (enabled: bool)
      requires Valid()
      ensures enabled == Enabled(Abs(), e)
    {
      match e
      case Open(_, _) => enabled := !open;
      case Tick => enabled := open && timerArmed;
      case Filter(_) => enabled := true;
      case _ => enabled := open;
    }
  }

  // Where bytes stored behind the reserve are, and what is behind them.
  lemma SpliceParts(mem: seq<byte>, bytes: seq<byte>, length: nat)
    requires 4 <= length <= |bytes| <= length + 3 && length + 5 <= |mem|
    ensures var after := Splice(mem, RESERVED, bytes);
      && after[RESERVED..RESERVED + length - 4] == bytes[..length - 4] && after[..RESERVED] == mem[..RESERVED]
      && (|bytes| == length + 3 ==> after[length + 4] == bytes[length + 2] && after[length + 5..] == mem[length + 5..])
      && (|bytes| <= length + 2 ==> after[length + 4..] == mem[length + 4..])
  {
  }

  // The bytes read are the frame of the packet held there.
  lemma SameBytes(sram: seq<byte>, p: nat, frame: seq<byte>, packet: Packet)
    requires |sram| == RX_END && RX_START <= p < RX_END
    requires Holds(sram, p, frame) && Holds(sram, p, packet.payload)
    requires 4 <= packet.length && |frame| == packet.length - 4 <= |packet.payload|
    ensures frame == packet.Frame()
  {
    forall k | 0 <= k < |frame|
      ensures frame[k] == packet.payload[k]
    {
      assert sram[RxAdd(p, k)] == frame[k];
    }
  }
}
